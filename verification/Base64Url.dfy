/** Unpadded base64url, as cursors are written and read (artifact_store/index.py:237-248; section 5 of RFC 4648). */
module Base64Url {
  import opened Results

  type Byte = x: int | 0 <= x < 256

  /** The URL-safe alphabet: A-Z, a-z, 0-9, '-' and '_'. */
  function Letter(v: int): char
    requires 0 <= v < 64
  {
    if v < 26 then (65 + v) as char
    else if v < 52 then (97 + v - 26) as char
    else if v < 62 then (48 + v - 52) as char
    else if v == 62 then '-'
    else '_'
  }

  function Value(c: char): Option<int> {
    if 'A' <= c <= 'Z' then Some(c as int - 65)
    else if 'a' <= c <= 'z' then Some(c as int - 97 + 26)
    else if '0' <= c <= '9' then Some(c as int - 48 + 52)
    else if c == '-' then Some(62)
    else if c == '_' then Some(63)
    else None
  }

  predicate InAlphabet(text: string) {
    forall c <- text :: Value(c).Some?
  }

  lemma ValueRange(c: char)
    requires Value(c).Some?
    ensures 0 <= Value(c).value < 64 && c != '='
  {
  }

  // ----------------------------------------------------------------- encoding

  /** One group of three bytes becomes four letters; a short last group is padded with '='. */
  function Group(a: Byte, b: Byte, c: Byte): string {
    [Letter(a / 4), Letter(a % 4 * 16 + b / 16), Letter(b % 16 * 4 + c / 64), Letter(c % 64)]
  }

  /** The letters of a last group of fewer than three bytes. */
  function Tail(bytes: seq<Byte>): string
    requires |bytes| < 3
  {
    match |bytes| case 0 => "" case 1 => Group(bytes[0], 0, 0)[..2] case _ => Group(bytes[0], bytes[1], 0)[..3]
  }

  function EncodePadded(bytes: seq<Byte>): string {
    if |bytes| < 3 then Tail(bytes) + Padding(|Tail(bytes)|)
    else Group(bytes[0], bytes[1], bytes[2]) + EncodePadded(bytes[3..])
  }

  function Padding(n: nat): string {
    match n % 4 case 0 => "" case 1 => "===" case 2 => "==" case _ => "="
  }

  function StripRight(text: string): string {
    if text != "" && text[|text| - 1] == '=' then StripRight(text[..|text| - 1]) else text
  }

  function Encode(bytes: seq<Byte>): string {
    StripRight(EncodePadded(bytes))
  }

  // ----------------------------------------------------------------- decoding

  function Ungroup(u: int, v: int, w: int, x: int): seq<Byte>
    requires 0 <= u < 64 && 0 <= v < 64 && 0 <= w < 64 && 0 <= x < 64
  {
    [u * 4 + v / 16, v % 16 * 16 + w / 4, w % 4 * 64 + x]
  }

  /** The decoder reads whole groups and accepts one or two padding characters at the very end; bits beyond the last
      byte are dropped. */
  function DecodePadded(text: string): Option<seq<Byte>> {
    if |text| == 0 then Some([])
    else if |text| < 4 then None
    else
      match (Value(text[0]), Value(text[1]))
      case (Some(u), Some(v)) =>
        ValueRange(text[0]); ValueRange(text[1]);
        if text[2..] == "==" then Some(Ungroup(u, v, 0, 0)[..1])
        else
          (match Value(text[2])
          case None => None
          case Some(w) =>
            ValueRange(text[2]);
            if text[3..] == "=" then Some(Ungroup(u, v, w, 0)[..2])
            else
              (match (Value(text[3]), DecodePadded(text[4..]))
              case (Some(x), Some(rest)) =>
                ValueRange(text[3]);
                Some(Ungroup(u, v, w, x) + rest)
              case _ => None))
      case _ => None
  }

  function Decode(text: string): Option<seq<Byte>> {
    DecodePadded(text + Padding(|text|))
  }

  // ----------------------------------------------------------------- the round trip

  /** Regrouping six bits at a time loses nothing. */
  lemma GroupRoundTrip(a: Byte, b: Byte, c: Byte)
    ensures Ungroup(a / 4, a % 4 * 16 + b / 16, b % 16 * 4 + c / 64, c % 64) == [a, b, c]
  {
  }

  lemma GroupLetters(a: Byte, b: Byte, c: Byte)
    ensures var g := Group(a, b, c); |g| == 4 && InAlphabet(g) && g[2] != '=' && g[3] != '='
    ensures var g := Group(a, b, c); Value(g[0]) == Some(a / 4) && Value(g[1]) == Some(a % 4 * 16 + b / 16)
    ensures var g := Group(a, b, c); Value(g[2]) == Some(b % 16 * 4 + c / 64) && Value(g[3]) == Some(c % 64)
  {
  }

  /** Four letters of the alphabet decode as one group. */
  lemma DecodeLetters(g: string, rest: string)
    requires |g| == 4 && InAlphabet(g) && DecodePadded(rest).Some?
    ensures forall i :: 0 <= i < 4 ==> Value(g[i]).Some? && 0 <= Value(g[i]).value < 64
    ensures DecodePadded(g + rest) == Some(Ungroup(Value(g[0]).value, Value(g[1]).value, Value(g[2]).value,
                                                   Value(g[3]).value) + DecodePadded(rest).value)
  {
    var text := g + rest;
    forall i | 0 <= i < 4 ensures Value(g[i]).Some? && 0 <= Value(g[i]).value < 64 && text[i] == g[i] && g[i] != '=' {
      assert g[i] in g;
      ValueRange(g[i]);
    }
    assert text[4..] == rest;
    assert text[2..][0] != '=' && text[3..][0] != '=';
  }

  lemma DecodeWhole(a: Byte, b: Byte, c: Byte, rest: string)
    requires DecodePadded(rest).Some?
    ensures DecodePadded(Group(a, b, c) + rest) == Some([a, b, c] + DecodePadded(rest).value)
  {
    GroupLetters(a, b, c);
    GroupRoundTrip(a, b, c);
    DecodeLetters(Group(a, b, c), rest);
  }

  lemma DecodeTwo(a: Byte, b: Byte)
    ensures DecodePadded(Tail([a, b]) + "=") == Some([a, b])
  {
    var text := Group(a, b, 0)[..3] + "=";
    GroupLetters(a, b, 0);
    GroupRoundTrip(a, b, 0);
    assert text[2..][0] != '=' && text[3..] == "=";
    assert [a, b, 0][..2] == [a, b];
  }

  lemma DecodeOne(a: Byte)
    ensures DecodePadded(Tail([a]) + "==") == Some([a])
  {
    var text := Group(a, 0, 0)[..2] + "==";
    GroupLetters(a, 0, 0);
    GroupRoundTrip(a, 0, 0);
    assert text[2..] == "==";
    assert [a, 0, 0][..1] == [a];
  }

  lemma DecodeTail(bytes: seq<Byte>)
    requires |bytes| < 3
    ensures DecodePadded(Tail(bytes) + Padding(|Tail(bytes)|)) == Some(bytes)
  {
    if |bytes| == 1 {
      DecodeOne(bytes[0]);
      assert bytes == [bytes[0]];
    } else if |bytes| == 2 {
      DecodeTwo(bytes[0], bytes[1]);
      assert bytes == [bytes[0], bytes[1]];
    }
  }

  lemma {:induction false} DecodeEncodePadded(bytes: seq<Byte>)
    ensures DecodePadded(EncodePadded(bytes)) == Some(bytes)
  {
    if |bytes| < 3 {
      DecodeTail(bytes);
    } else {
      DecodeEncodePadded(bytes[3..]);
      DecodeWhole(bytes[0], bytes[1], bytes[2], EncodePadded(bytes[3..]));
      assert bytes == [bytes[0], bytes[1], bytes[2]] + bytes[3..];
    }
  }

  /** The text that remains when the padding is stripped. */
  function Body(bytes: seq<Byte>): string {
    if |bytes| < 3 then Tail(bytes) else Group(bytes[0], bytes[1], bytes[2]) + Body(bytes[3..])
  }

  lemma {:induction false} BodyLength(bytes: seq<Byte>)
    ensures |Body(bytes)| == (4 * |bytes| + 2) / 3
  {
    if |bytes| > 2 { BodyLength(bytes[3..]); }
  }

  lemma TailInAlphabet(bytes: seq<Byte>)
    requires |bytes| < 3
    ensures InAlphabet(Tail(bytes))
  {
    if |bytes| > 0 { GroupLetters(bytes[0], if |bytes| > 1 then bytes[1] else 0, 0); }
  }

  lemma {:induction false} BodyInAlphabet(bytes: seq<Byte>)
    ensures InAlphabet(Body(bytes))
  {
    if |bytes| < 3 {
      TailInAlphabet(bytes);
    } else {
      GroupLetters(bytes[0], bytes[1], bytes[2]);
      BodyInAlphabet(bytes[3..]);
    }
  }

  lemma PaddingPeriod(n: nat)
    ensures Padding(4 + n) == Padding(n)
  {
  }

  lemma {:induction false} BodyIsUnpadded(bytes: seq<Byte>)
    ensures EncodePadded(bytes) == Body(bytes) + Padding(|Body(bytes)|)
  {
    if |bytes| >= 3 {
      var group, rest := Group(bytes[0], bytes[1], bytes[2]), Body(bytes[3..]);
      BodyIsUnpadded(bytes[3..]);
      PaddingPeriod(|rest|);
      assert group + (rest + Padding(|rest|)) == (group + rest) + Padding(|rest|);
    }
  }

  lemma Unpadded(body: string)
    requires InAlphabet(body)
    ensures StripRight(body) == body
  {
    if body != "" { ValueRange(body[|body| - 1]); }
  }

  lemma StripPadding(body: string)
    requires InAlphabet(body) && |body| % 4 != 1
    ensures StripRight(body + Padding(|body|)) == body
  {
    Unpadded(body);
    var m := |body| % 4;
    if m == 0 {
      assert body + "" == body;
    } else {
      if m == 2 {
        assert body + "==" == body + "=" + "=";
      }
    }
  }

  lemma LengthIsNotOneOver(n: nat)
    ensures (4 * n + 2) / 3 % 4 != 1
  {
    var q, r := n / 3, n % 3;
    assert n == 3 * q + r && (4 * n + 2) / 3 == 4 * q + (4 * r + 2) / 3;
  }

  lemma EncodedBody(bytes: seq<Byte>)
    ensures Encode(bytes) == Body(bytes) && EncodePadded(bytes) == Body(bytes) + Padding(|Body(bytes)|)
  {
    BodyInAlphabet(bytes);
    BodyLength(bytes);
    LengthIsNotOneOver(|bytes|);
    BodyIsUnpadded(bytes);
    StripPadding(Body(bytes));
  }

  /** Encoding without padding and decoding with the padding restored returns the bytes; the text has ceil(4n/3)
      characters, all in the URL-safe alphabet. */
  lemma RoundTrip(bytes: seq<Byte>)
    ensures Decode(Encode(bytes)) == Some(bytes)
    ensures |Encode(bytes)| == (4 * |bytes| + 2) / 3 && InAlphabet(Encode(bytes))
  {
    EncodedBody(bytes);
    BodyInAlphabet(bytes);
    BodyLength(bytes);
    DecodeEncodePadded(bytes);
  }

  // ----------------------------------------------------------------- what the letters are

  /** Table 2 of RFC 4648: capitals, small letters and digits in order, then '-' and '_'; and their values. */
  lemma Alphabet(v: int, c: char)
    requires 0 <= v < 64
    ensures Value(c) == Some(v) <==> c == Letter(v)
    ensures v <= 25 ==> Letter(v) as int == 'A' as int + v
    ensures 26 <= v <= 51 ==> Letter(v) as int == 'a' as int + (v - 26)
    ensures 52 <= v <= 61 ==> Letter(v) as int == '0' as int + (v - 52)
    ensures v == 62 ==> Letter(v) == '-'
    ensures v == 63 ==> Letter(v) == '_'
  {
  }

  /** The byte at `i`, or zero past the end. */
  function ByteAt(bytes: seq<Byte>, i: nat): int {
    if i < |bytes| then bytes[i] else 0
  }

  /** The k-th six bits of the bytes read as one number, 24 bits at a time. */
  function SixBits(bytes: seq<Byte>, k: nat): int {
    var g := k / 4 * 3;
    var n := ByteAt(bytes, g) * 65536 + ByteAt(bytes, g + 1) * 256 + ByteAt(bytes, g + 2);
    match k % 4 case 0 => n / 262144 % 64 case 1 => n / 4096 % 64 case 2 => n / 64 % 64 case _ => n % 64
  }

  lemma SameBits(bytes: seq<Byte>, k: nat)
    requires k >= 4 && |bytes| >= 3
    ensures SixBits(bytes[3..], k - 4) == SixBits(bytes, k)
  {
    assert (k - 4) % 4 == k % 4 && (k - 4) / 4 * 3 + 3 == k / 4 * 3;
  }

  /** Four six-bit numbers are the digits of their number to base 64. */
  lemma Digits(p: int, q: int, r: int, s: int)
    requires 0 <= p < 64 && 0 <= q < 64 && 0 <= r < 64 && 0 <= s < 64
    ensures var n := p * 262144 + q * 4096 + r * 64 + s;
      n / 262144 % 64 == p && n / 4096 % 64 == q && n / 64 % 64 == r && n % 64 == s
  {
    var n := p * 262144 + q * 4096 + r * 64 + s;
    assert n / 262144 == p && n / 4096 == p * 64 + q && n / 64 == p * 4096 + q * 64 + r;
  }

  lemma GroupIsSixBits(a: Byte, b: Byte, c: Byte)
    ensures var n := a * 65536 + b * 256 + c;
      && n / 262144 % 64 == a / 4 && n / 4096 % 64 == a % 4 * 16 + b / 16
      && n / 64 % 64 == b % 16 * 4 + c / 64 && n % 64 == c % 64
  {
    var p, q, r, s := a / 4, a % 4 * 16 + b / 16, b % 16 * 4 + c / 64, c % 64;
    assert a == 4 * p + a % 4 && b == 16 * (b / 16) + b % 16 && c == 64 * (c / 64) + s;
    assert a * 65536 + b * 256 + c == p * 262144 + q * 4096 + r * 64 + s;
    Digits(p, q, r, s);
  }

  lemma BodyStart(bytes: seq<Byte>, k: nat)
    requires k < 4 && k < |Body(bytes)|
    ensures Body(bytes)[k] == Group(ByteAt(bytes, 0), ByteAt(bytes, 1), ByteAt(bytes, 2))[k]
  {
  }

  /** The first four six-bit numbers. */
  lemma FirstBits(bytes: seq<Byte>)
    ensures var a, b, c := ByteAt(bytes, 0), ByteAt(bytes, 1), ByteAt(bytes, 2);
      && SixBits(bytes, 0) == a / 4 && SixBits(bytes, 1) == a % 4 * 16 + b / 16
      && SixBits(bytes, 2) == b % 16 * 4 + c / 64 && SixBits(bytes, 3) == c % 64
  {
    GroupIsSixBits(ByteAt(bytes, 0), ByteAt(bytes, 1), ByteAt(bytes, 2));
  }

  lemma FirstGroup(bytes: seq<Byte>, k: nat)
    requires k < 4 && k < |Body(bytes)|
    ensures 0 <= SixBits(bytes, k) < 64 && Body(bytes)[k] == Letter(SixBits(bytes, k))
  {
    BodyStart(bytes, k);
    FirstBits(bytes);
    assert k in {0, 1, 2, 3};
  }

  lemma {:induction false} BodyAt(bytes: seq<Byte>, k: nat)
    requires k < |Body(bytes)|
    ensures 0 <= SixBits(bytes, k) < 64 && Body(bytes)[k] == Letter(SixBits(bytes, k))
  {
    if k < 4 {
      FirstGroup(bytes, k);
    } else {
      BodyAt(bytes[3..], k - 4);
      SameBits(bytes, k);
    }
  }

  /** The k-th letter stands for the k-th six bits. */
  lemma LetterAt(bytes: seq<Byte>, k: nat)
    requires k < |Encode(bytes)|
    ensures Value(Encode(bytes)[k]) == Some(SixBits(bytes, k))
  {
    EncodedBody(bytes);
    BodyAt(bytes, k);
    Alphabet(SixBits(bytes, k), Encode(bytes)[k]);
  }

  /** Of the texts in the alphabet exactly those decode that have the length of an encoded text. */
  lemma {:induction false} DecodesByLength(text: string)
    requires InAlphabet(text)
    ensures Decode(text).Some? <==> |text| % 4 != 1
    ensures Decode(text).Some? ==> |Decode(text).value| == 3 * |text| / 4
    decreases |text|
  {
    var padded := text + Padding(|text|);
    forall i | 0 <= i < |text| ensures Value(padded[i]).Some? && padded[i] != '=' {
      assert text[i] in text;
      ValueRange(text[i]);
    }
    if |text| >= 4 {
      var rest := text[4..];
      forall c | c in rest ensures Value(c).Some? { assert c in text; }
      PaddingPeriod(|rest|);
      assert padded[4..] == rest + Padding(|rest|);
      assert padded[2..][0] != '=' && padded[3..][0] != '=';
      DecodesByLength(rest);
    } else if |text| == 1 {
      assert padded[1] == '=';
    } else if |text| == 2 {
      assert padded[2..] == "==";
    } else if |text| == 3 {
      assert padded[2..][0] != '=' && padded[3..] == "=";
    }
  }
}
