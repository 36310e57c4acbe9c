/** Decimal digits as text and as numbers. */
module Numerals {

  predicate IsDigit(c: char) {
    '0' <= c <= '9'
  }

  predicate AllDigits(text: string) {
    forall c <- text :: IsDigit(c)
  }

  /** `n` in exactly `width` digits; digits beyond the width are dropped, as `%y` drops the century. */
  function Digits(n: nat, width: nat): string {
    if width == 0 then "" else Digits(n / 10, width - 1) + [(48 + n % 10) as char]
  }

  function Value(text: string): nat
    requires AllDigits(text)
  {
    if text == "" then 0
    else
      assert text[|text| - 1] in text;
      Value(text[..|text| - 1]) * 10 + (text[|text| - 1] as int - 48)
  }

  function Power10(n: nat): nat {
    if n == 0 then 1 else 10 * Power10(n - 1)
  }

  lemma {:induction false} DigitsFacts(n: nat, width: nat)
    ensures |Digits(n, width)| == width && AllDigits(Digits(n, width))
  {
    if width > 0 { DigitsFacts(n / 10, width - 1); }
  }

  lemma {:induction false} ValueOfDigits(n: nat, width: nat)
    requires n < Power10(width)
    ensures AllDigits(Digits(n, width)) && Value(Digits(n, width)) == n
  {
    DigitsFacts(n, width);
    if width > 0 {
      ValueOfDigits(n / 10, width - 1);
      assert Digits(n, width)[..width - 1] == Digits(n / 10, width - 1) by { DigitsFacts(n / 10, width - 1); }
    }
  }

  lemma {:induction false} DigitsOfValue(text: string)
    requires AllDigits(text)
    ensures Digits(Value(text), |text|) == text && Value(text) < Power10(|text|)
  {
    if text != "" {
      var h, last := text[..|text| - 1], text[|text| - 1];
      assert last in text && text == h + [last];
      DigitsOfValue(h);
      assert Value(text) / 10 == Value(h) && Value(text) % 10 == last as int - 48;
    }
  }

  lemma PowersOfTen()
    ensures Power10(2) == 100 && Power10(8) == 100_000_000
  {
    assert Power10(1) == 10 && Power10(3) == 1_000 && Power10(4) == 10_000;
    assert Power10(5) == 100_000 && Power10(6) == 1_000_000 && Power10(7) == 10_000_000;
  }

  lemma TwoDigits(s: string)
    requires |s| == 2 && AllDigits(s)
    ensures Value(s) == 10 * (s[0] as int - 48) + (s[1] as int - 48)
  {
    assert s[..1][..0] == "" && Value(s[..1]) == s[0] as int - 48;
  }

  lemma FourDigits(s: string)
    requires |s| == 4 && AllDigits(s)
    ensures Value(s) ==
      1000 * (s[0] as int - 48) + 100 * (s[1] as int - 48) + 10 * (s[2] as int - 48) + (s[3] as int - 48)
  {
    assert s[..3][..2] == s[..2];
    TwoDigits(s[..2]);
  }

  lemma EightDigits(s: string)
    requires |s| == 8 && AllDigits(s)
    ensures AllDigits(s[..4]) && AllDigits(s[4..]) && Value(s) == 10_000 * Value(s[..4]) + Value(s[4..])
  {
    var a, b := s[..4], s[4..];
    forall c | c in a || c in b ensures IsDigit(c) { assert c in s; }
    FourDigits(b);
    assert s[..7][..6] == s[..6] && s[..6][..5] == s[..5] && s[..5][..4] == a;
    forall k | 4 <= k < 8 ensures s[k] == b[k - 4] && IsDigit(s[k]) { assert s[k] in s; }
    assert Value(s[..5]) == Value(a) * 10 + (b[0] as int - 48);
    assert Value(s[..6]) == Value(s[..5]) * 10 + (b[1] as int - 48);
    assert Value(s[..7]) == Value(s[..6]) * 10 + (b[2] as int - 48);
  }
}
