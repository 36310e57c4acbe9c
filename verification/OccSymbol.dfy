/** OCC-style option symbols (options_data/identity.py): the parser and the printer undo each other. */
module OccSymbol {
  import opened Results
  import opened Numerals
  import D = Dates

  datatype OptionType = Call | Put

  datatype Day = Day(year: int, month: int, day: int)

  datatype Contract = Contract(root: string, expiration: Day, optionType: OptionType, strike: real)

  predicate IsUpper(c: char) { 'A' <= c <= 'Z' }
  predicate IsSpace(c: char) { c in {' ', '\t', '\n', '\r'} }

  function Strip(text: string): string {
    if text != "" && IsSpace(text[0]) then Strip(text[1..])
    else if text != "" && IsSpace(text[|text| - 1]) then Strip(text[..|text| - 1])
    else text
  }

  predicate RealDay(d: Day) {
    D.IsDate(d.year, d.month, d.day)
  }

  predicate IsRoot(root: string) {
    1 <= |root| <= 6 && IsUpper(root[0]) && forall c <- root :: IsUpper(c) || IsDigit(c) || c == '.'
  }

  // ----------------------------------------------------------------- the printer and the parser

  function TypeLetter(t: OptionType): char {
    match t case Call => 'C' case Put => 'P'
  }

  function TypeOf(letter: char): OptionType {
    if letter == 'C' then Call else Put
  }

  /** The last fifteen characters of an id. */
  function Tail(d: Day, t: OptionType, thousandths: nat): string
    requires RealDay(d)
  {
    Digits(d.year % 100, 2) + Digits(d.month, 2) + Digits(d.day, 2) + [TypeLetter(t)] + Digits(thousandths, 8)
  }

  /** `contract_id`: the strike must be a whole number of thousandths in eight digits, and not zero. */
  function ContractId(c: Contract): Option<string>
    requires RealDay(c.expiration)
  {
    var thousandths := c.strike * 1000.0;
    if thousandths != thousandths.Floor as real || !(0.0 < thousandths < 100_000_000.0) then None
    else Some(c.root + Tail(c.expiration, c.optionType, thousandths.Floor))
  }

  /** The text without surrounding space and without the provider's prefix. */
  function Core(text: string): string {
    var t := Strip(text);
    if |t| >= 2 && t[..2] == "O:" then t[2..] else t
  }

  predicate Matches(t: string) {
    && 16 <= |t| <= 21 && IsRoot(t[..|t| - 15])
    && AllDigits(t[|t| - 15..|t| - 9]) && t[|t| - 9] in {'C', 'P'} && AllDigits(t[|t| - 8..])
  }

  function Two(t: string, at: nat): nat
    requires at + 2 <= |t| && AllDigits(t[at..at + 2])
  {
    Value(t[at..at + 2])
  }

  lemma SliceDigits(t: string, low: nat, i: nat, high: nat)
    requires low <= i && i + 2 <= high <= |t| && AllDigits(t[low..high])
    ensures AllDigits(t[i..i + 2])
  {
    forall c | c in t[i..i + 2] ensures IsDigit(c) {
      var k :| 0 <= k < 2 && t[i..i + 2][k] == c;
      assert t[low..high][i - low + k] == c;
    }
  }

  function DayOf(t: string): Day
    requires Matches(t)
  {
    var n := |t| - 15;
    SliceDigits(t, n, n, n + 6); SliceDigits(t, n, n + 2, n + 6); SliceDigits(t, n, n + 4, n + 6);
    Day(2000 + Two(t, n), Two(t, n + 2), Two(t, n + 4))
  }

  /** `parse`. */
  function Parse(text: string): Option<Contract> {
    var t := Core(text);
    if !Matches(t) then None
    else if !RealDay(DayOf(t)) then None
    else
      Some(Contract(t[..|t| - 15], DayOf(t), TypeOf(t[|t| - 9]), Value(t[|t| - 8..]) as real / 1000.0))
  }

  // ----------------------------------------------------------------- round trips

  lemma CoreOfId(id: string)
    requires 16 <= |id| && IsUpper(id[0]) && IsDigit(id[|id| - 1]) && id[1] != ':'
    ensures Core(id) == id
  {
    assert "O:"[1] == ':';
    assert id[..2][1] == id[1];
  }

  lemma TailParts(root: string, d: Day, t: OptionType, thousandths: nat)
    requires RealDay(d)
    ensures var id := root + Tail(d, t, thousandths); var n := |root|;
      && |id| == n + 15 && id[..n] == root
      && id[n..n + 2] == Digits(d.year % 100, 2) && id[n + 2..n + 4] == Digits(d.month, 2)
      && id[n + 4..n + 6] == Digits(d.day, 2) && id[n + 6] == TypeLetter(t) && id[n + 7..] == Digits(thousandths, 8)
  {
    DigitsFacts(d.year % 100, 2);
    DigitsFacts(d.month, 2);
    DigitsFacts(d.day, 2);
    DigitsFacts(thousandths, 8);
  }

  lemma SixDigits(t: string, n: nat)
    requires n + 6 <= |t| && AllDigits(t[n..n + 2]) && AllDigits(t[n + 2..n + 4]) && AllDigits(t[n + 4..n + 6])
    ensures AllDigits(t[n..n + 6])
  {
    assert t[n..n + 6] == t[n..n + 2] + t[n + 2..n + 4] + t[n + 4..n + 6];
  }

  lemma IdMatches(root: string, d: Day, t: OptionType, thousandths: nat)
    requires IsRoot(root) && RealDay(d)
    ensures Matches(root + Tail(d, t, thousandths)) &&
      Core(root + Tail(d, t, thousandths)) == root + Tail(d, t, thousandths)
  {
    var id, n := root + Tail(d, t, thousandths), |root|;
    TailParts(root, d, t, thousandths);
    DigitsFacts(d.year % 100, 2);
    DigitsFacts(d.month, 2);
    DigitsFacts(d.day, 2);
    DigitsFacts(thousandths, 8);
    SixDigits(id, n);
    assert id[|id| - 1] == id[n + 7..][7] && id[|id| - 1] in id[n + 7..];
    assert id[0] == root[0];
    if n > 1 {
      assert id[1] == root[1] && root[1] in root;
    } else {
      assert id[1] == id[n..n + 2][0] && id[1] in id[n..n + 2];
    }
    CoreOfId(id);
  }

  lemma TwoOfDigits(id: string, at: nat, v: nat)
    requires at + 2 <= |id| && v < 100 && id[at..at + 2] == Digits(v, 2)
    ensures AllDigits(id[at..at + 2]) && Two(id, at) == v
  {
    PowersOfTen();
    ValueOfDigits(v, 2);
  }

  lemma DayOfId(root: string, d: Day, t: OptionType, thousandths: nat)
    requires IsRoot(root) && RealDay(d) && Matches(root + Tail(d, t, thousandths))
    ensures DayOf(root + Tail(d, t, thousandths)) == Day(2000 + d.year % 100, d.month, d.day)
  {
    var id, n := root + Tail(d, t, thousandths), |root|;
    TailParts(root, d, t, thousandths);
    TwoOfDigits(id, n, d.year % 100);
    TwoOfDigits(id, n + 2, d.month);
    TwoOfDigits(id, n + 4, d.day);
  }

  lemma StrikeOfId(root: string, d: Day, t: OptionType, thousandths: nat)
    requires IsRoot(root) && RealDay(d) && thousandths < 100_000_000
    ensures var id := root + Tail(d, t, thousandths);
      && Matches(id) && id[..|id| - 15] == root && TypeOf(id[|id| - 9]) == t && Value(id[|id| - 8..]) == thousandths
  {
    var id := root + Tail(d, t, thousandths);
    IdMatches(root, d, t, thousandths);
    TailParts(root, d, t, thousandths);
    PowersOfTen();
    ValueOfDigits(thousandths, 8);
    assert id[|id| - 8..] == id[|root| + 7..] && id[|id| - 9] == id[|root| + 6];
  }

  /** What an id parses to: the century is always taken to be 2000. */
  lemma ParseOfId(root: string, d: Day, t: OptionType, thousandths: nat)
    requires IsRoot(root) && RealDay(d) && thousandths < 100_000_000
    ensures var read := Day(2000 + d.year % 100, d.month, d.day);
      Parse(root + Tail(d, t, thousandths)) ==
      if RealDay(read) then Some(Contract(root, read, t, thousandths as real / 1000.0)) else None
  {
    IdMatches(root, d, t, thousandths);
    StrikeOfId(root, d, t, thousandths);
    DayOfId(root, d, t, thousandths);
  }

  /** Parsing a printed id returns the contract, exactly for expirations of 2000 to 2099. */
  lemma ParseUndoesPrint(c: Contract)
    requires IsRoot(c.root) && RealDay(c.expiration) && ContractId(c).Some?
    ensures Parse(ContractId(c).value) == Some(c) <==> 2000 <= c.expiration.year <= 2099
  {
    var n := Thousandths(c);
    var read := Day(2000 + c.expiration.year % 100, c.expiration.month, c.expiration.day);
    ParseOfId(c.root, c.expiration, c.optionType, n);
    SameCentury(c.expiration, read);
  }

  lemma Thousandths(c: Contract) returns (n: nat)
    requires RealDay(c.expiration) && ContractId(c).Some?
    ensures n < 100_000_000 && n as real / 1000.0 == c.strike
    ensures ContractId(c) == Some(c.root + Tail(c.expiration, c.optionType, n))
  {
    n := (c.strike * 1000.0).Floor;
  }

  lemma SameCentury(d: Day, read: Day)
    requires RealDay(d) && read == Day(2000 + d.year % 100, d.month, d.day)
    ensures read == d <==> 2000 <= d.year <= 2099
  {
  }

  lemma TwoRoundTrip(t: string, at: nat)
    requires at + 2 <= |t| && AllDigits(t[at..at + 2])
    ensures Two(t, at) < 100 && Digits(Two(t, at), 2) == t[at..at + 2]
  {
    PowersOfTen();
    DigitsOfValue(t[at..at + 2]);
  }

  lemma Century(v: nat)
    requires v < 100
    ensures (2000 + v) % 100 == v
  {
  }

  lemma DateDigits(t: string, n: nat, year: nat, month: nat, day: nat)
    requires n + 6 <= |t| && AllDigits(t[n..n + 2]) && AllDigits(t[n + 2..n + 4]) && AllDigits(t[n + 4..n + 6])
    requires year == Two(t, n) && month == Two(t, n + 2) && day == Two(t, n + 4)
    ensures (2000 + year) % 100 == year && Digits(year, 2) == t[n..n + 2]
    ensures Digits(month, 2) == t[n + 2..n + 4] && Digits(day, 2) == t[n + 4..n + 6]
  {
    TwoRoundTrip(t, n);
    TwoRoundTrip(t, n + 2);
    TwoRoundTrip(t, n + 4);
    Century(year);
  }

  lemma JoinTail(t: string, n: nat)
    requires |t| == n + 15
    ensures t[n..n + 2] + t[n + 2..n + 4] + t[n + 4..n + 6] + [t[n + 6]] + t[n + 7..] == t[n..]
  {
  }

  lemma PrintedTail(t: string, d: Day, thousandths: nat)
    requires Matches(t) && RealDay(d) && d == DayOf(t) && thousandths == Value(t[|t| - 8..])
    ensures Tail(d, TypeOf(t[|t| - 9]), thousandths) == t[|t| - 15..]
  {
    var n := |t| - 15;
    SliceDigits(t, n, n, n + 6);
    SliceDigits(t, n, n + 2, n + 6);
    SliceDigits(t, n, n + 4, n + 6);
    DateDigits(t, n, d.year - 2000, d.month, d.day);
    DigitsOfValue(t[n + 7..]);
    JoinTail(t, n);
  }

  /** The strike of a symbol is a whole number of thousandths in eight digits. */
  lemma StrikeDigits(t: string) returns (n: nat)
    requires Matches(t)
    ensures n == Value(t[|t| - 8..]) < 100_000_000 && (n as real / 1000.0) * 1000.0 == n as real
  {
    n := Value(t[|t| - 8..]);
    PowersOfTen();
    DigitsOfValue(t[|t| - 8..]);
  }

  lemma ContractIdOf(root: string, d: Day, o: OptionType, n: nat)
    requires RealDay(d) && n < 100_000_000 && (n as real / 1000.0) * 1000.0 == n as real
    ensures ContractId(Contract(root, d, o, n as real / 1000.0)) == if n > 0 then Some(root + Tail(d, o, n)) else None
  {
    assert (n as real).Floor == n;
  }

  /** Printing a parsed symbol gives its normalized text back, unless the strike is zero, which cannot be printed. */
  lemma PrintUndoesParse(text: string)
    requires Parse(text).Some?
    ensures RealDay(Parse(text).value.expiration)
    ensures ContractId(Parse(text).value) == if Parse(text).value.strike > 0.0 then Some(Core(text)) else None
  {
    var t := Core(text);
    var n := StrikeDigits(t);
    ContractIdOf(t[..|t| - 15], DayOf(t), TypeOf(t[|t| - 9]), n);
    PrintedTail(t, DayOf(t), n);
    assert t == t[..|t| - 15] + t[|t| - 15..];
  }

  // ----------------------------------------------------------------- what a symbol says

  /** The number that a digit stands for. */
  function Number(c: char): int {
    c as int - '0' as int
  }

  predicate DigitAt(t: string, i: int) {
    0 <= i < |t| && '0' <= t[i] <= '9'
  }

  function TwoAt(t: string, i: nat): int
    requires i + 2 <= |t|
  {
    10 * Number(t[i]) + Number(t[i + 1])
  }

  /** A root of `n` characters, six digits of the date, the type, and eight digits of the strike. */
  ghost predicate LaidOut(t: string, n: nat) {
    && 1 <= n <= 6 && |t| == n + 15 && 'A' <= t[0] <= 'Z'
    && (forall i :: 0 < i < n ==> 'A' <= t[i] <= 'Z' || '0' <= t[i] <= '9' || t[i] == '.')
    && (forall i :: n <= i < n + 6 ==> DigitAt(t, i)) && (t[n + 6] == 'C' || t[n + 6] == 'P')
    && (forall i :: n + 7 <= i < n + 15 ==> DigitAt(t, i))
  }

  /** What a symbol with a root of `n` characters says. */
  ghost predicate Says(t: string, n: nat, c: Contract)
    requires |t| == n + 15
  {
    && c.root == t[..n]
    && c.expiration == Day(2000 + TwoAt(t, n), TwoAt(t, n + 2), TwoAt(t, n + 4))
    && c.optionType == (if t[n + 6] == 'C' then Call else Put)
    && c.strike * 1000.0 == (1_000_000 * TwoAt(t, n + 7) + 10_000 * TwoAt(t, n + 9)
                             + 100 * TwoAt(t, n + 11) + TwoAt(t, n + 13)) as real
  }

  predicate HasRealDay(t: string, n: nat)
    requires |t| == n + 15
  {
    D.IsDate(2000 + TwoAt(t, n), TwoAt(t, n + 2), TwoAt(t, n + 4))
  }

  lemma LayoutMeaning(t: string)
    ensures Matches(t) <==> |t| >= 15 && LaidOut(t, |t| - 15)
  {
    if 16 <= |t| <= 21 {
      var n := |t| - 15;
      forall i | 0 <= i < n ensures t[..n][i] == t[i] && t[i] in t[..n] {}
      forall i | n <= i < n + 6 ensures t[n..n + 6][i - n] == t[i] && t[i] in t[n..n + 6] {}
      forall i | n + 7 <= i < n + 15 ensures t[n + 7..][i - n - 7] == t[i] && t[i] in t[n + 7..] {}
      if LaidOut(t, n) {
        assert AllDigits(t[n..n + 6]) && AllDigits(t[n + 7..]) by {
          forall c | c in t[n..n + 6] ensures IsDigit(c) {
            var k :| 0 <= k < 6 && t[n..n + 6][k] == c;
            assert DigitAt(t, n + k);
          }
          forall c | c in t[n + 7..] ensures IsDigit(c) {
            var k :| 0 <= k < 8 && t[n + 7..][k] == c;
            assert DigitAt(t, n + 7 + k);
          }
        }
      }
    }
  }

  lemma TwoMeaning(t: string, i: nat)
    requires i + 2 <= |t| && AllDigits(t[i..i + 2])
    ensures Two(t, i) == TwoAt(t, i)
  {
    TwoDigits(t[i..i + 2]);
  }

  lemma DayMeaning(t: string)
    requires Matches(t)
    ensures var n := |t| - 15; DayOf(t) == Day(2000 + TwoAt(t, n), TwoAt(t, n + 2), TwoAt(t, n + 4))
  {
    var n := |t| - 15;
    SliceDigits(t, n, n, n + 6);
    SliceDigits(t, n, n + 2, n + 6);
    SliceDigits(t, n, n + 4, n + 6);
    TwoMeaning(t, n);
    TwoMeaning(t, n + 2);
    TwoMeaning(t, n + 4);
  }

  lemma StrikeMeaning(t: string)
    requires |t| >= 8 && AllDigits(t[|t| - 8..])
    ensures var n := |t| - 8;
      Value(t[n..]) == 1_000_000 * TwoAt(t, n) + 10_000 * TwoAt(t, n + 2) + 100 * TwoAt(t, n + 4) + TwoAt(t, n + 6)
  {
    var s := t[|t| - 8..];
    EightDigits(s);
    FourDigits(s[..4]);
    FourDigits(s[4..]);
    forall i | 0 <= i < 8 ensures s[i] == t[|t| - 8 + i] {}
  }

  /** A text is read exactly if what remains of it without surrounding space and provider prefix is laid out as a symbol
      with a real date, and then it is read as what it says. */
  lemma ParseMeaning(text: string)
    ensures var t := Core(text);
      && (Parse(text).Some? <==> |t| >= 15 && LaidOut(t, |t| - 15) && HasRealDay(t, |t| - 15))
      && (Parse(text).Some? ==> Says(t, |t| - 15, Parse(text).value))
  {
    var t := Core(text);
    LayoutMeaning(t);
    if Matches(t) {
      DayMeaning(t);
      StrikeMeaning(t);
      var n := StrikeDigits(t);
    }
  }

  /** The provider's prefix is taken off once, after the surrounding space. */
  lemma CoreMeaning(text: string)
    ensures var t := Strip(text);
      if |t| >= 2 && t[0] == 'O' && t[1] == ':' then Core(text) == t[2..] else Core(text) == t
  {
    var t := Strip(text);
    assert "O:"[0] == 'O' && "O:"[1] == ':';
    if |t| >= 2 {
      assert t[..2] == [t[0], t[1]];
      assert t[..2] == "O:" ==> t[..2][0] == 'O' && t[..2][1] == ':';
    }
  }

  predicate AllSpace(text: string) {
    forall c <- text :: IsSpace(c)
  }

  /** Only surrounding space is taken off, and all of it. */
  lemma {:induction false} StripMeaning(text: string) returns (left: string, right: string)
    ensures text == left + Strip(text) + right && AllSpace(left) && AllSpace(right)
    ensures Strip(text) != "" ==> !IsSpace(Strip(text)[0]) && !IsSpace(Strip(text)[|Strip(text)| - 1])
    decreases |text|
  {
    left, right := "", "";
    if text != "" && IsSpace(text[0]) {
      left, right := StripMeaning(text[1..]);
      assert text == [text[0]] + text[1..];
      left := [text[0]] + left;
    } else if text != "" && IsSpace(text[|text| - 1]) {
      left, right := StripMeaning(text[..|text| - 1]);
      assert text == text[..|text| - 1] + [text[|text| - 1]];
      right := right + [text[|text| - 1]];
    }
  }
}
