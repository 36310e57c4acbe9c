/** Calendar dates as texts: the two calendar forms that `date.fromisoformat` reads, YYYY-MM-DD and YYYYMMDD, and the
    proleptic Gregorian day number. */
module Dates {
  import opened Results
  import opened Numerals
  import opened Texts

  // ----------------------------------------------------------------- day numbers

  predicate IsLeap(y: int) {
    y % 4 == 0 && (y % 100 != 0 || y % 400 == 0)
  }

  function DaysIn(y: int, m: int): int {
    if m == 2 then (if IsLeap(y) then 29 else 28) else if m in {4, 6, 9, 11} then 30 else 31
  }

  predicate IsDate(y: int, m: int, d: int) {
    1 <= y <= 9999 && 1 <= m <= 12 && 1 <= d <= DaysIn(y, m)
  }

  const BEFORE_MONTH := [0, 0, 31, 59, 90, 120, 151, 181, 212, 243, 273, 304, 334, 365]

  /** The days of the year before a month; before month 13 lies the whole year. */
  function DaysBeforeMonth(y: int, m: int): int {
    if 1 <= m <= 13 then BEFORE_MONTH[m] + (if m > 2 && IsLeap(y) then 1 else 0) else 0
  }

  function DaysBeforeYear(y: int): int {
    var n := y - 1;
    365 * n + n / 4 - n / 100 + n / 400
  }

  /** `toordinal`. */
  function Ordinal(y: int, m: int, d: int): int {
    DaysBeforeYear(y) + DaysBeforeMonth(y, m) + d
  }

  lemma {:induction false} MonthsIncrease(y: int, m: int, n: int)
    requires 1 <= m <= n <= 13
    ensures DaysBeforeMonth(y, m) + (if m < n then DaysIn(y, m) else 0) <= DaysBeforeMonth(y, n)
    decreases n
  {
    if m < n {
      assert DaysBeforeMonth(y, n - 1) + DaysIn(y, n - 1) == DaysBeforeMonth(y, n);
      MonthsIncrease(y, m, n - 1);
    }
  }

  lemma Quotients(y: int)
    ensures y / 4 == (y - 1) / 4 + if y % 4 == 0 then 1 else 0
    ensures y / 100 == (y - 1) / 100 + if y % 100 == 0 then 1 else 0
    ensures y / 400 == (y - 1) / 400 + if y % 400 == 0 then 1 else 0
  {
  }

  lemma CenturiesAreFourths(y: int)
    ensures y % 400 == 0 ==> y % 100 == 0
    ensures y % 100 == 0 ==> y % 4 == 0
  {
  }

  lemma NextYear(y: int)
    ensures DaysBeforeYear(y + 1) == DaysBeforeYear(y) + if IsLeap(y) then 366 else 365
  {
    Quotients(y);
    CenturiesAreFourths(y);
  }

  lemma {:induction false} YearsIncrease(y: int, z: int)
    requires 1 <= y < z
    ensures DaysBeforeYear(y) + (if IsLeap(y) then 366 else 365) <= DaysBeforeYear(z)
    decreases z
  {
    NextYear(z - 1);
    if y < z - 1 { YearsIncrease(y, z - 1); }
  }

  /** Day numbers increase with the date. */
  lemma OrdinalIncreases(y: int, m: int, d: int, y2: int, m2: int, d2: int)
    requires IsDate(y, m, d) && IsDate(y2, m2, d2)
    requires y < y2 || (y == y2 && (m < m2 || (m == m2 && d < d2)))
    ensures Ordinal(y, m, d) < Ordinal(y2, m2, d2)
  {
    MonthsIncrease(y2, 1, m2);
    if y < y2 {
      YearsIncrease(y, y2);
      MonthsIncrease(y, m, 13);
    } else if m < m2 {
      MonthsIncrease(y, m, m2);
    }
  }

  lemma NextMonth(y: int, m: int)
    requires 1 <= m <= 12
    ensures DaysBeforeMonth(y, m) + DaysIn(y, m) == DaysBeforeMonth(y, m + 1)
  {
  }

  lemma WholeYear(y: int)
    ensures DaysBeforeMonth(y, 13) == if IsLeap(y) then 366 else 365
  {
  }

  lemma FirstOfJanuary(y: int)
    ensures Ordinal(y, 1, 1) == DaysBeforeYear(y) + 1
  {
  }

  lemma FirstYear()
    ensures DaysBeforeYear(1) == 0
  {
  }

  lemma EndOfMonth(y: int, m: int)
    requires 1 <= m < 12
    ensures Ordinal(y, m + 1, 1) == Ordinal(y, m, DaysIn(y, m)) + 1
  {
    NextMonth(y, m);
    SameYear(y, m + 1, 1, m, DaysIn(y, m));
  }

  lemma SameYear(y: int, m: int, d: int, n: int, e: int)
    ensures Ordinal(y, m, d) - Ordinal(y, n, e) == DaysBeforeMonth(y, m) + d - DaysBeforeMonth(y, n) - e
  {
  }

  lemma EndOfYear(y: int)
    ensures Ordinal(y + 1, 1, 1) == Ordinal(y, 12, 31) + 1
  {
    FirstOfJanuary(y + 1);
    FirstOfJanuary(y);
    NextYear(y);
    WholeYear(y);
    SameYear(y, 12, 31, 1, 1);
    NextMonth(y, 12);
  }

  /** The day after a date. */
  function DayAfter(y: int, m: int, d: int): (int, int, int) {
    if d < DaysIn(y, m) then (y, m, d + 1) else if m < 12 then (y, m + 1, 1) else (y + 1, 1, 1)
  }

  lemma FirstDay()
    ensures Ordinal(1, 1, 1) == 1
  {
    FirstYear();
    FirstOfJanuary(1);
  }

  /** Day numbers count the days: each day has the number after that of the day before. */
  lemma DaysAreNumbered(y: int, m: int, d: int)
    requires 1 <= m <= 12 && 1 <= d <= DaysIn(y, m)
    ensures var (z, n, e) := DayAfter(y, m, d); Ordinal(z, n, e) == Ordinal(y, m, d) + 1
  {
    if d < DaysIn(y, m) {
      SameYear(y, m, d + 1, m, d);
    } else if m < 12 {
      EndOfMonth(y, m);
    } else {
      EndOfYear(y);
    }
  }

  // ----------------------------------------------------------------- texts

  predicate IsExtendedForm(text: string) {
    |text| == 10 && text[4] == '-' && text[7] == '-'
    && AllDigits(text[..4]) && AllDigits(text[5..7]) && AllDigits(text[8..])
  }

  predicate IsBasicForm(text: string) {
    |text| == 8 && AllDigits(text)
  }

  /** The calendar forms of `date.fromisoformat`. */
  function ParseDate(text: string): Option<int> {
    if IsExtendedForm(text) then DateFrom(Value(text[..4]), Value(text[5..7]), Value(text[8..]))
    else if IsBasicForm(text) then DateFrom(Value(text[..4]), Value(text[4..6]), Value(text[6..]))
    else None
  }

  function DateFrom(y: int, m: int, d: int): Option<int> {
    if IsDate(y, m, d) then Some(Ordinal(y, m, d)) else None
  }

  /** A date written as `isoformat` writes it. */
  predicate IsExtended(text: string) {
    IsExtendedForm(text) && ParseDate(text).Some?
  }

  lemma ParseExtended(text: string, y: int, m: int, d: int)
    requires IsExtendedForm(text) && IsDate(y, m, d)
    requires Value(text[..4]) == y && Value(text[5..7]) == m && Value(text[8..]) == d
    ensures ParseDate(text) == Some(Ordinal(y, m, d))
  {
  }

  lemma ParseBasic(text: string, y: int, m: int, d: int)
    requires IsBasicForm(text) && IsDate(y, m, d)
    requires Value(text[..4]) == y && Value(text[4..6]) == m && Value(text[6..]) == d
    ensures ParseDate(text) == Some(Ordinal(y, m, d))
  {
  }

  // ----------------------------------------------------------------- text order is date order

  lemma {:induction false} DifferAfter(a: string, b: string, n: nat)
    requires n < |a| && n < |b| && a[..n] == b[..n] && a[n] < b[n]
    ensures StringBefore(a, b)
  {
    if n > 0 {
      assert a[0] == a[..n][0] == b[..n][0] == b[0];
      assert a[1..][..n - 1] == a[..n][1..] == b[..n][1..] == b[1..][..n - 1];
      DifferAfter(a[1..], b[1..], n - 1);
    }
  }

  /** Digit texts of one length order as their numbers. */
  lemma {:induction false} DigitsOrder(a: string, b: string)
    requires |a| == |b| && AllDigits(a) && AllDigits(b)
    ensures Value(a) < Value(b) ==> exists n :: 0 <= n < |a| && a[..n] == b[..n] && a[n] < b[n]
    ensures Value(a) == Value(b) ==> a == b
    decreases |a|
  {
    if a != "" {
      var m := |a| - 1;
      var h, k := a[..m], b[..m];
      assert a[m] in a && b[m] in b;
      DigitsOrder(h, k);
      DigitsOrder(k, h);
      if Value(h) < Value(k) {
        var n :| 0 <= n < m && h[..n] == k[..n] && h[n] < k[n];
        assert a[..n] == h[..n] && b[..n] == k[..n] && a[n] < b[n];
      } else if h == k && a[m] < b[m] {
        assert a[..m] == b[..m];
      } else if h == k && a[m] == b[m] {
        assert a == h + [a[m]] && b == k + [b[m]];
      }
    }
  }

  /** Dates in the extended form sort as texts exactly as they do as dates. */
  lemma ExtendedOrder(a: string, b: string)
    requires IsExtended(a) && IsExtended(b)
    ensures ParseDate(a).value < ParseDate(b).value ==> StringBefore(a, b)
  {
    var y, m, d := Value(a[..4]), Value(a[5..7]), Value(a[8..]);
    var y2, m2, d2 := Value(b[..4]), Value(b[5..7]), Value(b[8..]);
    if ParseDate(a).value < ParseDate(b).value {
      if y2 < y || (y2 == y && (m2 < m || (m2 == m && d2 < d))) { OrdinalIncreases(y2, m2, d2, y, m, d); }
      DigitsOrder(a[..4], b[..4]);
      DigitsOrder(a[5..7], b[5..7]);
      DigitsOrder(a[8..], b[8..]);
      if y < y2 {
        var n :| 0 <= n < 4 && a[..4][..n] == b[..4][..n] && a[..4][n] < b[..4][n];
        assert a[..n] == a[..4][..n] && b[..n] == b[..4][..n];
        DifferAfter(a, b, n);
      } else if m < m2 {
        var n :| 0 <= n < 2 && a[5..7][..n] == b[5..7][..n] && a[5..7][n] < b[5..7][n];
        assert a[..5 + n] == a[..4] + ['-'] + a[5..7][..n] && b[..5 + n] == b[..4] + ['-'] + b[5..7][..n];
        DifferAfter(a, b, 5 + n);
      } else {
        var n :| 0 <= n < 2 && a[8..][..n] == b[8..][..n] && a[8..][n] < b[8..][n];
        assert a[..8 + n] == a[..4] + ['-'] + a[5..7] + ['-'] + a[8..][..n];
        assert b[..8 + n] == b[..4] + ['-'] + b[5..7] + ['-'] + b[8..][..n];
        DifferAfter(a, b, 8 + n);
      }
    }
  }

  function Number(c: char): int {
    c as int - '0' as int
  }

  /** The number that the two or four digits from `i` on stand for. */
  function TwoAt(text: string, i: nat): int
    requires i + 2 <= |text|
  {
    10 * Number(text[i]) + Number(text[i + 1])
  }

  function YearOf(text: string): int
    requires |text| >= 4
  {
    100 * TwoAt(text, 0) + TwoAt(text, 2)
  }

  lemma PartsMeaning(text: string, i: nat)
    requires i + 2 <= |text| && AllDigits(text[i..i + 2])
    ensures Value(text[i..i + 2]) == TwoAt(text, i)
  {
    TwoDigits(text[i..i + 2]);
  }

  /** What a text in one of the two forms is read as: the day of its year, month and day, if there is such a day. */
  lemma ParseMeaning(text: string)
    ensures IsExtendedForm(text) ==>
      ParseDate(text) == DateFrom(YearOf(text), TwoAt(text, 5), TwoAt(text, 8))
    ensures IsBasicForm(text) ==> ParseDate(text) == DateFrom(YearOf(text), TwoAt(text, 4), TwoAt(text, 6))
    ensures ParseDate(text).Some? ==> IsExtendedForm(text) || IsBasicForm(text)
  {
    if IsExtendedForm(text) {
      FourDigits(text[..4]);
      PartsMeaning(text, 5);
      PartsMeaning(text, 8);
      assert text[8..] == text[8..10];
    } else if IsBasicForm(text) {
      forall c | c in text[..4] || c in text[4..6] || c in text[6..8] ensures IsDigit(c) { assert c in text; }
      FourDigits(text[..4]);
      PartsMeaning(text, 4);
      PartsMeaning(text, 6);
      assert text[6..] == text[6..8];
    }
  }
}
