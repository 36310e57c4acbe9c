/** Regular-session grid ends and the lag of a series behind them (market_context/freshness.py). */
module Freshness {
  import opened Results
  import opened Calendar
  import L = Lists

  const MAX_SCAN_DAYS := 40

  // ----------------------------------------------------------------- one day's grid

  /** The bar ends from `start` on, the last one truncated at the close. */
  function EndsFrom(start: int, close: int, step: int): seq<int>
    requires step > 0
    decreases close - start
  {
    if start >= close then [] else [Min(start + step, close)] + EndsFrom(start + step, close, step)
  }

  function DayEnds(cal: Calendar, day: int, step: int): seq<int>
    requires step > 0
  {
    match Lookup(cal.times, day) case None => [] case Some(x) => EndsFrom(x.open, x.close, step)
  }

  /** `grid_ends`. */
  method GridEnds(cal: Calendar, day: int, step: int) returns (ends: seq<int>)
    requires step > 0
    ensures ends == DayEnds(cal, day, step)
  {
    ends := [];
    if day in cal.times {
      var start, close := cal.times[day].open, cal.times[day].close;
      while start < close
        invariant ends + EndsFrom(start, close, step) == DayEnds(cal, day, step)
        decreases close - start
      {
        ends := ends + [Min(start + step, close)];
        start := start + step;
      }
    }
  }

  /** A grid end by definition: after the open, and a whole number of steps from it or the close itself. */
  ghost predicate OnGrid(start: int, close: int, step: int, e: int) {
    start < e <= close && (e == close || exists q: nat :: StepsOn(start, step, q, e))
  }

  /** `e` is `q` steps after `start`. */
  predicate StepsOn(start: int, step: int, q: nat, e: int) {
    e == start + q * step
  }

  lemma OneStepOn(start: int, step: int, q: nat, e: int)
    ensures StepsOn(start + step, step, q, e) <==> StepsOn(start, step, q + 1, e)
    ensures StepsOn(start, step, q, e) && step > 0 && e > start ==> q >= 1 && e >= start + step
  {
    assert (q + 1) * step == q * step + step;
    if q >= 1 && step > 0 { assert q * step == (q - 1) * step + step && (q - 1) * step >= 0; }
  }

  ghost predicate IsGridEnd(cal: Calendar, step: int, e: int)
    requires step > 0
  {
    match Lookup(cal.times, cal.dayOf(e)) case None => false case Some(x) => OnGrid(x.open, x.close, step, e)
  }

  ghost predicate Ascends(xs: seq<int>) {
    forall i, j :: 0 <= i < j < |xs| ==> xs[i] < xs[j]
  }

  lemma {:induction false} EndsAt(start: int, close: int, step: int, e: int)
    requires step > 0
    ensures e in EndsFrom(start, close, step) <==> OnGrid(start, close, step, e)
    decreases close - start
  {
    if start < close {
      EndsAt(start + step, close, step, e);
      StepBack(start, close, step, e);
    }
  }

  /** A grid point is the first one, or one of the grid that starts a step later. */
  lemma StepBack(start: int, close: int, step: int, e: int)
    requires step > 0 && start < close
    ensures OnGrid(start, close, step, e) <==> e == Min(start + step, close) || OnGrid(start + step, close, step, e)
  {
    assert StepsOn(start, step, 1, start + step);
    if q: nat :| StepsOn(start, step, q, e) {
      OneStepOn(start, step, q, e);
      if q >= 1 { OneStepOn(start, step, q - 1, e); }
    }
    var next := start + step;
    if q: nat :| StepsOn(next, step, q, e) {
      OneStepOn(start, step, q, e);
    }
  }

  lemma {:induction false} EndsMeaning(start: int, close: int, step: int)
    requires step > 0
    ensures forall e :: e in EndsFrom(start, close, step) <==> OnGrid(start, close, step, e)
    ensures Ascends(EndsFrom(start, close, step))
    ensures start < close ==> close in EndsFrom(start, close, step)
    decreases close - start
  {
    forall e ensures e in EndsFrom(start, close, step) <==> OnGrid(start, close, step, e) {
      EndsAt(start, close, step, e);
    }
    if start < close {
      var rest := EndsFrom(start + step, close, step);
      EndsMeaning(start + step, close, step);
      forall i | 0 <= i < |rest| ensures rest[i] > start + step { assert rest[i] in rest; }
    }
  }

  /** The loop lists exactly the grid ends that fall on the day, in increasing order. */
  lemma DayEndsMeaning(cal: Calendar, day: int, step: int)
    requires Valid(cal) && step > 0
    ensures forall e :: e in DayEnds(cal, day, step) <==> IsGridEnd(cal, step, e) && cal.dayOf(e) == day
    ensures Ascends(DayEnds(cal, day, step))
    ensures day in cal.times ==> DayEnds(cal, day, step) != []
  {
    if day in cal.times {
      assert GoodDay(cal, day);
      var x := cal.times[day];
      EndsMeaning(x.open, x.close, step);
      forall e | e in DayEnds(cal, day, step) ensures cal.dayOf(e) == day { WithinTheDay(cal, day, e); }
    }
  }

  // ----------------------------------------------------------------- trading days

  /** `next_trading_day`; None where the source leaves the calendar's range and raises. */
  function NextTradingDay(cal: Calendar, day: int): Option<int>
    decreases cal.last - day
  {
    if !InRange(cal, day + 1) then None
    else if day + 1 in cal.times then Some(day + 1)
    else NextTradingDay(cal, day + 1)
  }

  function PreviousTradingDay(cal: Calendar, day: int): Option<int>
    decreases day - cal.first
  {
    if !InRange(cal, day - 1) then None
    else if day - 1 in cal.times then Some(day - 1)
    else PreviousTradingDay(cal, day - 1)
  }

  method FindNext(cal: Calendar, day: int) returns (r: Option<int>)
    ensures r == NextTradingDay(cal, day)
  {
    var candidate := day + 1;
    while InRange(cal, candidate) && candidate !in cal.times
      invariant NextTradingDay(cal, candidate - 1) == NextTradingDay(cal, day)
      decreases cal.last - candidate
    {
      candidate := candidate + 1;
    }
    r := if InRange(cal, candidate) then Some(candidate) else None;
  }

  method FindPrevious(cal: Calendar, day: int) returns (r: Option<int>)
    ensures r == PreviousTradingDay(cal, day)
  {
    var candidate := day - 1;
    while InRange(cal, candidate) && candidate !in cal.times
      invariant PreviousTradingDay(cal, candidate + 1) == PreviousTradingDay(cal, day)
      decreases candidate - cal.first
    {
      candidate := candidate - 1;
    }
    r := if InRange(cal, candidate) then Some(candidate) else None;
  }

  /** The nearest trading day after `day`, or none left in range. */
  lemma {:induction false} NextMeaning(cal: Calendar, day: int)
    requires Valid(cal) && InRange(cal, day + 1)
    ensures match NextTradingDay(cal, day)
      case Some(n) => n in cal.times && n > day && forall d <- cal.times :: d > day ==> d >= n
      case None => forall d <- cal.times :: d <= day
    decreases cal.last - day
  {
    forall d | d in cal.times ensures InRange(cal, d) { assert GoodDay(cal, d); }
    if day + 1 !in cal.times && InRange(cal, day + 2) { NextMeaning(cal, day + 1); }
  }

  lemma {:induction false} PreviousMeaning(cal: Calendar, day: int)
    requires Valid(cal) && InRange(cal, day - 1)
    ensures match PreviousTradingDay(cal, day)
      case Some(p) => p in cal.times && p < day && forall d <- cal.times :: d < day ==> d <= p
      case None => forall d <- cal.times :: d >= day
    decreases day - cal.first
  {
    forall d | d in cal.times ensures InRange(cal, d) { assert GoodDay(cal, d); }
    if day - 1 !in cal.times && InRange(cal, day - 2) { PreviousMeaning(cal, day - 1); }
  }

  // ----------------------------------------------------------------- the expected latest bar end

  function UpTo(asOf: int): int -> bool {
    (e: int) => e <= asOf
  }

  function EndsUpTo(cal: Calendar, day: int, asOf: int, step: int): seq<int>
    requires step > 0
  {
    L.Keep(DayEnds(cal, day, step), UpTo(asOf))
  }

  /** The scan: Err where the source raises, Ok(None) when it gives up. */
  function ExpectedFrom(cal: Calendar, day: int, asOf: int, step: int, rounds: nat): Result<Option<int>, ()>
    requires step > 0
    decreases rounds
  {
    if rounds == 0 then Ok(None)
    else if !InRange(cal, day) then Err(())
    else
      var ends := EndsUpTo(cal, day, asOf, step);
      if ends != [] then Ok(Some(ends[|ends| - 1]))
      else
        match PreviousTradingDay(cal, day)
        case None => Err(())
        case Some(p) => ExpectedFrom(cal, p, asOf, step, rounds - 1)
  }

  /** `expected_latest_bar_end`. */
  method ExpectedLatestBarEnd(cal: Calendar, asOf: int, step: int) returns (r: Result<Option<int>, ()>)
    requires step > 0
    ensures r == ExpectedFrom(cal, cal.dayOf(asOf), asOf, step, MAX_SCAN_DAYS)
  {
    r := ScanBack(cal, cal.dayOf(asOf), asOf, step, MAX_SCAN_DAYS);
  }

  method DayEndsUpTo(cal: Calendar, day: int, asOf: int, step: int) returns (ends: seq<int>)
    requires step > 0
    ensures ends == EndsUpTo(cal, day, asOf, step)
  {
    var all := GridEnds(cal, day, step);
    ends := L.Keep(all, UpTo(asOf));
  }

  method ScanBack(cal: Calendar, first: int, asOf: int, step: int, limit: nat) returns (r: Result<Option<int>, ()>)
    requires step > 0
    ensures r == ExpectedFrom(cal, first, asOf, step, limit)
  {
    var day := first;
    for n := 0 to limit
      invariant ExpectedFrom(cal, day, asOf, step, limit - n) == ExpectedFrom(cal, first, asOf, step, limit)
    {
      if !InRange(cal, day) {
        return Err(());
      }
      var ends := DayEndsUpTo(cal, day, asOf, step);
      if ends != [] {
        return Ok(Some(ends[|ends| - 1]));
      }
      var p := FindPrevious(cal, day);
      if p.None? {
        return Err(());
      }
      day := p.value;
    }
    return Ok(None);
  }

  ghost predicate IsGreatestEnd(cal: Calendar, asOf: int, step: int, e: int)
    requires step > 0
  {
    IsGridEnd(cal, step, e) && e <= asOf && forall o :: IsGridEnd(cal, step, o) && o <= asOf ==> o <= e
  }

  /** The greatest grid end of one day at or before `asOf`. */
  ghost predicate IsLastOn(cal: Calendar, day: int, asOf: int, step: int, e: int)
    requires step > 0
  {
    && IsGridEnd(cal, step, e) && cal.dayOf(e) == day && e <= asOf
    && forall o :: IsGridEnd(cal, step, o) && cal.dayOf(o) == day && o <= asOf ==> o <= e
  }

  lemma LastUpTo(cal: Calendar, day: int, asOf: int, step: int)
    requires Valid(cal) && step > 0
    ensures EndsUpTo(cal, day, asOf, step) == [] ==>
      forall o :: IsGridEnd(cal, step, o) && cal.dayOf(o) == day ==> o > asOf
    ensures EndsUpTo(cal, day, asOf, step) != [] ==>
      IsLastOn(cal, day, asOf, step, EndsUpTo(cal, day, asOf, step)[|EndsUpTo(cal, day, asOf, step)| - 1])
  {
    var all, ends := DayEnds(cal, day, step), EndsUpTo(cal, day, asOf, step);
    DayEndsMeaning(cal, day, step);
    L.KeepChain(all, UpTo(asOf), (x: int, y: int) => x < y);
    forall o ensures o in ends <==> o in all && o <= asOf { L.KeepMembers(all, UpTo(asOf), o); }
    if ends != [] { assert ends[|ends| - 1] in ends; }
  }

  /** No grid end of today, and no trading day before it: nothing at or before `asOf`. */
  lemma NothingBefore(cal: Calendar, asOf: int, step: int)
    requires Valid(cal) && step > 0 && InRange(cal, cal.dayOf(asOf))
    requires EndsUpTo(cal, cal.dayOf(asOf), asOf, step) == [] && PreviousTradingDay(cal, cal.dayOf(asOf)).None?
    ensures forall o :: IsGridEnd(cal, step, o) ==> o > asOf
  {
    var day := cal.dayOf(asOf);
    LastUpTo(cal, day, asOf, step);
    if InRange(cal, day - 1) { PreviousMeaning(cal, day); }
    forall d | d in cal.times ensures d >= day { assert GoodDay(cal, d); }
    forall o: int | o <= asOf ensures cal.dayOf(o) <= day { DaysAreMonotone(cal, o, asOf); }
  }

  lemma TodaysIsGreatest(cal: Calendar, asOf: int, step: int, e: int)
    requires Valid(cal) && step > 0 && IsLastOn(cal, cal.dayOf(asOf), asOf, step, e)
    ensures IsGreatestEnd(cal, asOf, step, e)
  {
    forall o | IsGridEnd(cal, step, o) && o <= asOf ensures o <= e {
      DaysAreMonotone(cal, o, asOf);
      if o > e { DaysAreMonotone(cal, e, o); }
    }
  }

  lemma YesterdaysIsGreatest(cal: Calendar, asOf: int, step: int, p: int)
    requires Valid(cal) && step > 0 && InRange(cal, cal.dayOf(asOf))
    requires EndsUpTo(cal, cal.dayOf(asOf), asOf, step) == [] && PreviousTradingDay(cal, cal.dayOf(asOf)) == Some(p)
    ensures InRange(cal, p) && EndsUpTo(cal, p, asOf, step) != []
    ensures IsGreatestEnd(cal, asOf, step, EndsUpTo(cal, p, asOf, step)[|EndsUpTo(cal, p, asOf, step)| - 1])
  {
    var day := cal.dayOf(asOf);
    PreviousMeaning(cal, day);
    PreviousDayEnded(cal, p, asOf, step);
    LastUpTo(cal, p, asOf, step);
    LastUpTo(cal, day, asOf, step);
    forall o | IsGridEnd(cal, step, o) && o <= asOf ensures cal.dayOf(o) <= p {
      DaysAreMonotone(cal, o, asOf);
    }
  }

  /** The scan needs two days at most: it finds the greatest grid end at or before `asOf`, and fails exactly when `asOf`
      is outside the calendar or no grid end comes before it. It never gives up empty-handed. */
  lemma ExpectedIsGreatest(cal: Calendar, asOf: int, step: int, rounds: nat)
    requires Valid(cal) && step > 0 && 2 <= rounds
    ensures var r := ExpectedFrom(cal, cal.dayOf(asOf), asOf, step, rounds);
      r.Ok? ==> r.value.Some? && IsGreatestEnd(cal, asOf, step, r.value.value)
    ensures ExpectedFrom(cal, cal.dayOf(asOf), asOf, step, rounds).Err? <==>
      !InRange(cal, cal.dayOf(asOf)) || forall o :: IsGridEnd(cal, step, o) ==> o > asOf
  {
    var day := cal.dayOf(asOf);
    if InRange(cal, day) {
      var ends := EndsUpTo(cal, day, asOf, step);
      if ends != [] {
        LastUpTo(cal, day, asOf, step);
        TodaysIsGreatest(cal, asOf, step, ends[|ends| - 1]);
      } else {
        var p := PreviousTradingDay(cal, day);
        if p.Some? { YesterdaysIsGreatest(cal, asOf, step, p.value); } else { NothingBefore(cal, asOf, step); }
      }
    }
  }

  lemma PreviousDayEnded(cal: Calendar, p: int, asOf: int, step: int)
    requires Valid(cal) && step > 0 && p in cal.times && p < cal.dayOf(asOf)
    ensures InRange(cal, p) && EndsUpTo(cal, p, asOf, step) != []
    ensures forall o :: IsGridEnd(cal, step, o) && cal.dayOf(o) <= p ==>
      o <= EndsUpTo(cal, p, asOf, step)[|EndsUpTo(cal, p, asOf, step)| - 1]
  {
    assert GoodDay(cal, p);
    LastUpTo(cal, p, asOf, step);
    DayEndsMeaning(cal, p, step);
    var close := cal.times[p].close;
    assert close in DayEnds(cal, p, step) by { EndsMeaning(cal.times[p].open, close, step); }
    if asOf < close { DaysAreMonotone(cal, asOf, cal.times[p].postClose); }
    forall o | IsGridEnd(cal, step, o) && cal.dayOf(o) < p ensures o < close {
      if o >= close {
        DaysAreMonotone(cal, close, o);
        WithinTheDay(cal, p, close);
      }
    }
  }

  // ----------------------------------------------------------------- counting the lag

  function Between(after: int, upTo: int): int -> bool {
    (e: int) => after < e <= upTo
  }

  /** The grid ends of one day in `(after, upTo]`. */
  function CountOn(cal: Calendar, day: int, after: int, upTo: int, step: int): nat
    requires step > 0
  {
    |L.Keep(DayEnds(cal, day, step), Between(after, upTo))|
  }

  /** The scan, from `day` on: Err where the source raises, Ok(None) when it gives up. */
  function LagFrom(cal: Calendar, day: int, after: int, upTo: int, step: int, rounds: nat): Result<Option<nat>, ()>
    requires step > 0
    decreases rounds
  {
    if rounds == 0 then Ok(None)
    else if !InRange(cal, day) then Err(())
    else if day >= cal.dayOf(upTo) then Ok(Some(CountOn(cal, day, after, upTo, step)))
    else
      match NextTradingDay(cal, day)
      case None => Err(())
      case Some(next) => Plus(CountOn(cal, day, after, upTo, step), LagFrom(cal, next, after, upTo, step, rounds - 1))
  }

  function Plus(n: nat, r: Result<Option<nat>, ()>): Result<Option<nat>, ()> {
    if r.Ok? && r.value.Some? then Ok(Some(n + r.value.value)) else r
  }

  /** What the scan returns from `day` on, with `count` counted so far. */
  function Rest(cal: Calendar, day: int, after: int, upTo: int, step: int, rounds: nat,
                count: nat): Result<Option<nat>, ()>
    requires step > 0
  {
    Plus(count, LagFrom(cal, day, after, upTo, step, rounds))
  }

  lemma LastRound(cal: Calendar, day: int, after: int, upTo: int, step: int, rounds: nat, count: nat)
    requires step > 0 && rounds > 0
    ensures !InRange(cal, day) ==> Rest(cal, day, after, upTo, step, rounds, count) == Err(())
    ensures InRange(cal, day) && day >= cal.dayOf(upTo) ==>
      Rest(cal, day, after, upTo, step, rounds, count) == Ok(Some(count + CountOn(cal, day, after, upTo, step)))
    ensures InRange(cal, day) && day < cal.dayOf(upTo) && NextTradingDay(cal, day).None? ==>
      Rest(cal, day, after, upTo, step, rounds, count) == Err(())
  {
  }

  lemma OneRound(cal: Calendar, day: int, after: int, upTo: int, step: int, rounds: nat, count: nat, next: int)
    requires step > 0 && rounds > 0 && InRange(cal, day) && day < cal.dayOf(upTo) &&
      NextTradingDay(cal, day) == Some(next)
    ensures Rest(cal, day, after, upTo, step, rounds, count) ==
      Rest(cal, next, after, upTo, step, rounds - 1, count + CountOn(cal, day, after, upTo, step))
  {
  }

  method CountDay(cal: Calendar, day: int, after: int, upTo: int, step: int) returns (n: nat)
    requires step > 0
    ensures n == CountOn(cal, day, after, upTo, step)
  {
    var ends := GridEnds(cal, day, step);
    n := |L.Keep(ends, Between(after, upTo))|;
  }

  /** `count_lag`. */
  method CountLag(cal: Calendar, latest: int, expected: int, step: int) returns (r: Result<Option<nat>, ()>)
    requires step > 0
    ensures r == LagFrom(cal, cal.dayOf(latest), latest, expected, step, MAX_SCAN_DAYS)
  {
    r := ScanDays(cal, cal.dayOf(latest), latest, expected, step, MAX_SCAN_DAYS);
  }

  method ScanDays(cal: Calendar, first: int, latest: int, expected: int, step: int, limit: nat)
    returns (r: Result<Option<nat>, ()>)
    requires step > 0
    ensures r == LagFrom(cal, first, latest, expected, step, limit)
  {
    var day := first;
    var count: nat := 0;
    ghost var total := Rest(cal, first, latest, expected, step, limit, 0);
    for n := 0 to limit
      invariant Rest(cal, day, latest, expected, step, limit - n, count) == total
    {
      LastRound(cal, day, latest, expected, step, limit - n, count);
      if !InRange(cal, day) {
        return Err(());
      }
      var ended := CountDay(cal, day, latest, expected, step);
      if day >= cal.dayOf(expected) {
        return Ok(Some(count + ended));
      }
      var next := FindNext(cal, day);
      if next.None? {
        return Err(());
      }
      OneRound(cal, day, latest, expected, step, limit - n, count, next.value);
      day, count := next.value, count + ended;
    }
    return Ok(None);
  }

  /** The grid ends in `(after, upTo]` that fall on `from` or later. */
  ghost function GridSet(cal: Calendar, from: int, after: int, upTo: int, step: int): set<int>
    requires step > 0
  {
    set e: int | after < e <= upTo && IsGridEnd(cal, step, e) && cal.dayOf(e) >= from
  }

  ghost function DaySet(cal: Calendar, day: int, after: int, upTo: int, step: int): set<int>
    requires step > 0
  {
    set e: int | after < e <= upTo && IsGridEnd(cal, step, e) && cal.dayOf(e) == day
  }

  /** All grid ends in `(after, upTo]`. */
  ghost function Lag(cal: Calendar, after: int, upTo: int, step: int): set<int>
    requires step > 0
  {
    set e: int | after < e <= upTo && IsGridEnd(cal, step, e)
  }

  /** The trading days from `from` to `last`. */
  function TradingDays(cal: Calendar, from: int, last: int): nat
    decreases last - from
  {
    if from > last then 0 else (if from in cal.times then 1 else 0) + TradingDays(cal, from + 1, last)
  }

  ghost function Elements(xs: seq<int>): set<int> {
    set x | x in xs
  }

  lemma {:induction false} AscendingCount(xs: seq<int>)
    requires Ascends(xs)
    ensures |Elements(xs)| == |xs|
  {
    if xs != [] {
      var n := |xs| - 1;
      AscendingCount(xs[..n]);
      assert Elements(xs) == Elements(xs[..n]) + {xs[n]};
    }
  }

  /** The ends counted on one day are the grid ends of that day in the interval. */
  lemma CountOnMeaning(cal: Calendar, day: int, after: int, upTo: int, step: int)
    requires Valid(cal) && step > 0
    ensures CountOn(cal, day, after, upTo, step) == |DaySet(cal, day, after, upTo, step)|
  {
    var all := DayEnds(cal, day, step);
    var kept := L.Keep(all, Between(after, upTo));
    DayEndsMeaning(cal, day, step);
    L.KeepChain(all, Between(after, upTo), (x: int, y: int) => x < y);
    forall e ensures e in kept <==> e in all && after < e <= upTo { L.KeepMembers(all, Between(after, upTo), e); }
    AscendingCount(kept);
    assert Elements(kept) == DaySet(cal, day, after, upTo, step);
  }

  lemma {:induction false} SkippedDays(cal: Calendar, day: int, last: int) returns (next: int)
    requires Valid(cal) && day < last && last in cal.times && InRange(cal, day)
    ensures NextTradingDay(cal, day) == Some(next) && day < next <= last && next in cal.times
    ensures TradingDays(cal, day + 1, last) == TradingDays(cal, next, last)
    decreases last - day
  {
    assert GoodDay(cal, last);
    next := day + 1;
    if next !in cal.times {
      next := SkippedDays(cal, day + 1, last);
    }
  }

  /** One step of the scan splits off the ends of its day. */
  lemma SplitOffDay(cal: Calendar, day: int, next: int, after: int, upTo: int, step: int)
    requires Valid(cal) && step > 0 && next > day && forall d <- cal.times :: d > day ==> d >= next
    ensures |GridSet(cal, day, after, upTo, step)| ==
      CountOn(cal, day, after, upTo, step) + |GridSet(cal, next, after, upTo, step)|
  {
    var today := DaySet(cal, day, after, upTo, step);
    CountOnMeaning(cal, day, after, upTo, step);
    assert GridSet(cal, day, after, upTo, step) == today + GridSet(cal, next, after, upTo, step);
    assert today !! GridSet(cal, next, after, upTo, step);
  }

  lemma NextDaySplits(cal: Calendar, day: int, next: int, after: int, upTo: int, step: int)
    requires Valid(cal) && step > 0 && day in cal.times && InRange(cal, day) && NextTradingDay(cal, day) == Some(next)
    ensures |GridSet(cal, day, after, upTo, step)| ==
      CountOn(cal, day, after, upTo, step) + |GridSet(cal, next, after, upTo, step)|
  {
    NextMeaning(cal, day);
    SplitOffDay(cal, day, next, after, upTo, step);
  }

  lemma LastDayMeaning(cal: Calendar, after: int, upTo: int, step: int)
    requires Valid(cal) && step > 0 && cal.dayOf(upTo) in cal.times
    ensures TradingDays(cal, cal.dayOf(upTo), cal.dayOf(upTo)) == 1
    ensures CountOn(cal, cal.dayOf(upTo), after, upTo, step) == |GridSet(cal, cal.dayOf(upTo), after, upTo, step)|
  {
    var last := cal.dayOf(upTo);
    CountOnMeaning(cal, last, after, upTo, step);
    forall e: int | e <= upTo ensures cal.dayOf(e) <= last { DaysAreMonotone(cal, e, upTo); }
    assert GridSet(cal, last, after, upTo, step) == DaySet(cal, last, after, upTo, step);
  }

  ghost function GridCount(cal: Calendar, day: int, after: int, upTo: int, step: int): nat
    requires step > 0
  {
    |GridSet(cal, day, after, upTo, step)|
  }

  /** The count from `day` on is the number of grid ends, unless the days are too many. */
  ghost predicate Counted(cal: Calendar, day: int, after: int, upTo: int, step: int, rounds: nat)
    requires step > 0
  {
    LagFrom(cal, day, after, upTo, step, rounds) == Ok(
      if TradingDays(cal, day, cal.dayOf(upTo)) > rounds then None else Some(GridCount(cal, day, after, upTo, step)))
  }

  lemma {:induction false} LagFromMeaning(cal: Calendar, day: int, after: int, upTo: int, step: int, rounds: nat)
    requires Valid(cal) && step > 0 && day in cal.times && cal.dayOf(upTo) in cal.times && day <= cal.dayOf(upTo)
    ensures Counted(cal, day, after, upTo, step, rounds)
    decreases rounds
  {
    if rounds == 0 {
      assert TradingDays(cal, day, cal.dayOf(upTo)) >= 1;
    } else if day >= cal.dayOf(upTo) {
      CountedLast(cal, after, upTo, step, rounds);
    } else {
      var next := SkippedDays(cal, day, cal.dayOf(upTo));
      LagFromMeaning(cal, next, after, upTo, step, rounds - 1);
      CountedMore(cal, day, next, after, upTo, step, rounds);
    }
  }

  lemma CountedLast(cal: Calendar, after: int, upTo: int, step: int, rounds: nat)
    requires Valid(cal) && step > 0 && rounds > 0 && cal.dayOf(upTo) in cal.times
    ensures Counted(cal, cal.dayOf(upTo), after, upTo, step, rounds)
  {
    assert GoodDay(cal, cal.dayOf(upTo));
    LastDayMeaning(cal, after, upTo, step);
  }

  lemma CountedMore(cal: Calendar, day: int, next: int, after: int, upTo: int, step: int, rounds: nat)
    requires Valid(cal) && step > 0 && rounds > 0 && day in cal.times && day < next <= cal.dayOf(upTo)
    requires NextTradingDay(cal, day) == Some(next) && next in cal.times
    requires TradingDays(cal, day + 1, cal.dayOf(upTo)) == TradingDays(cal, next, cal.dayOf(upTo))
    requires Counted(cal, next, after, upTo, step, rounds - 1)
    ensures Counted(cal, day, after, upTo, step, rounds)
  {
    assert GoodDay(cal, day);
    assert TradingDays(cal, day, cal.dayOf(upTo)) == 1 + TradingDays(cal, day + 1, cal.dayOf(upTo));
    NextDaySplits(cal, day, next, after, upTo, step);
  }

  /** Between two grid ends the count is exactly the number of grid ends in `(latest, expected]`; it is given up exactly
      when the two span more than 40 trading days. */
  lemma CountLagIsExact(cal: Calendar, latest: int, expected: int, step: int)
    requires Valid(cal) && step > 0 && IsGridEnd(cal, step, latest) && IsGridEnd(cal, step, expected) &&
      latest <= expected
    ensures LagFrom(cal, cal.dayOf(latest), latest, expected, step, MAX_SCAN_DAYS) ==
      Ok(if TradingDays(cal, cal.dayOf(latest), cal.dayOf(expected)) > MAX_SCAN_DAYS then None
         else Some(|Lag(cal, latest, expected, step)|))
  {
    DaysAreMonotone(cal, latest, expected);
    LagFromMeaning(cal, cal.dayOf(latest), latest, expected, step, MAX_SCAN_DAYS);
    forall e: int | latest < e ensures cal.dayOf(e) >= cal.dayOf(latest) { DaysAreMonotone(cal, latest, e); }
    assert GridSet(cal, cal.dayOf(latest), latest, expected, step) == Lag(cal, latest, expected, step);
  }

  /** The lag adds up over an intermediate instant, and is zero exactly when the series ends where it should. */
  lemma LagLaws(cal: Calendar, a: int, b: int, c: int, step: int)
    requires step > 0 && a <= b <= c && IsGridEnd(cal, step, c)
    ensures |Lag(cal, a, c, step)| == |Lag(cal, a, b, step)| + |Lag(cal, b, c, step)|
    ensures |Lag(cal, a, c, step)| == 0 <==> a == c
  {
    assert Lag(cal, a, c, step) == Lag(cal, a, b, step) + Lag(cal, b, c, step);
    assert Lag(cal, a, b, step) !! Lag(cal, b, c, step);
    if a < c { assert c in Lag(cal, a, c, step); }
  }

  // ----------------------------------------------------------------- the status

  datatype Status = NoData | Current | MarketClosed | Lagging(bars: nat) | Unknown

  /** What a status says about a series that ends at `latest`. */
  ghost predicate Means(cal: Calendar, latest: int, now: int, asOf: int, step: int, s: Status)
    requires step > 0
  {
    match s
    case NoData => false
    case Current => IsGreatestEnd(cal, asOf, step, latest) && Classify(cal, now) == Regular
    case MarketClosed => IsGreatestEnd(cal, asOf, step, latest) && Classify(cal, now) != Regular
    case Lagging(bars) => exists e ::
      IsGreatestEnd(cal, asOf, step, e) && latest < e && bars == |Lag(cal, latest, e, step)| > 0
    case Unknown => forall e :: IsGreatestEnd(cal, asOf, step, e) ==> Incomparable(cal, latest, e, step)
  }

  /** Off the grid, ahead of the expected end, or too far behind it. */
  ghost predicate Incomparable(cal: Calendar, latest: int, e: int, step: int)
    requires step > 0
  {
    !IsGridEnd(cal, step, latest) || latest > e || TradingDays(cal, cal.dayOf(latest), cal.dayOf(e)) > 40
  }

  lemma GreatestIsUnique(cal: Calendar, asOf: int, step: int, e: int, o: int)
    requires step > 0 && IsGreatestEnd(cal, asOf, step, e) && IsGreatestEnd(cal, asOf, step, o)
    ensures e == o
  {
  }

  /** The status of a series that ends at `l`, where `e` is expected. */
  method Compare(cal: Calendar, l: int, e: int, now: int, asOf: int, step: int) returns (r: Result<Status, ()>)
    requires Valid(cal) && step > 0 && InRange(cal, cal.dayOf(l)) && IsGreatestEnd(cal, asOf, step, e)
    ensures r.Err? ==> !InRange(cal, cal.dayOf(now))
    ensures r.Ok? ==> Means(cal, l, now, asOf, step, r.value)
  {
    forall o | IsGreatestEnd(cal, asOf, step, o) ensures o == e { GreatestIsUnique(cal, asOf, step, e, o); }
    var ends := GridEnds(cal, cal.dayOf(l), step);
    DayEndsMeaning(cal, cal.dayOf(l), step);
    if l !in ends || l > e {
      assert Incomparable(cal, l, e, step);
      return Ok(Unknown);
    }
    var lag := CountLag(cal, l, e, step);
    CountLagIsExact(cal, l, e, step);
    LagLaws(cal, l, l, e, step);
    if lag.value.None? {
      assert Incomparable(cal, l, e, step);
      return Ok(Unknown);
    }
    if lag.value.value > 0 {
      return Ok(Lagging(lag.value.value));
    }
    if !InRange(cal, cal.dayOf(now)) {
      return Err(());
    }
    return Ok(if Classify(cal, now) == Regular then Current else MarketClosed);
  }

  /** `freshness`; Err where a calendar lookup raises. */
  method Assess(cal: Calendar, latest: Option<int>, now: int, asOf: int, step: int) returns (r: Result<Status, ()>)
    requires Valid(cal) && step > 0
    ensures r.Err? && InRange(cal, cal.dayOf(now)) && InRange(cal, cal.dayOf(asOf)) ==>
      (latest.Some? && !InRange(cal, cal.dayOf(latest.value))) || (forall o :: IsGridEnd(cal, step, o) ==> o > asOf)
    ensures r.Ok? && latest.None? ==> r.value == NoData
    ensures r.Ok? && latest.Some? ==> Means(cal, latest.value, now, asOf, step, r.value)
  {
    var expected := ExpectedLatestBarEnd(cal, asOf, step);
    ExpectedIsGreatest(cal, asOf, step, MAX_SCAN_DAYS);
    if expected.Err? {
      return Err(());
    }
    if latest.None? {
      return Ok(NoData);
    }
    if !InRange(cal, cal.dayOf(latest.value)) {
      return Err(());
    }
    r := Compare(cal, latest.value, expected.value.value, now, asOf, step);
  }
}
