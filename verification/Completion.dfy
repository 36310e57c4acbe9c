/** Completed bars and the derived series (market_data/completion.py, market_data/aggregation.py:61-75): a derived
    series only ever grows. */
module Completion {
  import opened Results
  import opened Calendar
  import opened Aggregation
  import opened AggregationLaws
  import L = Lists

  function End(cal: Calendar, b: Bar): Option<int> {
    EndOf(cal, b.start, b.interval)
  }

  function DoneBy(cal: Calendar, cutoff: int): Bar -> bool {
    (b: Bar) => End(cal, b).Some? && End(cal, b).value <= cutoff
  }

  predicate AllEnd(cal: Calendar, bars: seq<Bar>) {
    forall b <- bars :: End(cal, b).Some?
  }

  function Completed(cal: Calendar, bars: seq<Bar>, asOf: int): seq<Bar> {
    L.Keep(bars, DoneBy(cal, asOf))
  }

  /** The latest end in a list of bars, with `low` as a floor. */
  function LatestEnd(cal: Calendar, bars: seq<Bar>, low: int): int {
    if bars == [] then low
    else
      var before := LatestEnd(cal, bars[..|bars| - 1], low);
      match End(cal, bars[|bars| - 1]) case Some(e) => if e > before then e else before case None => before
  }

  /** The data coverage, cut off at `asOf`. */
  function Cutoff(cal: Calendar, source: seq<Bar>, asOf: int): int
    requires source != []
  {
    Min(asOf, LatestEnd(cal, source, match End(cal, source[0]) case Some(e) => e case None => asOf))
  }

  function Derived(cal: Calendar, target: Interval, bars: seq<Bar>, asOf: int): seq<Bar> {
    var source := Completed(cal, bars, asOf);
    if source == [] then []
    else L.Keep(Aggregated(cal, target, source), DoneBy(cal, Cutoff(cal, source, asOf)))
  }

  /** What `derive_completed` does not reject. */
  predicate Derivable(cal: Calendar, target: Interval, bars: seq<Bar>, asOf: int) {
    AllEnd(cal, bars) && Accepts(cal, target, Completed(cal, bars, asOf))
  }

  // ----------------------------------------------------------------- the loops

  /** `split_completed`: both parts keep the order; a bar with no end fails. */
  method SplitCompleted(bars: seq<Bar>, asOf: int, cal: Calendar)
    returns (ok: bool, completed: seq<Bar>, forming: seq<Bar>)
    ensures ok == AllEnd(cal, bars)
    ensures ok ==> completed == Completed(cal, bars, asOf)
    ensures ok ==> forming == L.Keep(bars, (b: Bar) => !DoneBy(cal, asOf)(b))
  {
    completed, forming := [], [];
    for n := 0 to |bars|
      invariant AllEnd(cal, bars[..n])
      invariant completed == Completed(cal, bars[..n], asOf)
      invariant forming == L.Keep(bars[..n], (b: Bar) => !DoneBy(cal, asOf)(b))
    {
      var end := End(cal, bars[n]);
      assert bars[..n + 1][..n] == bars[..n] && bars[..n + 1] == bars[..n] + [bars[n]];
      if end.None? {
        assert bars[n] in bars;
        return false, completed, forming;
      }
      if end.value <= asOf {
        completed := completed + [bars[n]];
      } else {
        forming := forming + [bars[n]];
      }
    }
    assert bars[..|bars|] == bars;
    ok := true;
  }

  method LatestEndOf(cal: Calendar, bars: seq<Bar>) returns (latest: int)
    requires bars != [] && AllEnd(cal, bars)
    ensures latest == LatestEnd(cal, bars, End(cal, bars[0]).value)
  {
    assert bars[0] in bars;
    latest := End(cal, bars[0]).value;
    ghost var low := latest;
    for n := 0 to |bars|
      invariant latest == LatestEnd(cal, bars[..n], low)
    {
      assert bars[..n + 1][..n] == bars[..n] && bars[n] in bars;
      var e := End(cal, bars[n]).value;
      if e > latest {
        latest := e;
      }
    }
    assert bars[..|bars|] == bars;
  }

  lemma OutputsEnd(cal: Calendar, target: Interval, bars: seq<Bar>)
    requires Valid(cal)
    ensures AllEnd(cal, Aggregated(cal, target, bars))
  {
    KeysOccupied(cal, target, bars);
    RenderedEnd(cal, target, bars, Keys(cal, target, bars));
  }

  lemma {:induction false} RenderedEnd(cal: Calendar, target: Interval, bars: seq<Bar>, keys: seq<Key>)
    requires Valid(cal) && forall key <- keys :: Members(cal, target, bars, key) != []
    ensures AllEnd(cal, Render(cal, target, bars, keys))
  {
    if keys != [] {
      var key := keys[|keys| - 1];
      RenderedEnd(cal, target, bars, keys[..|keys| - 1]);
      var _ := KeyEnds(cal, target, bars, key);
    }
  }

  lemma KeyEnds(cal: Calendar, target: Interval, bars: seq<Bar>, key: Key) returns (b: Bar)
    requires Valid(cal) && Members(cal, target, bars, key) != []
    ensures b in bars && Place(cal, b.start, target) == In(key) && EndOf(cal, key.start, target).Some?
    ensures b.start < EndOf(cal, key.start, target).value
  {
    b := Members(cal, target, bars, key)[0];
    L.KeepMembers(bars, Belongs(cal, target, key), b);
    if Intraday(target) { IntradayPlace(cal, b.start, target); } else { DailyPlace(cal, b.start); }
  }

  /** `derive_completed`. The final filter never fails: every aggregated bar has an end. */
  method DeriveCompleted(bars: seq<Bar>, target: Interval, cal: Calendar, asOf: int) returns (r: Result<seq<Bar>, ()>)
    requires Valid(cal)
    ensures r == if Derivable(cal, target, bars, asOf) then Ok(Derived(cal, target, bars, asOf)) else Err(())
  {
    var ok, source, _ := SplitCompleted(bars, asOf, cal);
    if !ok {
      return Err(());
    }
    if source == [] {
      return Ok([]);
    }
    forall b | b in source ensures b in bars { L.KeepMembers(bars, DoneBy(cal, asOf), b); }
    var latest := LatestEndOf(cal, source);
    var cutoff := Min(asOf, latest);
    var out := Aggregate(source, target, cal);
    if out.Err? {
      return Err(());
    }
    OutputsEnd(cal, target, source);
    var fine, done, _ := SplitCompleted(out.value, cutoff, cal);
    return Ok(done);
  }

  // ----------------------------------------------------------------- no repainting

  /** Every bar starts on its segment's grid (`validate_calendar_series`). */
  predicate Aligned(cal: Calendar, bars: seq<Bar>) {
    forall b <- bars :: Place(cal, b.start, b.interval).In? && Place(cal, b.start, b.interval).key.start == b.start
  }

  /** Bars do not overlap. */
  ghost predicate Spaced(cal: Calendar, bars: seq<Bar>) {
    && AllEnd(cal, bars) && Rising(bars)
    && forall i, j :: 0 <= i < j < |bars| ==> End(cal, bars[i]).value <= bars[j].start < End(cal, bars[j]).value
  }

  lemma AlignedIsSpaced(cal: Calendar, bars: seq<Bar>)
    requires Valid(cal) && Series(bars) && Aligned(cal, bars) && AllEnd(cal, bars)
    ensures Spaced(cal, bars)
  {
    forall i, j | 0 <= i < j < |bars| ensures End(cal, bars[i]).value <= bars[j].start < End(cal, bars[j]).value {
      assert bars[i] in bars && bars[j] in bars;
      LaterBucket(cal, bars[i].start, bars[j].start, bars[i].interval);
      LaterBucket(cal, bars[j].start, bars[j].start, bars[j].interval);
    }
  }

  lemma {:induction false} LatestIsLast(cal: Calendar, bars: seq<Bar>, low: int)
    requires bars != [] && Spaced(cal, bars) && low <= End(cal, bars[0]).value
    ensures LatestEnd(cal, bars, low) == End(cal, bars[|bars| - 1]).value
  {
    var n := |bars| - 1;
    assert bars[n] in bars;
    if n > 0 {
      assert bars[n - 1] in bars && bars[0] in bars;
      LatestIsLast(cal, bars[..n], low);
    } else {
      assert bars[..0] == [];
    }
  }

  predicate EndsBy(cal: Calendar, target: Interval, start: int, cutoff: int) {
    EndOf(cal, start, target).Some? && EndOf(cal, start, target).value <= cutoff
  }

  /** `y` continues `x`: the same buckets first, those that end by the cutoff unchanged. */
  ghost predicate Continues(cal: Calendar, target: Interval, x: seq<Bar>, y: seq<Bar>, cutoff: int) {
    && |x| <= |y|
    && (forall k :: 0 <= k < |x| ==> y[k].start == x[k].start)
    && (forall k :: 0 <= k < |x| && EndsBy(cal, target, x[k].start, cutoff) ==> y[k] == x[k])
  }

  lemma ContinuesOneMore(cal: Calendar, target: Interval, x: seq<Bar>, y: seq<Bar>, cutoff: int, place: Placement,
                         b: Bar)
    requires Continues(cal, target, x, y, cutoff)
    requires place.In? ==> !EndsBy(cal, target, place.key.start, cutoff)
    ensures Continues(cal, target, x, Absorb(y, place, target, b), cutoff)
  {
  }

  lemma OwnBucketEndsLater(cal: Calendar, target: Interval, t: int)
    requires Valid(cal) && Place(cal, t, target).In?
    ensures !EndsBy(cal, target, Place(cal, t, target).key.start, t)
  {
    LaterBucket(cal, t, t, target);
  }

  /** Bars that start at or after `cutoff` leave every output bar that is done by the cutoff as it is. */
  lemma {:induction false} DoneBarsStay(cal: Calendar, target: Interval, bars: seq<Bar>, more: seq<Bar>, cutoff: int)
    requires Valid(cal) && forall b <- more :: b.start >= cutoff
    ensures Continues(cal, target, Stream(cal, target, bars), Stream(cal, target, bars + more), cutoff)
  {
    if more == [] {
      assert bars + more == bars;
    } else {
      var h, b := more[..|more| - 1], more[|more| - 1];
      assert b in more && bars + more == bars + h + [b];
      DoneBarsStay(cal, target, bars, h, cutoff);
      var place := Place(cal, b.start, target);
      if place.In? { OwnBucketEndsLater(cal, target, b.start); }
      ContinuesOneMore(cal, target, Stream(cal, target, bars), Stream(cal, target, bars + h), cutoff, place, b);
    }
  }

  /** Output bars end in order, so that the completed ones are the first ones. */
  lemma OutputsEndInOrder(cal: Calendar, target: Interval, bars: seq<Bar>, cutoff: int)
    requires Valid(cal) && Rising(bars)
    ensures L.Downward(Aggregated(cal, target, bars), DoneBy(cal, cutoff))
    ensures forall x <- Aggregated(cal, target, bars) :: x.interval == target
  {
    var keys, out := Keys(cal, target, bars), Aggregated(cal, target, bars);
    KeysOccupied(cal, target, bars);
    KeysIncrease(cal, target, bars);
    AggregatedStarts(cal, target, bars);
    RenderedInterval(cal, target, bars, keys);
    forall i, j | 0 <= i < j < |out| && DoneBy(cal, cutoff)(out[j]) ensures DoneBy(cal, cutoff)(out[i]) {
      assert out[i] in out && out[j] in out;
      KeysEndInOrder(cal, target, bars, keys[i], keys[j]);
    }
  }

  lemma {:induction false} RenderedInterval(cal: Calendar, target: Interval, bars: seq<Bar>, keys: seq<Key>)
    requires forall key <- keys :: Members(cal, target, bars, key) != []
    ensures forall x <- Render(cal, target, bars, keys) :: x.interval == target
  {
    if keys != [] { RenderedInterval(cal, target, bars, keys[..|keys| - 1]); }
  }

  lemma KeysEndInOrder(cal: Calendar, target: Interval, bars: seq<Bar>, k: Key, l: Key)
    requires Valid(cal) && k.start < l.start
    requires Members(cal, target, bars, k) != [] && Members(cal, target, bars, l) != []
    ensures EndOf(cal, k.start, target).Some? && EndOf(cal, l.start, target).Some?
    ensures EndOf(cal, k.start, target).value <= EndOf(cal, l.start, target).value
  {
    var a := KeyEnds(cal, target, bars, k);
    var b := KeyEnds(cal, target, bars, l);
    if a.start <= b.start {
      LaterBucket(cal, a.start, b.start, target);
    } else {
      LaterBucket(cal, b.start, a.start, target);
    }
  }

  lemma DonePartGrows(cal: Calendar, target: Interval, x: seq<Bar>, y: seq<Bar>, c: int, d: int)
    requires Continues(cal, target, x, y, c) && c <= d && forall b <- x :: b.interval == target
    requires L.Downward(x, DoneBy(cal, c)) && L.Downward(y, DoneBy(cal, d))
    ensures L.Keep(x, DoneBy(cal, c)) <= L.Keep(y, DoneBy(cal, d))
  {
    forall k | 0 <= k < |x| && DoneBy(cal, c)(x[k]) ensures y[k] == x[k] && DoneBy(cal, d)(y[k]) {
      assert x[k] in x && EndsBy(cal, target, x[k].start, c);
    }
    L.KeepGrows(x, y, DoneBy(cal, c), DoneBy(cal, d));
  }

  /** Two completed parts of one series, the second at least as long: what is done in the first stays as it was. */
  lemma DerivedGrows(cal: Calendar, target: Interval, one: seq<Bar>, more: seq<Bar>, c: int, d: int)
    requires Valid(cal) && Rising(one) && Rising(one + more) && c <= d && forall b <- more :: b.start >= c
    ensures L.Keep(Aggregated(cal, target, one), DoneBy(cal, c)) <=
      L.Keep(Aggregated(cal, target, one + more), DoneBy(cal, d))
  {
    StreamAgrees(cal, target, one);
    StreamAgrees(cal, target, one + more);
    DoneBarsStay(cal, target, one, more, c);
    OutputsEndInOrder(cal, target, one, c);
    OutputsEndInOrder(cal, target, one + more, d);
    DonePartGrows(cal, target, Aggregated(cal, target, one), Aggregated(cal, target, one + more), c, d);
  }

  lemma CutoffIsLast(cal: Calendar, bars: seq<Bar>, n: nat, asOf: int)
    requires Spaced(cal, bars) && 0 < n <= |bars| && DoneBy(cal, asOf)(bars[n - 1])
    ensures Cutoff(cal, bars[..n], asOf) == End(cal, bars[n - 1]).value
    ensures Rising(bars[..n]) && forall b <- bars[n..] :: b.start >= End(cal, bars[n - 1]).value
  {
    assert bars[0] in bars;
    LatestIsLast(cal, bars[..n], End(cal, bars[0]).value);
    forall i, j | 0 <= i < j < n ensures bars[i].start < bars[j].start {
      assert bars[i] in bars && bars[j] in bars;
    }
  }

  lemma GrowingParts(cal: Calendar, target: Interval, bars: seq<Bar>, n: nat, m: nat, a1: int, a2: int)
    requires Valid(cal) && Spaced(cal, bars) && 0 < n <= m <= |bars|
    requires DoneBy(cal, a1)(bars[n - 1]) && DoneBy(cal, a2)(bars[m - 1])
    ensures L.Keep(Aggregated(cal, target, bars[..n]), DoneBy(cal, Cutoff(cal, bars[..n], a1))) <=
      L.Keep(Aggregated(cal, target, bars[..m]), DoneBy(cal, Cutoff(cal, bars[..m], a2)))
  {
    CutoffIsLast(cal, bars, n, a1);
    CutoffIsLast(cal, bars, m, a2);
    assert bars[..m] == bars[..n] + bars[n..m];
    DerivedGrows(cal, target, bars[..n], bars[n..m], End(cal, bars[n - 1]).value, End(cal, bars[m - 1]).value);
  }

  /** The completed bars are the first ones, and more of them as the series grows and time passes. */
  lemma CompletedGrows(cal: Calendar, short: seq<Bar>, long: seq<Bar>, a1: int, a2: int)
    requires Spaced(cal, long) && short <= long && a1 <= a2
    ensures var n, m := |Completed(cal, short, a1)|, |Completed(cal, long, a2)|;
      && n <= m <= |long| && Completed(cal, short, a1) == long[..n] && Completed(cal, long, a2) == long[..m]
      && (n > 0 ==> DoneBy(cal, a1)(long[n - 1]) && DoneBy(cal, a2)(long[m - 1]))
  {
    assert forall i :: 0 <= i < |short| ==> short[i] == long[i];
    assert Spaced(cal, short) by {
      forall b | b in short ensures End(cal, b).Some? { assert b in long; }
    }
    L.KeepDownward(short, DoneBy(cal, a1));
    L.KeepDownward(long, DoneBy(cal, a2));
    var n := |Completed(cal, short, a1)|;
    if n > 0 { assert DoneBy(cal, a1)(short[n - 1]) && DoneBy(cal, a2)(long[n - 1]); }
  }

  /** No repainting: when the source series grows and time passes, the derived series only grows. It holds for intraday
      and daily targets, truncated last buckets included, for every grid-aligned source. */
  lemma NoRepainting(cal: Calendar, target: Interval, short: seq<Bar>, long: seq<Bar>, a1: int, a2: int)
    requires Valid(cal) && a1 <= a2 && short <= long
    requires Series(long) && Aligned(cal, long) && AllEnd(cal, long)
    ensures Derived(cal, target, short, a1) <= Derived(cal, target, long, a2)
  {
    AlignedIsSpaced(cal, long);
    CompletedGrows(cal, short, long, a1, a2);
    var n, m := |Completed(cal, short, a1)|, |Completed(cal, long, a2)|;
    if n > 0 { GrowingParts(cal, target, long, n, m, a1, a2); }
  }
}
