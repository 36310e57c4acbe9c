/** What an aggregated or derived series holds, bar by bar, in terms of the source bars and the clock
    (market_data/aggregation.py, market_data/completion.py, the `bar_end` of market_data/calendar.py). */
module AggregationMeaning {
  import opened Results
  import opened Calendar
  import opened Aggregation
  import opened AggregationLaws
  import opened Completion
  import L = Lists
  import N = Arithmetic

  // ----------------------------------------------------------------- segments, buckets and ends

  /** `t` lies in the session of its day that runs from `low` to `high`, `high` excluded. */
  predicate Within(cal: Calendar, t: int, s: Session, low: int, high: int) {
    cal.dayOf(t) in cal.times &&
    var x := cal.times[cal.dayOf(t)];
    low <= t < high
    && ((s == Pre && low == x.preOpen && high == x.open) || (s == Regular && low == x.open && high == x.close)
        || (s == Post && low == x.close && high == x.postClose))
  }

  /** The lengths of the intervals, in seconds. */
  predicate Lasts(i: Interval, size: int) {
    match i
    case M1 => size == 60
    case M5 => size == 5 * 60
    case M15 => size == 15 * 60
    case M30 => size == 30 * 60
    case H1 => size == 60 * 60
    case D1 => size == 24 * 60 * 60
  }

  /** The bucket of an instant: for an intraday target the whole steps from the start of its segment, for a daily one
      the regular session of the day, stamped at midnight. */
  ghost predicate InBucket(cal: Calendar, target: Interval, t: int, s: Session, start: int) {
    if target == D1 then
      start == cal.midnight(cal.dayOf(t)) && s == Regular && exists low, high :: Within(cal, t, Regular, low, high)
    else exists low, high, q, size :: OnStep(cal, target, t, s, start, low, high, q, size)
  }

  /** `start` is `q` steps after the start of the segment, and the last step at or before `t`. */
  ghost predicate OnStep(cal: Calendar, target: Interval, t: int, s: Session, start: int, low: int, high: int, q: int,
                         size: int) {
    && Within(cal, t, s, low, high) && Lasts(target, size)
    && q >= 0 && start == low + q * size && start <= t < start + size
  }

  /** When a bar that starts at `t` ends: a step later, but not after its segment; a daily bar at the close. */
  ghost predicate Ends(cal: Calendar, t: int, i: Interval, end: int) {
    if i == D1 then cal.dayOf(t) in cal.times && end == cal.times[cal.dayOf(t)].close
    else exists s, low, high, size :: StepEnds(cal, t, i, s, low, high, size, end)
  }

  ghost predicate StepEnds(cal: Calendar, t: int, i: Interval, s: Session, low: int, high: int, size: int, end: int) {
    Within(cal, t, s, low, high) && Lasts(i, size) && end == if t + size <= high then t + size else high
  }

  lemma SecondsMeaning(i: Interval, size: int)
    ensures Lasts(i, size) <==> Seconds(i) == size
  {
  }

  lemma WithinMeaning(cal: Calendar, t: int, s: Session, low: int, high: int)
    requires Valid(cal)
    ensures Within(cal, t, s, low, high) <==>
      s == Classify(cal, t) && s != Closed && SegmentAt(cal, t) == (low, high)
  {
    if cal.dayOf(t) in cal.times { assert GoodDay(cal, cal.dayOf(t)); }
    if Classify(cal, t) != Closed { OwnSegment(cal, t); }
  }

  lemma PlaceMeaning(cal: Calendar, target: Interval, t: int, s: Session, start: int)
    requires Valid(cal)
    ensures InBucket(cal, target, t, s, start) <==> Place(cal, t, target) == In(Key(cal.dayOf(t), s, start))
  {
    if Classify(cal, t) != Closed {
      var (low, high) := SegmentAt(cal, t);
      WithinMeaning(cal, t, Classify(cal, t), low, high);
    }
    forall s', low, high ensures Within(cal, t, s', low, high) <==>
      s' == Classify(cal, t) && s' != Closed && SegmentAt(cal, t) == (low, high)
    {
      WithinMeaning(cal, t, s', low, high);
    }
    if target != D1 && Classify(cal, t) != Closed { StepMeaning(cal, target, t, s, start); }
  }

  lemma StepMeaning(cal: Calendar, target: Interval, t: int, s: Session, start: int)
    requires Valid(cal) && target != D1 && Classify(cal, t) != Closed
    ensures InBucket(cal, target, t, s, start) <==>
      s == Classify(cal, t) && start == BucketStart(SegmentAt(cal, t).0, t, Seconds(target))
  {
    var (low, high) := SegmentAt(cal, t);
    var size := Seconds(target);
    OwnSegment(cal, t);
    WithinMeaning(cal, t, Classify(cal, t), low, high);
    BucketMeaning(low, t, size);
    var p := BucketIsAMultiple(low, t, size);
    SecondsMeaning(target, size);
    if s == Classify(cal, t) && start == BucketStart(low, t, size) {
      assert OnStep(cal, target, t, s, start, low, high, p, size);
    }
    if l, h, q, z :| OnStep(cal, target, t, s, start, l, h, q, z) {
      WithinMeaning(cal, t, s, l, h);
      SecondsMeaning(target, z);
      N.QuotientIsUnique(t - low, size, p, q);
    }
  }

  lemma EndMeaning(cal: Calendar, t: int, i: Interval, end: int)
    requires Valid(cal)
    ensures Ends(cal, t, i, end) <==> EndOf(cal, t, i) == Some(end)
  {
    if i != D1 {
      SecondsMeaning(i, Seconds(i));
      if Classify(cal, t) != Closed {
        var (low, high) := SegmentAt(cal, t);
        WithinMeaning(cal, t, Classify(cal, t), low, high);
        if EndOf(cal, t, i) == Some(end) {
          assert StepEnds(cal, t, i, Classify(cal, t), low, high, Seconds(i), end);
        }
      }
      if s, low, high, size :| StepEnds(cal, t, i, s, low, high, size, end) {
        WithinMeaning(cal, t, s, low, high);
        SecondsMeaning(i, size);
      }
    }
  }

  // ----------------------------------------------------------------- output bars

  /** The bars that fall into a bucket. */
  ghost function Fallen(cal: Calendar, target: Interval, bars: seq<Bar>, s: Session, start: int): seq<Bar> {
    L.Keep(bars, (b: Bar) => InBucket(cal, target, b.start, s, start))
  }

  function Total(bars: seq<Bar>): real {
    if bars == [] then 0.0 else bars[|bars| - 1].volume + Total(bars[..|bars| - 1])
  }

  /** Open of the first member, close of the last, the highest high, the lowest low, and the volumes together. */
  ghost predicate Sums(x: Bar, members: seq<Bar>) {
    && members != [] && x.symbol == members[0].symbol
    && x.open == members[0].open && x.close == members[|members| - 1].close && x.volume == Total(members)
    && (forall b <- members :: x.low <= b.low && b.high <= x.high)
    && (exists b :: b in members && b.high == x.high) && (exists b :: b in members && b.low == x.low)
  }

  ghost predicate SaysBar(cal: Calendar, target: Interval, bars: seq<Bar>, x: Bar) {
    x.interval == target && exists s ::
      x.session == (if target == D1 then None else Some(s)) && Sums(x, Fallen(cal, target, bars, s, x.start))
  }

  ghost predicate HasBucket(cal: Calendar, target: Interval, out: seq<Bar>, t: int) {
    exists x, s :: x in out && InBucket(cal, target, t, s, x.start)
  }

  /** The output is in order, each bar sums up the bars of its bucket, and no tradable bar is left out. */
  ghost predicate SaysSeries(cal: Calendar, target: Interval, bars: seq<Bar>, out: seq<Bar>) {
    && (forall i, j :: 0 <= i < j < |out| ==> out[i].start < out[j].start)
    && (forall x <- out :: SaysBar(cal, target, bars, x))
    && forall b <- bars, s, start :: InBucket(cal, target, b.start, s, start) ==> HasBucket(cal, target, out, b.start)
  }

  lemma {:induction false} TotalIsVolume(bars: seq<Bar>)
    ensures Total(bars) == Volume(bars)
  {
    if bars != [] { TotalIsVolume(bars[..|bars| - 1]); }
  }

  lemma {:induction false} Extremes(members: seq<Bar>)
    requires members != []
    ensures forall b <- members :: MinLow(members) <= b.low && b.high <= MaxHigh(members)
    ensures (exists b :: b in members && b.high == MaxHigh(members)) &&
      (exists b :: b in members && b.low == MinLow(members))
  {
    var n := |members| - 1;
    assert members == members[..n] + [members[n]] && members[n] in members;
    if n > 0 {
      Extremes(members[..n]);
      var h :| h in members[..n] && h.high == MaxHigh(members[..n]);
      var l :| l in members[..n] && l.low == MinLow(members[..n]);
      assert h in members && l in members;
    }
  }

  lemma CombineMeaning(key: Key, target: Interval, members: seq<Bar>)
    requires members != []
    ensures Sums(Combine(key, target, members), members)
  {
    TotalIsVolume(members);
    Extremes(members);
  }

  /** A bucket's key and its start name the same bars. */
  lemma MembersFall(cal: Calendar, target: Interval, bars: seq<Bar>, key: Key)
    requires Valid(cal) && Members(cal, target, bars, key) != []
    ensures Members(cal, target, bars, key) == Fallen(cal, target, bars, key.session, key.start)
  {
    var a := Members(cal, target, bars, key)[0];
    L.KeepMembers(bars, Belongs(cal, target, key), a);
    if Intraday(target) { IntradayPlace(cal, a.start, target); } else { DailyPlace(cal, a.start); }
    forall b | b in bars
      ensures Belongs(cal, target, key)(b) == InBucket(cal, target, b.start, key.session, key.start)
    {
      SameKey(cal, target, b.start, key);
    }
    L.KeepSame(bars, Belongs(cal, target, key),
               (b: Bar) => InBucket(cal, target, b.start, key.session, key.start));
  }

  lemma SameKey(cal: Calendar, target: Interval, t: int, key: Key)
    requires Valid(cal) && cal.dayOf(key.start) == key.day
    ensures Place(cal, t, target) == In(key) <==> InBucket(cal, target, t, key.session, key.start)
  {
    PlaceMeaning(cal, target, t, key.session, key.start);
    if Place(cal, t, target).In? {
      if Intraday(target) { IntradayPlace(cal, t, target); } else { DailyPlace(cal, t); }
    }
  }

  lemma {:induction false} RenderMeaning(cal: Calendar, target: Interval, bars: seq<Bar>, keys: seq<Key>)
    requires Valid(cal) && forall key <- keys :: Members(cal, target, bars, key) != []
    ensures forall x <- Render(cal, target, bars, keys) :: SaysBar(cal, target, bars, x)
  {
    if keys != [] {
      var key := keys[|keys| - 1];
      var members := Members(cal, target, bars, key);
      RenderMeaning(cal, target, bars, keys[..|keys| - 1]);
      CombineMeaning(key, target, members);
      MembersFall(cal, target, bars, key);
      assert Sums(Combine(key, target, members), Fallen(cal, target, bars, key.session, key.start));
    }
  }

  lemma BucketIsOutput(cal: Calendar, target: Interval, bars: seq<Bar>, b: Bar, s: Session, start: int)
    requires Valid(cal) && b in bars && InBucket(cal, target, b.start, s, start)
    ensures HasBucket(cal, target, Aggregated(cal, target, bars), b.start)
  {
    var key := Key(cal.dayOf(b.start), s, start);
    var keys, out := Keys(cal, target, bars), Aggregated(cal, target, bars);
    PlaceMeaning(cal, target, b.start, s, start);
    L.KeepMembers(bars, Belongs(cal, target, key), b);
    KeysAreOccupied(cal, target, bars, key);
    AggregatedStarts(cal, target, bars);
    var k :| 0 <= k < |keys| && keys[k] == key;
    assert out[k] in out && InBucket(cal, target, b.start, s, out[k].start);
  }

  /** Every aggregated series, bar by bar. */
  lemma AggregateSays(cal: Calendar, target: Interval, bars: seq<Bar>)
    requires Valid(cal) && Rising(bars)
    ensures SaysSeries(cal, target, bars, Aggregated(cal, target, bars))
  {
    var keys, out := Keys(cal, target, bars), Aggregated(cal, target, bars);
    KeysOccupied(cal, target, bars);
    RenderMeaning(cal, target, bars, keys);
    KeysIncrease(cal, target, bars);
    AggregatedStarts(cal, target, bars);
    forall b, s, start | b in bars && InBucket(cal, target, b.start, s, start)
      ensures HasBucket(cal, target, out, b.start)
    {
      BucketIsOutput(cal, target, bars, b, s, start);
    }
  }

  // ----------------------------------------------------------------- what is accepted

  ghost predicate Tradable(cal: Calendar, t: int) {
    exists s, low, high :: Within(cal, t, s, low, high)
  }

  /** A daily target takes any intraday source; an intraday one a shorter source that divides it. */
  ghost predicate Divides(source: Interval, target: Interval) {
    source != D1 && exists a, b, n :: Multiple(source, target, a, b, n)
  }

  ghost predicate Multiple(source: Interval, target: Interval, a: int, b: int, n: int) {
    Lasts(source, a) && Lasts(target, b) && a < b && (target == D1 || b == n * a)
  }

  ghost predicate Acceptable(cal: Calendar, target: Interval, bars: seq<Bar>)
    requires bars != []
  {
    && (forall b <- bars :: b.symbol == bars[0].symbol && b.interval == bars[0].interval && Tradable(cal, b.start))
    && Rising(bars) && Divides(bars[0].interval, target)
  }

  lemma CompatibleMeaning(source: Interval, target: Interval)
    ensures Compatible(source, target) <==> Divides(source, target)
  {
    var a, b := Seconds(source), Seconds(target);
    SecondsMeaning(source, a);
    SecondsMeaning(target, b);
    if Compatible(source, target) { assert Multiple(source, target, a, b, b / a); }
    if x, y, n :| source != D1 && Multiple(source, target, x, y, n) {
      SecondsMeaning(source, x);
      SecondsMeaning(target, y);
      if target != D1 { N.ModuloIsUnique(b, a, n, 0); }
    }
  }

  /** The series that `aggregate` takes: empty, or of one symbol and of one intraday interval that divides the target,
      strictly rising, with every bar in a session. */
  lemma AcceptsMeaning(cal: Calendar, target: Interval, bars: seq<Bar>)
    requires Valid(cal)
    ensures Accepts(cal, target, bars) <==> bars == [] || Acceptable(cal, target, bars)
  {
    if bars != [] {
      CompatibleMeaning(bars[0].interval, target);
      forall b | b in bars ensures Tradable(cal, b.start) <==> Classify(cal, b.start) != Closed {
        TradableMeaning(cal, b.start);
      }
      forall k | 0 <= k < |bars| ensures bars[k] in bars {}
    }
  }

  lemma TradableMeaning(cal: Calendar, t: int)
    requires Valid(cal)
    ensures Tradable(cal, t) <==> Classify(cal, t) != Closed
  {
    if Classify(cal, t) != Closed {
      WithinMeaning(cal, t, Classify(cal, t), SegmentAt(cal, t).0, SegmentAt(cal, t).1);
    }
    if s, low, high :| Within(cal, t, s, low, high) { WithinMeaning(cal, t, s, low, high); }
  }

  // ----------------------------------------------------------------- derived bars

  ghost predicate EndsBefore(cal: Calendar, b: Bar, instant: int) {
    exists end :: Ends(cal, b.start, b.interval, end) && end <= instant
  }

  /** A bar of the source ends no earlier than `x`. */
  ghost predicate Covered(cal: Calendar, source: seq<Bar>, x: Bar) {
    exists b, end :: b in source && Ends(cal, b.start, b.interval, end) && EndsBefore(cal, x, end)
  }

  lemma DoneMeaning(cal: Calendar, b: Bar, instant: int)
    requires Valid(cal)
    ensures DoneBy(cal, instant)(b) <==> EndsBefore(cal, b, instant)
  {
    if End(cal, b).Some? { EndMeaning(cal, b.start, b.interval, End(cal, b).value); }
    if end :| Ends(cal, b.start, b.interval, end) && end <= instant { EndMeaning(cal, b.start, b.interval, end); }
  }

  lemma {:induction false} LatestEndMeaning(cal: Calendar, bars: seq<Bar>, low: int)
    requires AllEnd(cal, bars)
    ensures forall b <- bars :: End(cal, b).value <= LatestEnd(cal, bars, low)
    ensures low <= LatestEnd(cal, bars, low)
    ensures LatestEnd(cal, bars, low) == low || exists b :: b in bars && End(cal, b) == Some(LatestEnd(cal, bars, low))
  {
    if bars != [] {
      var h, b := bars[..|bars| - 1], bars[|bars| - 1];
      assert bars == h + [b] && b in bars;
      forall x | x in h ensures End(cal, x).Some? { assert x in bars; }
      LatestEndMeaning(cal, h, low);
      if LatestEnd(cal, h, low) != low && LatestEnd(cal, bars, low) == LatestEnd(cal, h, low) {
        var x :| x in h && End(cal, x) == Some(LatestEnd(cal, h, low));
        assert x in bars;
      }
    }
  }

  lemma CutoffMeaning(cal: Calendar, source: seq<Bar>, asOf: int, x: Bar)
    requires Valid(cal) && source != [] && AllEnd(cal, source)
    ensures DoneBy(cal, Cutoff(cal, source, asOf))(x) <==> EndsBefore(cal, x, asOf) && Covered(cal, source, x)
  {
    assert source[0] in source;
    var low := End(cal, source[0]).value;
    var latest := LatestEnd(cal, source, low);
    LatestEndMeaning(cal, source, low);
    DoneMeaning(cal, x, asOf);
    DoneMeaning(cal, x, Cutoff(cal, source, asOf));
    DoneMeaning(cal, x, latest);
    if DoneBy(cal, latest)(x) {
      var b :| b in source && End(cal, b) == Some(latest);
      EndMeaning(cal, b.start, b.interval, latest);
    }
    if b, end :| b in source && Ends(cal, b.start, b.interval, end) && EndsBefore(cal, x, end) {
      EndMeaning(cal, b.start, b.interval, end);
      DoneMeaning(cal, x, end);
    }
  }

  /** The derived series: the completed source bars are aggregated, and of the outcome exactly the bars remain that end
      by `asOf` and by the end of some completed source bar. */
  lemma DerivedSays(cal: Calendar, target: Interval, bars: seq<Bar>, asOf: int)
    requires Valid(cal) && AllEnd(cal, bars)
    ensures var source := L.Keep(bars, (b: Bar) => EndsBefore(cal, b, asOf));
      Derived(cal, target, bars, asOf) ==
      L.Keep(Aggregated(cal, target, source), (x: Bar) => EndsBefore(cal, x, asOf) && Covered(cal, source, x))
  {
    var source := Completed(cal, bars, asOf);
    forall b | b in bars ensures DoneBy(cal, asOf)(b) == EndsBefore(cal, b, asOf) { DoneMeaning(cal, b, asOf); }
    L.KeepSame(bars, DoneBy(cal, asOf), (b: Bar) => EndsBefore(cal, b, asOf));
    var out := Aggregated(cal, target, source);
    if source == [] {
      assert Keys(cal, target, source) == [] && out == [];
    } else {
      forall b | b in source ensures End(cal, b).Some? { L.KeepMembers(bars, DoneBy(cal, asOf), b); }
      forall x | x in out
        ensures DoneBy(cal, Cutoff(cal, source, asOf))(x) == (EndsBefore(cal, x, asOf) && Covered(cal, source, x))
      {
        CutoffMeaning(cal, source, asOf, x);
      }
      L.KeepSame(out, DoneBy(cal, Cutoff(cal, source, asOf)),
                 (x: Bar) => EndsBefore(cal, x, asOf) && Covered(cal, source, x));
    }
  }
}
