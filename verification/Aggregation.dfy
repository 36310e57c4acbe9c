/** Bar aggregation that never crosses a session boundary (market_data/aggregation.py, market_data/completion.py). */
module Aggregation {
  import opened Results
  import opened Calendar
  import L = Lists

  /** Prices and volumes are exact; `start` is the bar's timestamp. */
  datatype Bar = Bar(symbol: string, start: int, interval: Interval, open: real, high: real, low: real, close: real,
                     volume: real, session: Option<Session>)

  function Max(a: real, b: real): real { if a >= b then a else b }
  function MinOf(a: real, b: real): real { if a <= b then a else b }

  /** What the bar constructor enforces. */
  predicate GoodBar(b: Bar) {
    b.high >= Max(b.open, Max(b.close, b.low)) && b.low <= MinOf(b.open, MinOf(b.close, b.high)) && b.volume >= 0.0
  }

  /** One symbol and interval, strictly increasing. */
  predicate Series(bars: seq<Bar>) {
    && (forall i :: 0 <= i < |bars| ==> bars[i].symbol == bars[0].symbol && bars[i].interval == bars[0].interval)
    && (forall i, j :: 0 <= i < j < |bars| ==> bars[i].start < bars[j].start)
  }

  // ----------------------------------------------------------------- buckets

  datatype Key = Key(day: int, session: Session, start: int)

  datatype Placement = Rejected | Skipped | In(key: Key)

  /** Where a bar goes: daily buckets take regular-session bars only, intraday ones are anchored at their segment. */
  function Place(cal: Calendar, t: int, target: Interval): Placement {
    var session := Classify(cal, t);
    if session == Closed then Rejected
    else if !Intraday(target) then
      if session != Regular then Skipped else In(Key(cal.dayOf(t), Regular, cal.midnight(cal.dayOf(t))))
    else In(Key(cal.dayOf(t), session, BucketStart(SegmentAt(cal, t).0, t, Seconds(target))))
  }

  /** The last grid point at or before `t`, counting from the anchor; see `AggregationLaws.BucketByDivision`. */
  function BucketStart(anchor: int, t: int, size: int): int
    requires size > 0
    decreases t - anchor
  {
    if t < anchor + size then anchor else BucketStart(anchor + size, t, size)
  }

  function MaxHigh(bars: seq<Bar>): real
    requires bars != []
  {
    if |bars| == 1 then bars[0].high else Max(MaxHigh(bars[..|bars| - 1]), bars[|bars| - 1].high)
  }

  function MinLow(bars: seq<Bar>): real
    requires bars != []
  {
    if |bars| == 1 then bars[0].low else MinOf(MinLow(bars[..|bars| - 1]), bars[|bars| - 1].low)
  }

  function Volume(bars: seq<Bar>): real {
    if bars == [] then 0.0 else Volume(bars[..|bars| - 1]) + bars[|bars| - 1].volume
  }

  function Combine(key: Key, target: Interval, members: seq<Bar>): Bar
    requires members != []
  {
    Bar(members[0].symbol, key.start, target, members[0].open, MaxHigh(members), MinLow(members),
        members[|members| - 1].close, Volume(members), if Intraday(target) then Some(key.session) else None)
  }

  function Belongs(cal: Calendar, target: Interval, key: Key): Bar -> bool {
    (b: Bar) => Place(cal, b.start, target) == In(key)
  }

  function Members(cal: Calendar, target: Interval, bars: seq<Bar>, key: Key): seq<Bar> {
    L.Keep(bars, Belongs(cal, target, key))
  }

  /** The bucket keys in the order their first members arrive. */
  function Keys(cal: Calendar, target: Interval, bars: seq<Bar>): seq<Key> {
    if bars == [] then []
    else WithKey(Keys(cal, target, bars[..|bars| - 1]), Place(cal, bars[|bars| - 1].start, target))
  }

  function WithKey(keys: seq<Key>, place: Placement): seq<Key> {
    if place.In? && place.key !in keys then keys + [place.key] else keys
  }

  lemma {:induction false} KeysAreOccupied(cal: Calendar, target: Interval, bars: seq<Bar>, key: Key)
    ensures key in Keys(cal, target, bars) <==> Members(cal, target, bars, key) != []
  {
    if bars != [] { KeysAreOccupied(cal, target, bars[..|bars| - 1], key); }
  }

  /** One output bar per key, combining all its members. */
  function Render(cal: Calendar, target: Interval, bars: seq<Bar>, keys: seq<Key>): (out: seq<Bar>)
    requires forall key <- keys :: Members(cal, target, bars, key) != []
    ensures |out| == |keys|
  {
    if keys == [] then []
    else
      var key := keys[|keys| - 1];
      Render(cal, target, bars, keys[..|keys| - 1]) + [Combine(key, target, Members(cal, target, bars, key))]
  }

  lemma KeysOccupied(cal: Calendar, target: Interval, bars: seq<Bar>)
    ensures forall key <- Keys(cal, target, bars) :: Members(cal, target, bars, key) != []
  {
    forall key | key in Keys(cal, target, bars) ensures Members(cal, target, bars, key) != [] {
      KeysAreOccupied(cal, target, bars, key);
    }
  }

  /** The aggregate of an accepted series: one bar per occupied bucket. */
  function Aggregated(cal: Calendar, target: Interval, bars: seq<Bar>): seq<Bar> {
    KeysOccupied(cal, target, bars);
    Render(cal, target, bars, Keys(cal, target, bars))
  }

  predicate AllOpen(cal: Calendar, bars: seq<Bar>) {
    forall b <- bars :: Classify(cal, b.start) != Closed
  }

  predicate Compatible(source: Interval, target: Interval) {
    && Intraday(source) && Seconds(target) > Seconds(source)
    && (Intraday(target) ==> Seconds(target) % Seconds(source) == 0)
  }

  predicate Accepts(cal: Calendar, target: Interval, bars: seq<Bar>) {
    bars == [] || (Series(bars) && Compatible(bars[0].interval, target) && AllOpen(cal, bars))
  }

  // ----------------------------------------------------------------- the loops

  /** `validate_series`. */
  method ValidateSeries(bars: seq<Bar>) returns (ok: bool)
    ensures ok == Series(bars)
  {
    for i := 0 to |bars|
      invariant Series(bars[..i])
    {
      if bars[i].symbol != bars[0].symbol || bars[i].interval != bars[0].interval {
        return false;
      }
      if i > 0 && bars[i].start <= bars[i - 1].start {
        return false;
      }
      assert forall k :: 0 <= k < i ==> bars[..i][k] == bars[k];
      assert bars[..i + 1] == bars[..i] + [bars[i]];
    }
    assert bars[..|bars|] == bars;
    return true;
  }

  function Share(cal: Calendar, target: Interval, b: Bar, key: Key): seq<Bar> {
    if Place(cal, b.start, target) == In(key) then [b] else []
  }

  lemma OneMoreBar(cal: Calendar, target: Interval, bars: seq<Bar>, b: Bar)
    ensures forall key ::
      Members(cal, target, bars + [b], key) == Members(cal, target, bars, key) + Share(cal, target, b, key)
    ensures Keys(cal, target, bars + [b]) == WithKey(Keys(cal, target, bars), Place(cal, b.start, target))
    ensures forall key :: key !in Keys(cal, target, bars) ==> Members(cal, target, bars, key) == []
  {
    assert (bars + [b])[..|bars|] == bars;
    forall key ensures key in Keys(cal, target, bars) <==> Members(cal, target, bars, key) != [] {
      KeysAreOccupied(cal, target, bars, key);
    }
  }

  ghost predicate Grouped(cal: Calendar, target: Interval, bars: seq<Bar>, groups: map<Key, seq<Bar>>,
                          order: seq<Key>) {
    && order == Keys(cal, target, bars)
    && (forall key :: key in order <==> key in groups)
    && (forall key <- groups :: groups[key] == Members(cal, target, bars, key))
  }

  /** Adding a bar to its bucket's list, which is empty if the bucket is new. */
  function Added(groups: map<Key, seq<Bar>>, key: Key, b: Bar): map<Key, seq<Bar>> {
    groups[key := (if key in groups then groups[key] else []) + [b]]
  }

  lemma GroupedOneMore(cal: Calendar, target: Interval, bars: seq<Bar>, groups: map<Key, seq<Bar>>, order: seq<Key>,
                       b: Bar,
                       place: Placement)
    requires Grouped(cal, target, bars, groups, order) && place == Place(cal, b.start, target)
    ensures var more := if place.In? then Added(groups, place.key, b) else groups;
      Grouped(cal, target, bars + [b], more, WithKey(order, place))
  {
    OneMoreBar(cal, target, bars, b);
    var later := if place.In? then Added(groups, place.key, b) else groups;
    forall key | key in later ensures later[key] == Members(cal, target, bars + [b], key) {
      assert Share(cal, target, b, key) == if place == In(key) then [b] else [];
    }
  }

  /** The grouping loop: a dictionary of member lists and the order in which its keys appeared. */
  method Group(bars: seq<Bar>, target: Interval, cal: Calendar)
    returns (ok: bool, groups: map<Key, seq<Bar>>, order: seq<Key>)
    ensures ok == AllOpen(cal, bars)
    ensures ok ==> Grouped(cal, target, bars, groups, order)
  {
    groups, order := map[], [];
    for n := 0 to |bars|
      invariant AllOpen(cal, bars[..n]) && Grouped(cal, target, bars[..n], groups, order)
    {
      var bar := bars[n];
      var place := Place(cal, bar.start, target);
      if place.Rejected? {
        assert bar in bars;
        return false, groups, order;
      }
      GroupedOneMore(cal, target, bars[..n], groups, order, bar, place);
      assert bars[..n + 1] == bars[..n] + [bar];
      if place.In? {
        if place.key !in groups {
          order := order + [place.key];
        }
        groups := Added(groups, place.key, bar);
      }
    }
    assert bars[..|bars|] == bars;
    ok := true;
  }

  lemma RenderOneMore(cal: Calendar, target: Interval, bars: seq<Bar>, keys: seq<Key>, k: nat)
    requires k < |keys| && forall key <- keys :: Members(cal, target, bars, key) != []
    ensures Render(cal, target, bars, keys[..k + 1]) ==
      Render(cal, target, bars, keys[..k]) + [Combine(keys[k], target, Members(cal, target, bars, keys[k]))]
  {
    assert keys[..k + 1][..k] == keys[..k];
  }

  /** The output loop: one bar per bucket. */
  method CombineAll(cal: Calendar, target: Interval, ghost bars: seq<Bar>, groups: map<Key, seq<Bar>>, order: seq<Key>)
    returns (out: seq<Bar>)
    requires Grouped(cal, target, bars, groups, order)
    ensures out == Aggregated(cal, target, bars)
  {
    KeysOccupied(cal, target, bars);
    out := [];
    for k := 0 to |order|
      invariant out == Render(cal, target, bars, order[..k])
    {
      assert order[k] in order && groups[order[k]] == Members(cal, target, bars, order[k]);
      RenderOneMore(cal, target, bars, order, k);
      out := out + [Combine(order[k], target, groups[order[k]])];
    }
    assert order[..|order|] == order;
  }

  /** `aggregate`: it fails exactly on what the source rejects. */
  method Aggregate(bars: seq<Bar>, target: Interval, cal: Calendar) returns (r: Result<seq<Bar>, ()>)
    ensures r == if Accepts(cal, target, bars) then Ok(Aggregated(cal, target, bars)) else Err(())
  {
    var valid := ValidateSeries(bars);
    if !valid {
      return Err(());
    }
    if bars == [] {
      assert Keys(cal, target, bars) == [];
      return Ok([]);
    }
    if !Compatible(bars[0].interval, target) {
      return Err(());
    }
    var ok, groups, order := Group(bars, target, cal);
    if !ok {
      return Err(());
    }
    var out := CombineAll(cal, target, bars, groups, order);
    return Ok(out);
  }
}
