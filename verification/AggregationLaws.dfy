/** What aggregation promises: valid output, conservation of volume, and composition of intervals
    (market_data/aggregation.py:23-57). */
module AggregationLaws {
  import opened Results
  import opened Calendar
  import opened Aggregation
  import L = Lists
  import N = Arithmetic

  // ----------------------------------------------------------------- one bar at a time

  function Single(key: Key, target: Interval, b: Bar): Bar {
    Combine(key, target, [b])
  }

  function Extend(x: Bar, b: Bar): Bar {
    x.(high := Max(x.high, b.high), low := MinOf(x.low, b.low), close := b.close, volume := x.volume + b.volume)
  }

  /** A placed bar extends the last output bar if it falls in the same bucket, and starts a new one otherwise. */
  function Absorb(out: seq<Bar>, place: Placement, target: Interval, b: Bar): seq<Bar> {
    if !place.In? then out
    else if out != [] && out[|out| - 1].start == place.key.start then out[..|out| - 1] + [Extend(out[|out| - 1], b)]
    else out + [Single(place.key, target, b)]
  }

  /** The incremental form of aggregation. */
  function Stream(cal: Calendar, target: Interval, bars: seq<Bar>): seq<Bar> {
    if bars == [] then []
    else
      var b := bars[|bars| - 1];
      Absorb(Stream(cal, target, bars[..|bars| - 1]), Place(cal, b.start, target), target, b)
  }

  lemma CombineOneMore(key: Key, target: Interval, members: seq<Bar>, b: Bar)
    requires members != []
    ensures Combine(key, target, members + [b]) == Extend(Combine(key, target, members), b)
  {
    assert (members + [b])[..|members|] == members;
  }

  // ----------------------------------------------------------------- arithmetic of the grid

  lemma {:induction false} BucketIsAMultiple(anchor: int, t: int, size: int) returns (q: nat)
    requires size > 0 && anchor <= t
    ensures BucketStart(anchor, t, size) == anchor + q * size
    decreases t - anchor
  {
    q := 0;
    if t >= anchor + size {
      var p := BucketIsAMultiple(anchor + size, t, size);
      q := p + 1;
      assert q * size == p * size + size;
    }
  }

  /** The grid point is the source's floor division. */
  lemma BucketByDivision(anchor: int, t: int, size: int)
    requires size > 0 && anchor <= t
    ensures BucketStart(anchor, t, size) == anchor + (t - anchor) / size * size
  {
    var q := BucketIsAMultiple(anchor, t, size);
    BucketMeaning(anchor, t, size);
    var x := t - anchor;
    var p := x / size;
    assert p * size <= x < p * size + size;
    N.QuotientIsUnique(x, size, q, p);
  }

  lemma {:induction false} BucketMeaning(anchor: int, t: int, size: int)
    requires size > 0 && anchor <= t
    ensures anchor <= BucketStart(anchor, t, size) <= t < BucketStart(anchor, t, size) + size
    decreases t - anchor
  {
    if t >= anchor + size { BucketMeaning(anchor + size, t, size); }
  }

  /** A later instant is in the same bucket or in one that starts after the first one ends. */
  lemma {:induction false} BucketsAreDisjoint(anchor: int, t: int, u: int, size: int)
    requires size > 0 && anchor <= t <= u
    ensures var x, y := BucketStart(anchor, t, size), BucketStart(anchor, u, size);
      if u < x + size then y == x else x + size <= y
    decreases t - anchor
  {
    if t >= anchor + size {
      BucketsAreDisjoint(anchor + size, t, u, size);
    } else if u >= anchor + size {
      BucketMeaning(anchor + size, u, size);
    }
  }

  lemma {:induction false} SkipBuckets(anchor: int, t: int, m: int, k: nat)
    requires m > 0 && anchor + m * k <= t
    ensures BucketStart(anchor, t, m) == BucketStart(anchor + m * k, t, m)
    decreases k
  {
    if k > 0 {
      assert m * k == m * (k - 1) + m && m * (k - 1) >= 0;
      SkipBuckets(anchor + m, t, m, k - 1);
    }
  }

  /** Bucketing to `m` first changes no bucket of a multiple of `m`. */
  lemma {:induction false} CoarserBuckets(anchor: int, t: int, m: int, k: nat, size: int)
    requires m > 0 && size > 0 && size == m * k && anchor <= t
    ensures BucketStart(anchor, BucketStart(anchor, t, m), size) == BucketStart(anchor, t, size)
    decreases t - anchor
  {
    BucketMeaning(anchor, t, m);
    if t >= anchor + size {
      SkipBuckets(anchor, t, m, k);
      BucketMeaning(anchor + size, t, m);
      CoarserBuckets(anchor + size, t, m, k, size);
    }
  }

  // ----------------------------------------------------------------- keys and time

  lemma OwnSegment(cal: Calendar, t: int)
    requires Valid(cal) && Classify(cal, t) != Closed
    ensures SegmentAt(cal, t).0 <= t < SegmentAt(cal, t).1
    ensures cal.midnight(cal.dayOf(t)) < t && cal.dayOf(t) in cal.times
  {
    assert GoodDay(cal, cal.dayOf(t)) && Dated(cal, t, cal.dayOf(t));
  }

  /** The end of a bucket, as `bar_end` computes it for the aggregated bar. */
  function BucketEnd(cal: Calendar, key: Key, target: Interval): int {
    match EndOf(cal, key.start, target) case None => key.start case Some(end) => end
  }

  lemma IntradayPlace(cal: Calendar, t: int, target: Interval)
    requires Valid(cal) && Intraday(target) && Place(cal, t, target).In?
    ensures var key := Place(cal, t, target).key; var (low, high) := SegmentAt(cal, t);
      && Classify(cal, t) == Classify(cal, key.start) == key.session != Closed
      && cal.dayOf(t) == cal.dayOf(key.start) == key.day && SegmentAt(cal, key.start) == (low, high)
      && low <= key.start <= t < high && t < key.start + Seconds(target)
      && EndOf(cal, key.start, target) == Some(Min(key.start + Seconds(target), high))
  {
    OwnSegment(cal, t);
    BucketMeaning(SegmentAt(cal, t).0, t, Seconds(target));
    SegmentIsOneSession(cal, t, Place(cal, t, target).key.start);
  }

  lemma DailyPlace(cal: Calendar, t: int)
    requires Valid(cal) && Place(cal, t, D1).In?
    ensures var key := Place(cal, t, D1).key;
      && key == Key(cal.dayOf(t), Regular, cal.midnight(cal.dayOf(t))) && cal.dayOf(key.start) == key.day
      && key.start < t < cal.times[key.day].close && EndOf(cal, key.start, D1) == Some(cal.times[key.day].close)
  {
    OwnSegment(cal, t);
    MidnightIsInItsDay(cal, cal.dayOf(t));
  }

  /** Later bars go to the same bucket or to one that starts at or after the first one's end. */
  ghost predicate InOrder(cal: Calendar, k: Key, l: Key, u: int, target: Interval) {
    if k == l then u < BucketEnd(cal, k, target) else k.start < l.start && BucketEnd(cal, k, target) <= u
  }

  lemma LaterIntraday(cal: Calendar, t: int, u: int, target: Interval)
    requires Valid(cal) && t <= u && Intraday(target) && Place(cal, t, target).In? && Place(cal, u, target).In?
    ensures InOrder(cal, Place(cal, t, target).key, Place(cal, u, target).key, u, target)
  {
    IntradayPlace(cal, t, target);
    IntradayPlace(cal, u, target);
    SegmentsAreDisjoint(cal, t, u);
    if SegmentAt(cal, t) == SegmentAt(cal, u) {
      BucketsAreDisjoint(SegmentAt(cal, t).0, t, u, Seconds(target));
    }
  }

  lemma LaterDaily(cal: Calendar, t: int, u: int)
    requires Valid(cal) && t <= u && Place(cal, t, D1).In? && Place(cal, u, D1).In?
    ensures InOrder(cal, Place(cal, t, D1).key, Place(cal, u, D1).key, u, D1)
  {
    DailyPlace(cal, t);
    DailyPlace(cal, u);
    DaysAreMonotone(cal, t, u);
    var d := cal.dayOf(t);
    if d < cal.dayOf(u) {
      assert GoodDay(cal, d) && Dated(cal, cal.times[d].postClose, cal.dayOf(u)) && Dated(cal, u, d);
    }
  }

  lemma LaterBucket(cal: Calendar, t: int, u: int, target: Interval)
    requires Valid(cal) && t <= u && Place(cal, t, target).In? && Place(cal, u, target).In?
    ensures InOrder(cal, Place(cal, t, target).key, Place(cal, u, target).key, u, target)
  {
    if Intraday(target) { LaterIntraday(cal, t, u, target); } else { LaterDaily(cal, t, u); }
  }

  // ----------------------------------------------------------------- keys come in order

  predicate Rising(bars: seq<Bar>) {
    forall i, j :: 0 <= i < j < |bars| ==> bars[i].start < bars[j].start
  }

  /** A bar later than all others goes to the last bucket or to a new one. */
  lemma KeyOfLaterBar(cal: Calendar, target: Interval, bars: seq<Bar>, b: Bar, key: Key)
    requires Valid(cal) && Rising(bars + [b]) && Place(cal, b.start, target).In? && key in Keys(cal, target, bars)
    ensures InOrder(cal, key, Place(cal, b.start, target).key, b.start, target)
  {
    KeysAreOccupied(cal, target, bars, key);
    var members := Members(cal, target, bars, key);
    var a := members[0];
    assert a in members;
    L.KeepMembers(bars, Belongs(cal, target, key), a);
    var i :| 0 <= i < |bars| && bars[i] == a;
    assert (bars + [b])[i].start < (bars + [b])[|bars|].start;
    LaterBucket(cal, a.start, b.start, target);
  }

  lemma RisingPrefix(bars: seq<Bar>, b: Bar)
    requires Rising(bars + [b])
    ensures Rising(bars) && forall i :: 0 <= i < |bars| ==> bars[i].start < b.start
  {
    var all := bars + [b];
    assert forall i :: 0 <= i < |bars| ==> all[i] == bars[i];
    assert all[|bars|] == b;
  }

  predicate Increasing(keys: seq<Key>) {
    forall i, j :: 0 <= i < j < |keys| ==> keys[i].start < keys[j].start
  }

  lemma {:induction false} KeysIncrease(cal: Calendar, target: Interval, bars: seq<Bar>)
    requires Valid(cal) && Rising(bars)
    ensures Increasing(Keys(cal, target, bars))
  {
    if bars != [] {
      var h, b := bars[..|bars| - 1], bars[|bars| - 1];
      assert bars == h + [b];
      var keys, place := Keys(cal, target, h), Place(cal, b.start, target);
      KeysIncrease(cal, target, h);
      if place.In? && place.key !in keys {
        forall i | 0 <= i < |keys| ensures keys[i].start < place.key.start {
          KeyOfLaterBar(cal, target, h, b, keys[i]);
        }
      }
    }
  }

  /** Nothing in the list starts after the key. */
  predicate Precede(keys: seq<Key>, key: Key) {
    Increasing(keys) && (keys != [] ==> keys[|keys| - 1] == key || keys[|keys| - 1].start < key.start)
  }

  lemma KeysPrecede(cal: Calendar, target: Interval, bars: seq<Bar>, b: Bar, key: Key)
    requires Valid(cal) && Rising(bars + [b]) && Place(cal, b.start, target) == In(key)
    ensures Precede(Keys(cal, target, bars), key)
  {
    var keys := Keys(cal, target, bars);
    RisingPrefix(bars, b);
    KeysIncrease(cal, target, bars);
    if keys != [] {
      KeyOfLaterBar(cal, target, bars, b, keys[|keys| - 1]);
    }
  }

  lemma KnownKeyIsLast(keys: seq<Key>, key: Key)
    requires Precede(keys, key)
    ensures if keys != [] && keys[|keys| - 1].start == key.start then keys[|keys| - 1] == key else key !in keys
  {
    assert forall i :: 0 <= i < |keys| - 1 ==> keys[i].start < keys[|keys| - 1].start;
  }

  /** Buckets that gained no member look the same. */
  lemma {:induction false} SameRendering(cal: Calendar, target: Interval, bars: seq<Bar>, more: seq<Bar>,
                                         keys: seq<Key>)
    requires forall key <- keys :: Members(cal, target, bars, key) == Members(cal, target, more, key) != []
    ensures Render(cal, target, more, keys) == Render(cal, target, bars, keys)
  {
    if keys != [] { SameRendering(cal, target, bars, more, keys[..|keys| - 1]); }
  }

  lemma NothingPlaced(cal: Calendar, target: Interval, bars: seq<Bar>, b: Bar)
    requires !Place(cal, b.start, target).In?
    ensures Aggregated(cal, target, bars + [b]) == Aggregated(cal, target, bars)
  {
    OneMoreBar(cal, target, bars, b);
    KeysOccupied(cal, target, bars);
    SameRendering(cal, target, bars, bars + [b], Keys(cal, target, bars));
  }

  lemma NewBucket(cal: Calendar, target: Interval, bars: seq<Bar>, b: Bar, key: Key)
    requires Place(cal, b.start, target) == In(key) && key !in Keys(cal, target, bars)
    ensures Aggregated(cal, target, bars + [b]) == Aggregated(cal, target, bars) + [Single(key, target, b)]
  {
    var keys := Keys(cal, target, bars);
    OneMoreBar(cal, target, bars, b);
    KeysOccupied(cal, target, bars);
    SameRendering(cal, target, bars, bars + [b], keys);
    assert (keys + [key])[..|keys|] == keys;
  }

  lemma SameBucket(cal: Calendar, target: Interval, bars: seq<Bar>, b: Bar, key: Key)
    requires Place(cal, b.start, target) == In(key) && Increasing(Keys(cal, target, bars))
    requires var keys := Keys(cal, target, bars); keys != [] && keys[|keys| - 1] == key
    ensures var out := Aggregated(cal, target, bars);
      Aggregated(cal, target, bars + [b]) == out[..|out| - 1] + [Extend(out[|out| - 1], b)]
  {
    var keys := Keys(cal, target, bars);
    KeysOccupied(cal, target, bars);
    assert key in keys && Keys(cal, target, bars + [b]) == keys by { OneMoreBar(cal, target, bars, b); }
    EarlierBuckets(cal, target, bars, b, key);
    MembersOneMore(cal, target, bars, b, key);
    CombineOneMore(key, target, Members(cal, target, bars, key), b);
  }

  lemma MembersOneMore(cal: Calendar, target: Interval, bars: seq<Bar>, b: Bar, key: Key)
    ensures Members(cal, target, bars + [b], key) == Members(cal, target, bars, key) + Share(cal, target, b, key)
  {
    L.KeepOneMore(bars, b, Belongs(cal, target, key));
  }

  /** A bar of the last bucket leaves the earlier ones alone. */
  lemma EarlierBuckets(cal: Calendar, target: Interval, bars: seq<Bar>, b: Bar, key: Key)
    requires Place(cal, b.start, target) == In(key) && Increasing(Keys(cal, target, bars))
    requires var keys := Keys(cal, target, bars); keys != [] && keys[|keys| - 1] == key
    ensures var keys := Keys(cal, target, bars); var first := keys[..|keys| - 1];
      && (forall k <- first :: Members(cal, target, bars, k) == Members(cal, target, bars + [b], k) != [])
      && Render(cal, target, bars + [b], first) == Render(cal, target, bars, first)
  {
    var keys := Keys(cal, target, bars);
    var first := keys[..|keys| - 1];
    KeysOccupied(cal, target, bars);
    forall k | k in first ensures Members(cal, target, bars, k) == Members(cal, target, bars + [b], k) != [] {
      var i :| 0 <= i < |first| && first[i] == k;
      assert keys[i].start < key.start && k in keys;
      MembersOneMore(cal, target, bars, b, k);
    }
    SameRendering(cal, target, bars, bars + [b], first);
  }

  lemma {:induction false} RenderedStarts(cal: Calendar, target: Interval, bars: seq<Bar>, keys: seq<Key>)
    requires forall key <- keys :: Members(cal, target, bars, key) != []
    ensures forall k :: 0 <= k < |keys| ==> Render(cal, target, bars, keys)[k].start == keys[k].start
  {
    if keys != [] { RenderedStarts(cal, target, bars, keys[..|keys| - 1]); }
  }

  lemma AggregatedStarts(cal: Calendar, target: Interval, bars: seq<Bar>)
    ensures var out, keys := Aggregated(cal, target, bars), Keys(cal, target, bars);
      |out| == |keys| && forall k :: 0 <= k < |keys| ==> out[k].start == keys[k].start
  {
    KeysOccupied(cal, target, bars);
    RenderedStarts(cal, target, bars, Keys(cal, target, bars));
  }

  lemma AbsorbedOneMore(cal: Calendar, target: Interval, bars: seq<Bar>, b: Bar, key: Key)
    requires Place(cal, b.start, target) == In(key) && Precede(Keys(cal, target, bars), key)
    ensures Aggregated(cal, target, bars + [b]) == Absorb(Aggregated(cal, target, bars), In(key), target, b)
  {
    var keys := Keys(cal, target, bars);
    AggregatedStarts(cal, target, bars);
    KnownKeyIsLast(keys, key);
    if keys != [] && keys[|keys| - 1].start == key.start {
      SameBucket(cal, target, bars, b, key);
    } else {
      NewBucket(cal, target, bars, b, key);
    }
  }

  lemma AggregatedOneMore(cal: Calendar, target: Interval, bars: seq<Bar>, b: Bar, place: Placement)
    requires Valid(cal) && Rising(bars + [b]) && place == Place(cal, b.start, target)
    ensures Aggregated(cal, target, bars + [b]) == Absorb(Aggregated(cal, target, bars), place, target, b)
  {
    if place.In? {
      KeysPrecede(cal, target, bars, b, place.key);
      AbsorbedOneMore(cal, target, bars, b, place.key);
    } else {
      NothingPlaced(cal, target, bars, b);
    }
  }

  /** The dictionary of groups and the incremental form agree on every strictly increasing series. */
  lemma {:induction false} StreamAgrees(cal: Calendar, target: Interval, bars: seq<Bar>)
    requires Valid(cal) && Rising(bars)
    ensures Aggregated(cal, target, bars) == Stream(cal, target, bars)
  {
    if bars != [] {
      var h, b := bars[..|bars| - 1], bars[|bars| - 1];
      assert bars == h + [b];
      StreamAgrees(cal, target, h);
      AggregatedOneMore(cal, target, h, b, Place(cal, b.start, target));
    }
  }

  // ----------------------------------------------------------------- the output is a valid series

  /** Every instant of an output bar's bucket is tradable, and the output bar starts there. */
  ghost predicate GoodOutput(cal: Calendar, target: Interval, x: Bar) {
    GoodBar(x) && x.interval == target && EndOf(cal, x.start, target).Some? &&
      (Intraday(target) ==> Classify(cal, x.start) != Closed)
  }

  lemma SingleFacts(key: Key, target: Interval, b: Bar)
    ensures Single(key, target, b) == Bar(b.symbol, key.start, target, b.open, b.high, b.low, b.close, b.volume,
                                          if Intraday(target) then Some(key.session) else None)
  {
    VolumeSnoc([], b);
    assert [] + [b] == [b];
  }

  lemma VolumeSnoc(xs: seq<Bar>, b: Bar)
    ensures Volume(xs + [b]) == Volume(xs) + b.volume
  {
    assert (xs + [b])[..|xs|] == xs;
  }

  lemma {:induction false} CombinedIsGood(key: Key, target: Interval, members: seq<Bar>)
    requires members != [] && forall b <- members :: GoodBar(b)
    ensures GoodBar(Combine(key, target, members))
  {
    var n := |members| - 1;
    if n > 0 {
      CombinedIsGood(key, target, members[..n]);
      assert members == members[..n] + [members[n]] && members[n] in members;
      CombineOneMore(key, target, members[..n], members[n]);
    } else {
      SingleFacts(key, target, members[0]);
      assert members == [members[0]] && members[0] in members;
      assert Combine(key, target, members) == Single(key, target, members[0]);
    }
  }

  lemma BucketIsGood(cal: Calendar, target: Interval, bars: seq<Bar>, key: Key)
    requires Valid(cal) && Members(cal, target, bars, key) != [] && forall b <- bars :: GoodBar(b)
    ensures var x := Combine(key, target, Members(cal, target, bars, key)); GoodOutput(cal, target, x)
    ensures exists b :: b in bars && b.symbol == Combine(key, target, Members(cal, target, bars, key)).symbol
  {
    var members := Members(cal, target, bars, key);
    forall b | b in members ensures b in bars && Place(cal, b.start, target) == In(key) {
      L.KeepMembers(bars, Belongs(cal, target, key), b);
    }
    CombinedIsGood(key, target, members);
    var a := members[0];
    assert a in members && a in bars;
    if Intraday(target) { IntradayPlace(cal, a.start, target); } else { DailyPlace(cal, a.start); }
  }

  lemma {:induction false} RenderedIsGood(cal: Calendar, target: Interval, bars: seq<Bar>, keys: seq<Key>)
    requires Valid(cal) && forall b <- bars :: GoodBar(b)
    requires forall key <- keys :: Members(cal, target, bars, key) != []
    ensures forall x <- Render(cal, target, bars, keys) ::
      GoodOutput(cal, target, x) && exists b :: b in bars && b.symbol == x.symbol
  {
    if keys != [] {
      RenderedIsGood(cal, target, bars, keys[..|keys| - 1]);
      BucketIsGood(cal, target, bars, keys[|keys| - 1]);
    }
  }

  /** The bars that an aggregation to `target` takes up. */
  function Taken(cal: Calendar, target: Interval): Bar -> bool {
    (b: Bar) => Place(cal, b.start, target).In?
  }

  lemma AbsorbVolume(out: seq<Bar>, place: Placement, target: Interval, b: Bar)
    ensures Volume(Absorb(out, place, target, b)) == Volume(out) + if place.In? then b.volume else 0.0
  {
    if place.In? {
      if out != [] && out[|out| - 1].start == place.key.start {
        VolumeSnoc(out[..|out| - 1], Extend(out[|out| - 1], b));
      } else {
        SingleFacts(place.key, target, b);
        VolumeSnoc(out, Single(place.key, target, b));
      }
    }
  }

  lemma {:induction false} StreamVolume(cal: Calendar, target: Interval, bars: seq<Bar>)
    ensures Volume(Stream(cal, target, bars)) == Volume(L.Keep(bars, Taken(cal, target)))
  {
    if bars != [] {
      var h, b := bars[..|bars| - 1], bars[|bars| - 1];
      StreamVolume(cal, target, h);
      AbsorbVolume(Stream(cal, target, h), Place(cal, b.start, target), target, b);
      TakenVolume(cal, target, h, b);
      assert bars == h + [b];
    }
  }

  lemma TakenVolume(cal: Calendar, target: Interval, bars: seq<Bar>, b: Bar)
    ensures Volume(L.Keep(bars + [b], Taken(cal, target))) ==
      Volume(L.Keep(bars, Taken(cal, target))) + if Place(cal, b.start, target).In? then b.volume else 0.0
  {
    assert (bars + [b])[..|bars|] == bars;
    VolumeSnoc(L.Keep(bars, Taken(cal, target)), b);
  }

  /** The output of an accepted series is again a valid series of the target interval, and keeps the price inequalities,
      so that no bar construction can fail. */
  lemma OutputIsValid(cal: Calendar, target: Interval, bars: seq<Bar>)
    requires Valid(cal) && Accepts(cal, target, bars) && bars != [] && forall b <- bars :: GoodBar(b)
    ensures var out := Aggregated(cal, target, bars);
      && Series(out) && AllOpenFor(cal, target, out)
      && forall x <- out :: GoodBar(x) && x.interval == target && x.symbol == bars[0].symbol
  {
    var keys, out := Keys(cal, target, bars), Aggregated(cal, target, bars);
    KeysOccupied(cal, target, bars);
    RenderedIsGood(cal, target, bars, keys);
    KeysIncrease(cal, target, bars);
    AggregatedStarts(cal, target, bars);
    OutputIsSeries(cal, target, bars, out, keys);
  }

  lemma OutputIsSeries(cal: Calendar, target: Interval, bars: seq<Bar>, out: seq<Bar>, keys: seq<Key>)
    requires bars != [] && Series(bars) && Increasing(keys) && |out| == |keys|
    requires forall k :: 0 <= k < |keys| ==> out[k].start == keys[k].start
    requires forall x <- out :: GoodOutput(cal, target, x) && exists b :: b in bars && b.symbol == x.symbol
    ensures Series(out) && AllOpenFor(cal, target, out)
    ensures forall x <- out :: GoodBar(x) && x.interval == target && x.symbol == bars[0].symbol
  {
    forall k | 0 <= k < |out| ensures out[k].symbol == bars[0].symbol && out[k].interval == target {
      assert out[k] in out;
    }
  }

  /** The output has the volume of the bars it groups: all of them for an intraday target, those of the regular session
      for a daily one. */
  lemma VolumeIsConserved(cal: Calendar, target: Interval, bars: seq<Bar>)
    requires Valid(cal) && Accepts(cal, target, bars)
    ensures Volume(Aggregated(cal, target, bars)) ==
      Volume(if Intraday(target) then bars else L.Keep(bars, (b: Bar) => Classify(cal, b.start) == Regular))
  {
    StreamAgrees(cal, target, bars);
    StreamVolume(cal, target, bars);
    TakenMeaning(cal, target, bars);
  }

  /** An intraday output can itself be aggregated further. */
  predicate AllOpenFor(cal: Calendar, target: Interval, out: seq<Bar>) {
    Intraday(target) ==> AllOpen(cal, out)
  }

  lemma TakenMeaning(cal: Calendar, target: Interval, bars: seq<Bar>)
    requires AllOpen(cal, bars)
    ensures L.Keep(bars, Taken(cal, target)) ==
      if Intraday(target) then bars else L.Keep(bars, (b: Bar) => Classify(cal, b.start) == Regular)
  {
    if Intraday(target) {
      L.KeepSame(bars, Taken(cal, target), (b: Bar) => true);
      L.EverythingKept(bars);
    } else {
      L.KeepSame(bars, Taken(cal, target), (b: Bar) => Classify(cal, b.start) == Regular);
    }
  }

  // ----------------------------------------------------------------- composition

  /** A bucket lies in the same coarser bucket as each of its members. */
  lemma BucketOfBucket(cal: Calendar, t: int, m: Interval, target: Interval)
    requires Valid(cal) && Compatible(m, target) && Place(cal, t, m).In?
    ensures Place(cal, Place(cal, t, m).key.start, target) == Place(cal, t, target)
  {
    IntradayPlace(cal, t, m);
    if Intraday(target) {
      CoarserBuckets(SegmentAt(cal, t).0, t, Seconds(m), Seconds(target) / Seconds(m), Seconds(target));
    }
  }

  /** Combining first and absorbing the combination is absorbing one after the other. */
  lemma AbsorbTwice(out: seq<Bar>, place: Placement, target: Interval, x: Bar, b: Bar)
    ensures Absorb(Absorb(out, place, target, x), place, target, b) == Absorb(out, place, target, Extend(x, b))
  {
  }

  lemma AbsorbSingle(out: seq<Bar>, place: Placement, target: Interval, key: Key, m: Interval, b: Bar)
    ensures Absorb(out, place, target, Single(key, m, b)) == Absorb(out, place, target, b)
  {
    SingleFacts(key, m, b);
    if place.In? {
      SingleFacts(place.key, target, b);
      SingleFacts(place.key, target, Single(key, m, b));
    }
  }

  lemma {:induction false} StreamsCompose(cal: Calendar, m: Interval, target: Interval, bars: seq<Bar>)
    requires Valid(cal) && Compatible(m, target)
    ensures Stream(cal, target, Stream(cal, m, bars)) == Stream(cal, target, bars)
  {
    if bars != [] {
      var h, b := bars[..|bars| - 1], bars[|bars| - 1];
      var place, mid := Place(cal, b.start, m), Stream(cal, m, h);
      StreamsCompose(cal, m, target, h);
      if place.In? {
        BucketOfBucket(cal, b.start, m, target);
        if mid != [] && mid[|mid| - 1].start == place.key.start {
          var x := mid[|mid| - 1];
          assert mid == mid[..|mid| - 1] + [x];
          AbsorbTwice(Stream(cal, target, mid[..|mid| - 1]), Place(cal, b.start, target), target, x, b);
        } else {
          AbsorbSingle(Stream(cal, target, mid), Place(cal, b.start, target), target, place.key, m, b);
        }
      }
    }
  }

  /** Intervals compose: aggregating to `m` and then to `target` is accepted and equals aggregating straight to
      `target`, also for a daily target. */
  lemma AggregationComposes(cal: Calendar, m: Interval, target: Interval, bars: seq<Bar>)
    requires Valid(cal) && Accepts(cal, m, bars) && Compatible(m, target) && forall b <- bars :: GoodBar(b)
    ensures Accepts(cal, target, Aggregated(cal, m, bars))
    ensures Aggregated(cal, target, Aggregated(cal, m, bars)) == Aggregated(cal, target, bars)
  {
    if bars != [] { OutputIsValid(cal, m, bars); }
    var mid := Aggregated(cal, m, bars);
    StreamAgrees(cal, m, bars);
    StreamAgrees(cal, target, bars);
    StreamAgrees(cal, target, mid);
    StreamsCompose(cal, m, target, bars);
  }
}
