/** The exchange calendar (market_data/calendar.py) over integer seconds and an abstract local day. */
module Calendar {
  import opened Results

  datatype Session = Pre | Regular | Post | Closed

  datatype SessionTimes = SessionTimes(preOpen: int, open: int, close: int, postClose: int)

  /** `dayOf` is the local date of an instant and `midnight` the first instant of a date; `times` holds the trading
      days. Dates outside `first`..`last` are lookup errors. */
  datatype Calendar = Calendar(first: int, last: int, times: map<int, SessionTimes>, dayOf: int -> int,
                               midnight: int -> int)

  ghost predicate Valid(cal: Calendar) {
    && (forall d, e :: Ascending(cal, d, e))
    && (forall t, d :: Dated(cal, t, d))
    && (forall d <- cal.times :: GoodDay(cal, d))
  }

  predicate Ascending(cal: Calendar, d: int, e: int) {
    d < e ==> cal.midnight(d) < cal.midnight(e)
  }

  /** An instant lies at or after its day's midnight and before the midnight of any later day. */
  predicate Dated(cal: Calendar, t: int, d: int) {
    cal.midnight(cal.dayOf(t)) <= t && (d > cal.dayOf(t) ==> t < cal.midnight(d))
  }

  predicate GoodDay(cal: Calendar, d: int)
    requires d in cal.times
  {
    var x := cal.times[d];
    && cal.first <= d <= cal.last
    && cal.midnight(d) < x.preOpen < x.open < x.close < x.postClose && cal.dayOf(x.postClose) == d
  }

  predicate InRange(cal: Calendar, day: int) {
    cal.first <= day <= cal.last
  }

  function Segment(x: SessionTimes, session: Session): (int, int)
    requires session != Closed
  {
    match session case Pre => (x.preOpen, x.open) case Regular => (x.open, x.close) case Post => (x.close, x.postClose)
  }

  /** `classify`, with an instant outside the calendar's range counted as closed: both fail an aggregation. */
  function Classify(cal: Calendar, t: int): Session {
    match Lookup(cal.times, cal.dayOf(t))
    case None => Closed
    case Some(x) =>
      if x.preOpen <= t < x.open then Pre
      else if x.open <= t < x.close then Regular
      else if x.close <= t < x.postClose then Post
      else Closed
  }

  /** The segment that holds an instant. */
  function SegmentAt(cal: Calendar, t: int): (int, int)
    requires Classify(cal, t) != Closed
  {
    Segment(cal.times[cal.dayOf(t)], Classify(cal, t))
  }

  datatype Interval = M1 | M5 | M15 | M30 | H1 | D1

  function Seconds(i: Interval): int {
    match i case M1 => 60 case M5 => 300 case M15 => 900 case M30 => 1800 case H1 => 3600 case D1 => 86400
  }

  predicate Intraday(i: Interval) {
    i != D1
  }

  function Min(a: int, b: int): int {
    if a <= b then a else b
  }

  /** `bar_end` of a bar that starts at `t`; None where the source raises. */
  function EndOf(cal: Calendar, t: int, i: Interval): Option<int> {
    if !Intraday(i) then (match Lookup(cal.times, cal.dayOf(t)) case None => None case Some(x) => Some(x.close))
    else if Classify(cal, t) == Closed then None
    else Some(Min(t + Seconds(i), SegmentAt(cal, t).1))
  }

  // ----------------------------------------------------------------- facts

  lemma DaysAreMonotone(cal: Calendar, t: int, u: int)
    requires Valid(cal) && t <= u
    ensures cal.dayOf(t) <= cal.dayOf(u)
  {
    assert Dated(cal, u, cal.dayOf(t)) && Dated(cal, t, cal.dayOf(t)) && Ascending(cal, cal.dayOf(u), cal.dayOf(t));
    assert Dated(cal, u, cal.dayOf(t));
  }

  lemma MidnightIsInItsDay(cal: Calendar, d: int)
    requires Valid(cal)
    ensures cal.dayOf(cal.midnight(d)) == d
  {
    var t := cal.midnight(d);
    assert Dated(cal, t, d) && Ascending(cal, d, cal.dayOf(t));
  }

  /** Everything from midnight to the post-market close belongs to the trading day. */
  lemma WithinTheDay(cal: Calendar, d: int, t: int)
    requires Valid(cal) && d in cal.times && cal.midnight(d) <= t <= cal.times[d].postClose
    ensures cal.dayOf(t) == d
  {
    assert GoodDay(cal, d);
    MidnightIsInItsDay(cal, d);
    DaysAreMonotone(cal, cal.midnight(d), t);
    DaysAreMonotone(cal, t, cal.times[d].postClose);
  }

  /** A segment is one session throughout. */
  lemma SegmentIsOneSession(cal: Calendar, t: int, u: int)
    requires Valid(cal) && Classify(cal, t) != Closed && SegmentAt(cal, t).0 <= u < SegmentAt(cal, t).1
    ensures SegmentAt(cal, t).0 <= t < SegmentAt(cal, t).1
    ensures cal.dayOf(u) == cal.dayOf(t) && Classify(cal, u) == Classify(cal, t) &&
      SegmentAt(cal, u) == SegmentAt(cal, t)
  {
    assert GoodDay(cal, cal.dayOf(t));
    WithinTheDay(cal, cal.dayOf(t), u);
  }

  /** Segments do not overlap: a later instant is in the same segment or in one that starts no earlier than the first
      ends. */
  lemma SegmentsAreDisjoint(cal: Calendar, t: int, u: int)
    requires Valid(cal) && t <= u && Classify(cal, t) != Closed && Classify(cal, u) != Closed
    ensures SegmentAt(cal, t).0 <= t < SegmentAt(cal, t).1
    ensures SegmentAt(cal, u) == SegmentAt(cal, t) || SegmentAt(cal, t).1 <= SegmentAt(cal, u).0
    ensures SegmentAt(cal, u) == SegmentAt(cal, t) <==>
      cal.dayOf(u) == cal.dayOf(t) && Classify(cal, u) == Classify(cal, t)
  {
    var d, e := cal.dayOf(t), cal.dayOf(u);
    assert GoodDay(cal, d) && GoodDay(cal, e);
    DaysAreMonotone(cal, t, u);
    if d < e {
      assert Dated(cal, cal.times[d].postClose, e) && Dated(cal, u, e);
      assert cal.times[d].postClose < cal.midnight(e);
    }
  }
}
