/** The frozen synthesis rules (evidence_synthesis/rules.py) and the opposition shape
    (market_intelligence/rules.py:86-102). */
module EvidenceRules {
  import opened Results
  import L = Lists

  datatype Frame = Day | Hour | FiveMinutes

  const INTERVALS: seq<Frame> := [Day, Hour, FiveMinutes]
  const PAIRS: seq<(Frame, Frame)> := [(Day, Hour), (Hour, FiveMinutes), (Day, FiveMinutes)]

  function Name(f: Frame): string {
    match f case Day => "1d" case Hour => "1h" case FiveMinutes => "5m"
  }

  function Index(f: Frame): nat {
    match f case Day => 0 case Hour => 1 case FiveMinutes => 2
  }

  datatype State =
    | BullishSetup | BearishSetup | BullishMomentum | BearishMomentum | BreakoutWatch | BreakdownWatch | Range | Mixed
    | InsufficientData

  datatype Direction = Bullish | Bearish | NonDirectional | Unavailable

  datatype Relation = Agree | Oppose | Undirected | Unknown

  datatype Sign = Positive | Negative | Zero | NoSign

  datatype Pattern = AllBullish | AllBearish | AllNonDirectional | Opposed | PartiallyDirectional | Incomplete

  /** None is a missing row. */
  function StateDirection(state: Option<State>): Direction {
    match state
    case None => Unavailable
    case Some(s) =>
      if s == InsufficientData then Unavailable
      else if s in {BullishSetup, BullishMomentum, BreakoutWatch} then Bullish
      else if s in {BearishSetup, BearishMomentum, BreakdownWatch} then Bearish
      else NonDirectional
  }

  function PairRelation(a: Direction, b: Direction): Relation {
    if Unavailable in {a, b} then Unknown
    else if NonDirectional in {a, b} then Undirected
    else if a == b then Agree
    else Oppose
  }

  function ContextRelation(d: Direction, s: Sign): Relation {
    if d == Unavailable || s == NoSign then Unknown
    else if d == NonDirectional || s == Zero then Undirected
    else if (d == Bullish) == (s == Positive) then Agree
    else Oppose
  }

  function PatternOf(directions: seq<Direction>): Pattern {
    if Unavailable in directions then Incomplete
    else if Bullish in directions && Bearish in directions then Opposed
    else if forall d <- directions :: d == Bullish then AllBullish
    else if forall d <- directions :: d == Bearish then AllBearish
    else if forall d <- directions :: d == NonDirectional then AllNonDirectional
    else PartiallyDirectional
  }

  function SignOf(value: Option<real>): Sign {
    match value
    case None => NoSign
    case Some(v) => if v > 0.0 then Positive else if v < 0.0 then Negative else Zero
  }

  // ----------------------------------------------------------------- opposition

  datatype Shape = NoOpposition | IsolatedInterval(frame: Frame) | SinglePair | NotApplicable

  function Opposing(relations: (Frame, Frame) -> Relation): seq<(Frame, Frame)> {
    L.Keep(PAIRS, (pair: (Frame, Frame)) => relations(pair.0, pair.1) == Oppose)
  }

  function Directional(directions: Frame -> Direction): seq<Frame> {
    L.Keep(INTERVALS, (f: Frame) => directions(f) in {Bullish, Bearish})
  }

  /** The frame that two pairs share. */
  function Shared(p: (Frame, Frame), q: (Frame, Frame)): Frame {
    if p.0 in {q.0, q.1} then p.0 else p.1
  }

  /** `opposition_shape`; None where the source raises. */
  function OppositionShape(pattern: Pattern, directions: Frame -> Direction,
                           relations: (Frame, Frame) -> Relation): Option<Shape> {
    if pattern == Incomplete then Some(NotApplicable)
    else
      var opposing := Opposing(relations);
      var directional := Directional(directions);
      if opposing == [] then Some(NoOpposition)
      else if |directional| == 3 && |opposing| == 2 then Some(IsolatedInterval(Shared(opposing[0], opposing[1])))
      else if |directional| == 2 && |opposing| == 1 then Some(SinglePair)
      else None
  }

  /** The contrary directions. */
  predicate Contrary(a: Direction, b: Direction) {
    (a == Bullish && b == Bearish) || (a == Bearish && b == Bullish)
  }

  /** `f` points one way and the other two frames the contrary way. */
  predicate Isolated(d: Direction, h: Direction, m: Direction, f: Frame) {
    match f
    case Day => h == m && Contrary(d, h)
    case Hour => d == m && Contrary(h, d)
    case FiveMinutes => d == h && Contrary(m, d)
  }

  /** What a shape says of the three directions. */
  predicate ShapeSays(d: Direction, h: Direction, m: Direction, shape: Shape) {
    var known := d != Unavailable && h != Unavailable && m != Unavailable;
    match shape
    case NotApplicable => !known
    case NoOpposition => known && !Contrary(d, h) && !Contrary(h, m) && !Contrary(d, m)
    case IsolatedInterval(f) => Isolated(d, h, m, f)
    case SinglePair =>
      || (Contrary(d, h) && m == NonDirectional)
      || (Contrary(h, m) && d == NonDirectional)
      || (Contrary(d, m) && h == NonDirectional)
  }

  lemma KeepThree<T>(xs: seq<T>, p: T -> bool)
    requires |xs| == 3
    ensures L.Keep(xs, p) == (if p(xs[0]) then [xs[0]] else []) + (if p(xs[1]) then [xs[1]] else []) +
      (if p(xs[2]) then [xs[2]] else [])
  {
    assert xs == [] + [xs[0]] + [xs[1]] + [xs[2]];
    L.KeepOneMore([], xs[0], p);
    L.KeepOneMore([] + [xs[0]], xs[1], p);
    L.KeepOneMore([] + [xs[0]] + [xs[1]], xs[2], p);
  }

  lemma OpposingPairs(directions: Frame -> Direction)
    ensures var d, h, m := directions(Day), directions(Hour), directions(FiveMinutes);
      Opposing((f, g) => PairRelation(directions(f), directions(g))) ==
      (if PairRelation(d, h) == Oppose then [(Day, Hour)] else []) +
      (if PairRelation(h, m) == Oppose then [(Hour, FiveMinutes)] else []) +
      (if PairRelation(d, m) == Oppose then [(Day, FiveMinutes)] else [])
  {
    var relations := (f: Frame, g: Frame) => PairRelation(directions(f), directions(g));
    KeepThree(PAIRS, (pair: (Frame, Frame)) => relations(pair.0, pair.1) == Oppose);
  }

  /** The shape is total on directions and the relations derived from them: the final raise is unreachable, and the
      shape is the one that fits the directions. */
  lemma ShapeIsTotal(directions: Frame -> Direction)
    ensures var shape :=
      OppositionShape(PatternOf([directions(Day), directions(Hour), directions(FiveMinutes)]), directions,
                                         (f, g) => PairRelation(directions(f), directions(g)));
      shape.Some? && ShapeSays(directions(Day), directions(Hour), directions(FiveMinutes), shape.value)
  {
    var d, h, m := directions(Day), directions(Hour), directions(FiveMinutes);
    OpposingPairs(directions);
    KeepThree(INTERVALS, (f: Frame) => directions(f) in {Bullish, Bearish});
    assert [d, h, m][0] == d && [d, h, m][1] == h && [d, h, m][2] == m;
  }

  /** No two shapes fit the same directions. */
  lemma OneShape(d: Direction, h: Direction, m: Direction, a: Shape, b: Shape)
    requires ShapeSays(d, h, m, a) && ShapeSays(d, h, m, b)
    ensures a == b
  {
  }
}
