/** What a synthesis says, read off the packet's states, returns and items alone (evidence_synthesis/builder.py and the
    rules of evidence_synthesis/rules.py). */
module EvidenceMeaning {
  import opened Results
  import opened EvidenceRules
  import opened EvidenceSynthesis
  import L = Lists
  import S = Sorting
  import opened Texts
  import V = SynthesisValidation

  // ----------------------------------------------------------------- states

  predicate Silent(f: TechnicalFrame) {
    f.Missing? || f.row.state == InsufficientData
  }

  predicate Up(f: TechnicalFrame) {
    f.Present? && (f.row.state == BullishSetup || f.row.state == BullishMomentum || f.row.state == BreakoutWatch)
  }

  predicate Down(f: TechnicalFrame) {
    f.Present? && (f.row.state == BearishSetup || f.row.state == BearishMomentum || f.row.state == BreakdownWatch)
  }

  predicate Flat(f: TechnicalFrame) {
    f.Present? && (f.row.state == Range || f.row.state == Mixed)
  }

  function FrameOf(p: Packet, i: Frame): TechnicalFrame
    requires |p.technical| == 3
  {
    match i case Day => p.technical[0] case Hour => p.technical[1] case FiveMinutes => p.technical[2]
  }

  predicate PointApart(a: TechnicalFrame, b: TechnicalFrame) {
    (Up(a) && Down(b)) || (Down(a) && Up(b))
  }

  predicate PointAlike(a: TechnicalFrame, b: TechnicalFrame) {
    (Up(a) && Up(b)) || (Down(a) && Down(b))
  }

  /** A direction, said of the state it was derived from. */
  predicate SaysDirection(f: TechnicalFrame, d: Direction) {
    match d
    case Bullish => Up(f)
    case Bearish => Down(f)
    case NonDirectional => Flat(f)
    case Unavailable => Silent(f)
  }

  /** The facts of a frame are the packet's, with the age in whole seconds. */
  predicate SaysFrame(f: TechnicalFrame, asOf: int, x: FrameFacts) {
    && SaysDirection(f, x.direction) && x.available == f.Present?
    && (f.Present? ==> x.row == Some(f.row) && x.barEnd == Some(f.barEnd) && x.missingReason == None
                       && x.ageSeconds.Some? && WholeSeconds(asOf - f.barEnd, x.ageSeconds.value))
    && (f.Missing? ==> x.row == None && x.barEnd == None && x.ageSeconds == None
                       && x.missingReason == Some(f.reason))
  }

  predicate WholeSeconds(micros: int, seconds: int) {
    seconds * 1_000_000 <= micros < (seconds + 1) * 1_000_000
  }

  /** Each state has exactly one direction. */
  lemma OneDirection(f: TechnicalFrame, d: Direction, e: Direction)
    requires SaysDirection(f, d)
    ensures SaysDirection(f, e) <==> d == e
  {
  }

  /** Every interval has exactly one frame, which says what the packet's frame of that interval says. */
  ghost predicate SaysFrames(p: Packet, frames: seq<FrameFacts>)
    requires |p.technical| == 3
  {
    && |frames| == 3
    && (frames[0].interval, frames[1].interval, frames[2].interval) == (Day, Hour, FiveMinutes)
    && SaysFrame(p.technical[0], p.asOf, frames[0]) && SaysFrame(p.technical[1], p.asOf, frames[1])
    && SaysFrame(p.technical[2], p.asOf, frames[2])
  }

  lemma FactsMeaning(i: Frame, f: TechnicalFrame, asOf: int)
    ensures SaysFrame(f, asOf, FactsOf(i, f, asOf)) && FactsOf(i, f, asOf).interval == i
  {
  }

  lemma FramesMeaning(p: Packet)
    requires |p.technical| == 3
    ensures SaysFrames(p, FramesOf(p))
  {
    FactsMeaning(Day, p.technical[0], p.asOf);
    FactsMeaning(Hour, p.technical[1], p.asOf);
    FactsMeaning(FiveMinutes, p.technical[2], p.asOf);
  }

  // ----------------------------------------------------------------- relations and pattern

  predicate SaysRelation(a: TechnicalFrame, b: TechnicalFrame, r: Relation) {
    match r
    case Oppose => PointApart(a, b)
    case Agree => PointAlike(a, b)
    case Unknown => Silent(a) || Silent(b)
    case Undirected => !Silent(a) && !Silent(b) && (Flat(a) || Flat(b))
  }

  lemma RelationMeaning(a: TechnicalFrame, b: TechnicalFrame, d: Direction, e: Direction)
    requires SaysDirection(a, d) && SaysDirection(b, e)
    ensures SaysRelation(a, b, PairRelation(d, e))
  {
  }

  ghost predicate SaysPair(p: Packet, r: FrameRelation, first: Frame, second: Frame)
    requires |p.technical| == 3
  {
    r.first == first && r.second == second && SaysRelation(FrameOf(p, first), FrameOf(p, second), r.relation)
  }

  ghost predicate SaysRelations(p: Packet, relations: seq<FrameRelation>)
    requires |p.technical| == 3
  {
    && |relations| == 3
    && SaysPair(p, relations[0], Day, Hour) && SaysPair(p, relations[1], Hour, FiveMinutes)
    && SaysPair(p, relations[2], Day, FiveMinutes)
  }

  lemma RelationsMeaning(p: Packet, frames: seq<FrameFacts>)
    requires |p.technical| == 3 && SaysFrames(p, frames)
    ensures SaysRelations(p, RelationsOf(frames))
  {
    RelationMeaning(p.technical[0], p.technical[1], frames[0].direction, frames[1].direction);
    RelationMeaning(p.technical[1], p.technical[2], frames[1].direction, frames[2].direction);
    RelationMeaning(p.technical[0], p.technical[2], frames[0].direction, frames[2].direction);
  }

  /** How many of the three frames satisfy `q`. */
  function HowMany(fs: seq<TechnicalFrame>, q: TechnicalFrame -> bool): nat
    requires |fs| == 3
  {
    (if q(fs[0]) then 1 else 0) + (if q(fs[1]) then 1 else 0) + (if q(fs[2]) then 1 else 0)
  }

  predicate SaysPattern(fs: seq<TechnicalFrame>, pattern: Pattern)
    requires |fs| == 3
  {
    match pattern
    case Incomplete => HowMany(fs, Silent) > 0
    case Opposed => HowMany(fs, Silent) == 0 && HowMany(fs, Up) > 0 && HowMany(fs, Down) > 0
    case AllBullish => HowMany(fs, Up) == 3
    case AllBearish => HowMany(fs, Down) == 3
    case AllNonDirectional => HowMany(fs, Flat) == 3
    case PartiallyDirectional =>
      HowMany(fs, Silent) == 0 && 0 < HowMany(fs, Flat) < 3 && (HowMany(fs, Up) == 0 || HowMany(fs, Down) == 0)
  }

  predicate SaysDirections(fs: seq<TechnicalFrame>, ds: seq<Direction>) {
    |fs| == |ds| == 3 && SaysDirection(fs[0], ds[0]) && SaysDirection(fs[1], ds[1]) && SaysDirection(fs[2], ds[2])
  }

  function Times(ds: seq<Direction>, d: Direction): nat
    requires |ds| == 3
  {
    (if ds[0] == d then 1 else 0) + (if ds[1] == d then 1 else 0) + (if ds[2] == d then 1 else 0)
  }

  lemma TimesMeaning(fs: seq<TechnicalFrame>, ds: seq<Direction>)
    requires SaysDirections(fs, ds)
    ensures HowMany(fs, Up) == Times(ds, Bullish) && HowMany(fs, Down) == Times(ds, Bearish)
    ensures HowMany(fs, Flat) == Times(ds, NonDirectional) && HowMany(fs, Silent) == Times(ds, Unavailable)
  {
    forall k, d | 0 <= k < 3 ensures SaysDirection(fs[k], d) <==> ds[k] == d {
      OneDirection(fs[k], ds[k], d);
    }
    assert Up(fs[0]) == SaysDirection(fs[0], Bullish) && Up(fs[1]) == SaysDirection(fs[1], Bullish)
      && Up(fs[2]) == SaysDirection(fs[2], Bullish);
  }

  lemma PatternMeaning(fs: seq<TechnicalFrame>, ds: seq<Direction>)
    requires SaysDirections(fs, ds)
    ensures SaysPattern(fs, PatternOf(ds))
  {
    TimesMeaning(fs, ds);
    PatternByTimes(ds);
  }

  lemma PatternByTimes(ds: seq<Direction>)
    requires |ds| == 3
    ensures match PatternOf(ds)
      case Incomplete => Times(ds, Unavailable) > 0
      case Opposed => Times(ds, Unavailable) == 0 && Times(ds, Bullish) > 0 && Times(ds, Bearish) > 0
      case AllBullish => Times(ds, Bullish) == 3
      case AllBearish => Times(ds, Bearish) == 3
      case AllNonDirectional => Times(ds, NonDirectional) == 3
      case PartiallyDirectional => Times(ds, Unavailable) == 0 && 0 < Times(ds, NonDirectional) < 3
                                   && (Times(ds, Bullish) == 0 || Times(ds, Bearish) == 0)
  {
    forall d: Direction ensures d in ds <==> Times(ds, d) > 0 {}
    forall d: Direction ensures (forall e <- ds :: e == d) <==> Times(ds, d) == 3 {
      assert ds[0] in ds && ds[1] in ds && ds[2] in ds;
    }
  }

  lemma KeptDirections(frames: seq<FrameFacts>, d: Direction)
    requires |frames| == 3
    ensures |L.Keep(frames, HasDirection(d))| ==
      Times([frames[0].direction, frames[1].direction, frames[2].direction], d)
  {
    KeepThree(frames, HasDirection(d));
  }

  /** The pattern and the four counts, in terms of the three states. */
  ghost predicate SaysAlignment(fs: seq<TechnicalFrame>, a: Alignment)
    requires |fs| == 3
  {
    && SaysPattern(fs, a.pattern)
    && a.bullish == HowMany(fs, Up) && a.bearish == HowMany(fs, Down)
    && a.nonDirectional == HowMany(fs, Flat) && a.unavailable == HowMany(fs, Silent)
  }

  lemma AlignmentMeaning(p: Packet, frames: seq<FrameFacts>)
    requires |p.technical| == 3 && SaysFrames(p, frames)
    ensures SaysAlignment(p.technical, AlignmentOf(frames))
  {
    var ds := [frames[0].direction, frames[1].direction, frames[2].direction];
    assert Each(frames, (f: FrameFacts) => f.direction) == ds;
    PatternMeaning(p.technical, ds);
    TimesMeaning(p.technical, ds);
    KeptDirections(frames, Bullish);
    KeptDirections(frames, Bearish);
    KeptDirections(frames, NonDirectional);
    KeptDirections(frames, Unavailable);
  }

  /** Each pattern excludes the others. */
  lemma OnePattern(fs: seq<TechnicalFrame>, a: Pattern, b: Pattern)
    requires |fs| == 3 && SaysPattern(fs, a) && SaysPattern(fs, b)
    ensures a == b
  {
  }

  // ----------------------------------------------------------------- market context

  predicate SaysSign(value: Option<real>, s: Sign) {
    match s
    case NoSign => value == None
    case Positive => value.Some? && value.value > 0.0
    case Negative => value.Some? && value.value < 0.0
    case Zero => value == Some(0.0)
  }

  /** The symbol's own return on a basis. */
  function OwnReturn(c: Context, b: Basis): Option<real> {
    match b case PrevClose => c.sincePrevClose case Open => c.sinceOpen
  }

  predicate IsOwn(c: Context, r: Reference) {
    r.reference == "self" && SaysSign(OwnReturn(c, r.basis), r.sign) && r.aligned == None && r.unavailableReasons == []
  }

  predicate SaysComparison(x: Comparison, r: Reference) {
    && r.reference == x.benchmark && r.basis == x.basis && SaysSign(x.relativeReturn, r.sign) && r.aligned == x.aligned
    && multiset(r.unavailableReasons) == multiset(x.unavailable)
    && forall i, j :: 0 <= i < j < |r.unavailableReasons| ==>
      !StringBefore(r.unavailableReasons[j], r.unavailableReasons[i])
  }

  ghost predicate SaysReference(c: Context, r: Reference) {
    IsOwn(c, r) || exists x :: x in c.comparisons && SaysComparison(x, r)
  }

  ghost predicate HasOwn(c: Context, references: seq<Reference>, b: Basis) {
    exists r :: r in references && r.basis == b && IsOwn(c, r)
  }

  /** The symbol's own returns first, then by name, and the previous close before the open. */
  predicate ReferenceBefore(a: Reference, b: Reference) {
    || (a.reference == "self" && b.reference != "self")
    || (a.reference == "self" && b.reference == "self" && a.basis == PrevClose && b.basis == Open)
    || (a.reference != "self" && b.reference != "self"
        && (StringBefore(a.reference, b.reference)
            || (a.reference == b.reference && a.basis == PrevClose && b.basis == Open)))
  }

  ghost predicate InReferenceOrder(references: seq<Reference>) {
    forall i, j :: 0 <= i < j < |references| ==> !ReferenceBefore(references[j], references[i])
  }

  lemma SortedReferences(c: Context)
    ensures InReferenceOrder(ReferencesOf(c))
  {
    var out := ReferencesOf(c);
    ComparisonIsTotal((r: Reference) => ReferenceKey(r.reference, r.basis), ReferencesInOrder);
    S.SortSorted(Unsorted(c), ReferencesInOrder);
    forall i, j | 0 <= i < j < |out| ensures !ReferenceBefore(out[j], out[i]) { ReferenceOrder(out[j], out[i]); }
  }

  lemma ReferenceOrder(a: Reference, b: Reference)
    ensures TupleBefore(ReferenceKey(a.reference, a.basis), ReferenceKey(b.reference, b.basis)) <==>
      ReferenceBefore(a, b)
  {
    var x, y := ReferenceKey(a.reference, a.basis), ReferenceKey(b.reference, b.basis);
    var c, d := [x[1], x[2]], [y[1], y[2]];
    assert x[1..] == c && y[1..] == d && c[1..] == [x[2]] && d[1..] == [y[2]];
    assert StringBefore("0", "1") && !StringBefore("1", "0") && !StringBefore("0", "0") && !StringBefore("1", "1");
    StringsAreOrdered(a.reference, b.reference);
    assert TupleBefore([x[2]], [y[2]]) <==> StringBefore(x[2], y[2]);
    assert TupleBefore(c, d) <==> if c[0] != d[0] then StringBefore(c[0], d[0]) else TupleBefore([x[2]], [y[2]]);
  }

  /** The references are the symbol's own two returns and the comparisons, each once. */
  ghost predicate SaysReferences(c: Context, references: seq<Reference>) {
    && |references| == 2 + |c.comparisons|
    && (forall r <- references :: SaysReference(c, r))
    && HasOwn(c, references, PrevClose) && HasOwn(c, references, Open)
    && forall x <- c.comparisons :: exists r :: r in references && SaysComparison(x, r)
  }

  lemma SignMeaning(value: Option<real>, s: Sign)
    ensures SaysSign(value, s) <==> SignOf(value) == s
  {
  }

  lemma ComparedMeaning(x: Comparison)
    ensures SaysComparison(x, Compared(x))
  {
    V.SortedTextsFacts(x.unavailable);
    SignMeaning(x.relativeReturn, SignOf(x.relativeReturn));
  }

  lemma OwnMeaning(c: Context)
    ensures var u := Unsorted(c);
      |u| == 2 + |c.comparisons| && IsOwn(c, u[0]) && IsOwn(c, u[1]) && u[0].basis == PrevClose && u[1].basis == Open
  {
  }

  lemma ListedMeaning(c: Context, r: Reference)
    requires r in Unsorted(c)
    ensures SaysReference(c, r)
  {
    var u := Unsorted(c);
    OwnMeaning(c);
    var k :| 0 <= k < |u| && u[k] == r;
    if k >= 2 {
      ComparedMeaning(c.comparisons[k - 2]);
      assert c.comparisons[k - 2] in c.comparisons;
    }
  }

  lemma ReferencesMeaning(c: Context)
    ensures SaysReferences(c, ReferencesOf(c))
  {
    var u, out := Unsorted(c), ReferencesOf(c);
    S.SortPermutes(u, ReferencesInOrder);
    forall r ensures r in out <==> r in u { S.SameElements(out, u, r); }
    OwnMeaning(c);
    forall r | r in out ensures SaysReference(c, r) { ListedMeaning(c, r); }
    assert u[0] in out && u[1] in out;
    forall x | x in c.comparisons ensures exists r :: r in out && SaysComparison(x, r) {
      ComparedMeaning(x);
      V.ComparedIsListed(c, x);
    }
  }

  /** A frame and a return oppose when they point opposite ways, and agree when they point the same way. */
  predicate SaysContext(f: TechnicalFrame, s: Sign, r: Relation) {
    match r
    case Oppose => (Up(f) && s == Negative) || (Down(f) && s == Positive)
    case Agree => (Up(f) && s == Positive) || (Down(f) && s == Negative)
    case Unknown => Silent(f) || s == NoSign
    case Undirected => !Silent(f) && s != NoSign && (Flat(f) || s == Zero)
  }

  lemma ContextMeaning(f: TechnicalFrame, d: Direction, s: Sign, r: Relation)
    requires SaysDirection(f, d)
    ensures SaysContext(f, s, r) <==> ContextRelation(d, s) == r
  {
  }

  ghost predicate SaysMarketRelation(p: Packet, references: seq<Reference>, m: MarketRelation)
    requires |p.technical| == 3
  {
    exists r :: r in references && r.reference == m.reference && r.basis == m.basis
                && SaysContext(FrameOf(p, m.interval), r.sign, m.relation)
  }

  ghost predicate Related(p: Packet, relations: seq<MarketRelation>, i: Frame, r: Reference)
    requires |p.technical| == 3
  {
    exists m :: m in relations && m.interval == i && m.reference == r.reference && m.basis == r.basis
                && SaysContext(FrameOf(p, i), r.sign, m.relation)
  }

  /** Every frame is related to every reference, and nothing else is. */
  ghost predicate SaysMarketRelations(p: Packet, references: seq<Reference>, relations: seq<MarketRelation>)
    requires |p.technical| == 3
  {
    && |relations| == 3 * |references|
    && (forall m <- relations :: SaysMarketRelation(p, references, m))
    && forall i: Frame, r <- references :: Related(p, relations, i, r)
  }

  lemma {:induction false} RelationsSize(frames: seq<FrameFacts>, references: seq<Reference>)
    ensures |MarketRelationsOf(frames, references)| == |frames| * |references|
  {
    if frames != [] {
      var n := |frames| - 1;
      RelationsSize(frames[..n], references);
      assert |frames| * |references| == n * |references| + |references|;
    }
  }

  lemma {:induction false} RelationsInclude(frames: seq<FrameFacts>, references: seq<Reference>, k: nat, j: nat)
    requires k < |frames| && j < |references|
    ensures RelationTo(frames[k])(references[j]) in MarketRelationsOf(frames, references)
    decreases |frames|
  {
    var n := |frames| - 1;
    if k < n {
      RelationsInclude(frames[..n], references, k, j);
    } else {
      assert Each(references, RelationTo(frames[n]))[j] == RelationTo(frames[n])(references[j]);
    }
  }

  lemma FrameSays(p: Packet, frames: seq<FrameFacts>, f: FrameFacts)
    requires |p.technical| == 3 && SaysFrames(p, frames) && f in frames
    ensures SaysDirection(FrameOf(p, f.interval), f.direction) && f == frames[Index(f.interval)]
  {
  }

  lemma MarketRelationsMeaning(p: Packet, frames: seq<FrameFacts>, references: seq<Reference>)
    requires |p.technical| == 3 && SaysFrames(p, frames) && references != []
    ensures SaysMarketRelations(p, references, MarketRelationsOf(frames, references))
  {
    var relations := MarketRelationsOf(frames, references);
    RelationsSize(frames, references);
    forall m | m in relations ensures SaysMarketRelation(p, references, m) {
      var f, r := V.RelationsComeFrom(frames, references, m);
      FrameSays(p, frames, f);
      ContextMeaning(FrameOf(p, f.interval), f.direction, r.sign, m.relation);
    }
    forall i: Frame, r | r in references ensures Related(p, relations, i, r) {
      var j :| 0 <= j < |references| && references[j] == r;
      RelationsInclude(frames, references, Index(i), j);
      FrameSays(p, frames, frames[Index(i)]);
      var m := RelationTo(frames[Index(i)])(r);
      ContextMeaning(FrameOf(p, i), frames[Index(i)].direction, r.sign, m.relation);
    }
  }

  /** The market facts are the context's, or none. */
  ghost predicate SaysMarket(p: Packet, m: Market)
    requires |p.technical| == 3
  {
    match p.context
    case None => m == Market(false, None, None, None, None, None, [], [])
    case Some(c) =>
      && m.available && m.sessionDate == c.sessionDate && m.calendarState == c.calendarState
      && m.freshness == c.freshness && m.contextAsOf == Some(c.asOf)
      && m.ageSeconds.Some? && WholeSeconds(p.asOf - c.asOf, m.ageSeconds.value)
      && SaysReferences(c, m.references) && InReferenceOrder(m.references)
      && SaysMarketRelations(p, m.references, m.relations)
  }

  lemma MarketMeaning(p: Packet, frames: seq<FrameFacts>)
    requires |p.technical| == 3 && SaysFrames(p, frames)
    ensures SaysMarket(p, MarketOf(p, frames))
  {
    if p.context.Some? {
      ReferencesMeaning(p.context.value);
      SortedReferences(p.context.value);
      MarketRelationsMeaning(p, frames, ReferencesOf(p.context.value));
    }
  }

  // ----------------------------------------------------------------- contradictions

  /** A known return of the context: the symbol's own, or one relative to a benchmark. */
  ghost predicate HasReturn(c: Context, reference: string, b: Basis, value: real) {
    || (reference == "self" && OwnReturn(c, b) == Some(value))
    || exists x :: x in c.comparisons && x.benchmark == reference && x.basis == b && x.relativeReturn == Some(value)
  }

  ghost predicate ReportsGap(p: Packet, c: Contradiction)
    requires |p.technical| == 3
  {
    exists i: Frame ::
      Silent(FrameOf(p, i)) && c == Contradiction(["timeframe_unavailable", Name(i)], [FramePointer(i)])
  }

  predicate IsPair(i: Frame, j: Frame) {
    (i == Day && j == Hour) || (i == Hour && j == FiveMinutes) || (i == Day && j == FiveMinutes)
  }

  ghost predicate ReportsOpposition(p: Packet, c: Contradiction)
    requires |p.technical| == 3
  {
    exists i: Frame, j: Frame :: Opposition(p, i, j, c)
  }

  predicate Opposition(p: Packet, i: Frame, j: Frame, c: Contradiction)
    requires |p.technical| == 3
  {
    && IsPair(i, j) && PointApart(FrameOf(p, i), FrameOf(p, j))
    && c == Contradiction(["timeframe_opposition", Name(i), Name(j)], [FramePointer(i), FramePointer(j)])
  }

  predicate Against(f: TechnicalFrame, value: real) {
    (Up(f) && value < 0.0) || (Down(f) && value > 0.0)
  }

  ghost predicate ReportsMarket(p: Packet, c: Contradiction)
    requires |p.technical| == 3 && p.context.Some?
  {
    exists i: Frame, reference, b, value :: MarketAgainst(p, i, reference, b, value, c)
  }

  /** A known return points against the frame's state. */
  ghost predicate MarketAgainst(p: Packet, i: Frame, reference: string, b: Basis, value: real, c: Contradiction)
    requires |p.technical| == 3 && p.context.Some?
  {
    && HasReturn(p.context.value, reference, b, value) && Against(FrameOf(p, i), value)
    && c == Contradiction(["market_context_opposes_timeframe", Name(i), reference, BasisName(b)],
                          [FramePointer(i), ReferencePointer(reference, b)])
  }

  ghost predicate ReportsMisalignment(c: Context, found: Contradiction) {
    exists x :: x in c.comparisons && "misaligned" in x.unavailable
      && found == Contradiction(["comparison_misaligned", x.benchmark, BasisName(x.basis)],
                                [ReferencePointer(x.benchmark, x.basis)])
  }

  predicate Earlier(i: Frame, j: Frame) {
    (i == Day && j != Day) || (i == Hour && j == FiveMinutes)
  }

  /** The frame has a bar, none ends later, and none of an earlier interval ends with it. */
  ghost predicate HasLatestBar(p: Packet, i: Frame)
    requires |p.technical| == 3
  {
    FrameOf(p, i).Present? && forall j: Frame :: NotLater(p, i, j)
  }

  predicate NotLater(p: Packet, i: Frame, j: Frame)
    requires |p.technical| == 3 && FrameOf(p, i).Present?
  {
    FrameOf(p, j).Present? ==>
      if Earlier(j, i) then FrameOf(p, j).barEnd < FrameOf(p, i).barEnd
      else FrameOf(p, j).barEnd <= FrameOf(p, i).barEnd
  }

  ghost predicate ReportsSession(p: Packet, zone: Zone, c: Contradiction)
    requires |p.technical| == 3 && p.context.Some?
  {
    exists i: Frame :: SessionAgainst(p, zone, i, c)
  }

  /** The latest bar ends on another local day than the context's session. */
  ghost predicate SessionAgainst(p: Packet, zone: Zone, i: Frame, c: Contradiction)
    requires |p.technical| == 3 && p.context.Some?
  {
    && p.context.value.sessionDate.Some? && HasLatestBar(p, i)
    && zone.iso(zone.dayOf(FrameOf(p, i).barEnd)) != p.context.value.sessionDate.value
    && c == Contradiction(["context_session_mismatch", "market_context", Name(i)], [MarketPointer, FramePointer(i)])
  }

  /** What must be reported, in terms of the packet. */
  ghost predicate Reported(p: Packet, zone: Zone, c: Contradiction)
    requires |p.technical| == 3
  {
    || ReportsGap(p, c)
    || ReportsOpposition(p, c)
    || (p.context.None? && c == Contradiction(["market_context_unavailable", "market_context"], [MarketPointer]))
    || (p.context.Some? &&
        (ReportsMarket(p, c) || ReportsMisalignment(p.context.value, c) || ReportsSession(p, zone, c)))
    || (p.newsStatus == NotAvailable && c == Contradiction(["news_unavailable", "news"], [NewsPointer]))
  }

  lemma PartMeaning<T(!new), U(!new)>(xs: seq<T>, q: T -> bool, f: T -> U, y: U)
    ensures y in Each(L.Keep(xs, q), f) <==> exists x :: x in xs && q(x) && f(x) == y
  {
    var kept := L.Keep(xs, q);
    forall x ensures x in kept <==> x in xs && q(x) { L.KeepMembers(xs, q, x); }
    forall i | 0 <= i < |kept| ensures kept[i] in kept && Each(kept, f)[i] == f(kept[i]) {}
    if x :| x in xs && q(x) && f(x) == y {
      var i :| 0 <= i < |kept| && kept[i] == x;
      assert Each(kept, f)[i] in Each(kept, f);
    }
  }

  lemma GapMeaning(p: Packet, frames: seq<FrameFacts>, c: Contradiction)
    requires |p.technical| == 3 && SaysFrames(p, frames)
    ensures c in Each(L.Keep(frames, Gap), FrameGap) <==> ReportsGap(p, c)
  {
    PartMeaning(frames, Gap, FrameGap, c);
    if f :| f in frames && Gap(f) && FrameGap(f) == c {
      FrameSays(p, frames, f);
    }
    if i: Frame :| Silent(FrameOf(p, i)) && c == Contradiction(["timeframe_unavailable", Name(i)], [FramePointer(i)]) {
      var f := frames[Index(i)];
      assert f in frames;
      FrameSays(p, frames, f);
      OneDirection(FrameOf(p, i), f.direction, Unavailable);
      assert FrameGap(f) == c;
    }
  }

  lemma PairIsListed(p: Packet, relations: seq<FrameRelation>, i: Frame, j: Frame) returns (r: FrameRelation)
    requires |p.technical| == 3 && SaysRelations(p, relations)
    requires IsPair(i, j) && PointApart(FrameOf(p, i), FrameOf(p, j))
    ensures r in relations && r.relation == Oppose && r.first == i && r.second == j
  {
    r := relations[if j == Hour then 0 else if i == Hour then 1 else 2];
    assert r in relations && SaysPair(p, r, i, j);
  }

  lemma ListedPair(p: Packet, relations: seq<FrameRelation>, r: FrameRelation)
    requires |p.technical| == 3 && SaysRelations(p, relations) && r in relations && r.relation == Oppose
    ensures IsPair(r.first, r.second) && PointApart(FrameOf(p, r.first), FrameOf(p, r.second))
  {
  }

  lemma OppositionMeaning(p: Packet, relations: seq<FrameRelation>, c: Contradiction)
    requires |p.technical| == 3 && SaysRelations(p, relations)
    ensures c in Each(L.Keep(relations, Opposite), FrameOpposition) <==> ReportsOpposition(p, c)
  {
    PartMeaning(relations, Opposite, FrameOpposition, c);
    if r :| r in relations && Opposite(r) && FrameOpposition(r) == c {
      ListedPair(p, relations, r);
      assert Opposition(p, r.first, r.second, c);
    }
    if i: Frame, j: Frame :| Opposition(p, i, j, c) {
      var r := PairIsListed(p, relations, i, j);
      assert Opposite(r) && FrameOpposition(r) == c;
    }
  }

  /** A reference has a known return of its sign, if it has any sign. */
  lemma ReturnOf(c: Context, r: Reference) returns (value: real)
    requires SaysReference(c, r) && r.sign in {Positive, Negative}
    ensures HasReturn(c, r.reference, r.basis, value) && (if r.sign == Positive then value > 0.0 else value < 0.0)
  {
    if IsOwn(c, r) {
      value := OwnReturn(c, r.basis).value;
    } else {
      var x :| x in c.comparisons && SaysComparison(x, r);
      value := x.relativeReturn.value;
    }
  }

  lemma ReferenceOf(c: Context, references: seq<Reference>, reference: string, b: Basis, value: real)
    returns (r: Reference)
    requires SaysReferences(c, references) && HasReturn(c, reference, b, value)
    ensures r in references && r.reference == reference && r.basis == b && SaysSign(Some(value), r.sign)
  {
    if reference == "self" && OwnReturn(c, b) == Some(value) {
      assert HasOwn(c, references, b);
      r :| r in references && r.basis == b && IsOwn(c, r);
    } else {
      var x :| x in c.comparisons && x.benchmark == reference && x.basis == b && x.relativeReturn == Some(value);
      r :| r in references && SaysComparison(x, r);
    }
  }

  lemma MarketOppositionMeaning(p: Packet, m: Market, c: Contradiction)
    requires |p.technical| == 3 && p.context.Some? && SaysMarket(p, m)
    ensures c in Each(L.Keep(m.relations, MarketOpposite), MarketOpposition) <==> ReportsMarket(p, c)
  {
    PartMeaning(m.relations, MarketOpposite, MarketOpposition, c);
    if x :| x in m.relations && MarketOpposite(x) && MarketOpposition(x) == c {
      assert SaysMarketRelation(p, m.references, x);
      var r :| r in m.references && r.reference == x.reference && r.basis == x.basis
               && SaysContext(FrameOf(p, x.interval), r.sign, x.relation);
      var value := ReturnOf(p.context.value, r);
      assert MarketAgainst(p, x.interval, x.reference, x.basis, value, c);
    }
    if i: Frame, reference, b, value :| MarketAgainst(p, i, reference, b, value, c) {
      var r := ReferenceOf(p.context.value, m.references, reference, b, value);
      RelatedOpposes(p, m, i, r, c);
    }
  }

  lemma RelatedOpposes(p: Packet, m: Market, i: Frame, r: Reference, c: Contradiction)
    requires |p.technical| == 3 && SaysMarketRelations(p, m.references, m.relations) && r in m.references
    requires SaysContext(FrameOf(p, i), r.sign, Oppose)
    requires c == Contradiction(["market_context_opposes_timeframe", Name(i), r.reference, BasisName(r.basis)],
                                [FramePointer(i), ReferencePointer(r.reference, r.basis)])
    ensures exists x :: x in m.relations && MarketOpposite(x) && MarketOpposition(x) == c
  {
    assert Related(p, m.relations, i, r);
    var x :| x in m.relations && x.interval == i && x.reference == r.reference && x.basis == r.basis
             && SaysContext(FrameOf(p, i), r.sign, x.relation);
    assert MarketOpposite(x) && MarketOpposition(x) == c;
  }

  lemma MisalignmentMeaning(c: Context, references: seq<Reference>, found: Contradiction)
    requires SaysReferences(c, references)
    ensures found in Each(L.Keep(references, Misaligned), Misalignment) <==> ReportsMisalignment(c, found)
  {
    PartMeaning(references, Misaligned, Misalignment, found);
    if r :| r in references && Misaligned(r) && Misalignment(r) == found {
      assert SaysReference(c, r);
      var x :| x in c.comparisons && SaysComparison(x, r);
      S.SameElements(r.unavailableReasons, x.unavailable, "misaligned");
    }
    if x :| x in c.comparisons && "misaligned" in x.unavailable
            && found == Contradiction(["comparison_misaligned", x.benchmark, BasisName(x.basis)],
                                      [ReferencePointer(x.benchmark, x.basis)])
    {
      var r :| r in references && SaysComparison(x, r);
      S.SameElements(r.unavailableReasons, x.unavailable, "misaligned");
      assert Misaligned(r) && Misalignment(r) == found;
    }
  }

  lemma BarOf(p: Packet, frames: seq<FrameFacts>, j: Frame)
    requires |p.technical| == 3 && SaysFrames(p, frames)
    ensures frames[Index(j)].barEnd == if FrameOf(p, j).Present? then Some(FrameOf(p, j).barEnd) else None
  {
  }

  lemma LatestBar(p: Packet, frames: seq<FrameFacts>, i: Frame)
    requires |p.technical| == 3 && SaysFrames(p, frames)
    ensures HasLatestBar(p, i) <==> LatestFrame(frames) == Some(frames[Index(i)]) && FrameOf(p, i).Present?
  {
    assert V.InIntervalOrder(frames);
    V.LatestMeaning(frames, i);
    BarOf(p, frames, i);
    LatestBarIndexed(p, frames, i);
  }

  lemma LatestBarIndexed(p: Packet, frames: seq<FrameFacts>, i: Frame)
    requires |p.technical| == 3 && SaysFrames(p, frames)
    ensures HasLatestBar(p, i) <==> V.IsLatest(frames, i)
  {
    BarOf(p, frames, i);
    if HasLatestBar(p, i) {
      forall j: Frame
        ensures frames[Index(j)].barEnd.Some? ==> Earlier(j, i) || frames[Index(j)].barEnd.value <= FrameOf(p, i).barEnd
        ensures frames[Index(j)].barEnd.Some? && Earlier(j, i) ==> frames[Index(j)].barEnd.value < FrameOf(p, i).barEnd
      {
        BarOf(p, frames, j);
        assert NotLater(p, i, j);
      }
    }
    if V.IsLatest(frames, i) {
      forall j: Frame ensures NotLater(p, i, j) {
        BarOf(p, frames, j);
        assert V.IsLatestAt(frames, i, j);
      }
    }
  }

  lemma SessionMeaning(p: Packet, zone: Zone, frames: seq<FrameFacts>, m: Market, c: Contradiction)
    requires |p.technical| == 3 && p.context.Some? && SaysFrames(p, frames) && SaysMarket(p, m)
    ensures c in SessionMismatch(frames, m, zone) <==> ReportsSession(p, zone, c)
  {
    forall i: Frame
      ensures HasLatestBar(p, i) <==> LatestFrame(frames) == Some(frames[Index(i)]) && FrameOf(p, i).Present?
    {
      LatestBar(p, frames, i);
    }
    var k := V.LatestFacts(frames);
    if LatestFrame(frames).Some? {
      FrameSays(p, frames, frames[k]);
      assert HasLatestBar(p, frames[k].interval);
      assert c in SessionMismatch(frames, m, zone) ==> SessionAgainst(p, zone, frames[k].interval, c);
    }
    if i: Frame :| SessionAgainst(p, zone, i, c) {
      assert LatestFrame(frames) == Some(frames[Index(i)]);
    }
  }

  lemma FoundMeaning(p: Packet, zone: Zone, frames: seq<FrameFacts>, m: Market, c: Contradiction)
    requires |p.technical| == 3 && SaysFrames(p, frames) && SaysMarket(p, m)
    ensures c in Found(frames, RelationsOf(frames), m, p.newsStatus, zone) <==> Reported(p, zone, c)
  {
    RelationsMeaning(p, frames);
    GapMeaning(p, frames, c);
    OppositionMeaning(p, RelationsOf(frames), c);
    if p.context.Some? {
      MarketOppositionMeaning(p, m, c);
      MisalignmentMeaning(p.context.value, m.references, c);
      SessionMeaning(p, zone, frames, m, c);
    }
  }
}
