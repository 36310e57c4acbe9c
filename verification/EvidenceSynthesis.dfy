/** The synthesis builder (evidence_synthesis/builder.py:38-190): one valid packet in, one synthesis out. */
module EvidenceSynthesis {
  import opened Results
  import opened EvidenceRules
  import opened Texts
  import L = Lists
  import S = Sorting

  // ----------------------------------------------------------------- the packet

  /** The exchange's local day of an instant, what a date text means (`date.fromisoformat`), and how a day is written
      (`isoformat`). Days are ordinal numbers. */
  datatype Zone = Zone(dayOf: int -> int, parse: string -> Option<int>, iso: int -> string)

  /** The empty text is no date. */
  ghost predicate ValidZone(zone: Zone) {
    zone.parse("").None?
  }

  datatype Row = Row(state: State, momentum: Option<string>, emaAlignment: Option<string>, vwapPosition: Option<string>)

  datatype TechnicalFrame = Missing(reason: string) | Present(row: Row, barEnd: int)

  datatype Basis = PrevClose | Open

  datatype Comparison = Comparison(benchmark: string, basis: Basis, relativeReturn: Option<real>, aligned: Option<bool>,
                                   unavailable: seq<string>)

  datatype Context = Context(asOf: int, sessionDate: Option<string>, calendarState: Option<string>,
                             freshness: Option<string>,
                             sincePrevClose: Option<real>, sinceOpen: Option<real>, comparisons: seq<Comparison>)

  /** `direct` and `related`: the packet's symbol is among the item's direct or related symbols. */
  datatype NewsItem = NewsItem(version: string, eventKey: string, family: string, publishedAt: Option<int>,
                               publicationDate: Option<string>, observedAt: int, direct: bool, related: bool,
                               decision: Option<string>, impact: Option<string>)

  datatype Status = Available | AvailableEmpty | Partial | NotAvailable

  datatype Exclusion = Exclusion(reason: string, count: int)

  datatype Packet = Packet(
    asOf: int,
    technical: seq<TechnicalFrame>, technicalStatus: Status, technicalReasons: seq<string>,
    context: Option<Context>, marketReasons: seq<string>,
    items: seq<NewsItem>, newsStatus: Status, newsReasons: seq<string>, excluded: seq<Exclusion>)

  function StatusOf(technical: seq<TechnicalFrame>): Status {
    if forall f <- technical :: f.Present? then Available
    else if exists f <- technical :: f.Present? then Partial
    else NotAvailable
  }

  ghost predicate ValidContext(c: Context, asOf: int) {
    && c.asOf <= asOf
    && (forall i :: 0 <= i < |c.comparisons| ==> c.comparisons[i].benchmark != SELF)
    && forall i, j :: 0 <= i < j < |c.comparisons| ==>
      (c.comparisons[i].benchmark, c.comparisons[i].basis) != (c.comparisons[j].benchmark, c.comparisons[j].basis)
  }

  predicate DatedBefore(zone: Zone, text: string, day: int) {
    zone.parse(text).Some? && zone.parse(text).value < day
  }

  ghost predicate ValidNews(p: Packet, zone: Zone) {
    && (p.items != [] <==> p.newsStatus == Available)
    && (forall x <- p.items ::
          && x.version != "" && x.eventKey != "" && x.family in {"news", "sec"} && x.observedAt <= p.asOf
          && (x.publishedAt.Some? ==> x.publishedAt.value <= p.asOf)
          && (x.publicationDate.Some? ==> DatedBefore(zone, x.publicationDate.value, zone.dayOf(p.asOf))))
    && (forall i, j :: 0 <= i < j < |p.items| ==>
          (p.items[i].version, p.items[i].eventKey) != (p.items[j].version, p.items[j].eventKey))
    && (forall e <- p.excluded :: e.count >= 1)
    && (forall i, j :: 0 <= i < j < |p.excluded| ==> p.excluded[i].reason != p.excluded[j].reason)
  }

  predicate SessionIsADate(c: Context, zone: Zone) {
    c.sessionDate.Some? ==> zone.parse(c.sessionDate.value).Some?
  }

  /** What `validated_packet` enforces. */
  ghost predicate ValidPacket(p: Packet, zone: Zone) {
    && |p.technical| == 3 && p.technicalStatus == StatusOf(p.technical)
    && (forall f <- p.technical :: if f.Present? then f.barEnd <= p.asOf else f.reason != "")
    && (p.context.Some? ==> ValidContext(p.context.value, p.asOf) && SessionIsADate(p.context.value, zone))
    && ValidNews(p, zone)
  }

  // ----------------------------------------------------------------- the synthesis

  datatype FrameFacts = FrameFacts(interval: Frame, available: bool, direction: Direction, row: Option<Row>,
                                   barEnd: Option<int>, ageSeconds: Option<int>, missingReason: Option<string>)

  datatype FrameRelation = FrameRelation(first: Frame, second: Frame, relation: Relation)

  datatype Alignment = Alignment(pattern: Pattern, bullish: nat, bearish: nat, nonDirectional: nat, unavailable: nat)

  datatype Reference = Reference(reference: string, basis: Basis, sign: Sign, aligned: Option<bool>,
                                 unavailableReasons: seq<string>)

  datatype MarketRelation = MarketRelation(interval: Frame, reference: string, basis: Basis, relation: Relation)

  datatype Market = Market(available: bool, sessionDate: Option<string>, calendarState: Option<string>,
                           freshness: Option<string>, contextAsOf: Option<int>, ageSeconds: Option<int>,
                           references: seq<Reference>, relations: seq<MarketRelation>)

  datatype Count = Count(key: string, count: int)

  datatype Span = Span(newest: int, oldest: int, age: int)

  /** Dates are copied as texts. */
  datatype DaySpan = DaySpan(newest: string, oldest: string, age: int)

  datatype News = News(availability: Status, itemCount: nat, families: seq<Count>, direct: nat, related: nat,
                       decisions: seq<Count>, impacts: seq<Count>, stamps: Option<Span>, days: Option<DaySpan>,
                       exclusions: seq<Count>, sources: seq<string>)

  datatype Completeness = Completeness(market: bool, technical: Status, news: Status, marketReasons: seq<string>,
                                       technicalReasons: seq<string>, newsReasons: seq<string>,
                                       missing: seq<(Frame, string)>)

  datatype Pointer = FramePointer(frame: Frame) | ReferencePointer(reference: string, basis: Basis) | MarketPointer
    | NewsPointer

  /** `key` is the code followed by the subjects. */
  datatype Contradiction = Contradiction(key: seq<string>, pointers: seq<Pointer>)

  datatype Synthesis = Synthesis(asOf: int, completeness: Completeness, frames: seq<FrameFacts>,
                                 relations: seq<FrameRelation>, alignment: Alignment, market: Market, news: News,
                                 contradictions: seq<Contradiction>)

  const SELF := "self"
  const MISALIGNED := "misaligned"
  const TIMEFRAME_UNAVAILABLE := "timeframe_unavailable"
  const TIMEFRAME_OPPOSITION := "timeframe_opposition"
  const MARKET_CONTEXT_UNAVAILABLE := "market_context_unavailable"
  const MARKET_CONTEXT_OPPOSES_TIMEFRAME := "market_context_opposes_timeframe"
  const COMPARISON_MISALIGNED := "comparison_misaligned"
  const CONTEXT_SESSION_MISMATCH := "context_session_mismatch"
  const NEWS_UNAVAILABLE := "news_unavailable"

  function BasisName(b: Basis): string {
    match b case PrevClose => "prev_close" case Open => "open"
  }

  function Seconds(later: int, earlier: int): int {
    (later - earlier) / 1_000_000
  }

  function Each<T, U>(xs: seq<T>, f: T -> U): seq<U> {
    seq(|xs|, i requires 0 <= i < |xs| => f(xs[i]))
  }

  // ----------------------------------------------------------------- timeframes and relations

  function FactsOf(interval: Frame, f: TechnicalFrame, asOf: int): FrameFacts {
    match f
    case Missing(reason) => FrameFacts(interval, false, Unavailable, None, None, None, Some(reason))
    case Present(row, barEnd) =>
      FrameFacts(interval, true, StateDirection(Some(row.state)), Some(row), Some(barEnd), Some(Seconds(asOf, barEnd)),
        None)
  }

  function FramesOf(p: Packet): seq<FrameFacts>
    requires |p.technical| == 3
  {
    seq(3, k requires 0 <= k < 3 => FactsOf(INTERVALS[k], p.technical[k], p.asOf))
  }

  method Timeframes(p: Packet) returns (facts: seq<FrameFacts>)
    requires |p.technical| == 3
    ensures facts == FramesOf(p)
  {
    facts := [];
    for k := 0 to 3
      invariant facts == FramesOf(p)[..k]
    {
      facts := facts + [FactsOf(INTERVALS[k], p.technical[k], p.asOf)];
    }
  }

  function DirectionAt(frames: seq<FrameFacts>, f: Frame): Direction
    requires |frames| == 3
  {
    frames[Index(f)].direction
  }

  function RelationAt(frames: seq<FrameFacts>, pair: (Frame, Frame)): FrameRelation
    requires |frames| == 3
  {
    FrameRelation(pair.0, pair.1, PairRelation(DirectionAt(frames, pair.0), DirectionAt(frames, pair.1)))
  }

  function RelationsOf(frames: seq<FrameFacts>): seq<FrameRelation>
    requires |frames| == 3
  {
    [RelationAt(frames, (Day, Hour)), RelationAt(frames, (Hour, FiveMinutes)), RelationAt(frames, (Day, FiveMinutes))]
  }

  method Relations(frames: seq<FrameFacts>) returns (relations: seq<FrameRelation>)
    requires |frames| == 3
    ensures relations == RelationsOf(frames)
  {
    relations := [];
    for k := 0 to 3
      invariant relations == RelationsOf(frames)[..k]
    {
      relations := relations + [RelationAt(frames, PAIRS[k])];
    }
  }

  function HasDirection(d: Direction): FrameFacts -> bool {
    (f: FrameFacts) => f.direction == d
  }

  function AlignmentOf(frames: seq<FrameFacts>): Alignment {
    Alignment(PatternOf(Each(frames, (f: FrameFacts) => f.direction)), |L.Keep(frames, HasDirection(Bullish))|,
              |L.Keep(frames, HasDirection(Bearish))|, |L.Keep(frames, HasDirection(NonDirectional))|,
              |L.Keep(frames, HasDirection(Unavailable))|)
  }

  // ----------------------------------------------------------------- market context

  function SortedTexts(xs: seq<string>): seq<string> {
    Each(S.Sort(Each(xs, (x: string) => [x]), NotAfter), (t: seq<string>) => if t == [] then "" else t[0])
  }

  /** The reference order: the symbol itself first, then by name and basis. */
  function ReferenceKey(reference: string, basis: Basis): seq<string> {
    [if reference != SELF then "1" else "0", reference, if basis == PrevClose then "0" else "1"]
  }

  predicate ReferencesInOrder(a: Reference, b: Reference) {
    NotAfter(ReferenceKey(a.reference, a.basis), ReferenceKey(b.reference, b.basis))
  }

  function Compared(c: Comparison): Reference {
    Reference(c.benchmark, c.basis, SignOf(c.relativeReturn), c.aligned, SortedTexts(c.unavailable))
  }

  function Unsorted(c: Context): seq<Reference> {
    [Reference(SELF, PrevClose, SignOf(c.sincePrevClose), None, []),
     Reference(SELF, Open, SignOf(c.sinceOpen), None, [])] +
    Each(c.comparisons, Compared)
  }

  function ReferencesOf(c: Context): seq<Reference> {
    S.Sort(Unsorted(c), ReferencesInOrder)
  }

  function RelationTo(f: FrameFacts): Reference -> MarketRelation {
    (r: Reference) => MarketRelation(f.interval, r.reference, r.basis, ContextRelation(f.direction, r.sign))
  }

  /** Every frame against every reference, frame by frame. */
  function MarketRelationsOf(frames: seq<FrameFacts>, references: seq<Reference>): seq<MarketRelation> {
    if frames == [] then []
    else MarketRelationsOf(frames[..|frames| - 1], references) + Each(references, RelationTo(frames[|frames| - 1]))
  }

  function MarketOf(p: Packet, frames: seq<FrameFacts>): Market {
    match p.context
    case None => Market(false, None, None, None, None, None, [], [])
    case Some(c) =>
      Market(true, c.sessionDate, c.calendarState, c.freshness, Some(c.asOf), Some(Seconds(p.asOf, c.asOf)),
        ReferencesOf(c),
             MarketRelationsOf(frames, ReferencesOf(c)))
  }

  /** `_market_context`. */
  method MarketContext(p: Packet, frames: seq<FrameFacts>) returns (market: Market)
    ensures market == MarketOf(p, frames)
  {
    if p.context.None? {
      return Market(false, None, None, None, None, None, [], []);
    }
    var c := p.context.value;
    var references := [Reference(SELF, PrevClose, SignOf(c.sincePrevClose), None, []),
                       Reference(SELF, Open, SignOf(c.sinceOpen), None, [])];
    for n := 0 to |c.comparisons|
      invariant references == Unsorted(c)[..n + 2]
    {
      references := references + [Compared(c.comparisons[n])];
    }
    assert references == Unsorted(c);
    references := S.Sort(references, ReferencesInOrder);
    var relations := [];
    for k := 0 to |frames|
      invariant relations == MarketRelationsOf(frames[..k], references)
    {
      assert frames[..k + 1][..k] == frames[..k];
      relations := relations + Each(references, RelationTo(frames[k]));
    }
    assert frames[..|frames|] == frames;
    market :=
      Market(true, c.sessionDate, c.calendarState, c.freshness, Some(c.asOf), Some(Seconds(p.asOf, c.asOf)), references,
                     relations);
  }

  // ----------------------------------------------------------------- news

  /** Count one more value in a sorted tally. */
  function Tally(counts: seq<Count>, v: string): seq<Count> {
    if counts == [] || StringBefore(counts[|counts| - 1].key, v) then counts + [Count(v, 1)]
    else
      var n := |counts| - 1;
      if counts[n].key == v then counts[..n] + [Count(v, counts[n].count + 1)] else Tally(counts[..n], v) + [counts[n]]
  }

  /** `sorted(Counter(values).items())`. */
  function CountsOf(values: seq<string>): seq<Count> {
    if values == [] then [] else Tally(CountsOf(values[..|values| - 1]), values[|values| - 1])
  }

  function OrNone(text: Option<string>): string {
    if text.None? || text.value == "" then "none" else text.value
  }

  function Source(x: NewsItem): string {
    "news.items[" + x.version + ":" + x.eventKey + "]"
  }

  function Greatest(xs: seq<int>): int
    requires xs != []
  {
    var n := |xs| - 1;
    if n == 0 || Greatest(xs[..n]) <= xs[n] then xs[n] else Greatest(xs[..n])
  }

  function Least(xs: seq<int>): int
    requires xs != []
  {
    var n := |xs| - 1;
    if n == 0 || xs[n] <= Least(xs[..n]) then xs[n] else Least(xs[..n])
  }

  function Known<T>(xs: seq<Option<T>>): seq<T> {
    if xs == [] then []
    else if xs[|xs| - 1].Some? then Known(xs[..|xs| - 1]) + [xs[|xs| - 1].value]
    else Known(xs[..|xs| - 1])
  }

  function ExclusionsInOrder(a: Count, b: Count): bool {
    NotAfter([a.key], [b.key])
  }

  function FamilyOf(x: NewsItem): string { x.family }
  function DecisionOf(x: NewsItem): string { OrNone(x.decision) }
  function ImpactOf(x: NewsItem): string { OrNone(x.impact) }
  function StampOf(x: NewsItem): Option<int> { x.publishedAt }
  function DateOf(x: NewsItem): Option<string> { x.publicationDate }
  predicate IsDirect(x: NewsItem) { x.direct }
  predicate IsRelated(x: NewsItem) { x.related && !x.direct }
  function ExcludedCount(e: Exclusion): Count { Count(e.reason, e.count) }

  /** The publication dates, sorted as the texts they are. */
  function Dates(p: Packet): seq<string> {
    SortedTexts(Known(Each(p.items, DateOf)))
  }

  /** A date of a valid packet is always parsed. */
  function AgeInDays(p: Packet, zone: Zone, date: string): int {
    match zone.parse(date) case Some(day) => zone.dayOf(p.asOf) - day case None => 0
  }

  function NewsOf(p: Packet, zone: Zone): News {
    var stamps, days := Known(Each(p.items, StampOf)), Dates(p);
    News(p.newsStatus, |p.items|, CountsOf(Each(p.items, FamilyOf)),
         |L.Keep(p.items, IsDirect)|, |L.Keep(p.items, IsRelated)|,
         CountsOf(Each(p.items, DecisionOf)), CountsOf(Each(p.items, ImpactOf)),
         if stamps == [] then None else Some(Span(Greatest(stamps), Least(stamps), Seconds(p.asOf, Greatest(stamps)))),
         if days == [] then None else Some(DaySpan(days[|days| - 1], days[0], AgeInDays(p, zone, days[|days| - 1]))),
         S.Sort(Each(p.excluded, ExcludedCount), ExclusionsInOrder),
         SortedTexts(Each(p.items, Source)))
  }

  // ----------------------------------------------------------------- contradictions

  function FrameGap(f: FrameFacts): Contradiction {
    Contradiction([TIMEFRAME_UNAVAILABLE, Name(f.interval)], [FramePointer(f.interval)])
  }

  function FrameOpposition(r: FrameRelation): Contradiction {
    Contradiction([TIMEFRAME_OPPOSITION, Name(r.first), Name(r.second)],
      [FramePointer(r.first), FramePointer(r.second)])
  }

  function MarketOpposition(r: MarketRelation): Contradiction {
    Contradiction([MARKET_CONTEXT_OPPOSES_TIMEFRAME, Name(r.interval), r.reference, BasisName(r.basis)],
                  [FramePointer(r.interval), ReferencePointer(r.reference, r.basis)])
  }

  function Misalignment(r: Reference): Contradiction {
    Contradiction([COMPARISON_MISALIGNED, r.reference, BasisName(r.basis)], [ReferencePointer(r.reference, r.basis)])
  }

  predicate Gap(f: FrameFacts) { f.direction == Unavailable }
  predicate Opposite(r: FrameRelation) { r.relation == Oppose }
  predicate MarketOpposite(r: MarketRelation) { r.relation == Oppose }
  predicate Misaligned(r: Reference) { MISALIGNED in r.unavailableReasons }

  /** The available frame with the latest bar end, the first in interval order on a tie. */
  function LatestFrame(frames: seq<FrameFacts>): Option<FrameFacts> {
    if frames == [] then None
    else
      var before, last := LatestFrame(frames[..|frames| - 1]), frames[|frames| - 1];
      if last.barEnd.None? then before
      else if before.None? || before.value.barEnd.None? || before.value.barEnd.value < last.barEnd.value then Some(last)
      else before
  }

  function SessionMismatch(frames: seq<FrameFacts>, market: Market, zone: Zone): seq<Contradiction> {
    var latest := LatestFrame(frames);
    if market.sessionDate.Some? && latest.Some? && latest.value.barEnd.Some?
       && zone.iso(zone.dayOf(latest.value.barEnd.value)) != market.sessionDate.value then
      [Contradiction([CONTEXT_SESSION_MISMATCH, "market_context", Name(latest.value.interval)],
                     [MarketPointer, FramePointer(latest.value.interval)])]
    else []
  }

  function MarketFindings(frames: seq<FrameFacts>, market: Market, zone: Zone): seq<Contradiction> {
    if !market.available then [Contradiction([MARKET_CONTEXT_UNAVAILABLE, "market_context"], [MarketPointer])]
    else
      Each(L.Keep(market.relations, MarketOpposite), MarketOpposition) +
      Each(L.Keep(market.references, Misaligned), Misalignment) + SessionMismatch(frames, market, zone)
  }

  function NewsFindings(status: Status): seq<Contradiction> {
    if status == NotAvailable then [Contradiction([NEWS_UNAVAILABLE, "news"], [NewsPointer])] else []
  }

  function Found(frames: seq<FrameFacts>, relations: seq<FrameRelation>, market: Market, status: Status, zone: Zone)
    : seq<Contradiction>
  {
    Each(L.Keep(frames, Gap), FrameGap) + Each(L.Keep(relations, Opposite), FrameOpposition) +
    MarketFindings(frames, market, zone) + NewsFindings(status)
  }

  predicate ContradictionsInOrder(a: Contradiction, b: Contradiction) {
    NotAfter(a.key, b.key)
  }

  lemma EachKept<T, U>(xs: seq<T>, n: nat, p: T -> bool, f: T -> U)
    requires n < |xs|
    ensures Each(L.Keep(xs[..n + 1], p), f) == Each(L.Keep(xs[..n], p), f) + if p(xs[n]) then [f(xs[n])] else []
  {
    assert xs[..n + 1][..n] == xs[..n];
  }

  /** The append loop that every kind of contradiction uses. */
  method Collect<T, U>(found: seq<U>, xs: seq<T>, p: T -> bool, f: T -> U) returns (r: seq<U>)
    ensures r == found + Each(L.Keep(xs, p), f)
  {
    r := found;
    for n := 0 to |xs|
      invariant r == found + Each(L.Keep(xs[..n], p), f)
    {
      EachKept(xs, n, p, f);
      if p(xs[n]) {
        r := r + [f(xs[n])];
      }
    }
    assert xs[..|xs|] == xs;
  }

  method CollectMarket(found: seq<Contradiction>, frames: seq<FrameFacts>, market: Market, zone: Zone)
    returns (r: seq<Contradiction>)
    ensures r == found + MarketFindings(frames, market, zone)
  {
    if !market.available {
      r := found + [Contradiction([MARKET_CONTEXT_UNAVAILABLE, "market_context"], [MarketPointer])];
    } else {
      r := Collect(found, market.relations, MarketOpposite, MarketOpposition);
      r := Collect(r, market.references, Misaligned, Misalignment);
      r := r + SessionMismatch(frames, market, zone);
    }
  }

  /** `_contradictions`. */
  method Contradictions(frames: seq<FrameFacts>, relations: seq<FrameRelation>, market: Market, status: Status,
                        zone: Zone)
    returns (r: seq<Contradiction>)
    ensures r == S.Sort(Found(frames, relations, market, status, zone), ContradictionsInOrder)
  {
    var found: seq<Contradiction> := Collect([], frames, Gap, FrameGap);
    assert found == Each(L.Keep(frames, Gap), FrameGap);
    found := Collect(found, relations, Opposite, FrameOpposition);
    found := CollectMarket(found, frames, market, zone);
    found := found + NewsFindings(status);
    r := S.Sort(found, ContradictionsInOrder);
  }

  // ----------------------------------------------------------------- the builder

  function MissingOf(frames: seq<FrameFacts>): seq<(Frame, string)> {
    Each(L.Keep(frames, (f: FrameFacts) => !f.available),
         (f: FrameFacts) => (f.interval, if f.missingReason.Some? then f.missingReason.value else ""))
  }

  function SynthesisOf(p: Packet, zone: Zone): Synthesis
    requires |p.technical| == 3
  {
    var frames := FramesOf(p);
    var market := MarketOf(p, frames);
    Synthesis(
      p.asOf,
      Completeness(p.context.Some?, p.technicalStatus, p.newsStatus, SortedTexts(p.marketReasons),
                   SortedTexts(p.technicalReasons), SortedTexts(p.newsReasons), MissingOf(frames)),
      frames, RelationsOf(frames), AlignmentOf(frames), market, NewsOf(p, zone),
      S.Sort(Found(frames, RelationsOf(frames), market, p.newsStatus, zone), ContradictionsInOrder))
  }

  /** `synthesize`. */
  method Synthesize(p: Packet, zone: Zone) returns (s: Synthesis)
    requires |p.technical| == 3
    ensures s == SynthesisOf(p, zone)
  {
    var frames := Timeframes(p);
    var relations := Relations(frames);
    var market := MarketContext(p, frames);
    var contradictions := Contradictions(frames, relations, market, p.newsStatus, zone);
    s := Synthesis(
      p.asOf,
      Completeness(p.context.Some?, p.technicalStatus, p.newsStatus, SortedTexts(p.marketReasons),
                   SortedTexts(p.technicalReasons), SortedTexts(p.newsReasons), MissingOf(frames)),
      frames, relations, AlignmentOf(frames), market, NewsOf(p, zone), contradictions);
  }
}
