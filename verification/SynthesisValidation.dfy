/** The independent validator of a synthesis (market_intelligence/validation.py:124-330), and exactly which packets the
    builder turns into a synthesis that it accepts. */
module SynthesisValidation {
  import opened Results
  import opened EvidenceRules
  import opened EvidenceSynthesis
  import opened Texts
  import D = Dates
  import N = Numerals
  import L = Lists
  import S = Sorting

  predicate Filled(text: Option<string>) {
    text.None? || text.value != ""
  }

  predicate AllFilled(texts: seq<string>) {
    forall t <- texts :: t != ""
  }

  predicate TextsSorted(texts: seq<string>) {
    forall i, j :: 0 <= i < j < |texts| ==> !StringBefore(texts[j], texts[i])
  }

  predicate TextsStrict(texts: seq<string>) {
    forall i, j :: 0 <= i < j < |texts| ==> StringBefore(texts[i], texts[j])
  }

  // ----------------------------------------------------------------- timeframes

  predicate GoodRow(r: Row) {
    Filled(r.momentum) && Filled(r.emaAlignment) && Filled(r.vwapPosition)
  }

  predicate GoodFrame(f: FrameFacts, asOf: int) {
    if !f.available then
      && f.direction == Unavailable && f.row.None? && f.barEnd.None? && f.ageSeconds.None?
      && f.missingReason.Some? && f.missingReason.value != ""
    else
      && f.missingReason.None? && f.row.Some? && GoodRow(f.row.value)
      && f.direction == StateDirection(Some(f.row.value.state))
      && f.barEnd.Some? && f.barEnd.value <= asOf
      && f.ageSeconds == Some(Seconds(asOf, f.barEnd.value)) && f.ageSeconds.value >= 0
  }

  predicate FramesValid(s: Synthesis) {
    |s.frames| == 3 && forall k :: 0 <= k < 3 ==> s.frames[k].interval == INTERVALS[k] && GoodFrame(s.frames[k], s.asOf)
  }

  function Directions(frames: seq<FrameFacts>): seq<Direction> {
    Each(frames, (f: FrameFacts) => f.direction)
  }

  function Occurrences(directions: seq<Direction>, d: Direction): nat {
    |L.Keep(directions, (x: Direction) => x == d)|
  }

  predicate RelationsValid(s: Synthesis)
    requires |s.frames| == 3
  {
    && |s.relations| == 3
    && (forall k :: 0 <= k < 3 ==>
          && (s.relations[k].first, s.relations[k].second) == PAIRS[k]
          && s.relations[k].relation ==
            PairRelation(DirectionAt(s.frames, PAIRS[k].0), DirectionAt(s.frames, PAIRS[k].1)))
    && s.alignment.pattern == PatternOf(Directions(s.frames))
    && s.alignment.bullish == Occurrences(Directions(s.frames), Bullish)
    && s.alignment.bearish == Occurrences(Directions(s.frames), Bearish)
    && s.alignment.nonDirectional == Occurrences(Directions(s.frames), NonDirectional)
    && s.alignment.unavailable == Occurrences(Directions(s.frames), Unavailable)
  }

  // ----------------------------------------------------------------- market context

  function KeyOf(r: Reference): (string, Basis) {
    (r.reference, r.basis)
  }

  /** Every interval with every reference, in that order. */
  function Product(intervals: seq<Frame>, keys: seq<(string, Basis)>): seq<(Frame, string, Basis)> {
    if intervals == [] then []
    else
      Product(intervals[..|intervals| - 1], keys) + Each(keys, With(intervals[|intervals| - 1]))
  }

  function With(interval: Frame): ((string, Basis)) -> (Frame, string, Basis) {
    (k: (string, Basis)) => (interval, k.0, k.1)
  }

  predicate GoodReference(r: Reference) {
    r.reference != "" && AllFilled(r.unavailableReasons) && TextsSorted(r.unavailableReasons)
  }

  predicate ReferencesValid(references: seq<Reference>) {
    && (forall r <- references :: GoodReference(r))
    && (forall i, j :: 0 <= i < j < |references| ==> KeyOf(references[i]) != KeyOf(references[j]))
    && (forall i, j :: 0 <= i < j < |references| ==> ReferencesInOrder(references[i], references[j]))
    && Each(L.Keep(references, IsSelf), KeyOf) == [(SELF, PrevClose), (SELF, Open)]
  }

  predicate IsSelf(r: Reference) {
    r.reference == SELF
  }

  predicate MarketRelationsValid(frames: seq<FrameFacts>, market: Market)
    requires |frames| == 3
  {
    && Each(market.relations, (r: MarketRelation) => (r.interval, r.reference, r.basis)) ==
       Product(INTERVALS, Each(market.references, KeyOf))
    && (forall r <- market.relations, ref <- market.references :: KeyOf(ref) == (r.reference, r.basis) ==>
          r.relation == ContextRelation(DirectionAt(frames, r.interval), ref.sign))
  }

  predicate MarketValid(s: Synthesis, zone: Zone)
    requires |s.frames| == 3
  {
    var m := s.market;
    if !m.available then m == Market(false, None, None, None, None, None, [], [])
    else
      && Filled(m.sessionDate) && Filled(m.calendarState) && Filled(m.freshness)
      && (m.sessionDate.Some? ==> zone.parse(m.sessionDate.value).Some?)
      && m.contextAsOf.Some? && m.contextAsOf.value <= s.asOf
      && m.ageSeconds == Some(Seconds(s.asOf, m.contextAsOf.value)) && m.ageSeconds.value >= 0
      && ReferencesValid(m.references) && MarketRelationsValid(s.frames, m)
  }

  // ----------------------------------------------------------------- news

  function SumOf(counts: seq<Count>): int {
    if counts == [] then 0 else SumOf(counts[..|counts| - 1]) + counts[|counts| - 1].count
  }

  predicate CountsValid(counts: seq<Count>) {
    && (forall c <- counts :: c.key != "" && c.count >= 1)
    && forall i, j :: 0 <= i < j < |counts| ==> StringBefore(counts[i].key, counts[j].key)
  }

  predicate NewsValid(s: Synthesis, zone: Zone) {
    var n := s.news;
    && (n.itemCount > 0 <==> n.availability == Available)
    && CountsValid(n.families) && CountsValid(n.decisions) && CountsValid(n.impacts) && CountsValid(n.exclusions)
    && SumOf(n.families) == SumOf(n.decisions) == SumOf(n.impacts) == n.itemCount
    && n.direct + n.related <= n.itemCount
    && TextsStrict(n.sources) && AllFilled(n.sources) && |n.sources| == n.itemCount
    && (n.stamps.Some? ==> StampsValid(n.stamps.value, s.asOf))
    && (n.days.Some? ==> DaysValid(n.days.value, zone, zone.dayOf(s.asOf)))
  }

  predicate StampsValid(stamps: Span, asOf: int) {
    stamps.oldest <= stamps.newest <= asOf && stamps.age == Seconds(asOf, stamps.newest)
  }

  /** Dates are compared as dates. */
  predicate DaysValid(days: DaySpan, zone: Zone, today: int) {
    var newest, oldest := zone.parse(days.newest), zone.parse(days.oldest);
    newest.Some? && oldest.Some? && oldest.value <= newest.value < today && days.age == today - newest.value
  }

  // ----------------------------------------------------------------- completeness

  predicate CompletenessValid(s: Synthesis)
    requires |s.frames| == 3
  {
    var c := s.completeness;
    var present := |L.Keep(s.frames, (f: FrameFacts) => f.available)|;
    && AllFilled(c.marketReasons) && AllFilled(c.technicalReasons) && AllFilled(c.newsReasons)
    && TextsSorted(c.marketReasons) && TextsSorted(c.technicalReasons) && TextsSorted(c.newsReasons)
    && c.technical == (if present == 3 then Available else if present > 0 then Partial else NotAvailable)
    && c.market == s.market.available && c.news == s.news.availability
    && c.missing == MissingOf(s.frames)
  }

  // ----------------------------------------------------------------- contradictions

  const CODES :=
    {TIMEFRAME_UNAVAILABLE, TIMEFRAME_OPPOSITION, MARKET_CONTEXT_UNAVAILABLE, MARKET_CONTEXT_OPPOSES_TIMEFRAME,
                  COMPARISON_MISALIGNED, CONTEXT_SESSION_MISMATCH, NEWS_UNAVAILABLE}

  /** The frame of the greatest (bar end, earlier interval). */
  predicate IsLatest(frames: seq<FrameFacts>, i: Frame)
    requires |frames| == 3
  {
    var f := frames[Index(i)];
    f.barEnd.Some? && forall j: Frame :: frames[Index(j)].barEnd.Some? ==>
      var e := frames[Index(j)].barEnd.value;
      e < f.barEnd.value || (e == f.barEnd.value && Index(i) <= Index(j))
  }

  ghost predicate ExpectedGap(frames: seq<FrameFacts>, key: seq<string>) {
    exists f :: f in frames && f.direction == Unavailable && key == [TIMEFRAME_UNAVAILABLE, Name(f.interval)]
  }

  ghost predicate ExpectedOpposition(relations: seq<FrameRelation>, key: seq<string>) {
    exists r :: r in relations && r.relation == Oppose && key == [TIMEFRAME_OPPOSITION, Name(r.first), Name(r.second)]
  }

  function MarketOppositionKey(r: MarketRelation): seq<string> {
    [MARKET_CONTEXT_OPPOSES_TIMEFRAME, Name(r.interval), r.reference, BasisName(r.basis)]
  }

  ghost predicate ExpectedMarketOpposition(market: Market, key: seq<string>) {
    exists r :: r in market.relations && r.relation == Oppose && key == MarketOppositionKey(r)
  }

  ghost predicate ExpectedMisalignment(market: Market, key: seq<string>) {
    exists r :: r in market.references && MISALIGNED in r.unavailableReasons &&
      key == [COMPARISON_MISALIGNED, r.reference, BasisName(r.basis)]
  }

  ghost predicate ExpectedMismatch(frames: seq<FrameFacts>, market: Market, zone: Zone, key: seq<string>)
    requires |frames| == 3
  {
    market.sessionDate.Some? && exists i: Frame ::
      (IsLatest(frames, i) && zone.iso(zone.dayOf(frames[Index(i)].barEnd.value)) != market.sessionDate.value
       && key == [CONTEXT_SESSION_MISMATCH, "market_context", Name(i)])
  }

  /** The contradiction keys, re-derived from the facts. */
  ghost predicate IsExpected(s: Synthesis, zone: Zone, key: seq<string>)
    requires |s.frames| == 3
  {
    || ExpectedGap(s.frames, key)
    || ExpectedOpposition(s.relations, key)
    || (if !s.market.available then key == [MARKET_CONTEXT_UNAVAILABLE, "market_context"]
        else
          ExpectedMarketOpposition(s.market, key) || ExpectedMisalignment(s.market, key) ||
          ExpectedMismatch(s.frames, s.market, zone, key))
    || (s.news.availability == NotAvailable && key == [NEWS_UNAVAILABLE, "news"])
  }

  predicate GoodContradiction(c: Contradiction) {
    c.key != [] && c.key[0] in CODES && AllFilled(c.key[1..]) && c.pointers != []
  }

  ghost predicate ContradictionsValid(s: Synthesis, zone: Zone)
    requires |s.frames| == 3
  {
    && (forall c <- s.contradictions :: GoodContradiction(c))
    && (forall i, j :: 0 <= i < j < |s.contradictions| ==>
      TupleBefore(s.contradictions[i].key, s.contradictions[j].key))
    && forall key :: (exists c <- s.contradictions :: c.key == key) <==> IsExpected(s, zone, key)
  }

  predicate SectionsValid(s: Synthesis, zone: Zone) {
    FramesValid(s) && RelationsValid(s) && MarketValid(s, zone) && NewsValid(s, zone) && CompletenessValid(s)
  }

  /** `validated_synthesis`. */
  ghost predicate Accepted(s: Synthesis, zone: Zone) {
    SectionsValid(s, zone) && ContradictionsValid(s, zone)
  }

  // ----------------------------------------------------------------- the condition

  ghost predicate CleanContext(c: Context) {
    && Filled(c.calendarState) && Filled(c.freshness)
    && forall x <- c.comparisons :: x.benchmark != "" && AllFilled(x.unavailable)
  }

  /** The text-least publication date is no later a date than the text-greatest one. */
  predicate DatesInOrder(p: Packet, zone: Zone) {
    var days := Dates(p);
    days != [] ==>
      var newest, oldest := zone.parse(days[|days| - 1]), zone.parse(days[0]);
      newest.Some? && oldest.Some? ==> oldest.value <= newest.value
  }

  /** No empty text where the validator demands one, no two items whose source names collide, and date texts that sort
      as dates at both ends. */
  ghost predicate Clean(p: Packet, zone: Zone) {
    && (forall f <- p.technical :: f.Present? ==> GoodRow(f.row))
    && (p.context.Some? ==> CleanContext(p.context.value))
    && AllFilled(p.marketReasons) && AllFilled(p.technicalReasons) && AllFilled(p.newsReasons)
    && (forall e <- p.excluded :: e.reason != "")
    && S.Distinct(Each(p.items, Source))
    && DatesInOrder(p, zone)
  }

  // ----------------------------------------------------------------- timeframes and relations

  ghost predicate ValidTechnical(p: Packet) {
    |p.technical| == 3 && forall f <- p.technical :: if f.Present? then f.barEnd <= p.asOf else f.reason != ""
  }

  lemma FramesMeet(p: Packet, s: Synthesis)
    requires ValidTechnical(p) && s.frames == FramesOf(p) && s.asOf == p.asOf
    ensures FramesValid(s) <==> forall f <- p.technical :: f.Present? ==> GoodRow(f.row)
  {
    forall k | 0 <= k < 3
      ensures GoodFrame(s.frames[k], p.asOf) <==> (p.technical[k].Present? ==> GoodRow(p.technical[k].row))
    {
      assert p.technical[k] in p.technical;
    }
  }

  lemma {:induction false} KeepEach<T, U>(xs: seq<T>, f: T -> U, p: U -> bool, q: T -> bool)
    requires forall x <- xs :: p(f(x)) == q(x)
    ensures |L.Keep(Each(xs, f), p)| == |L.Keep(xs, q)|
  {
    if xs != [] {
      var n := |xs| - 1;
      KeepEach(xs[..n], f, p, q);
      assert Each(xs, f)[..n] == Each(xs[..n], f) && xs[n] in xs;
    }
  }

  lemma DirectionCounts(frames: seq<FrameFacts>, d: Direction)
    ensures Occurrences(Directions(frames), d) == |L.Keep(frames, HasDirection(d))|
  {
    KeepEach(frames, (f: FrameFacts) => f.direction, (x: Direction) => x == d, HasDirection(d));
  }

  lemma RelationsMeet(s: Synthesis)
    requires |s.frames| == 3 && s.relations == RelationsOf(s.frames) && s.alignment == AlignmentOf(s.frames)
    ensures RelationsValid(s)
  {
    DirectionCounts(s.frames, Bullish);
    DirectionCounts(s.frames, Bearish);
    DirectionCounts(s.frames, NonDirectional);
    DirectionCounts(s.frames, Unavailable);
  }

  // ----------------------------------------------------------------- sorted texts

  lemma SingleTuples(a: string, b: string)
    ensures TupleBefore([a], [b]) <==> StringBefore(a, b)
  {
    StringsAreOrdered(a, b);
  }

  lemma SortedTextsFacts(xs: seq<string>)
    ensures |SortedTexts(xs)| == |xs| && TextsSorted(SortedTexts(xs))
    ensures forall x :: x in SortedTexts(xs) <==> x in xs
    ensures multiset(SortedTexts(xs)) == multiset(xs)
  {
    var singles := Each(xs, (x: string) => [x]);
    var sorted := S.Sort(singles, NotAfter);
    var out := SortedTexts(xs);
    NotAfterIsTotal();
    S.SortPermutes(singles, NotAfter);
    S.SortSorted(singles, NotAfter);
    forall i | 0 <= i < |sorted| ensures sorted[i] == [out[i]] {
      assert sorted[i] in sorted;
      S.SameElements(sorted, singles, sorted[i]);
    }
    forall i, j | 0 <= i < j < |out| ensures !StringBefore(out[j], out[i]) {
      assert NotAfter(sorted[i], sorted[j]);
      SingleTuples(out[j], out[i]);
    }
    assert sorted == Each(out, (x: string) => [x]);
    SinglesPermute(out, xs);
    forall x ensures x in out <==> x in xs { S.SameElements(out, xs, x); }
  }

  lemma {:induction false} SinglesCount(xs: seq<string>, x: string)
    ensures multiset(Each(xs, (y: string) => [y]))[[x]] == multiset(xs)[x]
  {
    var singles := Each(xs, (y: string) => [y]);
    if xs != [] {
      var n := |xs| - 1;
      SinglesCount(xs[..n], x);
      assert singles == Each(xs[..n], (y: string) => [y]) + [[xs[n]]];
      assert xs == xs[..n] + [xs[n]];
    }
  }

  lemma SinglesPermute(xs: seq<string>, ys: seq<string>)
    requires multiset(Each(xs, (x: string) => [x])) == multiset(Each(ys, (x: string) => [x]))
    ensures multiset(xs) == multiset(ys)
  {
    forall x: string ensures multiset(xs)[x] == multiset(ys)[x] {
      SinglesCount(xs, x);
      SinglesCount(ys, x);
    }
  }

  /** Sorting gives a strict list exactly when nothing repeats. */
  lemma StrictWhenDistinct(xs: seq<string>)
    ensures TextsStrict(SortedTexts(xs)) <==> S.Distinct(xs)
  {
    var out := SortedTexts(xs);
    SortedTextsFacts(xs);
    if S.Distinct(xs) {
      S.DistinctPermutes(xs, out);
      forall i, j | 0 <= i < j < |out| ensures StringBefore(out[i], out[j]) { StringsAreOrdered(out[i], out[j]); }
    } else if TextsStrict(out) {
      forall i, j | 0 <= i < j < |out| ensures out[i] != out[j] { StringsAreOrdered(out[i], out[j]); }
      S.DistinctPermutes(out, xs);
    }
  }

  // ----------------------------------------------------------------- market context

  function RefKey(r: Reference): seq<string> {
    ReferenceKey(r.reference, r.basis)
  }

  predicate RefBefore(a: Reference, b: Reference) {
    TupleBefore(RefKey(a), RefKey(b))
  }

  ghost predicate DistinctKeys(references: seq<Reference>) {
    forall i, j :: 0 <= i < j < |references| ==> KeyOf(references[i]) != KeyOf(references[j])
  }

  lemma UnsortedIsDistinct(c: Context, asOf: int)
    requires ValidContext(c, asOf)
    ensures DistinctKeys(Unsorted(c))
  {
    var u := Unsorted(c);
    forall i, j | 0 <= i < j < |u| ensures KeyOf(u[i]) != KeyOf(u[j]) {
      assert j >= 2 ==> u[j] == Compared(c.comparisons[j - 2]);
      assert i >= 2 ==> u[i] == Compared(c.comparisons[i - 2]);
    }
  }

  /** The references are the symbol's own pair and one per comparison, in strict order. */
  lemma ReferencesFacts(c: Context, asOf: int)
    requires ValidContext(c, asOf)
    ensures L.Chain(ReferencesOf(c), RefBefore) && DistinctKeys(ReferencesOf(c))
    ensures forall r :: r in ReferencesOf(c) <==> r in Unsorted(c)
  {
    var u, out := Unsorted(c), ReferencesOf(c);
    UnsortedIsDistinct(c, asOf);
    forall i, j | 0 <= i < j < |u| ensures RefKey(u[i]) != RefKey(u[j]) { }
    var key := (r: Reference) => RefKey(r);
    SortedByKey(u, key, ReferencesInOrder);
    forall i, j | 0 <= i < j < |out| ensures RefBefore(out[i], out[j]) && KeyOf(out[i]) != KeyOf(out[j]) {
      AscendingAt(out, key, i, j);
      TuplesAreOrdered(RefKey(out[i]), RefKey(out[j]));
    }
  }

  lemma RefBeforeIsStrict()
    ensures L.Strict(RefBefore)
  {
    forall a: Reference, b: Reference | RefBefore(a, b) ensures !RefBefore(b, a) {
      TuplesAreOrdered(RefKey(a), RefKey(b));
    }
  }

  lemma OwnKept(c: Context, asOf: int, r: Reference)
    requires ValidContext(c, asOf)
    ensures r in L.Keep(ReferencesOf(c), IsSelf) <==> r in Unsorted(c)[..2]
  {
    ReferencesFacts(c, asOf);
    L.KeepMembers(ReferencesOf(c), IsSelf, r);
    SelfIsOwn(c, asOf, r);
  }

  lemma OwnChain(own: seq<Reference>)
    requires |own| == 2 && KeyOf(own[0]) == (SELF, PrevClose) && KeyOf(own[1]) == (SELF, Open)
    ensures L.Chain(own, RefBefore)
  {
    OwnInOrder(own[0], own[1]);
  }

  /** Both self references come out, in basis order. */
  lemma SelfReferences(c: Context, asOf: int)
    requires ValidContext(c, asOf)
    ensures Each(L.Keep(ReferencesOf(c), IsSelf), KeyOf) == [(SELF, PrevClose), (SELF, Open)]
  {
    var own := Unsorted(c)[..2];
    forall r ensures r in L.Keep(ReferencesOf(c), IsSelf) <==> r in own { OwnKept(c, asOf, r); }
    ReferencesFacts(c, asOf);
    OwnInBasisOrder(ReferencesOf(c), own);
  }

  lemma OwnInBasisOrder(references: seq<Reference>, own: seq<Reference>)
    requires L.Chain(references, RefBefore) && forall r :: r in L.Keep(references, IsSelf) <==> r in own
    requires |own| == 2 && KeyOf(own[0]) == (SELF, PrevClose) && KeyOf(own[1]) == (SELF, Open)
    ensures Each(L.Keep(references, IsSelf), KeyOf) == [(SELF, PrevClose), (SELF, Open)]
  {
    L.KeepChain(references, IsSelf, RefBefore);
    OwnChain(own);
    RefBeforeIsStrict();
    L.ChainUnique(L.Keep(references, IsSelf), own, RefBefore);
  }

  lemma OwnInOrder(a: Reference, b: Reference)
    requires KeyOf(a) == (SELF, PrevClose) && KeyOf(b) == (SELF, Open)
    ensures RefBefore(a, b)
  {
    var x, y := RefKey(a), RefKey(b);
    assert x[0] == y[0] && x[1..][0] == y[1..][0] == SELF;
    assert x[1..][1..] == ["0"] && y[1..][1..] == ["1"];
    assert "0"[0] < "1"[0];
    assert TupleBefore(x[1..][1..], y[1..][1..]);
  }

  lemma SelfIsOwn(c: Context, asOf: int, r: Reference)
    requires ValidContext(c, asOf)
    ensures r in Unsorted(c) && IsSelf(r) <==> r in Unsorted(c)[..2]
  {
    var u := Unsorted(c);
    if r in u && IsSelf(r) {
      var k :| 0 <= k < |u| && u[k] == r;
      assert k >= 2 ==> u[k] == Compared(c.comparisons[k - 2]);
      assert u[..2][k] == r;
    }
  }

  lemma GoodReferencesMeet(c: Context)
    requires forall r :: r in ReferencesOf(c) <==> r in Unsorted(c)
    ensures (forall r <- ReferencesOf(c) :: GoodReference(r)) <==>
      forall x <- c.comparisons :: x.benchmark != "" && AllFilled(x.unavailable)
  {
    if forall r <- ReferencesOf(c) :: GoodReference(r) {
      forall x | x in c.comparisons ensures x.benchmark != "" && AllFilled(x.unavailable) {
        ComparedIsListed(c, x);
        GoodComparison(x);
      }
    }
    if forall x <- c.comparisons :: x.benchmark != "" && AllFilled(x.unavailable) {
      forall r | r in ReferencesOf(c) ensures GoodReference(r) {
        ListedIsCompared(c, r);
      }
    }
  }

  lemma ComparedIsListed(c: Context, x: Comparison)
    requires x in c.comparisons
    ensures Compared(x) in Unsorted(c)
  {
    var k :| 0 <= k < |c.comparisons| && c.comparisons[k] == x;
    assert Unsorted(c)[k + 2] == Compared(x);
  }

  lemma ListedIsCompared(c: Context, r: Reference)
    requires r in Unsorted(c) && forall x <- c.comparisons :: x.benchmark != "" && AllFilled(x.unavailable)
    ensures GoodReference(r)
  {
    var u := Unsorted(c);
    var k :| 0 <= k < |u| && u[k] == r;
    if k >= 2 {
      assert r == Compared(c.comparisons[k - 2]) && c.comparisons[k - 2] in c.comparisons;
      GoodComparison(c.comparisons[k - 2]);
    }
  }

  lemma GoodComparison(x: Comparison)
    ensures GoodReference(Compared(x)) <==> x.benchmark != "" && AllFilled(x.unavailable)
  {
    SortedTextsFacts(x.unavailable);
  }

  lemma ReferencesMeet(c: Context, asOf: int)
    requires ValidContext(c, asOf)
    ensures ReferencesValid(ReferencesOf(c)) <==>
      forall x <- c.comparisons :: x.benchmark != "" && AllFilled(x.unavailable)
  {
    var out := ReferencesOf(c);
    ReferencesFacts(c, asOf);
    SelfReferences(c, asOf);
    GoodReferencesMeet(c);
    forall i, j | 0 <= i < j < |out| ensures ReferencesInOrder(out[i], out[j]) {
      TuplesAreOrdered(RefKey(out[i]), RefKey(out[j]));
    }
  }

  function RelationKey(r: MarketRelation): (Frame, string, Basis) {
    (r.interval, r.reference, r.basis)
  }

  function IntervalOf(f: FrameFacts): Frame {
    f.interval
  }

  lemma {:induction false} RelationsInProductOrder(frames: seq<FrameFacts>, references: seq<Reference>)
    ensures Each(MarketRelationsOf(frames, references), RelationKey) ==
      Product(Each(frames, IntervalOf), Each(references, KeyOf))
  {
    if frames != [] {
      var n := |frames| - 1;
      var intervals := Each(frames, IntervalOf);
      RelationsInProductOrder(frames[..n], references);
      assert intervals[..n] == Each(frames[..n], IntervalOf);
      KeysOfLast(frames[n], references);
    }
  }

  lemma KeysOfLast(f: FrameFacts, references: seq<Reference>)
    ensures Each(Each(references, RelationTo(f)), RelationKey) == Each(Each(references, KeyOf), With(f.interval))
  {
    var last := Each(references, RelationTo(f));
    forall j | 0 <= j < |references| ensures RelationKey(last[j]) == With(f.interval)(KeyOf(references[j])) {}
  }

  lemma {:induction false} RelationsComeFrom(frames: seq<FrameFacts>, references: seq<Reference>, r: MarketRelation)
    returns (f: FrameFacts, ref: Reference)
    requires r in MarketRelationsOf(frames, references)
    ensures f in frames && ref in references && r == RelationTo(f)(ref)
  {
    var n := |frames| - 1;
    if r in MarketRelationsOf(frames[..n], references) {
      f, ref := RelationsComeFrom(frames[..n], references, r);
    } else {
      f := frames[n];
      var last := Each(references, RelationTo(f));
      var j :| 0 <= j < |last| && last[j] == r;
      ref := references[j];
    }
  }

  lemma {:induction false} MarketRelationsMeet(frames: seq<FrameFacts>, market: Market)
    requires |frames| == 3 && (forall k :: 0 <= k < 3 ==> frames[k].interval == INTERVALS[k])
    requires market.relations == MarketRelationsOf(frames, market.references) && DistinctKeys(market.references)
    ensures MarketRelationsValid(frames, market)
  {
    RelationsInProductOrder(frames, market.references);
    assert Each(frames, IntervalOf) == INTERVALS;
    assert Each(market.relations, (r: MarketRelation) => (r.interval, r.reference, r.basis)) ==
      Each(market.relations, RelationKey);
    forall r, ref | r in market.relations && ref in market.references && KeyOf(ref) == (r.reference, r.basis)
      ensures r.relation == ContextRelation(DirectionAt(frames, r.interval), ref.sign)
    {
      var f, other := RelationsComeFrom(frames, market.references, r);
      var k :| 0 <= k < |frames| && frames[k] == f;
      assert frames[Index(f.interval)] == f;
    }
  }

  lemma MarketMeets(p: Packet, s: Synthesis, zone: Zone)
    requires ValidZone(zone) && ValidTechnical(p)
    requires p.context.Some? ==> ValidContext(p.context.value, p.asOf) && SessionIsADate(p.context.value, zone)
    requires s.asOf == p.asOf && s.frames == FramesOf(p) && s.market == MarketOf(p, s.frames)
    ensures MarketValid(s, zone) <==> (p.context.Some? ==> CleanContext(p.context.value))
  {
    if p.context.Some? {
      var c := p.context.value;
      ReferencesMeet(c, p.asOf);
      ContextRelationsMeet(p, s.frames, s.market);
    }
  }

  lemma ContextRelationsMeet(p: Packet, frames: seq<FrameFacts>, market: Market)
    requires |p.technical| == 3 && p.context.Some? && ValidContext(p.context.value, p.asOf)
    requires frames == FramesOf(p) && market == MarketOf(p, frames)
    ensures MarketRelationsValid(frames, market)
  {
    ReferencesFacts(p.context.value, p.asOf);
    MarketRelationsMeet(frames, market);
  }

  // ----------------------------------------------------------------- news

  predicate KeysStrict(counts: seq<Count>) {
    forall i, j :: 0 <= i < j < |counts| ==> StringBefore(counts[i].key, counts[j].key)
  }

  lemma SumSnoc(counts: seq<Count>, c: Count)
    ensures SumOf(counts + [c]) == SumOf(counts) + c.count
  {
    assert (counts + [c])[..|counts|] == counts;
  }

  predicate AllPositive(counts: seq<Count>) {
    forall c <- counts :: c.count >= 1
  }

  ghost predicate HasKey(counts: seq<Count>, key: string) {
    exists c :: c in counts && c.key == key
  }

  lemma {:induction false} TallySum(counts: seq<Count>, v: string)
    ensures SumOf(Tally(counts, v)) == SumOf(counts) + 1
  {
    if counts == [] || StringBefore(counts[|counts| - 1].key, v) {
      SumSnoc(counts, Count(v, 1));
    } else {
      var h, last := counts[..|counts| - 1], counts[|counts| - 1];
      if last.key == v {
        SumSnoc(h, Count(v, last.count + 1));
      } else {
        TallySum(h, v);
        SumSnoc(Tally(h, v), last);
      }
    }
  }

  lemma {:induction false} TallyPositive(counts: seq<Count>, v: string)
    requires AllPositive(counts)
    ensures AllPositive(Tally(counts, v))
  {
    if counts != [] {
      assert counts[|counts| - 1] in counts;
      TallyPositive(counts[..|counts| - 1], v);
    }
  }

  lemma {:induction false} TallyKeys(counts: seq<Count>, v: string, key: string)
    ensures HasKey(Tally(counts, v), key) <==> key == v || HasKey(counts, key)
  {
    if counts == [] || StringBefore(counts[|counts| - 1].key, v) {
      KeySnoc(counts, Count(v, 1), key);
    } else {
      var h, last := counts[..|counts| - 1], counts[|counts| - 1];
      assert counts == h + [last];
      KeySnoc(h, last, key);
      if last.key == v {
        KeySnoc(h, Count(v, last.count + 1), key);
      } else {
        TallyKeys(h, v, key);
        KeySnoc(Tally(h, v), last, key);
      }
    }
  }

  lemma KeySnoc(counts: seq<Count>, c: Count, key: string)
    ensures HasKey(counts + [c], key) <==> HasKey(counts, key) || c.key == key
  {
    var more := counts + [c];
    assert c in more;
    forall d ensures d in more <==> d in counts || d == c {}
  }

  lemma {:induction false} TallyStrict(counts: seq<Count>, v: string)
    requires KeysStrict(counts)
    ensures KeysStrict(Tally(counts, v))
  {
    if counts == [] || StringBefore(counts[|counts| - 1].key, v) {
      TallyAtEnd(counts, v);
    } else {
      var h, last := counts[..|counts| - 1], counts[|counts| - 1];
      if last.key != v {
        TallyStrict(h, v);
        StringsAreOrdered(last.key, v);
        TallyBelow(h, v, last.key);
      }
    }
  }

  lemma TallyBelow(h: seq<Count>, v: string, key: string)
    requires StringBefore(v, key) && forall c <- h :: StringBefore(c.key, key)
    ensures forall c <- Tally(h, v) :: StringBefore(c.key, key)
  {
    forall c | c in Tally(h, v) ensures StringBefore(c.key, key) {
      TallyKeys(h, v, c.key);
    }
  }

  lemma TallyAtEnd(counts: seq<Count>, v: string)
    requires KeysStrict(counts) && (counts == [] || StringBefore(counts[|counts| - 1].key, v))
    ensures KeysStrict(counts + [Count(v, 1)])
  {
    var n := |counts| - 1;
    forall i | 0 <= i < |counts| ensures StringBefore(counts[i].key, v) {
      if i < n { StringsAreTransitive(counts[i].key, counts[n].key, v); }
    }
  }

  /** The tally of a list of values is valid: sorted, positive, of its values only, and it adds up to their number. */
  lemma {:induction false} CountsMeet(values: seq<string>)
    requires AllFilled(values)
    ensures CountsValid(CountsOf(values)) && SumOf(CountsOf(values)) == |values|
  {
    TalliesOf(values);
    forall c | c in CountsOf(values) ensures c.key != "" {
      assert HasKey(CountsOf(values), c.key);
      CountedValues(values, c.key);
    }
  }

  lemma {:induction false} TalliesOf(values: seq<string>)
    ensures KeysStrict(CountsOf(values)) && AllPositive(CountsOf(values)) && SumOf(CountsOf(values)) == |values|
  {
    if values != [] {
      var before, v := CountsOf(values[..|values| - 1]), values[|values| - 1];
      TalliesOf(values[..|values| - 1]);
      TallySum(before, v);
      TallyPositive(before, v);
      TallyStrict(before, v);
    }
  }

  lemma {:induction false} CountedValues(values: seq<string>, key: string)
    ensures HasKey(CountsOf(values), key) <==> key in values
  {
    if values != [] {
      var h, v := values[..|values| - 1], values[|values| - 1];
      assert values == h + [v];
      CountedValues(h, key);
      TallyKeys(CountsOf(h), v, key);
    }
  }

  ghost predicate ValidExclusions(excluded: seq<Exclusion>) {
    && (forall e <- excluded :: e.count >= 1)
    && forall i, j :: 0 <= i < j < |excluded| ==> excluded[i].reason != excluded[j].reason
  }

  lemma ExclusionsSorted(excluded: seq<Exclusion>)
    requires ValidExclusions(excluded)
    ensures var out := S.Sort(Each(excluded, ExcludedCount), ExclusionsInOrder);
      KeysStrict(out) && forall c :: c in out <==> c in Each(excluded, ExcludedCount)
  {
    var all := Each(excluded, ExcludedCount);
    var out := S.Sort(all, ExclusionsInOrder);
    var key := (c: Count) => [c.key];
    forall i, j | 0 <= i < j < |all| ensures key(all[i]) != key(all[j]) {
      assert key(all[i])[0] != key(all[j])[0];
    }
    SortedByKey(all, key, ExclusionsInOrder);
    forall i, j | 0 <= i < j < |out| ensures StringBefore(out[i].key, out[j].key) {
      AscendingAt(out, key, i, j);
      SingleTuples(out[i].key, out[j].key);
    }
  }

  lemma ExclusionsMeet(excluded: seq<Exclusion>)
    requires ValidExclusions(excluded)
    ensures CountsValid(S.Sort(Each(excluded, ExcludedCount), ExclusionsInOrder)) <==>
      forall e <- excluded :: e.reason != ""
  {
    var all := Each(excluded, ExcludedCount);
    ExclusionsSorted(excluded);
    forall k | 0 <= k < |all|
      ensures all[k] in all && excluded[k] in excluded && all[k] == ExcludedCount(excluded[k]) {}
    forall e | e in excluded ensures ExcludedCount(e) in all {
      var k :| 0 <= k < |excluded| && excluded[k] == e;
      assert all[k] == ExcludedCount(e);
    }
  }

  lemma {:induction false} GreatestFacts(xs: seq<int>, bound: int)
    requires xs != [] && forall x <- xs :: x <= bound
    ensures Least(xs) <= Greatest(xs) <= bound && Greatest(xs) in xs
  {
    var n := |xs| - 1;
    assert xs[n] in xs;
    if n > 0 {
      forall x | x in xs[..n] ensures x <= bound { assert x in xs; }
      GreatestFacts(xs[..n], bound);
    }
  }

  lemma {:induction false} KnownSatisfy<T>(xs: seq<Option<T>>, p: T -> bool)
    requires forall x <- xs :: x.Some? ==> p(x.value)
    ensures forall x <- Known(xs) :: p(x)
  {
    if xs != [] {
      assert xs[|xs| - 1] in xs;
      KnownSatisfy(xs[..|xs| - 1], p);
    }
  }

  lemma RelevanceMeets(items: seq<NewsItem>)
    ensures |L.Keep(items, IsDirect)| + |L.Keep(items, IsRelated)| <= |items|
  {
    L.KeepSplits(items, IsDirect, IsRelated, (x: NewsItem) => x.direct || x.related);
  }

  lemma EachFilled<T>(xs: seq<T>, f: T -> string)
    requires forall x <- xs :: f(x) != ""
    ensures AllFilled(Each(xs, f))
  {
    var texts := Each(xs, f);
    forall t | t in texts ensures t != "" {
      var k :| 0 <= k < |texts| && texts[k] == t;
      assert xs[k] in xs && t == f(xs[k]);
    }
  }

  lemma TalliesMeet(p: Packet, n: News)
    requires forall x <- p.items :: x.family in {"news", "sec"}
    requires n.families == CountsOf(Each(p.items, FamilyOf))
    requires n.decisions == CountsOf(Each(p.items, DecisionOf)) && n.impacts == CountsOf(Each(p.items, ImpactOf))
    ensures CountsValid(n.families) && CountsValid(n.decisions) && CountsValid(n.impacts)
    ensures SumOf(n.families) == SumOf(n.decisions) == SumOf(n.impacts) == |p.items|
  {
    EachFilled(p.items, FamilyOf);
    EachFilled(p.items, DecisionOf);
    EachFilled(p.items, ImpactOf);
    CountsMeet(Each(p.items, FamilyOf));
    CountsMeet(Each(p.items, DecisionOf));
    CountsMeet(Each(p.items, ImpactOf));
  }

  lemma SourcesMeet(items: seq<NewsItem>)
    ensures var sources := SortedTexts(Each(items, Source));
      && (TextsStrict(sources) <==> S.Distinct(Each(items, Source))) && AllFilled(sources) && |sources| == |items|
  {
    var sources := Each(items, Source);
    forall x | x in items ensures Source(x) != "" { assert Source(x)[0] == 'n'; }
    EachFilled(items, Source);
    StrictWhenDistinct(sources);
    SortedTextsFacts(sources);
    assert forall t :: t in SortedTexts(sources) ==> t in sources;
  }

  lemma StampsMeet(p: Packet, zone: Zone)
    requires ValidNews(p, zone)
    ensures var stamps := NewsOf(p, zone).stamps; stamps.Some? ==> StampsValid(stamps.value, p.asOf)
  {
    var published := Each(p.items, StampOf);
    forall k | 0 <= k < |p.items| ensures p.items[k] in p.items {}
    KnownSatisfy(published, t => t <= p.asOf);
    if Known(published) != [] { GreatestFacts(Known(published), p.asOf); }
  }

  lemma DatesAreBefore(p: Packet, zone: Zone)
    requires ValidNews(p, zone)
    ensures forall d <- Dates(p) :: DatedBefore(zone, d, zone.dayOf(p.asOf))
  {
    DatesSatisfy(p, d => DatedBefore(zone, d, zone.dayOf(p.asOf)));
  }

  lemma DatesSatisfy(p: Packet, good: string -> bool)
    requires forall x <- p.items :: x.publicationDate.Some? ==> good(x.publicationDate.value)
    ensures forall d <- Dates(p) :: good(d)
  {
    var dated := Each(p.items, DateOf);
    forall d | d in dated && d.Some? ensures good(d.value) {
      var k :| 0 <= k < |dated| && dated[k] == d;
      assert p.items[k] in p.items;
    }
    KnownSatisfy(dated, good);
    SortedTextsFacts(Known(dated));
  }

  /** The copied dates pass exactly when the ends of the text order are in date order. */
  lemma DaysMeet(p: Packet, zone: Zone)
    requires ValidNews(p, zone)
    ensures var days := NewsOf(p, zone).days;
      (days.Some? ==> DaysValid(days.value, zone, zone.dayOf(p.asOf))) <==> DatesInOrder(p, zone)
  {
    var days := Dates(p);
    DatesAreBefore(p, zone);
    if days != [] {
      assert days[0] in days && days[|days| - 1] in days;
    }
  }

  lemma NewsMeets(p: Packet, s: Synthesis, zone: Zone)
    requires ValidNews(p, zone) && s.asOf == p.asOf && s.news == NewsOf(p, zone)
    ensures NewsValid(s, zone) <==>
      (forall e <- p.excluded :: e.reason != "") && S.Distinct(Each(p.items, Source)) && DatesInOrder(p, zone)
  {
    TalliesMeet(p, s.news);
    ExclusionsMeet(p.excluded);
    SourcesMeet(p.items);
    StampsMeet(p, zone);
    DaysMeet(p, zone);
    RelevanceMeets(p.items);
  }

  // ----------------------------------------------------------------- completeness

  lemma PresentCount(p: Packet)
    requires |p.technical| == 3
    ensures var present := |L.Keep(FramesOf(p), (f: FrameFacts) => f.available)|;
      StatusOf(p.technical) == if present == 3 then Available else if present > 0 then Partial else NotAvailable
  {
    var frames := FramesOf(p);
    KeepThree(frames, (f: FrameFacts) => f.available);
    forall f | f in p.technical ensures f == p.technical[0] || f == p.technical[1] || f == p.technical[2] {}
    assert p.technical[0] in p.technical && p.technical[1] in p.technical && p.technical[2] in p.technical;
  }

  lemma ReasonsMeet(reasons: seq<string>)
    ensures TextsSorted(SortedTexts(reasons)) && (AllFilled(SortedTexts(reasons)) <==> AllFilled(reasons))
  {
    SortedTextsFacts(reasons);
  }

  lemma CompletenessMeets(p: Packet, s: Synthesis, zone: Zone)
    requires ValidTechnical(p) && p.technicalStatus == StatusOf(p.technical) && s == SynthesisOf(p, zone)
    ensures CompletenessValid(s) <==>
      AllFilled(p.marketReasons) && AllFilled(p.technicalReasons) && AllFilled(p.newsReasons)
  {
    PresentCount(p);
    ReasonsMeet(p.marketReasons);
    ReasonsMeet(p.technicalReasons);
    ReasonsMeet(p.newsReasons);
  }

  // ----------------------------------------------------------------- contradictions: no key twice

  ghost predicate HasContradiction(found: seq<Contradiction>, key: seq<string>) {
    exists c :: c in found && c.key == key
  }

  ghost predicate KeysDiffer(found: seq<Contradiction>) {
    forall i, j :: 0 <= i < j < |found| ==> found[i].key != found[j].key
  }

  /** A number that tells the seven codes apart. */
  function Mark(key: seq<string>): int {
    if key == [] || key[0] == "" then 0 else |key[0]| + if key[0][0] == 'c' then 100 else 0
  }

  ghost predicate Marked(found: seq<Contradiction>, marks: set<int>) {
    forall c <- found :: Mark(c.key) in marks
  }

  lemma JoinHas(a: seq<Contradiction>, b: seq<Contradiction>, key: seq<string>)
    ensures HasContradiction(a + b, key) <==> HasContradiction(a, key) || HasContradiction(b, key)
  {
    forall c ensures c in a + b <==> c in a || c in b {}
  }

  lemma JoinDiffers(a: seq<Contradiction>, b: seq<Contradiction>, marksA: set<int>, marksB: set<int>)
    requires KeysDiffer(a) && KeysDiffer(b) && Marked(a, marksA) && Marked(b, marksB) && marksA !! marksB
    ensures KeysDiffer(a + b) && Marked(a + b, marksA + marksB)
  {
    forall c | c in a + b ensures c in a || c in b {}
    forall i, j | 0 <= i < |a| && 0 <= j < |b| ensures a[i].key != b[j].key {
      assert a[i] in a && b[j] in b;
    }
  }

  lemma PartDiffers<T>(xs: seq<T>, p: T -> bool, f: T -> Contradiction, mark: int)
    requires L.Chain(xs, (x: T, y: T) => f(x).key != f(y).key)
    requires forall x <- xs :: Mark(f(x).key) == mark
    ensures KeysDiffer(Each(L.Keep(xs, p), f)) && Marked(Each(L.Keep(xs, p), f), {mark})
  {
    var kept := L.Keep(xs, p);
    L.KeepChain(xs, p, (x: T, y: T) => f(x).key != f(y).key);
    forall i | 0 <= i < |kept| ensures Mark(f(kept[i]).key) == mark { L.KeepMembers(xs, p, kept[i]); }
  }

  lemma PartHas<T(!new)>(xs: seq<T>, p: T -> bool, f: T -> Contradiction, key: seq<string>)
    ensures HasContradiction(Each(L.Keep(xs, p), f), key) <==> exists x :: x in xs && p(x) && f(x).key == key
  {
    var kept := L.Keep(xs, p);
    forall x ensures x in kept <==> x in xs && p(x) { L.KeepMembers(xs, p, x); }
    forall i | 0 <= i < |kept| ensures kept[i] in kept && Each(kept, f)[i] == f(kept[i]) {}
    if x :| x in xs && p(x) && f(x).key == key {
      var i :| 0 <= i < |kept| && kept[i] == x;
      assert Each(kept, f)[i] in Each(kept, f);
    }
  }

  ghost predicate InIntervalOrder(frames: seq<FrameFacts>) {
    |frames| == 3 && forall k :: 0 <= k < 3 ==> frames[k].interval == INTERVALS[k]
  }

  lemma {:induction false} MarketRelationsDiffer(frames: seq<FrameFacts>, references: seq<Reference>)
    requires DistinctKeys(references)
    requires forall i, j :: 0 <= i < j < |frames| ==> frames[i].interval != frames[j].interval
    ensures L.Chain(MarketRelationsOf(frames, references), (a, b) => RelationKey(a) != RelationKey(b))
  {
    if frames != [] {
      var n := |frames| - 1;
      var before, last := MarketRelationsOf(frames[..n], references), Each(references, RelationTo(frames[n]));
      MarketRelationsDiffer(frames[..n], references);
      forall a, b | a in before && b in last ensures RelationKey(a) != RelationKey(b) {
        var f, ref := RelationsComeFrom(frames[..n], references, a);
        var k :| 0 <= k < n && frames[..n][k] == f;
      }
      forall i, j | 0 <= i < j < |last| ensures RelationKey(last[i]) != RelationKey(last[j]) {
        assert KeyOf(references[i]) != KeyOf(references[j]);
      }
      L.ChainConcat(before, last, (a: MarketRelation, b: MarketRelation) => RelationKey(a) != RelationKey(b));
    }
  }

  lemma KeysIdentifyReferences(a: Reference, b: Reference)
    ensures Misalignment(a).key == Misalignment(b).key <==> KeyOf(a) == KeyOf(b)
  {
    assert BasisName(PrevClose)[0] == 'p' && BasisName(Open)[0] == 'o';
    assert Misalignment(a).key[2] == BasisName(a.basis) && Misalignment(b).key[2] == BasisName(b.basis);
    assert Misalignment(a).key[1] == a.reference && Misalignment(b).key[1] == b.reference;
  }

  lemma GapsDiffer(frames: seq<FrameFacts>)
    requires InIntervalOrder(frames)
    ensures KeysDiffer(Each(L.Keep(frames, Gap), FrameGap)) && Marked(Each(L.Keep(frames, Gap), FrameGap), {21})
  {
    forall i, j | 0 <= i < j < 3 ensures FrameGap(frames[i]).key != FrameGap(frames[j]).key {
      assert FrameGap(frames[i]).key[1] == Name(INTERVALS[i]) && FrameGap(frames[j]).key[1] == Name(INTERVALS[j]);
      assert Name(Day)[1] == 'd' && Name(Hour)[1] == 'h' && Name(FiveMinutes)[1] == 'm';
    }
    PartDiffers(frames, Gap, FrameGap, 21);
  }

  lemma OppositionsDiffer(frames: seq<FrameFacts>)
    requires |frames| == 3
    ensures var part := Each(L.Keep(RelationsOf(frames), Opposite), FrameOpposition);
      KeysDiffer(part) && Marked(part, {20})
  {
    var rs := RelationsOf(frames);
    assert Name(Day)[1] == 'd' && Name(Hour)[1] == 'h' && Name(FiveMinutes)[1] == 'm';
    forall i, j | 0 <= i < j < 3 ensures FrameOpposition(rs[i]).key != FrameOpposition(rs[j]).key {
      assert FrameOpposition(rs[i]).key[1] == Name(rs[i].first) && FrameOpposition(rs[j]).key[1] == Name(rs[j].first);
      assert FrameOpposition(rs[i]).key[2] == Name(rs[i].second) && FrameOpposition(rs[j]).key[2] == Name(rs[j].second);
    }
    PartDiffers(rs, Opposite, FrameOpposition, 20);
  }

  lemma MarketOppositionsDiffer(frames: seq<FrameFacts>, market: Market)
    requires InIntervalOrder(frames) && DistinctKeys(market.references)
    requires market.relations == MarketRelationsOf(frames, market.references)
    ensures var part := Each(L.Keep(market.relations, MarketOpposite), MarketOpposition);
      KeysDiffer(part) && Marked(part, {32})
  {
    forall i, j | 0 <= i < j < |frames| ensures frames[i].interval != frames[j].interval {
      assert INTERVALS[i] != INTERVALS[j];
    }
    MarketRelationsDiffer(frames, market.references);
    forall a, b | RelationKey(a) != RelationKey(b) ensures MarketOpposition(a).key != MarketOpposition(b).key { }
    PartDiffers(market.relations, MarketOpposite, MarketOpposition, 32);
  }

  lemma MisalignmentsDiffer(references: seq<Reference>)
    requires DistinctKeys(references)
    ensures var part := Each(L.Keep(references, Misaligned), Misalignment); KeysDiffer(part) && Marked(part, {121})
  {
    forall i, j | 0 <= i < j < |references| ensures Misalignment(references[i]).key != Misalignment(references[j]).key {
      KeysIdentifyReferences(references[i], references[j]);
    }
    PartDiffers(references, Misaligned, Misalignment, 121);
  }

  lemma MismatchDiffers(frames: seq<FrameFacts>, market: Market, zone: Zone)
    ensures KeysDiffer(SessionMismatch(frames, market, zone)) && Marked(SessionMismatch(frames, market, zone), {124})
  {
    assert |CONTEXT_SESSION_MISMATCH| == 24 && CONTEXT_SESSION_MISMATCH[0] == 'c';
  }

  lemma NewsFindingsDiffer(status: Status)
    ensures KeysDiffer(NewsFindings(status)) && Marked(NewsFindings(status), {16})
  {
    assert |NEWS_UNAVAILABLE| == 16 && NEWS_UNAVAILABLE[0] == 'n';
  }

  lemma MarketFindingsDiffer(frames: seq<FrameFacts>, market: Market, zone: Zone)
    requires InIntervalOrder(frames) && DistinctKeys(market.references)
    requires market.relations == MarketRelationsOf(frames, market.references)
    ensures var found := MarketFindings(frames, market, zone); KeysDiffer(found) && Marked(found, {26, 32, 121, 124})
  {
    if market.available {
      var a := Each(L.Keep(market.relations, MarketOpposite), MarketOpposition);
      var b := Each(L.Keep(market.references, Misaligned), Misalignment);
      MarketOppositionsDiffer(frames, market);
      MisalignmentsDiffer(market.references);
      JoinDiffers(a, b, {32}, {121});
      MismatchDiffers(frames, market, zone);
      JoinDiffers(a + b, SessionMismatch(frames, market, zone), {32} + {121}, {124});
    }
  }

  lemma FoundDiffers(frames: seq<FrameFacts>, market: Market, status: Status, zone: Zone)
    requires InIntervalOrder(frames) && DistinctKeys(market.references)
    requires market.relations == MarketRelationsOf(frames, market.references)
    ensures KeysDiffer(Found(frames, RelationsOf(frames), market, status, zone))
  {
    var a := Each(L.Keep(frames, Gap), FrameGap);
    var b := Each(L.Keep(RelationsOf(frames), Opposite), FrameOpposition);
    var m := MarketFindings(frames, market, zone);
    GapsDiffer(frames);
    OppositionsDiffer(frames);
    JoinDiffers(a, b, {21}, {20});
    MarketFindingsDiffer(frames, market, zone);
    JoinDiffers(a + b, m, {21} + {20}, {26, 32, 121, 124});
    NewsFindingsDiffer(status);
    JoinDiffers(a + b + m, NewsFindings(status), {21} + {20} + {26, 32, 121, 124}, {16});
  }

  // ----------------------------------------------------------------- contradictions: exactly the expected ones

  lemma {:induction false} LatestFacts(frames: seq<FrameFacts>) returns (i: nat)
    ensures LatestFrame(frames).None? ==> forall f <- frames :: f.barEnd.None?
    ensures LatestFrame(frames).Some? ==>
      i < |frames| && LatestFrame(frames) == Some(frames[i]) && frames[i].barEnd.Some?
    ensures LatestFrame(frames).Some? ==> forall j :: 0 <= j < |frames| && frames[j].barEnd.Some? ==>
      frames[j].barEnd.value < frames[i].barEnd.value || (frames[j].barEnd == frames[i].barEnd && i <= j)
  {
    i := 0;
    if frames != [] {
      var n := |frames| - 1;
      i := LatestFacts(frames[..n]);
      assert forall j :: 0 <= j < n ==> frames[..n][j] == frames[j];
      if frames[n].barEnd.Some? {
        if LatestFrame(frames[..n]).None? {
          assert forall j :: 0 <= j < n ==> frames[..n][j] in frames[..n];
          i := n;
        } else if frames[..n][i].barEnd.value < frames[n].barEnd.value {
          i := n;
        }
      }
    }
  }

  lemma {:induction false} LatestMeaning(frames: seq<FrameFacts>, i: Frame)
    requires InIntervalOrder(frames)
    ensures IsLatest(frames, i) <==> LatestFrame(frames) == Some(frames[Index(i)]) && frames[Index(i)].barEnd.Some?
  {
    var k := LatestFacts(frames);
    assert forall j: Frame :: INTERVALS[Index(j)] == j;
    if IsLatest(frames, i) {
      assert frames[Index(i)] in frames;
      assert IsLatestAt(frames, i, INTERVALS[k]);
    }
    if LatestFrame(frames) == Some(frames[Index(i)]) && frames[Index(i)].barEnd.Some? {
      assert frames[k].interval == frames[Index(i)].interval;
    }
  }

  /** The comparison with one other frame. */
  predicate IsLatestAt(frames: seq<FrameFacts>, i: Frame, j: Frame)
    requires |frames| == 3 && frames[Index(i)].barEnd.Some?
  {
    frames[Index(j)].barEnd.Some? ==>
      var e := frames[Index(j)].barEnd.value;
      e < frames[Index(i)].barEnd.value || (e == frames[Index(i)].barEnd.value && Index(i) <= Index(j))
  }

  lemma MismatchIsExpected(frames: seq<FrameFacts>, market: Market, zone: Zone, key: seq<string>)
    requires InIntervalOrder(frames)
    ensures HasContradiction(SessionMismatch(frames, market, zone), key) <==>
      ExpectedMismatch(frames, market, zone, key)
  {
    var k := LatestFacts(frames);
    forall i: Frame
      ensures IsLatest(frames, i) <==> LatestFrame(frames) == Some(frames[Index(i)]) && frames[Index(i)].barEnd.Some?
    {
      LatestMeaning(frames, i);
    }
    assert forall j: Frame :: frames[Index(j)].interval == j;
    var found := SessionMismatch(frames, market, zone);
    if found != [] {
      assert found[0] in found && frames[k].interval == INTERVALS[k] && Index(INTERVALS[k]) == k;
      assert IsLatest(frames, INTERVALS[k]);
    }
  }

  lemma MarketFindingsExpected(frames: seq<FrameFacts>, market: Market, zone: Zone, key: seq<string>)
    requires InIntervalOrder(frames) && market.available
    ensures HasContradiction(MarketFindings(frames, market, zone), key) <==>
      ExpectedMarketOpposition(market, key) || ExpectedMisalignment(market, key) ||
        ExpectedMismatch(frames, market, zone, key)
  {
    var a := Each(L.Keep(market.relations, MarketOpposite), MarketOpposition);
    var b := Each(L.Keep(market.references, Misaligned), Misalignment);
    PartHas(market.relations, MarketOpposite, MarketOpposition, key);
    PartHas(market.references, Misaligned, Misalignment, key);
    MismatchIsExpected(frames, market, zone, key);
    JoinHas(a, b, key);
    JoinHas(a + b, SessionMismatch(frames, market, zone), key);
  }

  lemma FoundIsExpected(s: Synthesis, zone: Zone, key: seq<string>)
    requires InIntervalOrder(s.frames)
    ensures HasContradiction(Found(s.frames, s.relations, s.market, s.news.availability, zone), key) <==>
      IsExpected(s, zone, key)
  {
    var a := Each(L.Keep(s.frames, Gap), FrameGap);
    var b := Each(L.Keep(s.relations, Opposite), FrameOpposition);
    var m := MarketFindings(s.frames, s.market, zone);
    PartHas(s.frames, Gap, FrameGap, key);
    PartHas(s.relations, Opposite, FrameOpposition, key);
    if s.market.available {
      MarketFindingsExpected(s.frames, s.market, zone, key);
    } else {
      assert m == [m[0]];
    }
    JoinHas(a, b, key);
    JoinHas(a + b, m, key);
    JoinHas(a + b + m, NewsFindings(s.news.availability), key);
  }

  // ----------------------------------------------------------------- contradictions: sorted and well formed

  lemma SortedContradictions(found: seq<Contradiction>)
    requires KeysDiffer(found)
    ensures var out := S.Sort(found, ContradictionsInOrder);
      && (forall c :: c in out <==> c in found)
      && forall i, j :: 0 <= i < j < |out| ==> TupleBefore(out[i].key, out[j].key)
  {
    var key := (c: Contradiction) => c.key;
    SortedByKey(found, key, ContradictionsInOrder);
    var out := S.Sort(found, ContradictionsInOrder);
    forall i, j | 0 <= i < j < |out| ensures TupleBefore(out[i].key, out[j].key) {
      AscendingAt(out, key, i, j);
    }
  }

  lemma PartIsGood<T>(xs: seq<T>, p: T -> bool, f: T -> Contradiction)
    requires forall x <- xs :: GoodContradiction(f(x))
    ensures forall c <- Each(L.Keep(xs, p), f) :: GoodContradiction(c)
  {
    var kept := L.Keep(xs, p);
    forall i | 0 <= i < |kept| ensures GoodContradiction(Each(kept, f)[i]) { L.KeepMembers(xs, p, kept[i]); }
  }

  lemma FramePartsAreGood(frames: seq<FrameFacts>, relations: seq<FrameRelation>)
    ensures forall c <- Each(L.Keep(frames, Gap), FrameGap) :: GoodContradiction(c)
    ensures forall c <- Each(L.Keep(relations, Opposite), FrameOpposition) :: GoodContradiction(c)
  {
    forall f <- frames ensures GoodContradiction(FrameGap(f)) { }
    forall r <- relations ensures GoodContradiction(FrameOpposition(r)) { }
    PartIsGood(frames, Gap, FrameGap);
    PartIsGood(relations, Opposite, FrameOpposition);
  }

  lemma MarketPartsAreGood(market: Market)
    requires forall r <- market.references :: r.reference != ""
    requires forall r <- market.relations :: r.reference != ""
    ensures forall c <- Each(L.Keep(market.relations, MarketOpposite), MarketOpposition) :: GoodContradiction(c)
    ensures forall c <- Each(L.Keep(market.references, Misaligned), Misalignment) :: GoodContradiction(c)
  {
    forall r <- market.relations ensures GoodContradiction(MarketOpposition(r)) { }
    forall r <- market.references ensures GoodContradiction(Misalignment(r)) { }
    PartIsGood(market.relations, MarketOpposite, MarketOpposition);
    PartIsGood(market.references, Misaligned, Misalignment);
  }

  lemma MismatchIsGood(frames: seq<FrameFacts>, market: Market, zone: Zone)
    ensures forall c <- SessionMismatch(frames, market, zone) :: GoodContradiction(c)
  {
  }

  lemma FoundIsGood(frames: seq<FrameFacts>, relations: seq<FrameRelation>, market: Market, status: Status, zone: Zone)
    requires forall r <- market.references :: r.reference != ""
    requires forall r <- market.relations :: r.reference != ""
    ensures forall c <- Found(frames, relations, market, status, zone) :: GoodContradiction(c)
  {
    FramePartsAreGood(frames, relations);
    MarketPartsAreGood(market);
    MismatchIsGood(frames, market, zone);
    assert forall c <- MarketFindings(frames, market, zone) :: GoodContradiction(c);
    assert forall c <- NewsFindings(status) :: GoodContradiction(c);
  }

  lemma RelationsAreFilled(frames: seq<FrameFacts>, references: seq<Reference>)
    requires forall r <- references :: r.reference != ""
    ensures forall r <- MarketRelationsOf(frames, references) :: r.reference != ""
  {
    forall r | r in MarketRelationsOf(frames, references) ensures r.reference != "" {
      var f, ref := RelationsComeFrom(frames, references, r);
    }
  }

  lemma {:induction false} ContradictionsMeet(s: Synthesis, zone: Zone)
    requires InIntervalOrder(s.frames) && s.relations == RelationsOf(s.frames) && DistinctKeys(s.market.references)
    requires forall r <- s.market.references :: r.reference != ""
    requires s.market.relations == MarketRelationsOf(s.frames, s.market.references)
    requires s.contradictions ==
      S.Sort(Found(s.frames, s.relations, s.market, s.news.availability, zone), ContradictionsInOrder)
    ensures ContradictionsValid(s, zone)
  {
    var found := Found(s.frames, s.relations, s.market, s.news.availability, zone);
    FoundDiffers(s.frames, s.market, s.news.availability, zone);
    SortedContradictions(found);
    RelationsAreFilled(s.frames, s.market.references);
    FoundIsGood(s.frames, s.relations, s.market, s.news.availability, zone);
    forall key ensures (exists c <- s.contradictions :: c.key == key) <==> IsExpected(s, zone, key) {
      FoundIsExpected(s, zone, key);
      assert (exists c <- s.contradictions :: c.key == key) <==> HasContradiction(found, key);
    }
  }

  lemma FramesInOrder(p: Packet)
    requires |p.technical| == 3
    ensures InIntervalOrder(FramesOf(p))
  {
  }

  lemma {:induction false} CleanContradictions(p: Packet, s: Synthesis, zone: Zone)
    requires |p.technical| == 3 && s == SynthesisOf(p, zone)
    requires p.context.Some? ==> ValidContext(p.context.value, p.asOf) && CleanContext(p.context.value)
    ensures ContradictionsValid(s, zone)
  {
    FramesInOrder(p);
    if p.context.Some? {
      ReferencesFacts(p.context.value, p.asOf);
      ReferencesMeet(p.context.value, p.asOf);
    }
    if p.context.None? { NoReferences(s.frames); }
    ContradictionsMeet(s, zone);
  }

  lemma {:induction false} NoReferences(frames: seq<FrameFacts>)
    ensures MarketRelationsOf(frames, []) == []
  {
    if frames != [] { NoReferences(frames[..|frames| - 1]); }
  }

  lemma {:induction false} SectionsMeet(p: Packet, s: Synthesis, zone: Zone)
    requires ValidTechnical(p) && p.technicalStatus == StatusOf(p.technical) && ValidNews(p, zone)
    requires ValidZone(zone)
    requires p.context.Some? ==> ValidContext(p.context.value, p.asOf) && SessionIsADate(p.context.value, zone)
    requires s == SynthesisOf(p, zone)
    ensures SectionsValid(s, zone) <==> Clean(p, zone)
  {
    FramesMeet(p, s);
    RelationsMeet(s);
    MarketMeets(p, s, zone);
    NewsMeets(p, s, zone);
    CompletenessMeets(p, s, zone);
  }

  // ----------------------------------------------------------------- the main results

  /** The builder meets the validator exactly on clean packets: every synthesis of a valid packet passes all re-derived
      checks if and only if the packet holds no empty text where one is copied, no two items share a source name, and
      the publication dates that sort first and last as texts are in date order. */
  lemma {:induction false} BuilderMeetsValidator(p: Packet, zone: Zone)
    requires ValidZone(zone) && ValidPacket(p, zone)
    ensures Accepted(SynthesisOf(p, zone), zone) <==> Clean(p, zone)
  {
    var s := SynthesisOf(p, zone);
    SectionsMeet(p, s, zone);
    if Clean(p, zone) { CleanContradictions(p, s, zone); }
  }

  const GONE := Missing("not_supplied")
  const ONE := NewsItem("a:b", "c", "news", None, None, 0, true, false, None, None)
  const TWO := NewsItem("a", "b:c", "news", None, None, 0, true, false, None, None)
  const COLLISION := Packet(0, [GONE, GONE, GONE], NotAvailable, [], None, [], [ONE, TWO], Available, [], [])

  lemma CollisionIsValid(zone: Zone)
    ensures ValidPacket(COLLISION, zone)
  {
    assert |ONE.version| != |TWO.version|;
    assert GONE in COLLISION.technical && forall f <- COLLISION.technical :: f == GONE;
    assert StatusOf(COLLISION.technical) == NotAvailable;
    assert ValidNews(COLLISION, zone);
  }

  lemma CollisionIsUnclean(zone: Zone)
    ensures !Clean(COLLISION, zone)
  {
    var sources := Each(COLLISION.items, Source);
    assert Source(ONE) == "news.items[a:b:c]" == Source(TWO);
    assert sources[0] == sources[1];
  }

  /** A valid packet whose two items have different identities but one source name; its synthesis is rejected. */
  lemma CollidingSources(zone: Zone)
    requires ValidZone(zone)
    ensures ValidPacket(COLLISION, zone) && !Accepted(SynthesisOf(COLLISION, zone), zone)
  {
    CollisionIsValid(zone);
    CollisionIsUnclean(zone);
    BuilderMeetsValidator(COLLISION, zone);
  }

  /** The parser knows the two calendar forms of a date. */
  ghost predicate KnowsCalendarForms(zone: Zone) {
    forall text :: D.ParseDate(text).Some? ==> zone.parse(text) == D.ParseDate(text)
  }

  const EXTENDED := "2024-01-05"
  const BASIC := "20240101"

  function Dated(asOf: int, key: string, date: string): NewsItem {
    NewsItem("v1", key, "sec", None, Some(date), asOf, true, false, None, None)
  }

  function MixedForms(asOf: int): Packet {
    Packet(asOf, [GONE, GONE, GONE], NotAvailable, [], None, [],
           [Dated(asOf, "1", EXTENDED), Dated(asOf, "22", BASIC)], Available, [], [])
  }

  lemma ExtendedParses()
    ensures D.ParseDate(EXTENDED) == Some(D.Ordinal(2024, 1, 5))
  {
    N.FourDigits(EXTENDED[..4]);
    N.TwoDigits(EXTENDED[5..7]);
    N.TwoDigits(EXTENDED[8..]);
    D.ParseExtended(EXTENDED, 2024, 1, 5);
  }

  lemma BasicParses()
    ensures D.ParseDate(BASIC) == Some(D.Ordinal(2024, 1, 1))
  {
    assert BASIC[..4] == "2024" && BASIC[4..6] == "01" == BASIC[6..];
    N.FourDigits("2024");
    N.TwoDigits("01");
    D.ParseBasic(BASIC, 2024, 1, 1);
  }

  lemma BasicSortsLast()
    ensures StringBefore(EXTENDED, BASIC) && D.Ordinal(2024, 1, 1) < D.Ordinal(2024, 1, 5)
  {
    assert EXTENDED[..4] == "2024" == BASIC[..4];
    D.DifferAfter(EXTENDED, BASIC, 4);
  }

  lemma MixedDates(asOf: int)
    ensures Dates(MixedForms(asOf)) == [EXTENDED, BASIC]
  {
    var items := MixedForms(asOf).items;
    var dated := Each(items, DateOf);
    assert dated[0] == Some(EXTENDED) && dated[1] == Some(BASIC);
    assert dated == [Some(EXTENDED), Some(BASIC)];
    KnownTwo(EXTENDED, BASIC);
    BasicSortsLast();
    TwoSorted(EXTENDED, BASIC);
  }

  lemma KnownTwo<T>(a: T, b: T)
    ensures Known([Some(a), Some(b)]) == [a, b]
  {
    var xs := [Some(a), Some(b)];
    assert xs[..1] == [Some(a)] && xs[..1][..0] == [];
    assert Known(xs[..1]) == [a];
  }

  /** Two texts in order sort as they stand. */
  lemma TwoSorted(a: string, b: string)
    requires StringBefore(a, b)
    ensures SortedTexts([a, b]) == [a, b]
  {
    SortedTextsFacts([a, b]);
    var out := SortedTexts([a, b]);
    StringsAreOrdered(a, b);
    assert out[0] in out && out[1] in out && a in out && b in out;
  }

  lemma MixedFormsAreUnclean(asOf: int, zone: Zone)
    requires zone.parse(EXTENDED) == Some(D.Ordinal(2024, 1, 5)) && zone.parse(BASIC) == Some(D.Ordinal(2024, 1, 1))
    ensures !Clean(MixedForms(asOf), zone)
  {
    BasicSortsLast();
    MixedDates(asOf);
    assert !DatesInOrder(MixedForms(asOf), zone);
  }

  lemma MixedNewsIsValid(p: Packet, zone: Zone)
    requires zone.parse(EXTENDED) == Some(D.Ordinal(2024, 1, 5)) && zone.parse(BASIC) == Some(D.Ordinal(2024, 1, 1))
    requires zone.dayOf(p.asOf) > D.Ordinal(2024, 1, 5) && p.newsStatus == Available && p.excluded == []
    requires p.items == [Dated(p.asOf, "1", EXTENDED), Dated(p.asOf, "22", BASIC)]
    ensures ValidNews(p, zone)
  {
    BasicSortsLast();
    assert p.items[0].eventKey != p.items[1].eventKey by { assert |p.items[0].eventKey| != |p.items[1].eventKey|; }
    forall x | x in p.items ensures x == p.items[0] || x == p.items[1] {}
  }

  lemma MixedFormsAreValid(asOf: int, zone: Zone)
    requires zone.parse(EXTENDED) == Some(D.Ordinal(2024, 1, 5)) && zone.parse(BASIC) == Some(D.Ordinal(2024, 1, 1))
    requires zone.dayOf(asOf) > D.Ordinal(2024, 1, 5)
    ensures ValidPacket(MixedForms(asOf), zone)
  {
    var p := MixedForms(asOf);
    MixedNewsIsValid(p, zone);
    assert GONE in p.technical && forall f <- p.technical :: f == GONE;
    assert StatusOf(p.technical) == NotAvailable;
  }

  /** A valid packet that is clean but for two forms of date: "20240101" sorts after "2024-01-05", so the copied dates
      are out of order and the synthesis is rejected. */
  lemma MixedDateForms(asOf: int, zone: Zone)
    requires ValidZone(zone) && KnowsCalendarForms(zone) && zone.dayOf(asOf) > D.Ordinal(2024, 1, 5)
    ensures ValidPacket(MixedForms(asOf), zone) && !Accepted(SynthesisOf(MixedForms(asOf), zone), zone)
  {
    ExtendedParses();
    BasicParses();
    MixedFormsAreValid(asOf, zone);
    MixedFormsAreUnclean(asOf, zone);
    BuilderMeetsValidator(MixedForms(asOf), zone);
  }

  /** Dates written in the one form YYYY-MM-DD always sort as dates, so they never make a packet unclean. */
  lemma ExtendedDatesAreInOrder(p: Packet, zone: Zone)
    requires KnowsCalendarForms(zone)
    requires forall x <- p.items :: x.publicationDate.Some? ==> D.IsExtended(x.publicationDate.value)
    ensures DatesInOrder(p, zone)
  {
    DatesSatisfy(p, d => D.IsExtended(d));
    SortedTextsFacts(Known(Each(p.items, DateOf)));
    var days := Dates(p);
    if days != [] {
      var a, b := days[0], days[|days| - 1];
      assert a in days && b in days;
      D.ExtendedOrder(b, a);
    }
  }

  /** So the opposition shape of an accepted synthesis is always defined. */
  lemma AcceptedHasShape(s: Synthesis, directions: Frame -> Direction, relations: (Frame, Frame) -> Relation)
    requires |s.frames| == 3 && RelationsValid(s)
    requires forall f :: directions(f) == DirectionAt(s.frames, f)
    requires forall k :: 0 <= k < 3 ==> relations(PAIRS[k].0, PAIRS[k].1) == s.relations[k].relation
    ensures OppositionShape(s.alignment.pattern, directions, relations).Some?
  {
    ShapeIsTotal(directions);
    assert Directions(s.frames) == [directions(Day), directions(Hour), directions(FiveMinutes)];
    OpposingPairs(directions);
    KeepThree(PAIRS, (pair: (Frame, Frame)) => relations(pair.0, pair.1) == Oppose);
    assert Opposing(relations) == Opposing((f, g) => PairRelation(directions(f), directions(g)));
  }
}
