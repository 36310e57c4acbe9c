/** What the news facts of a synthesis say, and the whole synthesis read off the packet
    (evidence_synthesis/builder.py:105-190). */
module SynthesisMeaning {
  import opened Results
  import opened EvidenceRules
  import opened EvidenceSynthesis
  import opened EvidenceMeaning
  import opened Texts
  import V = SynthesisValidation
  import L = Lists
  import S = Sorting

  // ----------------------------------------------------------------- counting

  /** `counts` tells how often each value occurs, in the order of the values. */
  ghost predicate Tells(counts: seq<Count>, values: seq<string>) {
    && (forall i, j :: 0 <= i < j < |counts| ==> StringBefore(counts[i].key, counts[j].key))
    && forall key, n :: Count(key, n) in counts <==> n == multiset(values)[key] && n > 0
  }

  /** The number that a tally gives for a key. */
  function At(counts: seq<Count>, key: string): int {
    if counts == [] then 0
    else if counts[|counts| - 1].key == key then counts[|counts| - 1].count
    else At(counts[..|counts| - 1], key)
  }

  lemma AtSnoc(counts: seq<Count>, c: Count, key: string)
    ensures At(counts + [c], key) == if c.key == key then c.count else At(counts, key)
  {
    assert (counts + [c])[..|counts|] == counts;
  }

  lemma {:induction false} AtAbsent(counts: seq<Count>, key: string)
    requires forall c <- counts :: c.key != key
    ensures At(counts, key) == 0
  {
    if counts != [] {
      assert counts[|counts| - 1] in counts;
      AtAbsent(counts[..|counts| - 1], key);
    }
  }

  lemma BelowLast(counts: seq<Count>, v: string)
    requires V.KeysStrict(counts) && (counts == [] || StringBefore(counts[|counts| - 1].key, v))
    ensures forall c <- counts :: c.key != v
  {
    forall c | c in counts ensures c.key != v {
      var i :| 0 <= i < |counts| && counts[i] == c;
      if i < |counts| - 1 { StringsAreTransitive(c.key, counts[|counts| - 1].key, v); }
      StringsAreOrdered(c.key, v);
    }
  }

  lemma {:induction false} TallyAdds(counts: seq<Count>, v: string, key: string)
    requires V.KeysStrict(counts)
    ensures At(Tally(counts, v), key) == At(counts, key) + if key == v then 1 else 0
  {
    if counts == [] || StringBefore(counts[|counts| - 1].key, v) {
      AtSnoc(counts, Count(v, 1), key);
      BelowLast(counts, v);
      if key == v { AtAbsent(counts, key); }
    } else {
      var h, last := counts[..|counts| - 1], counts[|counts| - 1];
      if last.key == v {
        AtSnoc(h, Count(v, last.count + 1), key);
      } else {
        TallyAdds(h, v, key);
        AtSnoc(Tally(h, v), last, key);
      }
    }
  }

  lemma {:induction false} CountsAt(values: seq<string>, key: string)
    ensures At(CountsOf(values), key) == multiset(values)[key]
  {
    if values != [] {
      var h, v := values[..|values| - 1], values[|values| - 1];
      assert values == h + [v];
      CountsAt(h, key);
      V.TalliesOf(h);
      TallyAdds(CountsOf(h), v, key);
    }
  }

  /** In a tally with distinct keys, membership says what the number of a key is. */
  lemma {:induction false} MemberAt(counts: seq<Count>, key: string, n: int)
    requires V.KeysStrict(counts) && V.AllPositive(counts)
    ensures Count(key, n) in counts <==> n == At(counts, key) && n > 0
  {
    if counts != [] {
      var h, last := counts[..|counts| - 1], counts[|counts| - 1];
      assert counts == h + [last];
      MemberAt(h, key, n);
      if last.key == key {
        forall c | c in h ensures c.key != key {
          var i :| 0 <= i < |h| && h[i] == c;
          StringsAreOrdered(counts[i].key, last.key);
        }
      }
    }
  }

  /** Each count is the number of occurrences of its value, and every value is counted. */
  lemma CountsMeaning(values: seq<string>)
    ensures Tells(CountsOf(values), values)
  {
    V.TalliesOf(values);
    forall key, n ensures Count(key, n) in CountsOf(values) <==> n == multiset(values)[key] && n > 0 {
      CountsAt(values, key);
      MemberAt(CountsOf(values), key, n);
    }
  }

  /** The indices of the items that satisfy `q`. */
  ghost function Indices(items: seq<NewsItem>, q: NewsItem -> bool): set<int> {
    set i | 0 <= i < |items| && q(items[i])
  }

  lemma {:induction false} KeptIndices(items: seq<NewsItem>, q: NewsItem -> bool)
    ensures |L.Keep(items, q)| == |Indices(items, q)|
  {
    if items != [] {
      var n := |items| - 1;
      KeptIndices(items[..n], q);
      assert Indices(items, q) == Indices(items[..n], q) + if q(items[n]) then {n} else {};
    }
  }

  // ----------------------------------------------------------------- extremes

  lemma {:induction false} GreatestMeaning(xs: seq<int>)
    requires xs != []
    ensures Greatest(xs) in xs && Least(xs) in xs && forall x <- xs :: Least(xs) <= x <= Greatest(xs)
  {
    var n := |xs| - 1;
    assert xs == xs[..n] + [xs[n]];
    if n > 0 { GreatestMeaning(xs[..n]); }
  }

  lemma {:induction false} KnownMeaning<T>(xs: seq<Option<T>>, y: T)
    ensures y in Known(xs) <==> Some(y) in xs
  {
    if xs != [] {
      KnownMeaning(xs[..|xs| - 1], y);
      assert xs == xs[..|xs| - 1] + [xs[|xs| - 1]];
    }
  }

  lemma EachMember<T(!new), U>(xs: seq<T>, f: T -> U, y: U)
    ensures y in Each(xs, f) <==> exists x :: x in xs && f(x) == y
  {
    var ys := Each(xs, f);
    if y in ys {
      var i :| 0 <= i < |ys| && ys[i] == y;
      assert xs[i] in xs;
    }
    if x :| x in xs && f(x) == y {
      var i :| 0 <= i < |xs| && xs[i] == x;
      assert ys[i] == y;
    }
  }

  ghost predicate HasStamp(p: Packet, t: int) {
    exists x :: x in p.items && x.publishedAt == Some(t)
  }

  ghost predicate HasDate(p: Packet, d: string) {
    exists x :: x in p.items && x.publicationDate == Some(d)
  }

  /** The newest and the oldest publication instants, and the age of the newest. */
  ghost predicate SaysStamps(p: Packet, stamps: Option<Span>) {
    match stamps
    case None => forall t :: !HasStamp(p, t)
    case Some(s) =>
      && HasStamp(p, s.newest) && HasStamp(p, s.oldest) && WholeSeconds(p.asOf - s.newest, s.age)
      && forall t :: HasStamp(p, t) ==> s.oldest <= t <= s.newest
  }

  /** The last and the first of the publication dates as texts, and the age in days of the last. */
  ghost predicate SaysDays(p: Packet, zone: Zone, days: Option<DaySpan>) {
    match days
    case None => forall d :: !HasDate(p, d)
    case Some(s) =>
      && HasDate(p, s.newest) && HasDate(p, s.oldest)
      && (forall d :: HasDate(p, d) ==> !StringBefore(s.newest, d) && !StringBefore(d, s.oldest))
      && (zone.parse(s.newest).Some? ==> s.age == zone.dayOf(p.asOf) - zone.parse(s.newest).value)
  }

  lemma StampsMeaning(p: Packet, zone: Zone)
    ensures SaysStamps(p, NewsOf(p, zone).stamps)
  {
    var stamps := Known(Each(p.items, StampOf));
    forall t ensures t in stamps <==> HasStamp(p, t) {
      KnownMeaning(Each(p.items, StampOf), t);
      EachMember(p.items, StampOf, Some(t));
    }
    if stamps != [] {
      GreatestMeaning(stamps);
    } else {
      assert forall t :: t !in stamps;
    }
  }

  lemma DatesMeaning(p: Packet, d: string)
    ensures d in Dates(p) <==> HasDate(p, d)
  {
    V.SortedTextsFacts(Known(Each(p.items, DateOf)));
    KnownMeaning(Each(p.items, DateOf), d);
    EachMember(p.items, DateOf, Some(d));
  }

  lemma DaysMeaning(p: Packet, zone: Zone)
    ensures SaysDays(p, zone, NewsOf(p, zone).days)
  {
    var days := Dates(p);
    forall d ensures d in days <==> HasDate(p, d) { DatesMeaning(p, d); }
    V.SortedTextsFacts(Known(Each(p.items, DateOf)));
    if days != [] {
      var first, last := days[0], days[|days| - 1];
      assert first in days && last in days;
      forall d | d in days ensures !StringBefore(last, d) && !StringBefore(d, first) {
        var i :| 0 <= i < |days| && days[i] == d;
        StringsAreOrdered(d, d);
      }
    } else {
      assert forall d :: d !in days;
    }
  }

  // ----------------------------------------------------------------- the news facts

  function OrNothing(text: Option<string>): string {
    match text case None => "none" case Some(t) => if t == "" then "none" else t
  }

  /** The texts in order, each as often as in `xs`. */
  ghost predicate InTextOrder(out: seq<string>, xs: seq<string>) {
    && multiset(out) == multiset(xs)
    && forall i, j :: 0 <= i < j < |out| ==> !StringBefore(out[j], out[i])
  }

  /** One count per excluded reason, in the order of the reasons. */
  ghost predicate SaysExclusions(excluded: seq<Exclusion>, counts: seq<Count>) {
    && (forall i, j :: 0 <= i < j < |counts| ==> StringBefore(counts[i].key, counts[j].key))
    && forall reason, n :: Count(reason, n) in counts <==> Exclusion(reason, n) in excluded
  }

  ghost predicate SaysCounts(items: seq<NewsItem>, n: News) {
    && n.itemCount == |items|
    && Tells(n.families, Each(items, (x: NewsItem) => x.family))
    && Tells(n.decisions, Each(items, (x: NewsItem) => OrNothing(x.decision)))
    && Tells(n.impacts, Each(items, (x: NewsItem) => OrNothing(x.impact)))
    && n.direct == |Indices(items, (x: NewsItem) => x.direct)|
    && n.related == |Indices(items, (x: NewsItem) => x.related && !x.direct)|
    && InTextOrder(n.sources, Each(items, (x: NewsItem) => "news.items[" + x.version + ":" + x.eventKey + "]"))
  }

  ghost predicate SaysNews(p: Packet, zone: Zone, n: News) {
    && n.availability == p.newsStatus && SaysCounts(p.items, n)
    && SaysStamps(p, n.stamps) && SaysDays(p, zone, n.days) && SaysExclusions(p.excluded, n.exclusions)
  }

  lemma EachSame<T, U>(xs: seq<T>, f: T -> U, g: T -> U)
    requires forall x <- xs :: f(x) == g(x)
    ensures Each(xs, f) == Each(xs, g)
  {
  }

  lemma SameIndices(items: seq<NewsItem>)
    ensures Indices(items, IsDirect) == Indices(items, (x: NewsItem) => x.direct)
    ensures Indices(items, IsRelated) == Indices(items, (x: NewsItem) => x.related && !x.direct)
  {
  }

  lemma ItemCountsMeaning(p: Packet, zone: Zone)
    ensures SaysCounts(p.items, NewsOf(p, zone))
  {
    EachSame(p.items, FamilyOf, (x: NewsItem) => x.family);
    EachSame(p.items, DecisionOf, (x: NewsItem) => OrNothing(x.decision));
    EachSame(p.items, ImpactOf, (x: NewsItem) => OrNothing(x.impact));
    EachSame(p.items, Source, (x: NewsItem) => "news.items[" + x.version + ":" + x.eventKey + "]");
    CountsMeaning(Each(p.items, FamilyOf));
    CountsMeaning(Each(p.items, DecisionOf));
    CountsMeaning(Each(p.items, ImpactOf));
    KeptIndices(p.items, IsDirect);
    KeptIndices(p.items, IsRelated);
    SameIndices(p.items);
    V.SortedTextsFacts(Each(p.items, Source));
  }

  lemma ExclusionsMeaning(p: Packet, zone: Zone)
    requires ValidNews(p, zone)
    ensures SaysExclusions(p.excluded, NewsOf(p, zone).exclusions)
  {
    V.ExclusionsSorted(p.excluded);
    forall reason, n ensures Count(reason, n) in Each(p.excluded, ExcludedCount) <==> Exclusion(reason, n) in p.excluded
    {
      EachMember(p.excluded, ExcludedCount, Count(reason, n));
    }
  }

  lemma NewsMeaning(p: Packet, zone: Zone)
    requires ValidNews(p, zone)
    ensures SaysNews(p, zone, NewsOf(p, zone))
  {
    ItemCountsMeaning(p, zone);
    StampsMeaning(p, zone);
    DaysMeaning(p, zone);
    ExclusionsMeaning(p, zone);
  }

  // ----------------------------------------------------------------- the whole synthesis

  /** The frames without a row, in interval order, with the packet's reasons. */
  ghost predicate SaysMissing(p: Packet, missing: seq<(Frame, string)>)
    requires |p.technical| == 3
  {
    missing ==
      (if p.technical[0].Missing? then [(Day, p.technical[0].reason)] else []) +
      (if p.technical[1].Missing? then [(Hour, p.technical[1].reason)] else []) +
      (if p.technical[2].Missing? then [(FiveMinutes, p.technical[2].reason)] else [])
  }

  ghost predicate SaysCompleteness(p: Packet, c: Completeness)
    requires |p.technical| == 3
  {
    && c.market == p.context.Some? && c.technical == p.technicalStatus && c.news == p.newsStatus
    && InTextOrder(c.marketReasons, p.marketReasons) && InTextOrder(c.technicalReasons, p.technicalReasons)
    && InTextOrder(c.newsReasons, p.newsReasons) && SaysMissing(p, c.missing)
  }

  lemma MissingMeaning(p: Packet, frames: seq<FrameFacts>)
    requires |p.technical| == 3 && SaysFrames(p, frames)
    ensures SaysMissing(p, MissingOf(frames))
  {
    KeepThree(frames, (f: FrameFacts) => !f.available);
  }

  /** Every contradiction that the packet calls for is reported, and nothing else, in the order of code and subjects. */
  ghost predicate SaysContradictions(p: Packet, zone: Zone, cs: seq<Contradiction>)
    requires |p.technical| == 3
  {
    && (forall c :: c in cs <==> Reported(p, zone, c))
    && forall i, j :: 0 <= i < j < |cs| ==> !TupleBefore(cs[j].key, cs[i].key)
  }

  ghost predicate Says(p: Packet, zone: Zone, s: Synthesis)
    requires |p.technical| == 3
  {
    && s.asOf == p.asOf && SaysCompleteness(p, s.completeness)
    && SaysFrames(p, s.frames) && SaysRelations(p, s.relations) && SaysAlignment(p.technical, s.alignment)
    && SaysMarket(p, s.market) && SaysNews(p, zone, s.news) && SaysContradictions(p, zone, s.contradictions)
  }

  lemma SortedMeaning(found: seq<Contradiction>)
    ensures var cs := S.Sort(found, ContradictionsInOrder);
      && (forall c :: c in cs <==> c in found)
      && forall i, j :: 0 <= i < j < |cs| ==> !TupleBefore(cs[j].key, cs[i].key)
  {
    var cs := S.Sort(found, ContradictionsInOrder);
    var key := (c: Contradiction) => c.key;
    ComparisonIsTotal(key, ContradictionsInOrder);
    S.SortSorted(found, ContradictionsInOrder);
    S.SortPermutes(found, ContradictionsInOrder);
    forall c ensures c in cs <==> c in found { S.SameElements(cs, found, c); }
  }

  lemma CompletenessMeaning(p: Packet, zone: Zone)
    requires |p.technical| == 3
    ensures SaysCompleteness(p, SynthesisOf(p, zone).completeness)
  {
    FramesMeaning(p);
    MissingMeaning(p, FramesOf(p));
    V.SortedTextsFacts(p.marketReasons);
    V.SortedTextsFacts(p.technicalReasons);
    V.SortedTextsFacts(p.newsReasons);
  }

  lemma ContradictionsMeaning(p: Packet, zone: Zone, frames: seq<FrameFacts>, market: Market)
    requires |p.technical| == 3 && SaysFrames(p, frames) && SaysMarket(p, market)
    ensures SaysContradictions(p, zone,
      S.Sort(Found(frames, RelationsOf(frames), market, p.newsStatus, zone), ContradictionsInOrder))
  {
    var found := Found(frames, RelationsOf(frames), market, p.newsStatus, zone);
    SortedMeaning(found);
    forall c ensures c in found <==> Reported(p, zone, c) { FoundMeaning(p, zone, frames, market, c); }
  }

  /** The synthesis of a packet says exactly what the packet's states, returns and items call for. */
  lemma SynthesisSays(p: Packet, zone: Zone)
    requires |p.technical| == 3 && ValidNews(p, zone)
    ensures Says(p, zone, SynthesisOf(p, zone))
  {
    var frames := FramesOf(p);
    CompletenessMeaning(p, zone);
    FramesMeaning(p);
    RelationsMeaning(p, frames);
    AlignmentMeaning(p, frames);
    MarketMeaning(p, frames);
    NewsMeaning(p, zone);
    ContradictionsMeaning(p, zone, frames, MarketOf(p, frames));
  }
}
