/** What acceptance by the validator guarantees of a synthesis, whoever made it
    (market_intelligence/validation.py:124-330): every derived part follows from the stated facts. */
module AcceptedSynthesis {
  import opened Results
  import opened EvidenceRules
  import opened EvidenceSynthesis
  import opened EvidenceMeaning
  import opened Texts
  import V = SynthesisValidation
  import L = Lists

  /** The technical frame that the facts describe. */
  function FrameShown(f: FrameFacts): TechnicalFrame {
    match (f.row, f.barEnd)
    case (Some(row), Some(barEnd)) => Present(row, barEnd)
    case _ => Missing(match f.missingReason case Some(reason) => reason case None => "")
  }

  /** A packet with the frames that a synthesis shows. */
  function Shown(s: Synthesis): (p: Packet)
    requires |s.frames| == 3
    ensures |p.technical| == 3
  {
    Packet(s.asOf, [FrameShown(s.frames[0]), FrameShown(s.frames[1]), FrameShown(s.frames[2])], Available, [], None, [],
           [], AvailableEmpty, [], [])
  }

  lemma FrameSaysSo(f: FrameFacts, asOf: int)
    requires V.GoodFrame(f, asOf)
    ensures SaysFrame(FrameShown(f), asOf, f)
    ensures f.barEnd.Some? ==> f.barEnd.value <= asOf
  {
  }

  lemma FramesSaySo(s: Synthesis)
    requires V.FramesValid(s)
    ensures SaysFrames(Shown(s), s.frames)
  {
    assert s.frames[0].interval == INTERVALS[0] && s.frames[1].interval == INTERVALS[1];
    assert s.frames[2].interval == INTERVALS[2];
    FrameSaysSo(s.frames[0], s.asOf);
    FrameSaysSo(s.frames[1], s.asOf);
    FrameSaysSo(s.frames[2], s.asOf);
  }

  lemma RelationsSaySo(s: Synthesis)
    requires V.FramesValid(s) && V.RelationsValid(s)
    ensures SaysRelations(Shown(s), s.relations) && SaysAlignment(Shown(s).technical, s.alignment)
  {
    FramesSaySo(s);
    forall k | 0 <= k < 3 ensures s.relations[k] == RelationsOf(s.frames)[k] {}
    assert s.relations == RelationsOf(s.frames);
    RelationsMeaning(Shown(s), s.frames);
    var ds := [s.frames[0].direction, s.frames[1].direction, s.frames[2].direction];
    assert V.Directions(s.frames) == ds;
    PatternMeaning(Shown(s).technical, ds);
    TimesMeaning(Shown(s).technical, ds);
    forall d: Direction ensures V.Occurrences(ds, d) == Times(ds, d) { KeepThree(ds, (x: Direction) => x == d); }
  }

  // ----------------------------------------------------------------- the market

  lemma {:induction false} ProductMember(intervals: seq<Frame>, keys: seq<(string, Basis)>, i: Frame,
                                         k: (string, Basis))
    ensures (i, k.0, k.1) in V.Product(intervals, keys) <==> i in intervals && k in keys
  {
    if intervals != [] {
      var n := |intervals| - 1;
      var last := Each(keys, V.With(intervals[n]));
      ProductMember(intervals[..n], keys, i, k);
      assert intervals == intervals[..n] + [intervals[n]];
      if k in keys && i == intervals[n] {
        var j :| 0 <= j < |keys| && keys[j] == k;
        assert last[j] == (i, k.0, k.1);
      }
      if (i, k.0, k.1) in last {
        var j :| 0 <= j < |last| && last[j] == (i, k.0, k.1);
        assert keys[j] == k;
      }
    }
  }

  lemma {:induction false} ProductSize(intervals: seq<Frame>, keys: seq<(string, Basis)>)
    ensures |V.Product(intervals, keys)| == |intervals| * |keys|
  {
    if intervals != [] {
      var n := |intervals| - 1;
      ProductSize(intervals[..n], keys);
      assert |intervals| * |keys| == n * |keys| + |keys|;
    }
  }

  function Keyed(m: MarketRelation): (Frame, string, Basis) {
    (m.interval, m.reference, m.basis)
  }

  lemma KeysAreTheProduct(s: Synthesis)
    requires |s.frames| == 3 && V.MarketRelationsValid(s.frames, s.market)
    ensures Each(s.market.relations, Keyed) == V.Product(INTERVALS, Each(s.market.references, V.KeyOf))
  {
    assert Each(s.market.relations, Keyed) ==
      Each(s.market.relations, (r: MarketRelation) => (r.interval, r.reference, r.basis));
  }

  lemma ReferenceOfKey(references: seq<Reference>, k: (string, Basis)) returns (r: Reference)
    requires k in Each(references, V.KeyOf)
    ensures r in references && V.KeyOf(r) == k
  {
    var j :| 0 <= j < |references| && Each(references, V.KeyOf)[j] == k;
    r := references[j];
  }

  lemma ListedRelation(s: Synthesis, m: MarketRelation)
    requires V.FramesValid(s) && V.MarketRelationsValid(s.frames, s.market) && m in s.market.relations
    ensures SaysMarketRelation(Shown(s), s.market.references, m)
  {
    var keys := Each(s.market.references, V.KeyOf);
    KeysAreTheProduct(s);
    var j :| 0 <= j < |s.market.relations| && s.market.relations[j] == m;
    assert Keyed(m) == Each(s.market.relations, Keyed)[j];
    ProductMember(INTERVALS, keys, m.interval, (m.reference, m.basis));
    var r := ReferenceOfKey(s.market.references, (m.reference, m.basis));
    FramesSaySo(s);
    assert s.frames[Index(m.interval)] in s.frames;
    FrameSays(Shown(s), s.frames, s.frames[Index(m.interval)]);
    ContextMeaning(FrameOf(Shown(s), m.interval), DirectionAt(s.frames, m.interval), r.sign, m.relation);
  }

  lemma RelatedReference(s: Synthesis, i: Frame, r: Reference)
    requires V.FramesValid(s) && V.MarketRelationsValid(s.frames, s.market) && r in s.market.references
    ensures Related(Shown(s), s.market.relations, i, r)
  {
    var keys := Each(s.market.references, V.KeyOf);
    var all := Each(s.market.relations, Keyed);
    KeysAreTheProduct(s);
    var k :| 0 <= k < |s.market.references| && s.market.references[k] == r;
    assert keys[k] == V.KeyOf(r) && INTERVALS[Index(i)] == i;
    ProductMember(INTERVALS, keys, i, V.KeyOf(r));
    var j :| 0 <= j < |all| && all[j] == (i, r.reference, r.basis);
    var m := s.market.relations[j];
    assert m in s.market.relations;
    FramesSaySo(s);
    assert s.frames[Index(i)] in s.frames;
    FrameSays(Shown(s), s.frames, s.frames[Index(i)]);
    ContextMeaning(FrameOf(Shown(s), i), DirectionAt(s.frames, i), r.sign, m.relation);
  }

  lemma ReferencesAreInOrder(references: seq<Reference>)
    requires V.ReferencesValid(references)
    ensures InReferenceOrder(references)
    ensures forall i, j :: 0 <= i < j < |references| ==>
      references[i].reference != references[j].reference || references[i].basis != references[j].basis
  {
    forall i, j | 0 <= i < j < |references| ensures !ReferenceBefore(references[j], references[i]) {
      ReferenceOrder(references[j], references[i]);
    }
    forall i, j | 0 <= i < j < |references|
      ensures references[i].reference != references[j].reference || references[i].basis != references[j].basis
    {
      assert V.KeyOf(references[i]) != V.KeyOf(references[j]);
    }
  }

  lemma MarketSaysSo(s: Synthesis)
    requires V.FramesValid(s) && V.MarketRelationsValid(s.frames, s.market)
    ensures SaysMarketRelations(Shown(s), s.market.references, s.market.relations)
  {
    KeysAreTheProduct(s);
    ProductSize(INTERVALS, Each(s.market.references, V.KeyOf));
    forall m | m in s.market.relations ensures SaysMarketRelation(Shown(s), s.market.references, m) {
      ListedRelation(s, m);
    }
    forall i: Frame, r | r in s.market.references ensures Related(Shown(s), s.market.relations, i, r) {
      RelatedReference(s, i, r);
    }
  }

  // ----------------------------------------------------------------- contradictions

  ghost predicate NamesGap(s: Synthesis, key: seq<string>)
    requires |s.frames| == 3
  {
    exists i: Frame :: Silent(FrameOf(Shown(s), i)) && key == ["timeframe_unavailable", Name(i)]
  }

  predicate OpposedPair(s: Synthesis, i: Frame, j: Frame, key: seq<string>)
    requires |s.frames| == 3
  {
    && IsPair(i, j) && PointApart(FrameOf(Shown(s), i), FrameOf(Shown(s), j))
    && key == ["timeframe_opposition", Name(i), Name(j)]
  }

  ghost predicate NamesOpposition(s: Synthesis, key: seq<string>)
    requires |s.frames| == 3
  {
    exists i: Frame, j: Frame :: OpposedPair(s, i, j, key)
  }

  predicate OpposedReference(s: Synthesis, i: Frame, r: Reference, key: seq<string>)
    requires |s.frames| == 3
  {
    && r in s.market.references
    && ((Up(FrameOf(Shown(s), i)) && r.sign == Negative) || (Down(FrameOf(Shown(s), i)) && r.sign == Positive))
    && key == ["market_context_opposes_timeframe", Name(i), r.reference, BasisName(r.basis)]
  }

  ghost predicate NamesMarket(s: Synthesis, key: seq<string>)
    requires |s.frames| == 3
  {
    exists i: Frame, r :: OpposedReference(s, i, r, key)
  }

  ghost predicate NamesMisalignment(s: Synthesis, key: seq<string>) {
    exists r :: r in s.market.references && "misaligned" in r.unavailableReasons
      && key == ["comparison_misaligned", r.reference, BasisName(r.basis)]
  }

  predicate OtherSession(s: Synthesis, zone: Zone, i: Frame, key: seq<string>)
    requires |s.frames| == 3
  {
    && s.market.sessionDate.Some? && FrameOf(Shown(s), i).Present?
    && zone.iso(zone.dayOf(FrameOf(Shown(s), i).barEnd)) != s.market.sessionDate.value
    && key == ["context_session_mismatch", "market_context", Name(i)]
  }

  ghost predicate NamesSession(s: Synthesis, zone: Zone, key: seq<string>)
    requires |s.frames| == 3
  {
    exists i: Frame :: HasLatestBar(Shown(s), i) && OtherSession(s, zone, i, key)
  }

  /** What the stated facts call for. */
  ghost predicate CalledFor(s: Synthesis, zone: Zone, key: seq<string>)
    requires |s.frames| == 3
  {
    || NamesGap(s, key)
    || NamesOpposition(s, key)
    || (!s.market.available && key == ["market_context_unavailable", "market_context"])
    || (s.market.available && (NamesMarket(s, key) || NamesMisalignment(s, key) || NamesSession(s, zone, key)))
    || (s.news.availability == NotAvailable && key == ["news_unavailable", "news"])
  }

  lemma SilentFrame(s: Synthesis, i: Frame)
    requires |s.frames| == 3 && SaysFrames(Shown(s), s.frames)
    ensures s.frames[Index(i)] in s.frames && s.frames[Index(i)].interval == i
    ensures Silent(FrameOf(Shown(s), i)) <==> s.frames[Index(i)].direction == Unavailable
  {
    var f := s.frames[Index(i)];
    assert f in s.frames;
    FrameSays(Shown(s), s.frames, f);
    OneDirection(FrameOf(Shown(s), i), f.direction, Unavailable);
  }

  lemma GapSaysSo(s: Synthesis, key: seq<string>)
    requires V.FramesValid(s)
    ensures V.ExpectedGap(s.frames, key) <==> NamesGap(s, key)
  {
    FramesSaySo(s);
    if f :| f in s.frames && f.direction == Unavailable && key == [TIMEFRAME_UNAVAILABLE, Name(f.interval)] {
      FrameSays(Shown(s), s.frames, f);
      SilentFrame(s, f.interval);
    }
    if i: Frame :| Silent(FrameOf(Shown(s), i)) && key == ["timeframe_unavailable", Name(i)] {
      SilentFrame(s, i);
    }
  }

  lemma OppositionSaysSo(s: Synthesis, key: seq<string>)
    requires |s.frames| == 3 && SaysRelations(Shown(s), s.relations)
    ensures V.ExpectedOpposition(s.relations, key) <==> NamesOpposition(s, key)
  {
    if r :| r in s.relations && r.relation == Oppose && key == [TIMEFRAME_OPPOSITION, Name(r.first), Name(r.second)] {
      ListedPair(Shown(s), s.relations, r);
      assert OpposedPair(s, r.first, r.second, key);
    }
    if i: Frame, j: Frame :| OpposedPair(s, i, j, key) {
      var r := PairIsListed(Shown(s), s.relations, i, j);
    }
  }

  lemma ListedOpposition(s: Synthesis, m: MarketRelation) returns (r: Reference)
    requires |s.frames| == 3 && SaysMarketRelations(Shown(s), s.market.references, s.market.relations)
    requires m in s.market.relations && m.relation == Oppose
    ensures OpposedReference(s, m.interval, r, V.MarketOppositionKey(m))
  {
    assert SaysMarketRelation(Shown(s), s.market.references, m);
    r :| r in s.market.references && r.reference == m.reference && r.basis == m.basis
         && SaysContext(FrameOf(Shown(s), m.interval), r.sign, m.relation);
  }

  lemma OppositionIsListed(s: Synthesis, i: Frame, r: Reference, key: seq<string>) returns (m: MarketRelation)
    requires |s.frames| == 3 && SaysMarketRelations(Shown(s), s.market.references, s.market.relations)
    requires OpposedReference(s, i, r, key)
    ensures m in s.market.relations && m.relation == Oppose && key == V.MarketOppositionKey(m)
  {
    assert Related(Shown(s), s.market.relations, i, r);
    m :| m in s.market.relations && m.interval == i && m.reference == r.reference && m.basis == r.basis
         && SaysContext(FrameOf(Shown(s), i), r.sign, m.relation);
  }

  lemma MarketOppositionSaysSo(s: Synthesis, key: seq<string>)
    requires |s.frames| == 3 && SaysMarketRelations(Shown(s), s.market.references, s.market.relations)
    ensures V.ExpectedMarketOpposition(s.market, key) <==> NamesMarket(s, key)
  {
    if m :| m in s.market.relations && m.relation == Oppose && key == V.MarketOppositionKey(m) {
      var r := ListedOpposition(s, m);
    }
    if i: Frame, r :| OpposedReference(s, i, r, key) {
      var m := OppositionIsListed(s, i, r, key);
    }
  }

  lemma SessionSaysSo(s: Synthesis, zone: Zone, key: seq<string>)
    requires V.FramesValid(s)
    ensures V.ExpectedMismatch(s.frames, s.market, zone, key) <==> NamesSession(s, zone, key)
  {
    FramesSaySo(s);
    forall i: Frame
      ensures HasLatestBar(Shown(s), i) <==> V.IsLatest(s.frames, i)
      ensures s.frames[Index(i)].barEnd ==
        if FrameOf(Shown(s), i).Present? then Some(FrameOf(Shown(s), i).barEnd) else None
    {
      LatestBarIndexed(Shown(s), s.frames, i);
      BarOf(Shown(s), s.frames, i);
    }
  }

  lemma ContradictionSaysSo(s: Synthesis, zone: Zone, key: seq<string>)
    requires V.Accepted(s, zone)
    ensures V.IsExpected(s, zone, key) <==> CalledFor(s, zone, key)
  {
    GapSaysSo(s, key);
    RelationsSaySo(s);
    OppositionSaysSo(s, key);
    if s.market.available {
      MarketSaysSo(s);
      MarketOppositionSaysSo(s, key);
      SessionSaysSo(s, zone, key);
    }
  }

  /** The contradictions are exactly those called for. */
  ghost predicate ExactlyCalledFor(s: Synthesis, zone: Zone)
    requires |s.frames| == 3
  {
    && (forall key :: (exists c <- s.contradictions :: c.key == key) <==> CalledFor(s, zone, key))
    && forall i, j :: 0 <= i < j < |s.contradictions| ==>
      TupleBefore(s.contradictions[i].key, s.contradictions[j].key)
  }

  lemma ContradictionsSaySo(s: Synthesis, zone: Zone)
    requires V.Accepted(s, zone)
    ensures ExactlyCalledFor(s, zone)
  {
    forall key ensures V.IsExpected(s, zone, key) <==> CalledFor(s, zone, key) { ContradictionSaysSo(s, zone, key); }
  }

  // ----------------------------------------------------------------- the rest

  /** The numbers of a tally together. */
  function Together(counts: seq<Count>): int {
    if counts == [] then 0 else counts[|counts| - 1].count + Together(counts[..|counts| - 1])
  }

  lemma {:induction false} TogetherIsSum(counts: seq<Count>)
    ensures Together(counts) == V.SumOf(counts)
  {
    if counts != [] { TogetherIsSum(counts[..|counts| - 1]); }
  }

  /** Tallies of all items, ages that fit their instants and dates, and one source per item. */
  ghost predicate NewsAddsUp(n: News, asOf: int, zone: Zone) {
    && Together(n.families) == n.itemCount && Together(n.decisions) == n.itemCount && Together(n.impacts) == n.itemCount
    && n.direct + n.related <= n.itemCount && |n.sources| == n.itemCount
    && (n.itemCount > 0 <==> n.availability == Available)
    && (forall i, j :: 0 <= i < j < |n.sources| ==> StringBefore(n.sources[i], n.sources[j]))
    && (n.stamps.Some? ==>
          n.stamps.value.oldest <= n.stamps.value.newest <= asOf
          && WholeSeconds(asOf - n.stamps.value.newest, n.stamps.value.age))
    && (n.days.Some? ==> exists newest, oldest ::
          zone.parse(n.days.value.newest) == Some(newest) && zone.parse(n.days.value.oldest) == Some(oldest)
          && oldest <= newest < zone.dayOf(asOf) && n.days.value.age == zone.dayOf(asOf) - newest)
  }

  /** Coverage and missing frames follow from the frames, the other statuses from their sections. */
  ghost predicate CoverageFits(s: Synthesis)
    requires |s.frames| == 3
  {
    var shown := Shown(s).technical;
    && (s.completeness.technical == Available <==> forall f <- shown :: f.Present?)
    && (s.completeness.technical == NotAvailable <==> forall f <- shown :: f.Missing?)
    && s.completeness.technical != AvailableEmpty
    && s.completeness.market == s.market.available && s.completeness.news == s.news.availability
    && s.completeness.missing ==
      (if shown[0].Missing? then [(Day, shown[0].reason)] else []) +
      (if shown[1].Missing? then [(Hour, shown[1].reason)] else []) +
      (if shown[2].Missing? then [(FiveMinutes, shown[2].reason)] else [])
  }

  lemma NewsSaysSo(s: Synthesis, zone: Zone)
    requires V.NewsValid(s, zone)
    ensures NewsAddsUp(s.news, s.asOf, zone)
  {
    TogetherIsSum(s.news.families);
    TogetherIsSum(s.news.decisions);
    TogetherIsSum(s.news.impacts);
  }

  lemma CoverageSaysSo(s: Synthesis)
    requires V.FramesValid(s) && V.CompletenessValid(s)
    ensures CoverageFits(s)
  {
    FramesSaySo(s);
    var shown := Shown(s).technical;
    assert shown[0] in shown && shown[1] in shown && shown[2] in shown;
    KeepThree(s.frames, (f: FrameFacts) => f.available);
    MissingSaysSo(s);
  }

  lemma MissingSaysSo(s: Synthesis)
    requires |s.frames| == 3 && SaysFrames(Shown(s), s.frames)
    ensures var shown := Shown(s).technical;
      MissingOf(s.frames) ==
      (if shown[0].Missing? then [(Day, shown[0].reason)] else []) +
      (if shown[1].Missing? then [(Hour, shown[1].reason)] else []) +
      (if shown[2].Missing? then [(FiveMinutes, shown[2].reason)] else [])
  {
    KeepThree(s.frames, (f: FrameFacts) => !f.available);
  }

  /** Whatever the validator accepts is consistent: directions, ages, relations, pattern and counts follow from the
      shown rows, the market relations from the shown signs, coverage from the frames; and its contradictions are
      exactly those that these facts call for, each once, in order. */
  lemma AcceptedSays(s: Synthesis, zone: Zone)
    requires V.Accepted(s, zone)
    ensures SaysFrames(Shown(s), s.frames) && SaysRelations(Shown(s), s.relations)
    ensures SaysAlignment(Shown(s).technical, s.alignment)
    ensures s.market.available ==>
      SaysMarketRelations(Shown(s), s.market.references, s.market.relations) && InReferenceOrder(s.market.references)
    ensures NewsAddsUp(s.news, s.asOf, zone) && CoverageFits(s)
    ensures ExactlyCalledFor(s, zone)
  {
    FramesSaySo(s);
    RelationsSaySo(s);
    if s.market.available {
      MarketSaysSo(s);
      ReferencesAreInOrder(s.market.references);
    }
    NewsSaysSo(s, zone);
    CoverageSaysSo(s);
    ContradictionsSaySo(s, zone);
  }
}
