/** What the news section keeps, in which order, and what it counts, in terms of the inputs' own fields
    (evidence_packet/assembler.py:105-176). */
module NewsSelection {
  import opened Results
  import opened Assembler
  import opened Texts
  import L = Lists
  import S = Sorting

  /** A publication instant to the second or minute, or a publication date, as the precision says. */
  predicate Timed(x: Item) {
    || ((x.precision == Second || x.precision == Minute) && x.publishedAt.Some?)
    || (x.precision == Date && x.publicationDate.Some?)
  }

  /** Published after the cutoff; a date-only publication on the cutoff's day or later. */
  predicate Late(x: Item, asOf: int, zone: Zone) {
    Timed(x) && if x.precision == Date then x.publicationDate.value >= zone.dayOf(asOf) else x.publishedAt.value > asOf
  }

  /** What an input is excluded for on its own. */
  predicate ExcludedFor(input: Input, symbol: string, asOf: int, zone: Zone, reason: Reason) {
    match input
    case Refused(r) => reason == r
    case Adapted(x) =>
      match reason
      case SymbolMismatch => symbol !in x.symbols
      case UnknownPublicationTime => symbol in x.symbols && !Timed(x)
      case AfterAsOf => symbol in x.symbols && Late(x, asOf, zone)
      case ObservedAfterAsOf => symbol in x.symbols && Timed(x) && !Late(x, asOf, zone) && x.observedAt > asOf
      case _ => false
  }

  /** An input about the symbol, published and observed by the cutoff. */
  predicate Passes(inputs: seq<Input>, symbol: string, asOf: int, zone: Zone, x: Item) {
    Adapted(x) in inputs && symbol in x.symbols && Timed(x) && !Late(x, asOf, zone) && x.observedAt <= asOf
  }

  /** The same record, the observation aside. */
  predicate SameRecord(x: Item, y: Item) {
    && x.identity == y.identity && x.family == y.family && x.symbols == y.symbols && x.precision == y.precision
    && x.publishedAt == y.publishedAt && x.publicationDate == y.publicationDate && x.content == y.content
  }

  /** Every passing record of the identity is the same, and none was observed earlier. */
  ghost predicate Chosen(inputs: seq<Input>, symbol: string, asOf: int, zone: Zone, x: Item) {
    Passes(inputs, symbol, asOf, zone, x) &&
      forall y :: Passes(inputs, symbol, asOf, zone, y) && y.identity == x.identity ==>
        SameRecord(x, y) && x.observedAt <= y.observedAt
  }

  /** Another passing record of the identity disagrees. */
  ghost predicate Disputed(inputs: seq<Input>, symbol: string, asOf: int, zone: Zone, x: Item) {
    Passes(inputs, symbol, asOf, zone, x) &&
      exists y :: Passes(inputs, symbol, asOf, zone, y) && y.identity == x.identity && !SameRecord(x, y)
  }

  /** The publication day, if it is known. */
  function Day(x: Item, zone: Zone): Option<int> {
    if x.publishedAt.Some? then Some(zone.dayOf(x.publishedAt.value)) else x.publicationDate
  }

  /** Known publications first, the newest day first; within a day those with a time first, the latest time first. */
  predicate Sooner(zone: Zone, x: Item, y: Item) {
    var d, e := Day(x, zone), Day(y, zone);
    || (d.Some? && e.None?)
    || (d.Some? && e.Some? && d.value > e.value)
    || (d.Some? && d == e && x.publishedAt.Some? && y.publishedAt.None?)
    || (d.Some? && d == e && x.publishedAt.Some? && y.publishedAt.Some?
        && zone.timeOfDay(x.publishedAt.value) > zone.timeOfDay(y.publishedAt.value))
  }

  /** Equal so far: by family, identity version and key. */
  predicate Listed(zone: Zone, x: Item, y: Item) {
    Sooner(zone, x, y) || (!Sooner(zone, y, x) &&
      TupleBefore([x.family, x.identity.0, x.identity.1], [y.family, y.identity.0, y.identity.1]))
  }

  /** The places of the inputs that satisfy `q`. */
  ghost function Places(inputs: seq<Input>, q: Input -> bool): set<int> {
    set i | 0 <= i < |inputs| && q(inputs[i])
  }

  ghost predicate SaysNews(news: News, inputs: seq<Input>, symbol: string, asOf: int, zone: Zone) {
    && (forall x :: x in news.items <==> Chosen(inputs, symbol, asOf, zone, x))
    && (forall i, j :: 0 <= i < j < |news.items| ==> Listed(zone, news.items[i], news.items[j]))
    && (news.availability == if news.items == [] then AvailableEmpty else Available)
    && forall reason :: Counted(news.excluded, reason) == Number(inputs, symbol, asOf, zone, reason, |news.items|)
  }

  ghost function DisputedInput(inputs: seq<Input>, symbol: string, asOf: int, zone: Zone): Input -> bool {
    (i: Input) => i.Adapted? && Disputed(inputs, symbol, asOf, zone, i.item)
  }

  ghost function PassingInput(inputs: seq<Input>, symbol: string, asOf: int, zone: Zone): Input -> bool {
    (i: Input) => i.Adapted? && Passes(inputs, symbol, asOf, zone, i.item)
  }

  /** How many inputs a reason excludes: those it excludes on their own, the records of a disputed identity, or the
      passing records beyond the kept ones. */
  ghost function Number(inputs: seq<Input>, symbol: string, asOf: int, zone: Zone, reason: Reason, kept: nat): int {
    |Places(inputs, (i: Input) => ExcludedFor(i, symbol, asOf, zone, reason))| +
    match reason
    case IdentityConflict => |Places(inputs, DisputedInput(inputs, symbol, asOf, zone))|
    case DuplicateIdentical =>
      |Places(inputs, PassingInput(inputs, symbol, asOf, zone))|
      - |Places(inputs, DisputedInput(inputs, symbol, asOf, zone))| - kept
    case _ => 0
  }

  // ----------------------------------------------------------------- one input

  lemma ReasonMeaning(input: Input, symbol: string, asOf: int, zone: Zone, reason: Reason)
    ensures OwnReason(input, symbol, asOf, zone) == Some(reason) <==> ExcludedFor(input, symbol, asOf, zone, reason)
  {
  }

  lemma NoReasonMeaning(x: Item, symbol: string, asOf: int, zone: Zone)
    ensures OwnReason(Adapted(x), symbol, asOf, zone).None? <==>
      symbol in x.symbols && Timed(x) && !Late(x, asOf, zone) && x.observedAt <= asOf
  {
  }

  lemma ContentMeaning(x: Item, y: Item)
    ensures Content(x) == Content(y) <==> SameRecord(x, y)
  {
  }

  lemma {:induction false} CandidatesMeaning(inputs: seq<Input>, symbol: string, asOf: int, zone: Zone, x: Item)
    ensures x in Candidates(inputs, symbol, asOf, zone) <==> Passes(inputs, symbol, asOf, zone, x)
  {
    CandidateCounts(inputs, symbol, asOf, zone, x);
    NoReasonMeaning(x, symbol, asOf, zone);
    assert x in Candidates(inputs, symbol, asOf, zone) <==> multiset(Candidates(inputs, symbol, asOf, zone))[x] > 0;
    assert Adapted(x) in inputs <==> multiset(inputs)[Adapted(x)] > 0;
  }

  // ----------------------------------------------------------------- kept items and their order

  lemma ChosenMeaning(inputs: seq<Input>, symbol: string, asOf: int, zone: Zone, x: Item)
    ensures Kept(Candidates(inputs, symbol, asOf, zone), x) <==> Chosen(inputs, symbol, asOf, zone, x)
    ensures x in Candidates(inputs, symbol, asOf, zone) ==>
      (Conflicted(Candidates(inputs, symbol, asOf, zone), x) <==> Disputed(inputs, symbol, asOf, zone, x))
  {
    var all := Candidates(inputs, symbol, asOf, zone);
    forall y ensures y in all <==> Passes(inputs, symbol, asOf, zone, y) {
      CandidatesMeaning(inputs, symbol, asOf, zone, y);
    }
    forall y ensures Content(y) == Content(x) <==> SameRecord(x, y) { ContentMeaning(y, x); }
  }

  lemma NamesMeaning(x: Item, y: Item)
    ensures NameBefore(x, y) <==>
      TupleBefore([x.family, x.identity.0, x.identity.1], [y.family, y.identity.0, y.identity.1])
  {
    var a, b := [x.family, x.identity.0, x.identity.1], [y.family, y.identity.0, y.identity.1];
    var c, d := [x.identity.0, x.identity.1], [y.identity.0, y.identity.1];
    StringsAreOrdered(x.identity.1, y.identity.1);
    assert a[1..] == c && b[1..] == d && c[1..] == [x.identity.1] && d[1..] == [y.identity.1];
    assert TupleBefore([x.identity.1], [y.identity.1]) <==> StringBefore(x.identity.1, y.identity.1);
    assert TupleBefore(c, d) <==>
      if c[0] != d[0] then StringBefore(c[0], d[0]) else TupleBefore([x.identity.1], [y.identity.1]);
  }

  lemma OrderMeaning(zone: Zone, x: Item, y: Item)
    ensures Precedes(zone, x, y) <==> Listed(zone, x, y)
  {
    NamesMeaning(x, y);
  }

  // ----------------------------------------------------------------- counts

  lemma MorePlaces(inputs: seq<Input>, q: Input -> bool)
    requires inputs != []
    ensures var n := |inputs| - 1;
      |Places(inputs, q)| == |Places(inputs[..n], q)| + if q(inputs[n]) then 1 else 0
  {
    var n := |inputs| - 1;
    assert Places(inputs, q) == Places(inputs[..n], q) + if q(inputs[n]) then {n} else {};
  }

  lemma {:induction false} KeptPlaces(inputs: seq<Input>, p: Input -> bool, q: Input -> bool)
    requires forall i <- inputs :: p(i) == q(i)
    ensures |L.Keep(inputs, p)| == |Places(inputs, q)|
  {
    if inputs != [] {
      var n := |inputs| - 1;
      assert inputs[n] in inputs;
      KeptPlaces(inputs[..n], p, q);
      MorePlaces(inputs, q);
    }
  }

  /** A property of candidates is counted on the inputs they come from. */
  lemma {:induction false} CandidatePlaces(inputs: seq<Input>, symbol: string, asOf: int, zone: Zone, p: Item -> bool,
                                           q: Input -> bool)
    requires forall i <- inputs :: q(i) <==> i.Adapted? && OwnReason(i, symbol, asOf, zone).None? && p(i.item)
    ensures |L.Keep(Candidates(inputs, symbol, asOf, zone), p)| == |Places(inputs, q)|
  {
    if inputs != [] {
      var n := |inputs| - 1;
      var before := Candidates(inputs[..n], symbol, asOf, zone);
      assert inputs[n] in inputs;
      CandidatePlaces(inputs[..n], symbol, asOf, zone, p, q);
      MorePlaces(inputs, q);
      if OwnReason(inputs[n], symbol, asOf, zone).None? { L.KeepOneMore(before, inputs[n].item, p); }
    }
  }

  lemma DisputedCount(inputs: seq<Input>, symbol: string, asOf: int, zone: Zone)
    ensures Conflicts(Candidates(inputs, symbol, asOf, zone)) ==
      |Places(inputs, DisputedInput(inputs, symbol, asOf, zone))|
  {
    var all := Candidates(inputs, symbol, asOf, zone);
    forall i | i in inputs
      ensures DisputedInput(inputs, symbol, asOf, zone)(i) <==>
        i.Adapted? && OwnReason(i, symbol, asOf, zone).None? && ConflictedIn(all)(i.item)
    {
      if i.Adapted? {
        NoReasonMeaning(i.item, symbol, asOf, zone);
        CandidatesMeaning(inputs, symbol, asOf, zone, i.item);
        ChosenMeaning(inputs, symbol, asOf, zone, i.item);
      }
    }
    CandidatePlaces(inputs, symbol, asOf, zone, ConflictedIn(all), DisputedInput(inputs, symbol, asOf, zone));
  }

  lemma PassingCount(inputs: seq<Input>, symbol: string, asOf: int, zone: Zone)
    ensures |Candidates(inputs, symbol, asOf, zone)| == |Places(inputs, PassingInput(inputs, symbol, asOf, zone))|
  {
    forall i | i in inputs
      ensures PassingInput(inputs, symbol, asOf, zone)(i) <==>
        i.Adapted? && OwnReason(i, symbol, asOf, zone).None? && true
    {
      if i.Adapted? { NoReasonMeaning(i.item, symbol, asOf, zone); }
    }
    CandidatePlaces(inputs, symbol, asOf, zone, (x: Item) => true, PassingInput(inputs, symbol, asOf, zone));
    L.EverythingKept(Candidates(inputs, symbol, asOf, zone));
  }

  lemma NumberMeaning(inputs: seq<Input>, symbol: string, asOf: int, zone: Zone, reason: Reason, kept: nat)
    ensures Expected(inputs, symbol, asOf, zone, reason, kept) == Number(inputs, symbol, asOf, zone, reason, kept)
  {
    forall i | i in inputs
      ensures HasReason(symbol, asOf, zone, reason)(i) == ExcludedFor(i, symbol, asOf, zone, reason)
    {
      ReasonMeaning(i, symbol, asOf, zone, reason);
    }
    KeptPlaces(inputs, HasReason(symbol, asOf, zone, reason),
               (i: Input) => ExcludedFor(i, symbol, asOf, zone, reason));
    DisputedCount(inputs, symbol, asOf, zone);
    PassingCount(inputs, symbol, asOf, zone);
  }

  /** The news section, said of the inputs alone: it keeps the earliest observation of each identity whose passing
      records agree, in the order of publication, and counts every other input under its reason. */
  lemma NewsSays(news: News, inputs: seq<Input>, symbol: string, asOf: int, zone: Zone)
    requires IsNews(news, inputs, symbol, asOf, zone)
    ensures SaysNews(news, inputs, symbol, asOf, zone)
  {
    forall x ensures x in news.items <==> Chosen(inputs, symbol, asOf, zone, x) {
      ChosenMeaning(inputs, symbol, asOf, zone, x);
    }
    forall i, j | 0 <= i < j < |news.items| ensures Listed(zone, news.items[i], news.items[j]) {
      OrderMeaning(zone, news.items[i], news.items[j]);
    }
    forall reason
      ensures Counted(news.excluded, reason) == Number(inputs, symbol, asOf, zone, reason, |news.items|)
    {
      NumberMeaning(inputs, symbol, asOf, zone, reason, |news.items|);
    }
  }
}
