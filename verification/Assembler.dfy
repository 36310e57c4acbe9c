/** The news and technical sections of the evidence packet (evidence_packet/assembler.py): what is kept, what is counted
    as excluded, and in which order. */
module Assembler {
  import opened Results
  import L = Lists
  import S = Sorting
  import opened Texts

  datatype Reason =
    | UnsupportedFamily | NearDuplicateSuppressed | InvalidEvent | SymbolMismatch | UnknownPublicationTime | AfterAsOf
    | ObservedAfterAsOf | DuplicateIdentical | IdentityConflict

  datatype Precision = Second | Minute | Date | Unknown

  type Identity = (string, string)

  /** An adapted event; `content` stands for every field that is not named here, the observation time excepted. */
  datatype Item = Item(identity: Identity, family: string, symbols: set<string>, precision: Precision,
                       publishedAt: Option<int>, publicationDate: Option<int>, content: string, observedAt: int)

  /** The adapter's answer for one input. */
  datatype Input = Refused(reason: Reason) | Adapted(item: Item)

  /** Exchange-local date and wall-clock time of an instant; later instants have no earlier date. */
  datatype Zone = Zone(dayOf: int -> int, timeOfDay: int -> int)

  ghost predicate Monotone(zone: Zone) {
    forall t, u :: t <= u ==> zone.dayOf(t) <= zone.dayOf(u)
  }

  // ----------------------------------------------------------------- one input

  /** `_time_reason`. */
  function TimeReason(item: Item, asOf: int, zone: Zone): Option<Reason> {
    if item.precision in {Second, Minute} && item.publishedAt.Some? then
      if item.publishedAt.value > asOf then Some(AfterAsOf) else ObservationReason(item, asOf)
    else if item.precision == Date && item.publicationDate.Some? then
      if item.publicationDate.value >= zone.dayOf(asOf) then Some(AfterAsOf) else ObservationReason(item, asOf)
    else Some(UnknownPublicationTime)
  }

  function ObservationReason(item: Item, asOf: int): Option<Reason> {
    if item.observedAt > asOf then Some(ObservedAfterAsOf) else None
  }

  /** The single reason an input is excluded for on its own, if any. */
  function OwnReason(input: Input, symbol: string, asOf: int, zone: Zone): Option<Reason> {
    match input
    case Refused(reason) => Some(reason)
    case Adapted(item) => if symbol !in item.symbols then Some(SymbolMismatch) else TimeReason(item, asOf, zone)
  }

  function HasReason(symbol: string, asOf: int, zone: Zone, reason: Reason): Input -> bool {
    (input: Input) => OwnReason(input, symbol, asOf, zone) == Some(reason)
  }

  /** The inputs that pass on their own. */
  function Candidates(inputs: seq<Input>, symbol: string, asOf: int, zone: Zone): seq<Item> {
    if inputs == [] then []
    else
      var n := |inputs| - 1;
      var before := Candidates(inputs[..n], symbol, asOf, zone);
      if OwnReason(inputs[n], symbol, asOf, zone).None? then before + [inputs[n].item] else before
  }

  // ----------------------------------------------------------------- the definition

  function Content(item: Item): Item {
    item.(observedAt := 0)
  }

  /** Another record of the same identity disagrees. */
  ghost predicate Conflicted(all: seq<Item>, x: Item) {
    exists y :: y in all && y.identity == x.identity && Content(y) != Content(x)
  }

  /** The earliest observation of an identity whose records all agree. */
  ghost predicate Kept(all: seq<Item>, x: Item) {
    x in all && forall y <- all :: y.identity == x.identity ==> Content(y) == Content(x) && x.observedAt <= y.observedAt
  }

  /** The order key: known publication first, newest date, timestamped before date-only, latest first. */
  function TimeKey(item: Item, zone: Zone): (int, int, int, int) {
    if item.publishedAt.Some? then
      (0, -zone.dayOf(item.publishedAt.value), 0, -zone.timeOfDay(item.publishedAt.value))
    else if item.publicationDate.Some? then (0, -item.publicationDate.value, 1, 0)
    else (1, 0, 0, 0)
  }

  predicate TimeBefore(a: (int, int, int, int), b: (int, int, int, int)) {
    if a.0 != b.0 then a.0 < b.0
    else if a.1 != b.1 then a.1 < b.1
    else if a.2 != b.2 then a.2 < b.2
    else a.3 < b.3
  }

  predicate NameBefore(x: Item, y: Item) {
    if x.family != y.family then StringBefore(x.family, y.family)
    else if x.identity.0 != y.identity.0 then StringBefore(x.identity.0, y.identity.0)
    else StringBefore(x.identity.1, y.identity.1)
  }

  predicate Precedes(zone: Zone, x: Item, y: Item) {
    if TimeKey(x, zone) != TimeKey(y, zone) then TimeBefore(TimeKey(x, zone), TimeKey(y, zone)) else NameBefore(x, y)
  }

  function Before(zone: Zone): (Item, Item) -> bool {
    (x: Item, y: Item) => Precedes(zone, x, y)
  }

  function InOrder(zone: Zone): (Item, Item) -> bool {
    (x: Item, y: Item) => !Precedes(zone, y, x)
  }

  datatype Availability = Unavailable(why: string) | AvailableEmpty | Available

  datatype News = News(availability: Availability, items: seq<Item>, excluded: map<Reason, nat>)

  function Counted(excluded: map<Reason, nat>, reason: Reason): nat {
    if reason in excluded then excluded[reason] else 0
  }

  predicate AllPositive(excluded: map<Reason, nat>) {
    forall reason <- excluded :: excluded[reason] > 0
  }

  ghost function ConflictedIn(all: seq<Item>): Item -> bool {
    (x: Item) => Conflicted(all, x)
  }

  ghost function Conflicts(all: seq<Item>): nat {
    |L.Keep(all, ConflictedIn(all))|
  }

  ghost function Expected(inputs: seq<Input>, symbol: string, asOf: int, zone: Zone, reason: Reason, kept: nat): int {
    var all := Candidates(inputs, symbol, asOf, zone);
    |L.Keep(inputs, HasReason(symbol, asOf, zone, reason))| +
    match reason
    case IdentityConflict => Conflicts(all)
    case DuplicateIdentical => |all| - Conflicts(all) - kept
    case _ => 0
  }

  /** The section by definition: the kept items in order, and for each reason the number of inputs it excludes. */
  ghost predicate IsNews(news: News, inputs: seq<Input>, symbol: string, asOf: int, zone: Zone) {
    var all := Candidates(inputs, symbol, asOf, zone);
    && L.Chain(news.items, Before(zone))
    && (forall x :: x in news.items <==> Kept(all, x))
    && AllPositive(news.excluded)
    && (forall reason :: Counted(news.excluded, reason) == Expected(inputs, symbol, asOf, zone, reason, |news.items|))
    && news.availability == if news.items == [] then AvailableEmpty else Available
  }

  // ----------------------------------------------------------------- the order is strict

  lemma NamesAreOrdered(x: Item, y: Item)
    ensures NameBefore(x, y) ==> !NameBefore(y, x)
    ensures NameBefore(x, y) || NameBefore(y, x) || (x.family == y.family && x.identity == y.identity)
  {
    StringsAreOrdered(x.family, y.family);
    StringsAreOrdered(x.identity.0, y.identity.0);
    StringsAreOrdered(x.identity.1, y.identity.1);
  }

  lemma PrecedesIsAntisymmetric(zone: Zone, x: Item, y: Item)
    requires Precedes(zone, x, y)
    ensures !Precedes(zone, y, x)
  {
    NamesAreOrdered(x, y);
  }

  lemma BeforeIsStrict(zone: Zone)
    ensures L.Strict(Before(zone))
  {
    forall x: Item, y: Item | Before(zone)(x, y) ensures !Before(zone)(y, x) { PrecedesIsAntisymmetric(zone, x, y); }
  }

  lemma NamesAreTransitive(x: Item, y: Item, z: Item)
    requires !NameBefore(y, x) && !NameBefore(z, y)
    ensures !NameBefore(z, x)
  {
    NamesAreOrdered(x, y);
    NamesAreOrdered(y, z);
    NamesAreOrdered(x, z);
    if NameBefore(z, x) && NameBefore(x, y) && NameBefore(y, z) { NameCycle(x, y, z); }
  }

  lemma NameCycle(x: Item, y: Item, z: Item)
    requires NameBefore(x, y) && NameBefore(y, z)
    ensures NameBefore(x, z)
  {
    if x.family != y.family && y.family != z.family {
      StringsAreTransitive(x.family, y.family, z.family);
      StringsAreOrdered(x.family, y.family);
    } else if x.family == y.family == z.family {
      if x.identity.0 != y.identity.0 && y.identity.0 != z.identity.0 {
        StringsAreTransitive(x.identity.0, y.identity.0, z.identity.0);
        StringsAreOrdered(x.identity.0, y.identity.0);
      } else if x.identity.0 == y.identity.0 == z.identity.0 {
        StringsAreTransitive(x.identity.1, y.identity.1, z.identity.1);
      }
    }
  }

  lemma PrecedesIsTransitive(zone: Zone, x: Item, y: Item, z: Item)
    requires !Precedes(zone, y, x) && !Precedes(zone, z, y)
    ensures !Precedes(zone, z, x)
  {
    if TimeKey(x, zone) == TimeKey(y, zone) == TimeKey(z, zone) { NamesAreTransitive(x, y, z); }
  }

  lemma SortOrderIsTotal(zone: Zone)
    ensures S.TotalPreorder(InOrder(zone))
  {
    var le := InOrder(zone);
    forall x: Item, y: Item ensures le(x, y) || le(y, x) {
      if Precedes(zone, x, y) { PrecedesIsAntisymmetric(zone, x, y); }
    }
    forall x: Item, y: Item, z: Item | le(x, y) && le(y, z) ensures le(x, z) { PrecedesIsTransitive(zone, x, y, z); }
  }

  // ----------------------------------------------------------------- the first loop

  function OfIdentity(id: Identity): Item -> bool {
    (x: Item) => x.identity == id
  }

  function Add(excluded: map<Reason, nat>, reason: Reason, n: nat): map<Reason, nat> {
    excluded[reason := Counted(excluded, reason) + n]
  }

  /** The dictionary of candidate records and the order in which its identities appeared. */
  ghost predicate Grouped(groups: map<Identity, seq<Item>>, order: seq<Identity>, all: seq<Item>) {
    && S.Distinct(order)
    && (forall id :: id in order <==> id in groups)
    && (forall id <- groups :: groups[id] == L.Keep(all, OfIdentity(id)))
    && (forall x <- all :: x.identity in groups)
    && (forall id <- groups :: groups[id] != [])
  }

  function WithRecord(groups: map<Identity, seq<Item>>, x: Item): map<Identity, seq<Item>> {
    groups[x.identity := (if x.identity in groups then groups[x.identity] else []) + [x]]
  }

  lemma GroupedOneMore(groups: map<Identity, seq<Item>>, order: seq<Identity>, all: seq<Item>, x: Item)
    requires Grouped(groups, order, all)
    ensures Grouped(WithRecord(groups, x), if x.identity in groups then order else order + [x.identity], all + [x])
  {
    var later := WithRecord(groups, x);
    assert (all + [x])[..|all|] == all;
    forall id | id in later ensures later[id] == L.Keep(all + [x], OfIdentity(id)) {
      if id !in groups {
        forall y | y in all ensures !OfIdentity(id)(y) {}
        L.KeepSame(all, OfIdentity(id), (y: Item) => false);
        L.NothingKept(all);
      }
    }
  }

  method Sift(inputs: seq<Input>, symbol: string, asOf: int, zone: Zone)
    returns (excluded: map<Reason, nat>, groups: map<Identity, seq<Item>>, order: seq<Identity>)
    ensures AllPositive(excluded)
    ensures forall reason :: Counted(excluded, reason) == |L.Keep(inputs, HasReason(symbol, asOf, zone, reason))|
    ensures Grouped(groups, order, Candidates(inputs, symbol, asOf, zone))
  {
    excluded, groups, order := map[], map[], [];
    for n := 0 to |inputs|
      invariant AllPositive(excluded)
      invariant forall reason ::
        Counted(excluded, reason) == |L.Keep(inputs[..n], HasReason(symbol, asOf, zone, reason))|
      invariant Grouped(groups, order, Candidates(inputs[..n], symbol, asOf, zone))
    {
      assert inputs[..n + 1][..n] == inputs[..n];
      var reason := OwnReason(inputs[n], symbol, asOf, zone);
      if reason.Some? {
        excluded := Add(excluded, reason.value, 1);
      } else {
        var x := inputs[n].item;
        GroupedOneMore(groups, order, Candidates(inputs[..n], symbol, asOf, zone), x);
        if x.identity !in groups {
          order := order + [x.identity];
        }
        groups := WithRecord(groups, x);
      }
    }
    assert inputs[..|inputs|] == inputs;
  }

  // ----------------------------------------------------------------- the second loop

  predicate AllAgree(records: seq<Item>) {
    forall x <- records :: Content(x) == Content(records[0])
  }

  /** The first record with the least observation time. */
  function Earliest(records: seq<Item>): Item
    requires records != []
  {
    var n := |records| - 1;
    if n == 0 then records[0]
    else
      var best := Earliest(records[..n]);
      if records[n].observedAt < best.observedAt then records[n] else best
  }

  lemma {:induction false} EarliestMeaning(records: seq<Item>)
    requires records != []
    ensures Earliest(records) in records && forall x <- records :: Earliest(records).observedAt <= x.observedAt
  {
    var n := |records| - 1;
    if n > 0 {
      EarliestMeaning(records[..n]);
      assert records == records[..n] + [records[n]];
    }
  }

  function Among(done: seq<Identity>): Item -> bool {
    (x: Item) => x.identity in done
  }

  ghost function ConflictedAmong(all: seq<Item>, done: seq<Identity>): Item -> bool {
    (x: Item) => x.identity in done && Conflicted(all, x)
  }

  lemma InGroup(all: seq<Item>, id: Identity, x: Item)
    ensures x in L.Keep(all, OfIdentity(id)) <==> x in all && x.identity == id
  {
    L.KeepMembers(all, OfIdentity(id), x);
  }

  /** A group whose records disagree is excluded as a whole. */
  lemma ConflictingGroup(all: seq<Item>, id: Identity, x: Item)
    requires !AllAgree(L.Keep(all, OfIdentity(id))) && x in all && x.identity == id
    ensures Conflicted(all, x) && !Kept(all, x)
  {
    var g := L.Keep(all, OfIdentity(id));
    var y :| y in g && Content(y) != Content(g[0]);
    InGroup(all, id, y);
    InGroup(all, id, g[0]);
    assert g[0] in g;
    assert Content(y) != Content(x) || Content(g[0]) != Content(x);
  }

  /** A group whose records agree keeps exactly its earliest one. */
  lemma AgreeingGroup(all: seq<Item>, id: Identity, x: Item)
    requires L.Keep(all, OfIdentity(id)) != [] && AllAgree(L.Keep(all, OfIdentity(id))) && x in all && x.identity == id
    ensures !Conflicted(all, x) && (Kept(all, x) <==> x == Earliest(L.Keep(all, OfIdentity(id))))
  {
    var g := L.Keep(all, OfIdentity(id));
    EarliestMeaning(g);
    forall y: Item ensures y in g <==> y in all && y.identity == id { InGroup(all, id, y); }
    var e := Earliest(g);
    assert Content(x) == Content(e) == Content(g[0]);
    if Kept(all, x) { assert x.observedAt <= e.observedAt; }
  }

  /** What the second loop has settled once the identities of `done` are dealt with. */
  ghost predicate Settled(items: seq<Item>, conflicts: nat, duplicates: nat, all: seq<Item>, done: seq<Identity>) {
    && (forall x :: x in items <==> Kept(all, x) && x.identity in done)
    && (forall i, j :: 0 <= i < j < |items| ==> items[i].identity != items[j].identity)
    && conflicts == |L.Keep(all, ConflictedAmong(all, done))|
    && |items| + duplicates + conflicts == |L.Keep(all, Among(done))|
  }

  /** Counts split over one more identity. */
  lemma CountsSplit(all: seq<Item>, done: seq<Identity>, id: Identity)
    requires id !in done
    ensures |L.Keep(all, Among(done + [id]))| == |L.Keep(all, Among(done))| + |L.Keep(all, OfIdentity(id))|
    ensures |L.Keep(all, ConflictedAmong(all, done + [id]))| ==
      |L.Keep(all, ConflictedAmong(all, done))| + |L.Keep(all, ConflictedAmong(all, [id]))|
  {
    L.KeepSplits(all, Among(done), OfIdentity(id), Among(done + [id]));
    L.KeepSplits(all, ConflictedAmong(all, done), ConflictedAmong(all, [id]), ConflictedAmong(all, done + [id]));
  }

  lemma ConflictsOfGroup(all: seq<Item>, id: Identity)
    requires L.Keep(all, OfIdentity(id)) != []
    ensures var g := L.Keep(all, OfIdentity(id));
      |L.Keep(all, ConflictedAmong(all, [id]))| == if AllAgree(g) then 0 else |g|
  {
    var g := L.Keep(all, OfIdentity(id));
    if AllAgree(g) {
      forall x | x in all && x.identity == id ensures !Conflicted(all, x) { AgreeingGroup(all, id, x); }
      L.KeepSame(all, ConflictedAmong(all, [id]), (x: Item) => false);
      L.NothingKept(all);
    } else {
      forall x | x in all && x.identity == id ensures Conflicted(all, x) { ConflictingGroup(all, id, x); }
      L.KeepSame(all, ConflictedAmong(all, [id]), OfIdentity(id));
    }
  }

  lemma SettleConflict(items: seq<Item>, conflicts: nat, duplicates: nat, all: seq<Item>, done: seq<Identity>,
                       id: Identity)
    requires Settled(items, conflicts, duplicates, all, done) && id !in done
    requires L.Keep(all, OfIdentity(id)) != [] && !AllAgree(L.Keep(all, OfIdentity(id)))
    ensures Settled(items, conflicts + |L.Keep(all, OfIdentity(id))|, duplicates, all, done + [id])
  {
    CountsSplit(all, done, id);
    ConflictsOfGroup(all, id);
    forall x | Kept(all, x) ensures x.identity != id {
      if x.identity == id { ConflictingGroup(all, id, x); }
    }
  }

  lemma SettleAgreement(items: seq<Item>, conflicts: nat, duplicates: nat, all: seq<Item>, done: seq<Identity>,
                        id: Identity)
    requires Settled(items, conflicts, duplicates, all, done) && id !in done
    requires L.Keep(all, OfIdentity(id)) != [] && AllAgree(L.Keep(all, OfIdentity(id)))
    ensures var g := L.Keep(all, OfIdentity(id));
      Settled(items + [Earliest(g)], conflicts, duplicates + |g| - 1, all, done + [id])
  {
    var g := L.Keep(all, OfIdentity(id));
    var e := Earliest(g);
    CountsSplit(all, done, id);
    ConflictsOfGroup(all, id);
    EarliestMeaning(g);
    InGroup(all, id, e);
    forall x | x in all && x.identity == id ensures Kept(all, x) <==> x == e { AgreeingGroup(all, id, x); }
    forall i | 0 <= i < |items| ensures items[i].identity != id { assert items[i] in items; }
  }

  lemma SettleGroup(items: seq<Item>, conflicts: nat, duplicates: nat, all: seq<Item>, done: seq<Identity>,
                    id: Identity, records: seq<Item>)
    requires Settled(items, conflicts, duplicates, all, done) && id !in done
    requires records == L.Keep(all, OfIdentity(id)) && records != []
    ensures if AllAgree(records)
      then Settled(items + [Earliest(records)], conflicts, duplicates + |records| - 1, all, done + [id])
      else Settled(items, conflicts + |records|, duplicates, all, done + [id])
  {
    if AllAgree(records) {
      SettleAgreement(items, conflicts, duplicates, all, done, id);
    } else {
      SettleConflict(items, conflicts, duplicates, all, done, id);
    }
  }

  /** One group: its earliest record if all agree, otherwise nothing but a count. */
  method SettleNext(items: seq<Item>, conflicts: nat, duplicates: nat, ghost all: seq<Item>, ghost done: seq<Identity>,
                    ghost id: Identity, records: seq<Item>)
    returns (items': seq<Item>, conflicts': nat, duplicates': nat)
    requires Settled(items, conflicts, duplicates, all, done) && id !in done
    requires records == L.Keep(all, OfIdentity(id)) && records != []
    ensures Settled(items', conflicts', duplicates', all, done + [id])
  {
    items', conflicts', duplicates' := items, conflicts, duplicates;
    SettleGroup(items, conflicts, duplicates, all, done, id, records);
    if !AllAgree(records) {
      conflicts' := conflicts + |records|;
    } else {
      items' := items + [Earliest(records)];
      duplicates' := duplicates + |records| - 1;
    }
  }

  lemma NextGroup(groups: map<Identity, seq<Item>>, order: seq<Identity>, all: seq<Item>, k: nat)
    requires Grouped(groups, order, all) && k < |order|
    ensures order[k] in groups && groups[order[k]] == L.Keep(all, OfIdentity(order[k])) && groups[order[k]] != []
    ensures order[..k + 1] == order[..k] + [order[k]] && order[k] !in order[..k]
  {
    assert order[k] in order;
  }

  lemma NothingSettled(all: seq<Item>)
    ensures Settled([], 0, 0, all, [])
  {
    L.KeepSame(all, ConflictedAmong(all, []), (x: Item) => false);
    L.KeepSame(all, Among([]), (x: Item) => false);
    L.NothingKept(all);
  }

  method Settle(groups: map<Identity, seq<Item>>, order: seq<Identity>, ghost all: seq<Item>)
    returns (items: seq<Item>, conflicts: nat, duplicates: nat)
    requires Grouped(groups, order, all)
    ensures Settled(items, conflicts, duplicates, all, order)
  {
    items, conflicts, duplicates := [], 0, 0;
    NothingSettled(all);
    for k := 0 to |order|
      invariant Settled(items, conflicts, duplicates, all, order[..k])
    {
      NextGroup(groups, order, all, k);
      items, conflicts, duplicates :=
        SettleNext(items, conflicts, duplicates, all, order[..k], order[k], groups[order[k]]);
    }
    assert order[..|order|] == order;
  }

  // ----------------------------------------------------------------- the section

  lemma SettledAll(items: seq<Item>, conflicts: nat, duplicates: nat, all: seq<Item>, order: seq<Identity>)
    requires Settled(items, conflicts, duplicates, all, order) && forall x <- all :: x.identity in order
    ensures forall x :: x in items <==> Kept(all, x)
    ensures conflicts == Conflicts(all) && duplicates == |all| - Conflicts(all) - |items|
  {
    L.KeepSame(all, ConflictedAmong(all, order), ConflictedIn(all));
    L.KeepSame(all, Among(order), (x: Item) => true);
    L.EverythingKept(all);
  }

  lemma SortedItems(items: seq<Item>, zone: Zone)
    requires forall i, j :: 0 <= i < j < |items| ==> items[i].identity != items[j].identity
    ensures var sorted := S.Sort(items, InOrder(zone));
      && L.Chain(sorted, Before(zone)) && |sorted| == |items| && (forall x :: x in sorted <==> x in items)
  {
    var le := InOrder(zone);
    var sorted := S.Sort(items, le);
    SortOrderIsTotal(zone);
    S.SortPermutes(items, le);
    S.SortSorted(items, le);
    S.DistinctPermutes(items, sorted);
    forall x ensures x in sorted <==> x in items { S.SameElements(sorted, items, x); }
    forall i, j | 0 <= i < j < |sorted| ensures Precedes(zone, sorted[i], sorted[j]) {
      assert sorted[i] in sorted && sorted[j] in sorted && le(sorted[i], sorted[j]) && sorted[i] != sorted[j];
      NamesAreOrdered(sorted[i], sorted[j]);
    }
  }

  function AddPositive(excluded: map<Reason, nat>, reason: Reason, n: nat): map<Reason, nat> {
    if n > 0 then Add(excluded, reason, n) else excluded
  }

  /** `_news_section`, for a collection that succeeded. */
  method NewsSection(inputs: seq<Input>, symbol: string, asOf: int, zone: Zone) returns (news: News)
    ensures IsNews(news, inputs, symbol, asOf, zone)
  {
    var excluded, groups, order := Sift(inputs, symbol, asOf, zone);
    ghost var all := Candidates(inputs, symbol, asOf, zone);
    var items, conflicts, duplicates := Settle(groups, order, all);
    SettledAll(items, conflicts, duplicates, all, order);
    SortedItems(items, zone);
    ghost var sifted := excluded;
    items := S.Sort(items, InOrder(zone));
    excluded := AddPositive(AddPositive(excluded, IdentityConflict, conflicts), DuplicateIdentical, duplicates);
    news := News(if items == [] then AvailableEmpty else Available, items, excluded);
    CountsAreExpected(sifted, inputs, symbol, asOf, zone, conflicts, duplicates, |items|);
  }

  datatype Collection = Collection(succeeded: bool, inputs: seq<Input>)

  /** The section for any collection: one that was not supplied or did not succeed contributes nothing. */
  method NewsOf(collection: Option<Collection>, symbol: string, asOf: int, zone: Zone) returns (news: News)
    ensures collection.None? ==> news == News(Unavailable("not_supplied"), [], map[])
    ensures collection.Some? && !collection.value.succeeded ==> news == News(Unavailable("source_error"), [], map[])
    ensures collection.Some? && collection.value.succeeded ==> IsNews(news, collection.value.inputs, symbol, asOf, zone)
  {
    if collection.None? {
      return News(Unavailable("not_supplied"), [], map[]);
    }
    if !collection.value.succeeded {
      return News(Unavailable("source_error"), [], map[]);
    }
    news := NewsSection(collection.value.inputs, symbol, asOf, zone);
  }

  lemma CountsAreExpected(sifted: map<Reason, nat>, inputs: seq<Input>, symbol: string, asOf: int, zone: Zone,
                          conflicts: nat, duplicates: nat, kept: nat)
    requires AllPositive(sifted)
    requires forall reason :: Counted(sifted, reason) == |L.Keep(inputs, HasReason(symbol, asOf, zone, reason))|
    requires var all := Candidates(inputs, symbol, asOf, zone);
      conflicts == Conflicts(all) && duplicates == |all| - Conflicts(all) - kept
    ensures var excluded :=
      AddPositive(AddPositive(sifted, IdentityConflict, conflicts), DuplicateIdentical, duplicates);
      && AllPositive(excluded)
      && forall reason :: Counted(excluded, reason) == Expected(inputs, symbol, asOf, zone, reason, kept)
  {
  }

  // ----------------------------------------------------------------- the main results

  lemma {:induction false} CandidateCounts(inputs: seq<Input>, symbol: string, asOf: int, zone: Zone, x: Item)
    ensures multiset(Candidates(inputs, symbol, asOf, zone))[x] ==
      if OwnReason(Adapted(x), symbol, asOf, zone).None? then multiset(inputs)[Adapted(x)] else 0
  {
    if inputs != [] {
      CandidateCounts(inputs[..|inputs| - 1], symbol, asOf, zone, x);
      assert inputs == inputs[..|inputs| - 1] + [inputs[|inputs| - 1]];
    }
  }

  lemma CandidatesPermute(xs: seq<Input>, ys: seq<Input>, symbol: string, asOf: int, zone: Zone)
    requires multiset(xs) == multiset(ys)
    ensures multiset(Candidates(xs, symbol, asOf, zone)) == multiset(Candidates(ys, symbol, asOf, zone))
  {
    forall x: Item
      ensures multiset(Candidates(xs, symbol, asOf, zone))[x] == multiset(Candidates(ys, symbol, asOf, zone))[x]
    {
      CandidateCounts(xs, symbol, asOf, zone, x);
      CandidateCounts(ys, symbol, asOf, zone, x);
    }
  }

  lemma DefinitionPermutes(all: seq<Item>, other: seq<Item>)
    requires multiset(all) == multiset(other)
    ensures |all| == |other| && Conflicts(all) == Conflicts(other)
    ensures forall x :: Kept(all, x) <==> Kept(other, x)
  {
    forall x: Item ensures x in all <==> x in other { S.SameElements(all, other, x); }
    assert |multiset(all)| == |multiset(other)|;
    L.KeepSame(all, ConflictedIn(all), ConflictedIn(other));
    L.KeepPermutes(all, other, ConflictedIn(other));
  }

  lemma SameCounts(a: map<Reason, nat>, b: map<Reason, nat>)
    requires AllPositive(a) && AllPositive(b) && forall reason :: Counted(a, reason) == Counted(b, reason)
    ensures a == b
  {
    forall reason ensures reason in a <==> reason in b {
      assert Counted(a, reason) == Counted(b, reason);
    }
    forall reason | reason in a ensures a[reason] == b[reason] {
      assert Counted(a, reason) == Counted(b, reason);
    }
  }

  /** Order independence: permuting the inputs changes neither the items nor the exclusions, hence not the packet. */
  lemma InputOrderIsForgotten(a: News, b: News, xs: seq<Input>, ys: seq<Input>, symbol: string, asOf: int, zone: Zone)
    requires IsNews(a, xs, symbol, asOf, zone) && IsNews(b, ys, symbol, asOf, zone) && multiset(xs) == multiset(ys)
    ensures a == b
  {
    var all, other := Candidates(xs, symbol, asOf, zone), Candidates(ys, symbol, asOf, zone);
    CandidatesPermute(xs, ys, symbol, asOf, zone);
    DefinitionPermutes(all, other);
    BeforeIsStrict(zone);
    L.ChainUnique(a.items, b.items, Before(zone));
    forall reason ensures Counted(a.excluded, reason) == Counted(b.excluded, reason) {
      L.KeepPermutes(xs, ys, HasReason(symbol, asOf, zone, reason));
    }
    SameCounts(a.excluded, b.excluded);
  }

  function Total(counts: Reason -> int): int {
    counts(UnsupportedFamily) + counts(NearDuplicateSuppressed) + counts(InvalidEvent) + counts(SymbolMismatch) +
    counts(UnknownPublicationTime) + counts(AfterAsOf) + counts(ObservedAfterAsOf) + counts(DuplicateIdentical) +
    counts(IdentityConflict)
  }

  function Rank(reason: Reason): nat {
    match reason
    case UnsupportedFamily => 0
    case NearDuplicateSuppressed => 1
    case InvalidEvent => 2
    case SymbolMismatch => 3
    case UnknownPublicationTime => 4
    case AfterAsOf => 5
    case ObservedAfterAsOf => 6
    case DuplicateIdentical => 7
    case IdentityConflict => 8
  }

  function RankBelow(symbol: string, asOf: int, zone: Zone, k: nat): Input -> bool {
    (input: Input) => var r := OwnReason(input, symbol, asOf, zone); r.Some? && Rank(r.value) < k
  }

  /** Every input has one reason of its own or is a candidate. */
  lemma {:induction false} ExcludedOrCandidate(inputs: seq<Input>, symbol: string, asOf: int, zone: Zone)
    ensures |L.Keep(inputs, RankBelow(symbol, asOf, zone, 9))| + |Candidates(inputs, symbol, asOf, zone)| == |inputs|
  {
    if inputs != [] { ExcludedOrCandidate(inputs[..|inputs| - 1], symbol, asOf, zone); }
  }

  lemma OwnReasonsAddUp(inputs: seq<Input>, symbol: string, asOf: int, zone: Zone)
    ensures Total(r => |L.Keep(inputs, HasReason(symbol, asOf, zone, r))|) + |Candidates(inputs, symbol, asOf, zone)| ==
      |inputs|
  {
    ExcludedOrCandidate(inputs, symbol, asOf, zone);
  }

  /** Conservation: every input is either kept or counted under exactly one reason. */
  lemma NothingIsLost(news: News, inputs: seq<Input>, symbol: string, asOf: int, zone: Zone)
    requires IsNews(news, inputs, symbol, asOf, zone)
    ensures |news.items| + Total(r => Counted(news.excluded, r)) == |inputs|
  {
    OwnReasonsAddUp(inputs, symbol, asOf, zone);
  }

  lemma {:induction false} CandidatesPass(inputs: seq<Input>, symbol: string, asOf: int, zone: Zone, x: Item)
    requires x in Candidates(inputs, symbol, asOf, zone)
    ensures Adapted(x) in inputs && OwnReason(Adapted(x), symbol, asOf, zone).None?
  {
    var n := |inputs| - 1;
    if x in Candidates(inputs[..n], symbol, asOf, zone) { CandidatesPass(inputs[..n], symbol, asOf, zone, x); }
    assert inputs == inputs[..n] + [inputs[n]];
  }

  /** Kept identities are unique, each kept item was an input about the symbol, and nothing kept is later than the
      cutoff: not its observation, not its publication instant, and for a date-only publication no instant of that date.
      */
  lemma KeptItemsAreSound(news: News, inputs: seq<Input>, symbol: string, asOf: int, zone: Zone, i: nat)
    requires IsNews(news, inputs, symbol, asOf, zone) && Monotone(zone) && i < |news.items|
    ensures var x := news.items[i];
      && Adapted(x) in inputs && symbol in x.symbols && x.observedAt <= asOf
      && (x.precision in {Second, Minute} ==> x.publishedAt.Some? && x.publishedAt.value <= asOf)
      && (x.precision == Date ==>
            x.publicationDate.Some? && forall t :: zone.dayOf(t) == x.publicationDate.value ==> t < asOf)
    ensures forall j :: 0 <= j < |news.items| && j != i ==> news.items[j].identity != news.items[i].identity
  {
    var x := news.items[i];
    var all := Candidates(inputs, symbol, asOf, zone);
    assert x in news.items;
    CandidatesPass(inputs, symbol, asOf, zone, x);
    BeforeIsStrict(zone);
    forall j | 0 <= j < |news.items| && j != i ensures news.items[j].identity != x.identity {
      var y := news.items[j];
      assert y in news.items && Kept(all, y) && Kept(all, x);
    }
  }

  // ----------------------------------------------------------------- the technical section

  datatype Row = Missing | Rejected(reason: Reason) | Evidence(barEnd: int)

  datatype Timeframe = Present(barEnd: int) | NotSupplied | Absent(reason: Reason)

  /** All, some or none of the intervals are present. */
  datatype Coverage = Complete | Partial | Nothing

  datatype Technical = Technical(coverage: Coverage, timeframes: seq<Timeframe>)

  const INTERVAL_COUNT := 3

  /** One interval: its evidence, unless it is missing, rejected, or ends after the cutoff. */
  function Checked(row: Row, asOf: int): Timeframe {
    match row
    case Missing => NotSupplied
    case Rejected(reason) => Absent(reason)
    case Evidence(barEnd) => if barEnd > asOf then Absent(AfterAsOf) else Present(barEnd)
  }

  /** What a timeframe says of its row. */
  predicate Reports(row: Row, asOf: int, t: Timeframe) {
    && (t == NotSupplied <==> row == Missing)
    && (t.Present? <==> row.Evidence? && row.barEnd <= asOf) && (t.Present? ==> t.barEnd == row.barEnd)
    && (forall reason :: t == Absent(reason) <==>
          row == Rejected(reason) || (row.Evidence? && row.barEnd > asOf && reason == AfterAsOf))
  }

  /** `_technical_section`: one timeframe per interval, in their order, each present one no later than the cutoff. */
  method TechnicalSection(rows: Option<seq<Row>>, asOf: int) returns (r: Technical)
    requires rows.Some? ==> |rows.value| == INTERVAL_COUNT
    ensures |r.timeframes| == 3
    ensures forall k :: 0 <= k < 3 ==>
      if rows.None? then r.timeframes[k] == NotSupplied else Reports(rows.value[k], asOf, r.timeframes[k])
    ensures r.coverage == Complete <==> forall t <- r.timeframes :: t.Present?
    ensures r.coverage == Nothing <==> forall t <- r.timeframes :: !t.Present?
  {
    if rows.None? {
      r := Technical(Nothing, [NotSupplied, NotSupplied, NotSupplied]);
      assert r.timeframes[0] == NotSupplied && r.timeframes[0] in r.timeframes;
      return;
    }
    var timeframes := [];
    var missing := 0;
    for n := 0 to INTERVAL_COUNT
      invariant |timeframes| == n && 0 <= missing <= n
      invariant forall k :: 0 <= k < n ==> Reports(rows.value[k], asOf, timeframes[k])
      invariant missing == 0 <==> forall t <- timeframes :: t.Present?
      invariant missing == n <==> forall t <- timeframes :: !t.Present?
    {
      var t := Checked(rows.value[n], asOf);
      assert Reports(rows.value[n], asOf, t);
      assert forall x :: x in timeframes + [t] <==> x in timeframes || x == t;
      timeframes := timeframes + [t];
      if !t.Present? {
        missing := missing + 1;
      }
    }
    var present := INTERVAL_COUNT - missing;
    r := Technical(if missing == 0 then Complete else if present > 0 then Partial else Nothing, timeframes);
  }
}
