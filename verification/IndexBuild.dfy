/** Building the index from the store's directories, and the holder that swaps complete snapshots
    (artifact_store/index.py:114-163 and 261-267, artifact_store/service.py). A directory listing and each file read are
    separate steps, so files may appear while a build is under way. */
module IndexBuild {
  import opened Results
  import opened ArtifactIndex
  import L = Lists
  import S = Sorting
  import P = ArtifactPublish

  datatype BuildError = UnexpectedFile | Vanished | InvalidArtifact | WrongName | NotCanonical | DuplicateId

  /** The domain validator of a kind, and the content id as a number. */
  datatype Codec = Codec(parse: (P.Kind, P.Bytes) -> Option<P.Artifact>, digest: P.Artifact -> nat)

  type Reader = P.Name -> Option<P.Bytes>

  const KINDS := [P.MarketIntelligence, P.OptionsIntelligence, P.TradeSetup, P.InvalidationCheck, P.AlertKind]

  function EntryOf(kind: P.Kind, a: P.Artifact, codec: Codec): Entry {
    Entry(kind, codec.digest(a), a.symbol, a.instant)
  }

  // ----------------------------------------------------------------- reading one directory

  /** One name of a kind directory: skipped, an entry, or the failure of the whole build. */
  function ReadEntry(kind: P.Kind, name: P.Name, read: Reader, codec: Codec): Result<Option<Entry>, BuildError> {
    match name
    case TempName(_, _) => Ok(None)
    case ForeignName(_, _) => Err(UnexpectedFile)
    case ArtifactName(_, id) =>
      match read(name)
      case None => Err(Vanished)
      case Some(raw) =>
        match codec.parse(kind, raw)
        case None => Err(InvalidArtifact)
        case Some(a) =>
          if codec.digest(a) != codec.digest(id.body) then Err(WrongName)
          else if raw != a.canonical then Err(NotCanonical)
          else Ok(Some(EntryOf(kind, a, codec)))
  }

  /** A name is skipped exactly if it is a leftover temporary file. It gives an entry exactly if its file is there and
      holds an artifact of the kind, whose content id is the name's, in its canonical form; otherwise the error says
      which of these fails first. */
  lemma ReadEntryMeaning(kind: P.Kind, name: P.Name, read: Reader, codec: Codec)
    ensures var r := ReadEntry(kind, name, read, codec);
      var raw := read(name);
      var a := if raw.Some? then codec.parse(kind, raw.value) else None;
      var own := name.ArtifactName? && a.Some? && codec.digest(a.value) == codec.digest(name.id.body);
      && (r == Ok(None) <==> name.TempName?)
      && (forall e: Entry :: r == Ok(Some(e)) <==>
            own && raw.value == a.value.canonical
            && e.kind == kind && e.id == codec.digest(a.value) && e.symbol == a.value.symbol
            && e.instant == a.value.instant)
      && (r == Err(UnexpectedFile) <==> name.ForeignName?)
      && (r == Err(Vanished) <==> name.ArtifactName? && raw.None?)
      && (r == Err(InvalidArtifact) <==> name.ArtifactName? && raw.Some? && a.None?)
      && (r == Err(WrongName) <==> name.ArtifactName? && a.Some? && !own)
      && (r == Err(NotCanonical) <==> own && raw.value != a.value.canonical)
  {
  }

  function Append(entries: seq<Entry>, e: Option<Entry>): seq<Entry> {
    if e.Some? then entries + [e.value] else entries
  }

  function ReadAll(kind: P.Kind, names: seq<P.Name>, read: Reader, codec: Codec): Result<seq<Entry>, BuildError> {
    if names == [] then Ok([])
    else
      match ReadAll(kind, names[..|names| - 1], read, codec)
      case Err(error) => Err(error)
      case Ok(entries) =>
        match ReadEntry(kind, names[|names| - 1], read, codec)
        case Err(error) => Err(error)
        case Ok(e) => Ok(Append(entries, e))
  }

  lemma {:induction false} FirstFailure(kind: P.Kind, names: seq<P.Name>, n: nat, read: Reader, codec: Codec)
    requires n <= |names| && ReadAll(kind, names[..n], read, codec).Err?
    ensures ReadAll(kind, names, read, codec) == ReadAll(kind, names[..n], read, codec)
  {
    if n == |names| {
      assert names[..n] == names;
    } else {
      assert names[..|names| - 1][..n] == names[..n];
      FirstFailure(kind, names[..|names| - 1], n, read, codec);
    }
  }

  /** `_entries`: the first bad name fails the build. */
  method Entries(kind: P.Kind, names: seq<P.Name>, read: Reader, codec: Codec)
    returns (r: Result<seq<Entry>, BuildError>)
    ensures r == ReadAll(kind, names, read, codec)
  {
    var entries := [];
    for n := 0 to |names|
      invariant ReadAll(kind, names[..n], read, codec) == Ok(entries)
    {
      assert names[..n + 1][..n] == names[..n];
      var e := ReadEntry(kind, names[n], read, codec);
      if e.Err? {
        FirstFailure(kind, names, n + 1, read, codec);
        return Err(e.error);
      }
      entries := Append(entries, e.value);
    }
    assert names[..|names|] == names;
    return Ok(entries);
  }

  /** A directory is readable exactly when each of its names is; then its entries are those of its artifact files. */
  lemma {:induction false} ReadAllMeaning(kind: P.Kind, names: seq<P.Name>, read: Reader, codec: Codec)
    ensures ReadAll(kind, names, read, codec).Ok? <==> forall n <- names :: ReadEntry(kind, n, read, codec).Ok?
    ensures ReadAll(kind, names, read, codec).Ok? ==>
      forall e :: e in ReadAll(kind, names, read, codec).value <==>
        exists n :: n in names && ReadEntry(kind, n, read, codec) == Ok(Some(e))
  {
    if names != [] {
      var h, last := names[..|names| - 1], names[|names| - 1];
      ReadAllMeaning(kind, h, read, codec);
      assert names == h + [last];
    }
  }

  // ----------------------------------------------------------------- the snapshot

  /** Built once, never modified. */
  datatype Index = Index(
    byId: map<(P.Kind, nat), Entry>,
    ordered: map<P.Kind, seq<Entry>>,
    bySymbol: map<(P.Kind, string), seq<Entry>>,
    prior: map<(P.Kind, nat), Prior>)

  /** The kinds whose reports are compared with the one before. */
  predicate Summarized(kind: P.Kind) {
    kind == P.OptionsIntelligence
  }

  function ListAt<K>(m: map<K, seq<Entry>>, key: K): seq<Entry> {
    if key in m then m[key] else []
  }

  ghost predicate DistinctIds(entries: seq<Entry>) {
    forall i, j :: 0 <= i < j < |entries| ==> entries[i].id != entries[j].id
  }

  /** `ordered` lists exactly the wanted entries in query order. */
  ghost predicate Lists(ordered: seq<Entry>, entries: seq<Entry>, wanted: Entry -> bool) {
    Ordered(ordered) && forall e :: e in ordered <==> e in entries && wanted(e)
  }

  function OfKind(kind: P.Kind): Entry -> bool {
    (e: Entry) => e.kind == kind
  }

  function OfSymbol(kind: P.Kind, symbol: string): Entry -> bool {
    (e: Entry) => e.kind == kind && e.symbol == symbol
  }

  /** The table names the report before `e` in its symbol's list. */
  ghost predicate Told(prior: map<(P.Kind, nat), Prior>, list: seq<Entry>, e: Entry) {
    (e.kind, e.id) in prior && TellsPrior(list, e.instant, prior[(e.kind, e.id)])
  }

  ghost predicate AllTold(prior: map<(P.Kind, nat), Prior>, bySymbol: map<(P.Kind, string), seq<Entry>>,
                          keys: set<(P.Kind, string)>) {
    forall key <- keys, e <- ListAt(bySymbol, key) :: Summarized(key.0) ==> Told(prior, ListAt(bySymbol, key), e)
  }

  /** Every view of the snapshot shows the same entries, and each report's prior one is that of its symbol's list. */
  ghost predicate IsIndexOf(ix: Index, entries: seq<Entry>) {
    && (forall kind :: Lists(ListAt(ix.ordered, kind), entries, OfKind(kind)))
    && (forall kind, symbol :: Lists(ListAt(ix.bySymbol, (kind, symbol)), entries, OfSymbol(kind, symbol)))
    && (forall kind, id, e :: Lookup(ix.byId, (kind, id)) == Some(e) <==> e in entries && e.kind == kind && e.id == id)
    && AllTold(ix.prior, ix.bySymbol, ix.bySymbol.Keys) && (forall key <- ix.prior :: Summarized(key.0))
  }

  predicate NotAfter(e: Entry, o: Entry) {
    !Precedes(o, e)
  }

  lemma {:induction false} KeptIdsAreDistinct(entries: seq<Entry>, wanted: Entry -> bool)
    requires DistinctIds(entries)
    ensures DistinctIds(L.Keep(entries, wanted))
  {
    L.KeepChain(entries, wanted, (e: Entry, o: Entry) => e.id != o.id);
  }

  lemma SortingOrders(entries: seq<Entry>, kind: P.Kind)
    requires DistinctIds(entries)
    ensures Lists(S.Sort(L.Keep(entries, OfKind(kind)), NotAfter), entries, OfKind(kind))
  {
    var kept := L.Keep(entries, OfKind(kind));
    var sorted := S.Sort(kept, NotAfter);
    KeptIdsAreDistinct(entries, OfKind(kind));
    S.SortPermutes(kept, NotAfter);
    S.SortSorted(kept, NotAfter);
    PermutedIdsAreDistinct(kept, sorted);
    forall e ensures e in sorted <==> e in entries && OfKind(kind)(e) {
      S.SameElements(sorted, kept, e);
      L.KeepMembers(entries, OfKind(kind), e);
    }
    DistinctSortedIsOrdered(sorted);
  }

  /** Sorted entries with different ids are in strict order. */
  lemma DistinctSortedIsOrdered(sorted: seq<Entry>)
    requires S.Sorted(sorted, NotAfter) && DistinctIds(sorted)
    ensures Ordered(sorted)
  {
    forall i, j | 0 <= i < j < |sorted| ensures Precedes(sorted[i], sorted[j]) {
      assert NotAfter(sorted[i], sorted[j]) && sorted[i].id != sorted[j].id;
    }
  }

  lemma PermutedIdsAreDistinct(xs: seq<Entry>, ys: seq<Entry>)
    requires DistinctIds(xs) && multiset(xs) == multiset(ys)
    ensures DistinctIds(ys)
  {
    assert S.Distinct(xs);
    S.DistinctPermutes(xs, ys);
    forall i, j | 0 <= i < j < |ys| ensures ys[i].id != ys[j].id {
      assert ys[i] in ys && ys[j] in ys && ys[i] != ys[j];
      S.SameElements(xs, ys, ys[i]);
      S.SameElements(xs, ys, ys[j]);
      var a :| 0 <= a < |xs| && xs[a] == ys[i];
      var b :| 0 <= b < |xs| && xs[b] == ys[j];
      assert a < b || b < a;
    }
  }

  /** Ids seen, entries under their id, and entries by kind in their order of arrival. */
  ghost predicate Grouped(entries: seq<Entry>, seen: set<nat>, byId: map<(P.Kind, nat), Entry>,
                          byKind: map<P.Kind, seq<Entry>>) {
    && DistinctIds(entries)
    && (forall id :: id in seen <==> exists e :: e in entries && e.id == id)
    && (forall kind :: ListAt(byKind, kind) == L.Keep(entries, OfKind(kind)))
    && (forall kind, id, e :: Lookup(byId, (kind, id)) == Some(e) <==> e in entries && e.kind == kind && e.id == id)
  }

  lemma GroupedOneMore(entries: seq<Entry>, seen: set<nat>, byId: map<(P.Kind, nat), Entry>,
                       byKind: map<P.Kind, seq<Entry>>, entry: Entry)
    requires Grouped(entries, seen, byId, byKind) && entry.id !in seen
    ensures Grouped(entries + [entry], seen + {entry.id}, byId[(entry.kind, entry.id) := entry],
                    byKind[entry.kind := ListAt(byKind, entry.kind) + [entry]])
  {
    SeenOneMore(entries, seen, entry);
    ByKindOneMore(entries, byKind, entry);
    ByIdOneMore(entries, seen, byId, entry);
  }

  lemma ByKindOneMore(entries: seq<Entry>, byKind: map<P.Kind, seq<Entry>>, entry: Entry)
    requires forall kind :: ListAt(byKind, kind) == L.Keep(entries, OfKind(kind))
    ensures var later := byKind[entry.kind := ListAt(byKind, entry.kind) + [entry]];
      forall kind :: ListAt(later, kind) == L.Keep(entries + [entry], OfKind(kind))
  {
    var later := byKind[entry.kind := ListAt(byKind, entry.kind) + [entry]];
    forall kind: P.Kind ensures ListAt(later, kind) == L.Keep(entries + [entry], OfKind(kind)) {
      L.KeepOneMore(entries, entry, OfKind(kind));
    }
  }

  lemma ByIdOneMore(entries: seq<Entry>, seen: set<nat>, byId: map<(P.Kind, nat), Entry>, entry: Entry)
    requires forall id :: id in seen <==> exists e :: e in entries && e.id == id
    requires entry.id !in seen
    requires forall kind, id, e ::
      Lookup(byId, (kind, id)) == Some(e) <==> e in entries && e.kind == kind && e.id == id
    ensures var later := byId[(entry.kind, entry.id) := entry];
      forall kind, id, e ::
        Lookup(later, (kind, id)) == Some(e) <==> e in entries + [entry] && e.kind == kind && e.id == id
  {
    forall e ensures e in entries + [entry] <==> e in entries || e == entry {}
  }

  lemma SeenOneMore(entries: seq<Entry>, seen: set<nat>, entry: Entry)
    requires DistinctIds(entries) && entry.id !in seen
    requires forall id :: id in seen <==> exists e :: e in entries && e.id == id
    ensures DistinctIds(entries + [entry])
    ensures forall id :: id in seen + {entry.id} <==> exists e :: e in entries + [entry] && e.id == id
  {
    var more := entries + [entry];
    forall i | 0 <= i < |entries| ensures entries[i].id != entry.id { assert entries[i] in entries; }
    assert entry in more;
    forall id ensures id in seen + {entry.id} <==> exists e :: e in more && e.id == id {
      if e :| e in entries && e.id == id { assert e in more; }
    }
  }

  /** The first pass over the entries, which fails on a repeated id. */
  method Group(entries: seq<Entry>)
    returns (ok: bool, seen: set<nat>, byId: map<(P.Kind, nat), Entry>, byKind: map<P.Kind, seq<Entry>>)
    ensures if DistinctIds(entries) then ok && Grouped(entries, seen, byId, byKind) else !ok
  {
    seen, byId, byKind := {}, map[], map[];
    for n := 0 to |entries|
      invariant Grouped(entries[..n], seen, byId, byKind)
    {
      var entry := entries[n];
      if entry.id in seen {
        return false, seen, byId, byKind;
      }
      GroupedOneMore(entries[..n], seen, byId, byKind, entry);
      assert entries[..n + 1] == entries[..n] + [entry];
      seen := seen + {entry.id};
      byId := byId[(entry.kind, entry.id) := entry];
      byKind := byKind[entry.kind := ListAt(byKind, entry.kind) + [entry]];
    }
    assert entries[..|entries|] == entries;
    ok := true;
  }

  /** The symbol lists of one kind are appended to in query order. */
  method GroupBySymbol(kind: P.Kind, ordered: seq<Entry>, before: map<(P.Kind, string), seq<Entry>>)
    returns (m: map<(P.Kind, string), seq<Entry>>)
    requires forall e <- ordered :: e.kind == kind
    requires forall symbol :: (kind, symbol) !in before
    ensures forall symbol :: ListAt(m, (kind, symbol)) == L.Keep(ordered, OfSymbol(kind, symbol))
    ensures forall k, symbol :: k != kind ==> ListAt(m, (k, symbol)) == ListAt(before, (k, symbol))
    ensures forall k, symbol :: (k, symbol) in m ==> k == kind || (k, symbol) in before
  {
    m := before;
    for n := 0 to |ordered|
      invariant forall symbol :: ListAt(m, (kind, symbol)) == L.Keep(ordered[..n], OfSymbol(kind, symbol))
      invariant forall k, symbol :: k != kind ==> ListAt(m, (k, symbol)) == ListAt(before, (k, symbol))
      invariant forall k, symbol :: (k, symbol) in m ==> k == kind || (k, symbol) in before
    {
      assert ordered[..n + 1][..n] == ordered[..n];
      var key := (kind, ordered[n].symbol);
      m := m[key := ListAt(m, key) + [ordered[n]]];
    }
    assert ordered[..|ordered|] == ordered;
  }

  lemma SymbolLists(ordered: seq<Entry>, entries: seq<Entry>, kind: P.Kind, symbol: string)
    requires Lists(ordered, entries, OfKind(kind))
    ensures Lists(L.Keep(ordered, OfSymbol(kind, symbol)), entries, OfSymbol(kind, symbol))
  {
    L.KeepChain(ordered, OfSymbol(kind, symbol), Precedes);
    forall e ensures e in L.Keep(ordered, OfSymbol(kind, symbol)) <==> e in entries && OfSymbol(kind, symbol)(e) {
      L.KeepMembers(ordered, OfSymbol(kind, symbol), e);
    }
  }

  lemma EveryKind(kind: P.Kind)
    ensures kind in KINDS && |KINDS| == 5 && (exists n :: 0 <= n < 5 && KINDS[n] == kind)
    ensures forall i, j :: 0 <= i < j < 5 ==> KINDS[i] != KINDS[j]
  {
    assert KINDS[0].MarketIntelligence? && KINDS[1].OptionsIntelligence? && KINDS[2].TradeSetup?;
    assert KINDS[3].InvalidationCheck? && KINDS[4].AlertKind?;
  }

  /** What holds once the kinds of `done` are indexed. */
  ghost predicate Indexed(ordered: map<P.Kind, seq<Entry>>, bySymbol: map<(P.Kind, string), seq<Entry>>,
                          done: seq<P.Kind>,
                          entries: seq<Entry>) {
    && (forall kind <- done :: Lists(ListAt(ordered, kind), entries, OfKind(kind)))
    && (forall kind <- done, symbol ::
          Lists(ListAt(bySymbol, (kind, symbol)), entries, OfSymbol(kind, symbol)))
    && (forall kind, symbol :: (kind, symbol) in bySymbol ==> kind in done)
  }

  lemma IndexedOneMore(ordered: map<P.Kind, seq<Entry>>, bySymbol: map<(P.Kind, string), seq<Entry>>, done: seq<P.Kind>,
                       entries: seq<Entry>, kind: P.Kind, list: seq<Entry>, next: map<(P.Kind, string), seq<Entry>>)
    requires Indexed(ordered, bySymbol, done, entries) && kind !in done && Lists(list, entries, OfKind(kind))
    requires forall symbol :: ListAt(next, (kind, symbol)) == L.Keep(list, OfSymbol(kind, symbol))
    requires forall k, symbol :: k != kind ==> ListAt(next, (k, symbol)) == ListAt(bySymbol, (k, symbol))
    requires forall k, symbol :: (k, symbol) in next ==> k == kind || (k, symbol) in bySymbol
    ensures Indexed(ordered[kind := list], next, done + [kind], entries)
  {
    var later := ordered[kind := list];
    forall k | k in done + [kind] ensures Lists(ListAt(later, k), entries, OfKind(k)) {
      assert k != kind ==> ListAt(later, k) == ListAt(ordered, k);
    }
    forall k, symbol | k in done + [kind]
      ensures Lists(ListAt(next, (k, symbol)), entries, OfSymbol(k, symbol))
    {
      if k == kind { SymbolLists(list, entries, kind, symbol); }
    }
  }

  /** Each list holds entries of its own kind and symbol, and ids do not repeat within a kind. */
  ghost predicate Filed(bySymbol: map<(P.Kind, string), seq<Entry>>) {
    && (forall key <- bySymbol, e <- bySymbol[key] :: e.kind == key.0 && e.symbol == key.1)
    && (forall key <- bySymbol :: Ordered(bySymbol[key]))
    && (forall key <- bySymbol, other <- bySymbol, e <- bySymbol[key], o <- bySymbol[other] ::
          e.kind == o.kind && e.id == o.id ==> e == o)
  }

  lemma FiledLists(bySymbol: map<(P.Kind, string), seq<Entry>>, entries: seq<Entry>)
    requires DistinctIds(entries)
    requires forall kind, symbol :: Lists(ListAt(bySymbol, (kind, symbol)), entries, OfSymbol(kind, symbol))
    ensures Filed(bySymbol)
  {
    forall key | key in bySymbol
      ensures Lists(bySymbol[key], entries, OfSymbol(key.0, key.1))
    {
      assert key == (key.0, key.1);
      assert Lists(ListAt(bySymbol, (key.0, key.1)), entries, OfSymbol(key.0, key.1));
    }
    forall e, o | e in entries && o in entries && e.id == o.id ensures e == o {
      var i :| 0 <= i < |entries| && entries[i] == e;
      var j :| 0 <= j < |entries| && entries[j] == o;
    }
  }

  /** Telling one entry of a list not yet done leaves the lists that are done as they were. */
  lemma DoneStaysTold(bySymbol: map<(P.Kind, string), seq<Entry>>, key: (P.Kind, string), e: Entry, p: Prior,
                      prior: map<(P.Kind, nat), Prior>, done: set<(P.Kind, string)>)
    requires Filed(bySymbol) && key in bySymbol && key !in done && e in bySymbol[key] && AllTold(prior, bySymbol, done)
    ensures AllTold(prior[(e.kind, e.id) := p], bySymbol, done)
  {
    var next := prior[(e.kind, e.id) := p];
    forall other, o | other in done && o in ListAt(bySymbol, other) && Summarized(other.0)
      ensures Told(next, ListAt(bySymbol, other), o)
    {
      assert Told(prior, ListAt(bySymbol, other), o);
    }
  }

  /** And the earlier entries of its own list. */
  lemma ListStaysTold(list: seq<Entry>, i: nat, p: Prior, prior: map<(P.Kind, nat), Prior>)
    requires i < |list| && (forall e <- list, o <- list :: e.kind == o.kind && e.id == o.id ==> e == o) && Ordered(list)
    requires TellsPrior(list, list[i].instant, p) && forall k :: 0 <= k < i ==> Told(prior, list, list[k])
    ensures forall k :: 0 <= k <= i ==> Told(prior[(list[i].kind, list[i].id) := p], list, list[k])
  {
    forall k | 0 <= k < i ensures Told(prior[(list[i].kind, list[i].id) := p], list, list[k]) {
      assert list[k] in list && list[i] in list && Precedes(list[k], list[i]);
      assert Told(prior, list, list[k]);
    }
  }

  /** The reports of one symbol. */
  method PriorsOf(bySymbol: map<(P.Kind, string), seq<Entry>>, key: (P.Kind, string), before: map<(P.Kind, nat), Prior>,
                  ghost done: set<(P.Kind, string)>)
    returns (prior: map<(P.Kind, nat), Prior>)
    requires Filed(bySymbol) && key in bySymbol && done <= bySymbol.Keys && key !in done && Summarized(key.0)
    requires AllTold(before, bySymbol, done) && forall key <- before :: Summarized(key.0)
    ensures AllTold(prior, bySymbol, done) && forall key <- prior :: Summarized(key.0)
    ensures forall e <- bySymbol[key] :: Told(prior, bySymbol[key], e)
  {
    prior := before;
    var list := bySymbol[key];
    for i := 0 to |list|
      invariant AllTold(prior, bySymbol, done) && forall key <- prior :: Summarized(key.0)
      invariant forall k :: 0 <= k < i ==> Told(prior, list, list[k])
    {
      var p := Previous(list, i);
      assert list[i] in list;
      DoneStaysTold(bySymbol, key, list[i], p, prior, done);
      ListStaysTold(list, i, p, prior);
      prior := prior[(list[i].kind, list[i].id) := p];
    }
  }

  /** The table of prior reports, symbol by symbol. */
  method PriorReports(bySymbol: map<(P.Kind, string), seq<Entry>>) returns (prior: map<(P.Kind, nat), Prior>)
    requires Filed(bySymbol)
    ensures AllTold(prior, bySymbol, bySymbol.Keys) && forall key <- prior :: Summarized(key.0)
  {
    prior := map[];
    var left := bySymbol.Keys;
    while left != {}
      invariant left <= bySymbol.Keys && AllTold(prior, bySymbol, bySymbol.Keys - left)
      invariant forall key <- prior :: Summarized(key.0)
    {
      var key :| key in left;
      ghost var done := bySymbol.Keys - left;
      if Summarized(key.0) {
        prior := PriorsOf(bySymbol, key, prior, done);
      }
      left := left - {key};
      assert bySymbol.Keys - left == done + {key};
    }
    assert bySymbol.Keys - {} == bySymbol.Keys;
  }

  /** `prior`: a report's entry of the table. */
  function PriorReport(ix: Index, e: Entry): Prior {
    match Lookup(ix.prior, (e.kind, e.id)) case Some(p) => p case None => NoPrior
  }

  /** The prior report by set definition: among the indexed reports of the same kind and symbol, the only latest one
      strictly before the given one, none, or a tie. */
  lemma PriorReportMeaning(ix: Index, entries: seq<Entry>, e: Entry)
    requires IsIndexOf(ix, entries) && e in entries && Summarized(e.kind)
    ensures TellsPrior(ListAt(ix.bySymbol, (e.kind, e.symbol)), e.instant, PriorReport(ix, e))
    ensures forall o :: o in ListAt(ix.bySymbol, (e.kind, e.symbol)) <==>
      o in entries && o.kind == e.kind && o.symbol == e.symbol
  {
    var key := (e.kind, e.symbol);
    assert Lists(ListAt(ix.bySymbol, key), entries, OfSymbol(e.kind, e.symbol));
    assert OfSymbol(e.kind, e.symbol)(e);
    assert key in ix.bySymbol && Told(ix.prior, ListAt(ix.bySymbol, key), e);
  }

  ghost predicate NewestFirst(list: seq<Entry>) {
    forall i, j :: 0 <= i < j < |list| ==> Newer(list[i], list[j])
  }

  /** What the snapshot shows: every list newest first, with exactly the entries of its kind and symbol; a prior report
      for the options reports, and for no other kind. */
  lemma IndexSays(ix: Index, entries: seq<Entry>)
    requires IsIndexOf(ix, entries)
    ensures forall kind :: NewestFirst(ListAt(ix.ordered, kind))
    ensures forall kind, e :: e in ListAt(ix.ordered, kind) <==> e in entries && e.kind == kind
    ensures forall kind, symbol :: NewestFirst(ListAt(ix.bySymbol, (kind, symbol)))
    ensures forall kind, symbol, e ::
      e in ListAt(ix.bySymbol, (kind, symbol)) <==> e in entries && e.kind == kind && e.symbol == symbol
    ensures forall e <- entries :: e.kind != P.OptionsIntelligence ==> PriorReport(ix, e) == NoPrior
    ensures forall e <- entries :: e.kind == P.OptionsIntelligence ==>
      TellsPrior(ListAt(ix.bySymbol, (e.kind, e.symbol)), e.instant, PriorReport(ix, e))
  {
    forall kind { OneList(ix, entries, kind); }
    forall kind, symbol { OneSymbolList(ix, entries, kind, symbol); }
    forall e | e in entries && e.kind == P.OptionsIntelligence
      ensures TellsPrior(ListAt(ix.bySymbol, (e.kind, e.symbol)), e.instant, PriorReport(ix, e))
    {
      PriorReportMeaning(ix, entries, e);
    }
  }

  lemma OneList(ix: Index, entries: seq<Entry>, kind: P.Kind)
    requires IsIndexOf(ix, entries)
    ensures var list := ListAt(ix.ordered, kind);
      NewestFirst(list) && forall e :: e in list <==> e in entries && e.kind == kind
  {
    assert Lists(ListAt(ix.ordered, kind), entries, OfKind(kind));
  }

  lemma OneSymbolList(ix: Index, entries: seq<Entry>, kind: P.Kind, symbol: string)
    requires IsIndexOf(ix, entries)
    ensures var list := ListAt(ix.bySymbol, (kind, symbol));
      NewestFirst(list) && forall e :: e in list <==> e in entries && e.kind == kind && e.symbol == symbol
  {
    assert Lists(ListAt(ix.bySymbol, (kind, symbol)), entries, OfSymbol(kind, symbol));
  }

  /** `Index(entries)`: it fails exactly on a repeated id. */
  method MakeIndex(entries: seq<Entry>) returns (r: Result<Index, BuildError>)
    ensures if DistinctIds(entries) then r.Ok? && IsIndexOf(r.value, entries) else r == Err(DuplicateId)
  {
    var ok, _, byId, byKind := Group(entries);
    if !ok {
      return Err(DuplicateId);
    }
    var ordered: map<P.Kind, seq<Entry>> := map[];
    var bySymbol: map<(P.Kind, string), seq<Entry>> := map[];
    for n := 0 to |KINDS|
      invariant Indexed(ordered, bySymbol, KINDS[..n], entries)
    {
      var kind := KINDS[n];
      EveryKind(kind);
      assert kind !in KINDS[..n] && KINDS[..n + 1] == KINDS[..n] + [kind];
      var list := S.Sort(ListAt(byKind, kind), NotAfter);
      SortingOrders(entries, kind);
      var next := GroupBySymbol(kind, list, bySymbol);
      IndexedOneMore(ordered, bySymbol, KINDS[..n], entries, kind, list, next);
      ordered := ordered[kind := list];
      bySymbol := next;
    }
    assert KINDS[..|KINDS|] == KINDS;
    forall kind: P.Kind ensures kind in KINDS { EveryKind(kind); }
    FiledLists(bySymbol, entries);
    var prior := PriorReports(bySymbol);
    r := Ok(Index(byId, ordered, bySymbol, prior));
  }

  /** The directory listing's order leaves no trace: two indexes of the same entries show the same lists. */
  lemma ListingOrderIsForgotten(a: Index, b: Index, xs: seq<Entry>, ys: seq<Entry>, kind: P.Kind, symbol: string)
    requires IsIndexOf(a, xs) && IsIndexOf(b, ys) && forall e :: e in xs <==> e in ys
    ensures ListAt(a.ordered, kind) == ListAt(b.ordered, kind)
    ensures ListAt(a.bySymbol, (kind, symbol)) == ListAt(b.bySymbol, (kind, symbol))
  {
    assert Lists(ListAt(a.ordered, kind), xs, OfKind(kind)) && Lists(ListAt(b.ordered, kind), ys, OfKind(kind));
    L.ChainUnique(ListAt(a.ordered, kind), ListAt(b.ordered, kind), Precedes);
    assert Lists(ListAt(a.bySymbol, (kind, symbol)), xs, OfSymbol(kind, symbol));
    assert Lists(ListAt(b.bySymbol, (kind, symbol)), ys, OfSymbol(kind, symbol));
    L.ChainUnique(ListAt(a.bySymbol, (kind, symbol)), ListAt(b.bySymbol, (kind, symbol)), Precedes);
  }

  // ----------------------------------------------------------------- the whole store

  type Listing = P.Kind -> seq<P.Name>

  /** The entries of the first `n` kinds, in that order. */
  function ReadKinds(n: nat, names: Listing, read: Reader, codec: Codec): Result<seq<Entry>, BuildError>
    requires n <= |KINDS|
  {
    if n == 0 then Ok([])
    else
      match ReadKinds(n - 1, names, read, codec)
      case Err(error) => Err(error)
      case Ok(entries) =>
        match ReadAll(KINDS[n - 1], names(KINDS[n - 1]), read, codec)
        case Err(error) => Err(error)
        case Ok(more) => Ok(entries + more)
  }

  lemma {:induction false} FirstBadKind(n: nat, m: nat, names: Listing, read: Reader, codec: Codec)
    requires n <= m <= |KINDS| && ReadKinds(n, names, read, codec).Err?
    ensures ReadKinds(m, names, read, codec) == ReadKinds(n, names, read, codec)
  {
    if n < m { FirstBadKind(n, m - 1, names, read, codec); }
  }

  function ReadStore(names: Listing, read: Reader, codec: Codec): Result<seq<Entry>, BuildError> {
    ReadKinds(|KINDS|, names, read, codec)
  }

  /** `build_index`: a complete index or a failure, never a partial index. */
  method BuildIndex(names: Listing, read: Reader, codec: Codec) returns (r: Result<Index, BuildError>)
    ensures match ReadStore(names, read, codec)
      case Err(error) => r == Err(error)
      case Ok(entries) => if DistinctIds(entries) then r.Ok? && IsIndexOf(r.value, entries) else r == Err(DuplicateId)
  {
    var entries := [];
    for n := 0 to |KINDS|
      invariant ReadKinds(n, names, read, codec) == Ok(entries)
    {
      var more := Entries(KINDS[n], names(KINDS[n]), read, codec);
      if more.Err? {
        FirstBadKind(n + 1, |KINDS|, names, read, codec);
        return Err(more.error);
      }
      entries := entries + more.value;
    }
    r := MakeIndex(entries);
  }

  /** The process-level holder of the current snapshot. */
  class ArtifactStore {
    var index: Option<Index>
    var built: bool   // the last refresh succeeded
    /** What the successful refreshes have read, in order. */
    ghost var served: seq<seq<Entry>>

    /** The snapshot is that of the last successful refresh. */
    ghost predicate Valid() reads this {
      && (index.None? <==> served == [])
      && (index.Some? ==> IsIndexOf(index.value, served[|served| - 1]))
    }

    constructor ()
      ensures Valid() && served == [] && !built
    {
      index, built, served := None, false, [];
    }

    predicate Healthy() reads this {
      index.Some? && built
    }

    /** An index of exactly what the last successful refresh read; an error exactly as long as none has succeeded. */
    method Snapshot() returns (r: Result<Index, ()>)
      requires Valid()
      ensures r.Ok? <==> served != []
      ensures r.Ok? ==> IsIndexOf(r.value, served[|served| - 1])
    {
      r := if index.None? then Err(()) else Ok(index.value);
    }

    /** A refresh swaps in a complete snapshot, or keeps the previous one and marks the store not healthy. */
    method Refresh(names: Listing, read: Reader, codec: Codec) returns (ok: bool)
      requires Valid()
      modifies this
      ensures Valid() && ok == Healthy()
      ensures ok <==> ReadStore(names, read, codec).Ok? && DistinctIds(ReadStore(names, read, codec).value)
      ensures ok ==> served == old(served) + [ReadStore(names, read, codec).value]
      ensures !ok ==> index == old(index) && served == old(served)
    {
      var r := BuildIndex(names, read, codec);
      if r.Err? {
        built := false;
        return false;
      }
      index, built := Some(r.value), true;
      served := served + [ReadStore(names, read, codec).value];
      return true;
    }
  }
}
