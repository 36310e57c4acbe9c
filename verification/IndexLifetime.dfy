/** The index over the life of a store: builds that overlap with publishers, and the refreshes that follow one another
    (artifact_store/store.py:115-155 with artifact_store/index.py:114-151 and artifact_store/service.py:38-47). */
module IndexLifetime {
  import opened Results
  import opened ArtifactIndex
  import opened IndexBuild
  import P = ArtifactPublish

  /** Every publisher validated its object first. */
  ghost predicate Validated(actions: seq<P.Action>, codec: Codec) {
    forall a: P.Artifact :: P.Request(a) in actions ==> codec.parse(a.kind, a.canonical) == Some(a)
  }

  /** Content ids do not collide. */
  ghost predicate Injective(codec: Codec) {
    forall a: P.Artifact, b: P.Artifact :: codec.digest(a) == codec.digest(b) ==> a == b
  }

  function DiskAfter(actions: seq<P.Action>): P.Disk {
    P.Run(P.INIT, actions).disk
  }

  /** A build that starts when `before` has happened: each name it lists was in the directory at some moment of the
      listing, and each file is read at some moment after that. */
  datatype Build = Build(names: Listing, seen: P.Name -> seq<P.Action>, gap: P.Name -> seq<P.Action>)

  function ReadBy(before: seq<P.Action>, b: Build): Reader {
    (n: P.Name) => Lookup(DiskAfter(before + b.seen(n) + b.gap(n)).files, n)
  }

  ghost predicate Lists(before: seq<P.Action>, b: Build) {
    && (forall kind :: S.Distinct(b.names(kind)))
    && (forall kind, n :: n in b.names(kind) ==> n.kind == kind && n in DiskAfter(before + b.seen(n)).files)
    && (forall n <- DiskAfter(before).files :: n.ArtifactName? ==> n in b.names(n.kind))
  }

  ghost predicate AllValidated(before: seq<P.Action>, b: Build, codec: Codec) {
    forall n :: Validated(before + b.seen(n) + b.gap(n), codec)
  }

  // ----------------------------------------------------------------- what is stored was requested

  ghost predicate Requested(sys: P.System, actions: seq<P.Action>) {
    && (forall i :: 0 <= i < |sys.publishers| ==> P.Request(sys.publishers[i].artifact) in actions)
    && (forall n <- sys.disk.files :: n.ArtifactName? ==> P.Request(n.id.body) in actions)
  }

  lemma {:induction false} StoredWasRequested(actions: seq<P.Action>)
    ensures Requested(P.Run(P.INIT, actions), actions)
  {
    if actions != [] {
      var n := |actions| - 1;
      var sys := P.Run(P.INIT, actions[..n]);
      StoredWasRequested(actions[..n]);
      assert actions == actions[..n] + [actions[n]];
      if actions[n].Step? && actions[n].i < |sys.publishers| {
        assert P.Request(sys.publishers[actions[n].i].artifact) in actions[..n];
      }
    }
  }

  // ----------------------------------------------------------------- one name

  /** A name listed during the build reads back as the artifact it was published for, or is a leftover to skip. */
  ghost predicate ReadsWell(kind: P.Kind, n: P.Name, read: Reader, codec: Codec) {
    match n
    case TempName(_, _) => true
    case ForeignName(_, _) => false
    case ArtifactName(_, id) =>
      id.body.kind == kind && ReadEntry(kind, n, read, codec) == Ok(Some(EntryOf(kind, id.body, codec)))
  }

  lemma ListedNameReads(before: seq<P.Action>, b: Build, codec: Codec, kind: P.Kind, n: P.Name)
    requires Lists(before, b) && AllValidated(before, b, codec) && n in b.names(kind)
    ensures ReadsWell(kind, n, ReadBy(before, b), codec)
  {
    var seen := before + b.seen(n);
    P.RunKeepsInv(seen);
    assert P.GoodFile(n, DiskAfter(seen).files[n]);
    if n.ArtifactName? {
      P.FinalNamesAreComplete(seen, n.kind, n.id);
      P.FinalNameIsPermanent(seen, b.gap(n), n);
      StoredWasRequested(seen + b.gap(n));
      assert Validated(seen + b.gap(n), codec);
    }
  }

  // ----------------------------------------------------------------- one directory

  /** The entry stands for a published artifact of this kind with a name in `names`. */
  ghost predicate StandsFor(e: Entry, kind: P.Kind, names: seq<P.Name>, codec: Codec, a: P.Artifact) {
    a.kind == kind && P.FinalName(a) in names && e == EntryOf(kind, a, codec)
  }

  lemma NewNameNewId(kind: P.Kind, names: seq<P.Name>, last: P.Name, codec: Codec, entries: seq<Entry>)
    requires Injective(codec) && last !in names && last.ArtifactName? && last.kind == kind == last.id.body.kind
    requires forall e <- entries :: exists a: P.Artifact :: StandsFor(e, kind, names, codec, a)
    ensures forall e <- entries :: e.id != codec.digest(last.id.body)
  {
    forall e | e in entries ensures e.id != codec.digest(last.id.body) {
      var a: P.Artifact :| StandsFor(e, kind, names, codec, a);
      assert P.FinalName(a) != last;
    }
  }

  lemma {:induction false} DirectoryReads(kind: P.Kind, names: seq<P.Name>, read: Reader, codec: Codec)
    requires Injective(codec) && S.Distinct(names)
    requires forall n <- names :: n.kind == kind && ReadsWell(kind, n, read, codec)
    ensures ReadAll(kind, names, read, codec).Ok? && DistinctIds(ReadAll(kind, names, read, codec).value)
    ensures forall e <- ReadAll(kind, names, read, codec).value :: exists a: P.Artifact ::
      StandsFor(e, kind, names, codec, a)
    ensures forall a: P.Artifact :: a.kind == kind && P.FinalName(a) in names ==>
      EntryOf(kind, a, codec) in ReadAll(kind, names, read, codec).value
  {
    if names != [] {
      var h, last := names[..|names| - 1], names[|names| - 1];
      assert names == h + [last];
      DirectoryReads(kind, h, read, codec);
      var entries := ReadAll(kind, h, read, codec).value;
      forall e | e in entries ensures exists a: P.Artifact :: StandsFor(e, kind, names, codec, a) {
        var a: P.Artifact :| StandsFor(e, kind, h, codec, a);
        assert StandsFor(e, kind, names, codec, a);
      }
      if last.ArtifactName? {
        assert StandsFor(EntryOf(kind, last.id.body, codec), kind, names, codec, last.id.body);
        NewNameNewId(kind, h, last, codec, entries);
      }
    }
  }

  // ----------------------------------------------------------------- the main results

  ghost predicate KindsRead(n: nat, b: Build, codec: Codec, entries: seq<Entry>)
    requires n <= |KINDS|
  {
    && DistinctIds(entries)
    && (forall e <- entries :: exists a: P.Artifact ::
      a.kind in KINDS[..n] && StandsFor(e, a.kind, b.names(a.kind), codec, a))
    && (forall a: P.Artifact :: a.kind in KINDS[..n] && P.FinalName(a) in b.names(a.kind) ==>
          EntryOf(a.kind, a, codec) in entries)
  }

  lemma OneMoreKind(n: nat, b: Build, codec: Codec, entries: seq<Entry>, more: seq<Entry>)
    requires n < |KINDS| && Injective(codec) && KindsRead(n, b, codec, entries) && DistinctIds(more)
    requires forall e <- more :: exists a: P.Artifact :: StandsFor(e, KINDS[n], b.names(KINDS[n]), codec, a)
    requires forall a: P.Artifact :: a.kind == KINDS[n] && P.FinalName(a) in b.names(KINDS[n]) ==>
      EntryOf(KINDS[n], a, codec) in more
    ensures KindsRead(n + 1, b, codec, entries + more)
  {
    var kind := KINDS[n];
    EveryKind(kind);
    assert KINDS[..n + 1] == KINDS[..n] + [kind];
    assert kind !in KINDS[..n];
    forall e | e in entries + more
      ensures exists a: P.Artifact :: a.kind in KINDS[..n + 1] && StandsFor(e, a.kind, b.names(a.kind), codec, a)
    {
      if e in entries {
        var a: P.Artifact :| a.kind in KINDS[..n] && StandsFor(e, a.kind, b.names(a.kind), codec, a);
        assert a.kind in KINDS[..n + 1];
      } else {
        var a: P.Artifact :| StandsFor(e, kind, b.names(kind), codec, a);
        assert a.kind in KINDS[..n + 1];
      }
    }
    forall e, o | e in entries && o in more ensures e.id != o.id {
      var a: P.Artifact :| a.kind in KINDS[..n] && StandsFor(e, a.kind, b.names(a.kind), codec, a);
      var c: P.Artifact :| StandsFor(o, kind, b.names(kind), codec, c);
      assert a.kind != c.kind;
    }
  }

  lemma {:induction false} BuildReads(n: nat, before: seq<P.Action>, b: Build, codec: Codec)
    requires n <= |KINDS| && Lists(before, b) && AllValidated(before, b, codec) && Injective(codec)
    ensures ReadKinds(n, b.names, ReadBy(before, b), codec).Ok?
    ensures KindsRead(n, b, codec, ReadKinds(n, b.names, ReadBy(before, b), codec).value)
  {
    if n > 0 {
      var kind := KINDS[n - 1];
      BuildReads(n - 1, before, b, codec);
      forall m | m in b.names(kind) ensures m.kind == kind && ReadsWell(kind, m, ReadBy(before, b), codec) {
        ListedNameReads(before, b, codec, kind, m);
      }
      DirectoryReads(kind, b.names(kind), ReadBy(before, b), codec);
      OneMoreKind(n - 1, b, codec, ReadKinds(n - 1, b.names, ReadBy(before, b), codec).value,
                  ReadAll(kind, b.names(kind), ReadBy(before, b), codec).value);
    }
  }

  /** In every run of the publishers, with crashes anywhere and publishers at work during the build, the build succeeds:
      its entries are exactly those of the artifacts whose final names it listed, and it misses none that was published
      before it began. */
  lemma BuildSucceedsOnEveryRun(before: seq<P.Action>, b: Build, codec: Codec)
    requires Lists(before, b) && AllValidated(before, b, codec) && Injective(codec)
    ensures ReadStore(b.names, ReadBy(before, b), codec).Ok?
    ensures DistinctIds(ReadStore(b.names, ReadBy(before, b), codec).value)
    ensures var entries := ReadStore(b.names, ReadBy(before, b), codec).value;
      && (forall e <- entries :: exists a: P.Artifact ::
        P.FinalName(a) in b.names(a.kind) && e == Entry(a.kind, codec.digest(a), a.symbol, a.instant))
      && (forall a: P.Artifact :: P.FinalName(a) in b.names(a.kind) || P.FinalName(a) in DiskAfter(before).files ==>
        Entry(a.kind, codec.digest(a), a.symbol, a.instant) in entries)
  {
    BuildReads(|KINDS|, before, b, codec);
    var entries := ReadStore(b.names, ReadBy(before, b), codec).value;
    assert KINDS[..|KINDS|] == KINDS;
    forall kind: P.Kind ensures kind in KINDS { EveryKind(kind); }
    forall e | e in entries
      ensures exists a: P.Artifact ::
        P.FinalName(a) in b.names(a.kind) && e == Entry(a.kind, codec.digest(a), a.symbol, a.instant)
    {
      var a: P.Artifact :| a.kind in KINDS[..|KINDS|] && StandsFor(e, a.kind, b.names(a.kind), codec, a);
      assert P.FinalName(a) in b.names(a.kind) && e == EntryOf(a.kind, a, codec);
    }
    forall a: P.Artifact | P.FinalName(a) in b.names(a.kind) || P.FinalName(a) in DiskAfter(before).files
      ensures Entry(a.kind, codec.digest(a), a.symbol, a.instant) in entries
    {
      assert EntryOf(a.kind, a, codec) in entries;
    }
  }

  /** A build that starts after another has read its last name holds every entry of the first. */
  lemma EntriesGrow(before: seq<P.Action>, b: Build, later: seq<P.Action>, c: Build, codec: Codec, e: Entry)
    requires Lists(before, b) && AllValidated(before, b, codec) && Injective(codec)
    requires Lists(later, c) && AllValidated(later, c, codec)
    requires forall n :: before + b.seen(n) <= later
    ensures ReadStore(b.names, ReadBy(before, b), codec).Ok? && ReadStore(c.names, ReadBy(later, c), codec).Ok?
    ensures e in ReadStore(b.names, ReadBy(before, b), codec).value ==>
      e in ReadStore(c.names, ReadBy(later, c), codec).value
  {
    BuildSucceedsOnEveryRun(before, b, codec);
    BuildSucceedsOnEveryRun(later, c, codec);
    if e in ReadStore(b.names, ReadBy(before, b), codec).value {
      var a: P.Artifact :| P.FinalName(a) in b.names(a.kind) &&
        e == Entry(a.kind, codec.digest(a), a.symbol, a.instant);
      var seen := before + b.seen(P.FinalName(a));
      assert later == seen + later[|seen|..];
      P.FinalNameIsPermanent(seen, later[|seen|..], P.FinalName(a));
    }
  }

  lemma ListsGrow(xs: seq<Entry>, ys: seq<Entry>, first: seq<Entry>, second: seq<Entry>, wanted: Entry -> bool)
    requires IndexBuild.Lists(xs, first, wanted) && IndexBuild.Lists(ys, second, wanted)
    requires forall e <- first :: e in second
    ensures Growing([xs, ys])
  {
  }

  /** Refreshes only add, so that cursors may be followed across them. */
  lemma SnapshotsGrow(before: seq<P.Action>, b: Build, later: seq<P.Action>, c: Build, codec: Codec, one: Index,
                      two: Index,
                      kind: P.Kind, symbol: string)
    requires Lists(before, b) && AllValidated(before, b, codec) && Injective(codec)
    requires Lists(later, c) && AllValidated(later, c, codec)
    requires forall n :: before + b.seen(n) <= later
    requires forall entries :: ReadStore(b.names, ReadBy(before, b), codec) == Ok(entries) ==> IsIndexOf(one, entries)
    requires forall entries :: ReadStore(c.names, ReadBy(later, c), codec) == Ok(entries) ==> IsIndexOf(two, entries)
    ensures Growing([ListAt(one.ordered, kind), ListAt(two.ordered, kind)])
    ensures Growing([ListAt(one.bySymbol, (kind, symbol)), ListAt(two.bySymbol, (kind, symbol))])
  {
    BuildSucceedsOnEveryRun(before, b, codec);
    BuildSucceedsOnEveryRun(later, c, codec);
    var first := ReadStore(b.names, ReadBy(before, b), codec).value;
    var second := ReadStore(c.names, ReadBy(later, c), codec).value;
    forall e | e in first ensures e in second { EntriesGrow(before, b, later, c, codec, e); }
    ListsGrow(ListAt(one.ordered, kind), ListAt(two.ordered, kind), first, second, OfKind(kind));
    ListsGrow(ListAt(one.bySymbol, (kind, symbol)), ListAt(two.bySymbol, (kind, symbol)), first, second,
              OfSymbol(kind, symbol));
  }
}
