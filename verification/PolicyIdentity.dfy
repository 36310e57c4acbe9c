/** The identity of an event (resolve_identity in collector/geopolitical_identity.py): its aliases, its candidate root,
    and what the policy records say of the events resolved to them. */
module PolicyIdentity {
  import opened Results
  import opened ExpiringKeys
  import opened AliasRegistry
  import opened Texts
  import L = Lists
  import S = Sorting

  /** A normalized event with its identity anchors as they come. */
  datatype Event = Event(documentId: string, anchors: seq<string>, stage: Stage, published: Option<int>, detail: string)

  /** The digest of an anchor and a stage, from which a new root is made. */
  type Digest = (string, Stage) -> Root

  // ----------------------------------------------------------------- anchors

  /** The first occurrence of each text. */
  function Once(xs: seq<string>): seq<string> {
    if xs == [] then []
    else
      var n := |xs| - 1;
      var before := Once(xs[..n]);
      if xs[n] in before then before else before + [xs[n]]
  }

  lemma {:induction false} OnceMeaning(xs: seq<string>)
    ensures S.Distinct(Once(xs)) && forall x :: x in Once(xs) <==> x in xs
  {
    if xs != [] {
      OnceMeaning(xs[..|xs| - 1]);
      assert xs == xs[..|xs| - 1] + [xs[|xs| - 1]];
    }
  }

  function Single(x: string): seq<string> { [x] }

  predicate InOrder(a: string, b: string) { NotAfter(Single(a), Single(b)) }

  /** `sorted(set(anchors))`. */
  function AnchorsOf(e: Event): seq<string> {
    S.Sort(Once(e.anchors), InOrder)
  }

  /** The anchors of an event, each once, in the order of their texts. */
  lemma AnchorsMeaning(e: Event)
    ensures L.Chain(AnchorsOf(e), StringBefore) && forall a :: a in AnchorsOf(e) <==> a in e.anchors
    ensures AnchorsOf(e) == [] <==> e.anchors == []
  {
    var once, out := Once(e.anchors), AnchorsOf(e);
    OnceMeaning(e.anchors);
    forall i, j | 0 <= i < j < |once| ensures Single(once[i]) != Single(once[j]) {
      assert Single(once[i])[0] == once[i];
    }
    SortedByKey(once, Single, InOrder);
    forall i, j | 0 <= i < j < |out| ensures StringBefore(out[i], out[j]) {
      AscendingAt(out, Single, i, j);
      assert TupleBefore([out[i]], [out[j]]);
    }
    if e.anchors != [] { assert e.anchors[0] in once && e.anchors[0] in out; }
    if out != [] { assert out[0] in e.anchors; }
  }

  /** Only the set of anchors matters. */
  lemma SameAnchors(e: Event, f: Event)
    ensures AnchorsOf(e) == AnchorsOf(f) <==> forall a :: a in e.anchors <==> a in f.anchors
  {
    AnchorsMeaning(e);
    AnchorsMeaning(f);
    if forall a :: a in e.anchors <==> a in f.anchors {
      forall a, b ensures StringBefore(a, b) ==> !StringBefore(b, a) { StringsAreOrdered(a, b); }
      L.ChainUnique(AnchorsOf(e), AnchorsOf(f), StringBefore);
    }
  }

  // ----------------------------------------------------------------- aliases, candidate and record

  function AnchorAliases(anchors: seq<string>, stage: Stage): seq<Alias> {
    seq(|anchors|, i requires 0 <= i < |anchors| => AnchorAlias(anchors[i], stage))
  }

  function AliasesOf(e: Event): seq<Alias> {
    AnchorAliases(AnchorsOf(e), e.stage) + [DocumentAlias(e.documentId, AnchorsOf(e), e.stage)]
  }

  /** Nothing sorts before `x` among the texts. */
  ghost predicate IsLeast(xs: seq<string>, x: string) {
    x in xs && forall y <- xs :: !StringBefore(y, x)
  }

  /** The root for an event without a live alias: the durable one if no alias was live at the look-up, or else the
      digest of the least anchor. */
  ghost predicate IsCandidate(s: State, e: Event, digest: Digest, durable: Option<Root>, root: Root) {
    if durable.Some? && forall a <- AliasesOf(e) :: !Bound(s, a) then root == durable.value
    else exists a :: IsLeast(e.anchors, a) && root == digest(a, e.stage)
  }

  function RecordOf(e: Event): Record {
    Record(e.published, [Provenance(e.documentId, e.detail)])
  }

  /** The aliases of an event: one per anchor, and one for its document together with all of its anchors. */
  lemma AliasMeaning(e: Event, a: Alias)
    ensures a in AliasesOf(e) <==>
      match a
      case AnchorAlias(anchor, stage) => anchor in e.anchors && stage == e.stage
      case DocumentAlias(d, anchors, stage) => d == e.documentId && anchors == AnchorsOf(e) && stage == e.stage
  {
    var anchors := AnchorsOf(e);
    AnchorsMeaning(e);
    if a.AnchorAlias? && a.anchor in e.anchors && a.stage == e.stage {
      var i :| 0 <= i < |anchors| && anchors[i] == a.anchor;
      assert AnchorAliases(anchors, e.stage)[i] == a;
    }
    var own := DocumentAlias(e.documentId, anchors, e.stage);
    assert a in AliasesOf(e) <==> a in AnchorAliases(anchors, e.stage) || a == own;
  }

  ghost predicate ShareAnchor(e: Event, f: Event) {
    exists a :: a in e.anchors && a in f.anchors
  }

  /** Two events share an anchor's alias exactly if they are of one stage and have an anchor in common; they share the
      document's alias exactly if in addition their document and all of their anchors are the same. */
  lemma SharedAliases(e: Event, f: Event)
    ensures (exists a: Alias :: a.AnchorAlias? && a in AliasesOf(e) && a in AliasesOf(f)) <==>
      e.stage == f.stage && ShareAnchor(e, f)
    ensures (exists a: Alias :: a.DocumentAlias? && a in AliasesOf(e) && a in AliasesOf(f)) <==>
      e.stage == f.stage && e.documentId == f.documentId && forall x :: x in e.anchors <==> x in f.anchors
  {
    SameAnchors(e, f);
    forall a: Alias | a in AliasesOf(e) && a in AliasesOf(f)
      ensures e.stage == f.stage
      ensures a.AnchorAlias? ==> ShareAnchor(e, f)
      ensures a.DocumentAlias? ==> e.documentId == f.documentId && AnchorsOf(e) == AnchorsOf(f)
    {
      AliasMeaning(e, a);
      AliasMeaning(f, a);
    }
    if e.stage == f.stage && ShareAnchor(e, f) {
      var x :| x in e.anchors && x in f.anchors;
      AliasMeaning(e, AnchorAlias(x, e.stage));
      AliasMeaning(f, AnchorAlias(x, e.stage));
    }
    var d := DocumentAlias(e.documentId, AnchorsOf(e), e.stage);
    AliasMeaning(e, d);
    AliasMeaning(f, d);
  }

  // ----------------------------------------------------------------- what a policy record says of its events

  /** No later event of the list is about the same document. */
  ghost predicate Newest(events: seq<Event>, i: int) {
    0 <= i < |events| && forall j :: i < j < |events| ==> events[j].documentId != events[i].documentId
  }

  /** `p` is the earliest known publication of the events, if any is known. */
  ghost predicate EarliestOf(events: seq<Event>, p: Option<int>) {
    && (p.Some? ==> exists i :: 0 <= i < |events| && events[i].published == p)
    && forall i :: 0 <= i < |events| && events[i].published.Some? ==> p.Some? && p.value <= events[i].published.value
  }

  ghost predicate TellsDocument(events: seq<Event>, p: Provenance) {
    exists i :: Newest(events, i) && events[i].documentId == p.documentId && events[i].detail == p.detail
  }

  /** The record has the earliest known publication, and one entry per document: that of its newest event. */
  ghost predicate TellsEvents(r: Record, events: seq<Event>) {
    && EarliestOf(events, r.published)
    && DistinctDocuments(r.provenance)
    && forall p :: p in r.provenance <==> TellsDocument(events, p)
  }

  lemma EarliestGrows(events: seq<Event>, p: Option<int>, e: Event)
    requires EarliestOf(events, p)
    ensures EarliestOf(events + [e], Earlier(p, e.published))
  {
    var longer := events + [e];
    assert longer[|events|] == e && forall i :: 0 <= i < |events| ==> longer[i] == events[i];
    if Earlier(p, e.published) != e.published {
      var i :| 0 <= i < |events| && events[i].published == p;
      assert longer[i].published == p;
    }
  }

  /** The entries after one more event: its own, and those of the other documents. */
  lemma DocumentsGrow(events: seq<Event>, e: Event, p: Provenance)
    ensures TellsDocument(events + [e], p) <==>
      p == Provenance(e.documentId, e.detail) || (p.documentId != e.documentId && TellsDocument(events, p))
  {
    var longer := events + [e];
    assert longer[|events|] == e && forall i :: 0 <= i < |events| ==> longer[i] == events[i];
    assert Newest(longer, |events|);
    if p.documentId != e.documentId {
      forall i | 0 <= i < |events| && events[i].documentId == p.documentId
        ensures Newest(longer, i) <==> Newest(events, i)
      {
      }
    }
  }

  lemma {:induction false} UnseenMembers(stored: seq<Provenance>, added: seq<Provenance>, p: Provenance)
    ensures p in Unseen(stored, added) <==> p in stored && !HasDocument(added, p.documentId)
  {
    if stored != [] {
      UnseenMembers(stored[..|stored| - 1], added, p);
      assert stored == stored[..|stored| - 1] + [stored[|stored| - 1]];
    }
  }

  lemma MergeTells(stored: Record, events: seq<Event>, e: Event)
    requires TellsEvents(stored, events)
    ensures TellsEvents(MergeRecord(RecordOf(e), Some(stored)), events + [e])
  {
    var own := RecordOf(e).provenance;
    var merged := MergeRecord(RecordOf(e), Some(stored));
    EarliestGrows(events, stored.published, e);
    UnseenDistinct(stored.provenance, own);
    assert forall d :: HasDocument(own, d) <==> own[0].documentId == d;
    forall p ensures p in merged.provenance <==> TellsDocument(events + [e], p) {
      UnseenMembers(stored.provenance, own, p);
      DocumentsGrow(events, e, p);
    }
    forall i | 0 <= i < |Unseen(stored.provenance, own)|
      ensures Unseen(stored.provenance, own)[i].documentId != e.documentId
    {
      assert !HasDocument(own, Unseen(stored.provenance, own)[i].documentId);
    }
  }

  lemma FirstTells(e: Event)
    ensures TellsEvents(RecordOf(e), [e])
  {
    EarliestGrows([], None, e);
    forall p ensures p in RecordOf(e).provenance <==> TellsDocument([] + [e], p) {
      DocumentsGrow([], e, p);
    }
    assert [] + [e] == [e];
  }

  // ----------------------------------------------------------------- runs of events

  /** The registry, and per root the events resolved to it since its policy record was created. */
  datatype World = World(s: State, events: map<Root, seq<Event>>)

  datatype Step = Wait(elapsed: nat) | Arrive(event: Event, candidate: Root)

  /** What `resolve_identity` answers: None leaves the event unresolved. */
  function ReplyTo(s: State, ttl: nat, e: Event, candidate: Root): (Option<Reply>, State) {
    if AnchorsOf(e) == [] then (None, s)
    else
      var (reply, t) := Resolve(s, AliasesOf(e), candidate, RecordOf(e), ttl);
      (Some(reply), t)
  }

  /** The events of a root: those since its record was created, and the new one. */
  function Filed(w: World, reply: Option<Reply>, e: Event): map<Root, seq<Event>> {
    if reply.Some? && reply.value.Resolved? then
      var root := reply.value.root;
      var past := if GetKey(w.s.policies, root, w.s.now).Some? && root in w.events then w.events[root] else [];
      w.events[root := past + [e]]
    else w.events
  }

  function After(w: World, ttl: nat, step: Step): World {
    match step
    case Wait(elapsed) => w.(s := w.s.(now := w.s.now + elapsed))
    case Arrive(e, candidate) =>
      var (reply, t) := ReplyTo(w.s, ttl, e, candidate);
      World(t, Filed(w, reply, e))
  }

  function AfterAll(w: World, ttl: nat, steps: seq<Step>): World {
    if steps == [] then w else After(AfterAll(w, ttl, steps[..|steps| - 1]), ttl, steps[|steps| - 1])
  }

  /** Every live policy record tells the events resolved to it. */
  ghost predicate Told(w: World) {
    forall r <- w.s.policies :: w.s.now < w.s.policies[r].expiry ==>
      r in w.events && w.events[r] != [] && TellsEvents(w.s.policies[r].value, w.events[r])
  }

  lemma ArrivalKeepsTold(w: World, ttl: nat, e: Event, candidate: Root)
    requires Told(w)
    ensures Told(After(w, ttl, Arrive(e, candidate)))
  {
    var (reply, t) := ReplyTo(w.s, ttl, e, candidate);
    if reply.Some? && reply.value.Resolved? {
      var root := reply.value.root;
      var stored := GetKey(w.s.policies, root, w.s.now);
      if stored.Some? {
        MergeTells(stored.value, w.events[root], e);
      } else {
        FirstTells(e);
        assert [] + [e] == [e];
      }
    }
  }

  /** Over any run of events, a live policy record holds the earliest known publication of the events resolved to it
      since it was created, and exactly one entry per document of theirs, with the detail of its newest event. */
  lemma {:induction false} PoliciesTellTheirEvents(ttl: nat, steps: seq<Step>)
    ensures Told(AfterAll(World(EMPTY, map[]), ttl, steps))
  {
    if steps != [] {
      var n := |steps| - 1;
      var w := AfterAll(World(EMPTY, map[]), ttl, steps[..n]);
      PoliciesTellTheirEvents(ttl, steps[..n]);
      if steps[n].Arrive? { ArrivalKeepsTold(w, ttl, steps[n].event, steps[n].candidate); }
    }
  }

  /** The root agrees with every live alias of the event, and is the candidate when none is live. */
  ghost predicate RootFits(s: State, e: Event, candidate: Root, root: Root) {
    && (forall a <- AliasesOf(e) :: Bound(s, a) ==> s.aliases[a].value == root)
    && ((forall a <- AliasesOf(e) :: !Bound(s, a)) ==> root == candidate)
  }

  /** The root's record counts the event in. */
  ghost predicate Included(e: Event, record: Record) {
    && Provenance(e.documentId, e.detail) in record.provenance
    && (e.published.Some? ==> record.published.Some? && record.published.value <= e.published.value)
  }

  /** Every alias of the event leads to the root and the root to the record, for the alias lifetime. */
  ghost predicate Written(t: State, e: Event, root: Root, record: Record, expiry: int) {
    && (forall a <- AliasesOf(e) :: Lookup(t.aliases, a) == Some(Entry(root, expiry)))
    && Lookup(t.policies, root) == Some(Entry(record, expiry))
  }

  lemma FirstIsLeast(e: Event)
    requires e.anchors != []
    ensures AnchorsOf(e) != [] && IsLeast(e.anchors, AnchorsOf(e)[0])
  {
    var anchors := AnchorsOf(e);
    AnchorsMeaning(e);
    forall y | y in e.anchors ensures !StringBefore(y, anchors[0]) {
      var i :| 0 <= i < |anchors| && anchors[i] == y;
      StringsAreOrdered(anchors[0], y);
    }
  }

  lemma RootMeaning(s: State, ttl: nat, e: Event, candidate: Root)
    requires e.anchors != [] && !Disagree(s, AliasesOf(e))
    ensures var r := ReplyTo(s, ttl, e, candidate).0;
      r.Some? && r.value.Resolved? && RootFits(s, e, candidate, r.value.root)
  {
    AnchorsMeaning(e);
    FindRootMeaning(s, AliasesOf(e));
  }

  lemma MergeIncludes(e: Event, existing: Option<Record>)
    ensures Included(e, MergeRecord(RecordOf(e), existing))
  {
    assert MergeRecord(RecordOf(e), existing).provenance[0] == Provenance(e.documentId, e.detail);
  }

  /** A resolution binds every submitted alias. */
  lemma SubmittedAlias(s: State, keys: seq<Alias>, candidate: Root, record: Record, ttl: nat, a: Alias)
    requires a in keys
    ensures var (reply, t) := Resolve(s, keys, candidate, record, ttl);
      reply.Resolved? ==> Lookup(t.aliases, a) == Some(Entry(reply.root, s.now + ttl))
  {
    var (reply, t) := Resolve(s, keys, candidate, record, ttl);
    if reply.Resolved? { BindAt(s.aliases, keys, Entry(reply.root, s.now + ttl), a); }
  }

  lemma RecordMeaning(s: State, e: Event, candidate: Root, ttl: nat)
    ensures var (reply, t) := Resolve(s, AliasesOf(e), candidate, RecordOf(e), ttl);
      reply.Resolved? ==> Included(e, reply.record) && Written(t, e, reply.root, reply.record, s.now + ttl)
  {
    var (reply, t) := Resolve(s, AliasesOf(e), candidate, RecordOf(e), ttl);
    if reply.Resolved? {
      MergeIncludes(e, GetKey(s.policies, reply.root, s.now));
      forall a | a in AliasesOf(e) ensures Lookup(t.aliases, a) == Some(Entry(reply.root, s.now + ttl)) {
        SubmittedAlias(s, AliasesOf(e), candidate, RecordOf(e), ttl, a);
      }
    }
  }

  /** What an event is told, in terms of the event: nothing without anchors; a conflict, which writes nothing, exactly
      if two of its live aliases disagree; otherwise a fitting root, to which its aliases are bound, with a record that
      counts the event in. */
  ghost predicate Meets(s: State, t: State, ttl: nat, e: Event, candidate: Root, reply: Option<Reply>) {
    && (reply == None <==> e.anchors == [])
    && (reply == Some(Conflict) <==> e.anchors != [] && Disagree(s, AliasesOf(e)))
    && match reply
       case Some(Resolved(root, record)) =>
         RootFits(s, e, candidate, root) && Included(e, record) && Written(t, e, root, record, s.now + ttl)
       case _ => t == s
  }

  lemma ReplyMeaning(s: State, ttl: nat, e: Event, candidate: Root)
    ensures var (reply, t) := ReplyTo(s, ttl, e, candidate); Meets(s, t, ttl, e, candidate, reply)
  {
    AnchorsMeaning(e);
    if e.anchors != [] {
      RootsNeverMerge(s, AliasesOf(e), candidate, RecordOf(e), ttl, "");
      RecordMeaning(s, e, candidate, ttl);
      if !Disagree(s, AliasesOf(e)) { RootMeaning(s, ttl, e, candidate); }
    }
  }

  /** `resolve_identity`: the look-up of the candidate, and the script, with `others` at work in between. */
  method ResolveIdentity(e: Event, registry: Registry, digest: Digest, durable: Option<Root>, others: seq<Action>)
    returns (reply: Option<Reply>, candidate: Root)
    modifies registry`s
    ensures e.anchors == [] ==> reply == None && registry.s == old(registry.s)
    ensures e.anchors != [] ==> IsCandidate(old(registry.s), e, digest, durable, candidate)
    ensures e.anchors != [] ==> var s := Run(old(registry.s), registry.ttl, others);
      && (reply, registry.s) == ReplyTo(s, registry.ttl, e, candidate)
      && Meets(s, registry.s, registry.ttl, e, candidate, reply)
  {
    AnchorsMeaning(e);
    var anchors := AnchorsOf(e);
    if anchors == [] {
      return None, "";
    }
    FirstIsLeast(e);
    var aliases := AliasesOf(e);
    candidate := digest(anchors[0], e.stage);
    if durable.Some? && !(exists a <- aliases :: Bound(registry.s, a)) {
      candidate := durable.value;
    }
    registry.Others(others);
    ReplyMeaning(registry.s, registry.ttl, e, candidate);
    var r := registry.Eval(aliases, candidate, RecordOf(e));
    reply := Some(r);
  }

  // ----------------------------------------------------------------- shared anchors

  /** An event with an anchor in common with an earlier one of the same stage, resolved while the earlier aliases live,
      gets the earlier one's policy root or is withheld by a conflict; it never founds a second root. */
  lemma SharedAnchorSharesPolicy(s: State, ttl: nat, first: Event, second: Event, candidate: Root, candidate': Root,
                                 between: seq<Action>, anchor: string)
    requires Dominated(s, ttl) && anchor in first.anchors && anchor in second.anchors && first.stage == second.stage
    requires var (reply, t) := ReplyTo(s, ttl, first, candidate);
      reply.Some? && reply.value.Resolved? && LiveThroughout(t, ttl, between, AnchorAlias(anchor, first.stage))
    ensures var (reply, t) := ReplyTo(s, ttl, first, candidate);
      var (reply', _) := ReplyTo(Run(t, ttl, between), ttl, second, candidate');
      reply'.Some? && (reply'.value == Conflict || reply'.value.root == reply.value.root)
  {
    var a := AnchorAlias(anchor, first.stage);
    var (reply, t) := ReplyTo(s, ttl, first, candidate);
    AnchorsMeaning(first);
    AnchorsMeaning(second);
    AliasMeaning(first, a);
    AliasMeaning(second, a);
    ResolveKeepsDominated(s, AliasesOf(first), candidate, RecordOf(first), ttl);
    ResolveNeverRebinds(s, AliasesOf(first), candidate, RecordOf(first), ttl, a);
    LiveAliasKeepsRoot(t, ttl, between, a);
    RootsNeverMerge(Run(t, ttl, between), AliasesOf(second), candidate', RecordOf(second), ttl, "");
  }
}
