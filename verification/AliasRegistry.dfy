/** The policy-alias registry (collector/geopolitical_identity.py): one atomic script that resolves an event's aliases
    to a policy root, merges its record and refreshes every key. Instants are abstract integers. */
module AliasRegistry {
  import opened Results
  import opened ExpiringKeys

  type Root = string

  /** An event's type, policy stage and revision. */
  type Stage = (string, string, string)

  /** What the SHA-256 digests stand for: alias keys and candidate roots are functions of these parts, injectively. */
  datatype Alias = AnchorAlias(anchor: string, stage: Stage)
    | DocumentAlias(documentId: string, anchors: seq<string>, stage: Stage)

  datatype Provenance = Provenance(documentId: string, detail: string)

  datatype Record = Record(published: Option<int>, provenance: seq<Provenance>)

  /** `history` is ghost state in spirit: per root, the records resolved to it since its policy record was created. */
  datatype State = State(
    now: int, aliases: map<Alias, Entry<Root>>, policies: map<Root, Entry<Record>>, history: map<Root, seq<Record>>)

  datatype Reply = Resolved(root: Root, record: Record) | Conflict

  const EMPTY := State(0, map[], map[], map[])

  function GetKey<K, V>(m: map<K, Entry<V>>, k: K, now: int): Option<V> {
    Get(Lookup(m, k), now)
  }

  // ----------------------------------------------------------------- the script as a function

  /** The single live root among the keys: no root, one root, or a conflict. */
  function FindRoot(s: State, keys: seq<Alias>): Result<Option<Root>, ()> {
    if keys == [] then Ok(None)
    else
      var n := |keys| - 1;
      var before := FindRoot(s, keys[..n]);
      match (before, GetKey(s.aliases, keys[n], s.now))
      case (Err(_), _) => before
      case (_, None) => before
      case (Ok(None), Some(v)) => Ok(Some(v))
      case (Ok(Some(r)), Some(v)) => if r == v then before else Err(())
  }

  function Earlier(a: Option<int>, b: Option<int>): Option<int> {
    match (a, b)
    case (None, _) => b
    case (_, None) => a
    case (Some(x), Some(y)) => if x < y then a else b
  }

  predicate HasDocument(ps: seq<Provenance>, d: string) {
    exists i :: 0 <= i < |ps| && ps[i].documentId == d
  }

  /** The entries of `stored` whose document is not in `added`, in order. */
  function Unseen(stored: seq<Provenance>, added: seq<Provenance>): seq<Provenance> {
    if stored == [] then []
    else
      var n := |stored| - 1;
      Unseen(stored[..n], added) + (if HasDocument(added, stored[n].documentId) then [] else [stored[n]])
  }

  function MergeRecord(record: Record, existing: Option<Record>): Record {
    match existing
    case None => record
    case Some(stored) =>
      Record(Earlier(stored.published, record.published),
             record.provenance + Unseen(stored.provenance, record.provenance))
  }

  function Bind(aliases: map<Alias, Entry<Root>>, keys: seq<Alias>, e: Entry<Root>): map<Alias, Entry<Root>> {
    if keys == [] then aliases else Bind(aliases, keys[..|keys| - 1], e)[keys[|keys| - 1] := e]
  }

  /** RESOLVE: all keys are checked and committed in one step; a conflict writes nothing. */
  function Resolve(s: State, keys: seq<Alias>, candidate: Root, record: Record, ttl: nat): (Reply, State) {
    match FindRoot(s, keys)
    case Err(_) => (Conflict, s)
    case Ok(found) =>
      var root := match found case Some(r) => r case None => candidate;
      var existing := GetKey(s.policies, root, s.now);
      var merged := MergeRecord(record, existing);
      var past := if existing.Some? && root in s.history then s.history[root] else [];
      (Resolved(root, merged),
       State(s.now, Bind(s.aliases, keys, Entry(root, s.now + ttl)), s.policies[root := Entry(merged, s.now + ttl)],
             s.history[root := past + [record]]))
  }

  // ----------------------------------------------------------------- facts about the parts

  lemma {:induction false} BindAt(aliases: map<Alias, Entry<Root>>, keys: seq<Alias>, e: Entry<Root>, a: Alias)
    ensures var b := Bind(aliases, keys, e);
      Lookup(b, a) == if a in keys then Some(e) else Lookup(aliases, a)
  {
    if keys != [] {
      BindAt(aliases, keys[..|keys| - 1], e, a);
    }
  }

  /** Two of the keys are live and point to different roots. */
  ghost predicate Disagree(s: State, keys: seq<Alias>) {
    exists a, b :: a in keys && b in keys && Bound(s, a) && Bound(s, b)
      && s.aliases[a].value != s.aliases[b].value
  }

  predicate Bound(s: State, a: Alias) {
    a in s.aliases && s.now < s.aliases[a].expiry
  }

  /** A root is found exactly when every live key agrees on it, and a conflict is two live keys that differ. */
  lemma {:induction false} FindRootMeaning(s: State, keys: seq<Alias>)
    ensures var f := FindRoot(s, keys);
      && (f.Err? <==> Disagree(s, keys))
      && (f.Ok? ==> forall a <- keys :: GetKey(s.aliases, a, s.now).Some? ==> GetKey(s.aliases, a, s.now) == f.value)
      && (f.Ok? && f.value.Some? ==> exists a :: a in keys && GetKey(s.aliases, a, s.now) == f.value)
  {
    if keys != [] {
      var n := |keys| - 1;
      var init, k := keys[..n], keys[n];
      assert keys == init + [k];
      FindRootMeaning(s, init);
      var f, g := FindRoot(s, init), FindRoot(s, keys);
      if Disagree(s, init) {
        var a, b :| a in init && b in init && Bound(s, a) && Bound(s, b) && s.aliases[a].value != s.aliases[b].value;
        assert a in keys && b in keys;
      }
      if f.Ok? && g.Err? {
        var a :| a in init && GetKey(s.aliases, a, s.now) == f.value;
        assert a in keys && k in keys && Bound(s, a) && Bound(s, k);
      }
    }
  }

  predicate DistinctDocuments(ps: seq<Provenance>) {
    forall i, j :: 0 <= i < j < |ps| ==> ps[i].documentId != ps[j].documentId
  }

  /** The entry of a document. */
  function EntryOf(ps: seq<Provenance>, d: string): Option<Provenance> {
    if ps == [] then None
    else if ps[|ps| - 1].documentId == d then Some(ps[|ps| - 1])
    else EntryOf(ps[..|ps| - 1], d)
  }

  lemma {:induction false} EntryOfHas(ps: seq<Provenance>, d: string)
    ensures EntryOf(ps, d).Some? <==> HasDocument(ps, d)
    ensures EntryOf(ps, d).Some? ==> EntryOf(ps, d).value in ps && EntryOf(ps, d).value.documentId == d
  {
    if ps != [] {
      var n := |ps| - 1;
      EntryOfHas(ps[..n], d);
      if HasDocument(ps[..n], d) {
        var i :| 0 <= i < n && ps[..n][i].documentId == d;
        assert ps[i].documentId == d;
      }
      if HasDocument(ps, d) && ps[n].documentId != d {
        var i :| 0 <= i < |ps| && ps[i].documentId == d;
        assert ps[..n][i].documentId == d;
      }
    }
  }

  lemma {:induction false} EntryOfConcat(a: seq<Provenance>, b: seq<Provenance>, d: string)
    ensures EntryOf(a + b, d) == if EntryOf(b, d).Some? then EntryOf(b, d) else EntryOf(a, d)
  {
    if b == [] {
      assert a + b == a;
    } else {
      assert (a + b)[..|a + b| - 1] == a + b[..|b| - 1];
      EntryOfConcat(a, b[..|b| - 1], d);
    }
  }

  lemma {:induction false} UnseenEntries(stored: seq<Provenance>, added: seq<Provenance>, d: string)
    ensures EntryOf(Unseen(stored, added), d) == if HasDocument(added, d) then None else EntryOf(stored, d)
  {
    if stored != [] {
      var n := |stored| - 1;
      UnseenEntries(stored[..n], added, d);
      var rest := Unseen(stored[..n], added);
      if HasDocument(added, stored[n].documentId) {
        assert rest + [] == rest;
      } else {
        assert (rest + [stored[n]])[..|rest|] == rest;
      }
    }
  }

  lemma {:induction false} UnseenDistinct(stored: seq<Provenance>, added: seq<Provenance>)
    requires DistinctDocuments(stored)
    ensures DistinctDocuments(Unseen(stored, added))
    ensures forall i :: 0 <= i < |Unseen(stored, added)| ==>
      !HasDocument(added, Unseen(stored, added)[i].documentId) &&
        HasDocument(stored, Unseen(stored, added)[i].documentId)
  {
    if stored != [] {
      var n := |stored| - 1;
      UnseenDistinct(stored[..n], added);
      var rest := Unseen(stored[..n], added);
      forall i | 0 <= i < |rest|
        ensures HasDocument(stored, rest[i].documentId) && rest[i].documentId != stored[n].documentId
      {
        var j :| 0 <= j < n && stored[..n][j].documentId == rest[i].documentId;
        assert stored[j].documentId == rest[i].documentId;
      }
      if !HasDocument(added, stored[n].documentId) {
        assert stored[n].documentId == stored[n].documentId && HasDocument(stored, stored[n].documentId);
      }
    }
  }

  // ----------------------------------------------------------------- what a policy record holds

  /** The newest entry that the history has for a document. */
  function Newest(history: seq<Record>, d: string): Option<Provenance> {
    if history == [] then None
    else
      var n := |history| - 1;
      if EntryOf(history[n].provenance, d).Some? then EntryOf(history[n].provenance, d) else Newest(history[..n], d)
  }

  /** The earliest publication known to the history. */
  ghost predicate IsEarliest(history: seq<Record>, p: Option<int>) {
    && (p.None? ==> forall i :: 0 <= i < |history| ==> history[i].published.None?)
    && (p.Some? ==> exists i :: 0 <= i < |history| && history[i].published == p)
    && forall i :: 0 <= i < |history| && history[i].published.Some? ==> p.Some? && p.value <= history[i].published.value
  }

  /** A policy record sums up its history: the minimum publication, and exactly one entry per document, the newest. */
  ghost predicate SumsUp(record: Record, history: seq<Record>) {
    && IsEarliest(history, record.published)
    && DistinctDocuments(record.provenance)
    && forall d :: EntryOf(record.provenance, d) == Newest(history, d)
  }

  lemma EarliestExtends(history: seq<Record>, p: Option<int>, record: Record)
    requires IsEarliest(history, p)
    ensures IsEarliest(history + [record], Earlier(p, record.published))
  {
    var longer := history + [record];
    assert forall i :: 0 <= i < |history| ==> longer[i] == history[i];
    assert longer[|history|] == record;
    var q := Earlier(p, record.published);
    if q.Some? && q != record.published {
      var i :| 0 <= i < |history| && history[i].published == p;
      assert longer[i].published == q;
    }
  }

  lemma MergeSumsUp(stored: Record, history: seq<Record>, record: Record)
    requires SumsUp(stored, history) && DistinctDocuments(record.provenance)
    ensures SumsUp(MergeRecord(record, Some(stored)), history + [record])
  {
    var merged := MergeRecord(record, Some(stored));
    EarliestExtends(history, stored.published, record);
    UnseenDistinct(stored.provenance, record.provenance);
    forall d ensures EntryOf(merged.provenance, d) == Newest(history + [record], d) {
      assert (history + [record])[..|history|] == history;
      EntryOfConcat(record.provenance, Unseen(stored.provenance, record.provenance), d);
      UnseenEntries(stored.provenance, record.provenance, d);
      EntryOfHas(record.provenance, d);
    }
  }

  lemma FirstSumsUp(record: Record)
    requires DistinctDocuments(record.provenance)
    ensures SumsUp(record, [record])
  {
    EarliestExtends([], None, record);
    assert [] + [record] == [record];
    assert [record][..0] == [];
  }

  // ----------------------------------------------------------------- runs

  datatype Action =
    | Tick(elapsed: nat)
    | Submit(keys: seq<Alias>, candidate: Root, record: Record)

  function Next(s: State, ttl: nat, a: Action): State {
    match a
    case Tick(elapsed) => s.(now := s.now + elapsed)
    case Submit(keys, candidate, record) => Resolve(s, keys, candidate, record, ttl).1
  }

  function Run(s: State, ttl: nat, actions: seq<Action>): State {
    if actions == [] then s else Next(Run(s, ttl, actions[..|actions| - 1]), ttl, actions[|actions| - 1])
  }

  /** Each submitted record names a document at most once. */
  ghost predicate Proper(a: Action) {
    a.Submit? ==> DistinctDocuments(a.record.provenance)
  }

  /** A live alias points to a policy record that outlives it. */
  ghost predicate Dominated(s: State, ttl: nat) {
    && (forall r <- s.policies :: s.policies[r].expiry <= s.now + ttl)
    && (forall a <- s.aliases :: s.aliases[a].expiry <= s.now + ttl)
    && (forall a <- s.aliases :: s.now < s.aliases[a].expiry ==>
      s.aliases[a].value in s.policies && s.policies[s.aliases[a].value].expiry >= s.aliases[a].expiry)
  }

  /** A live policy record sums up what was resolved to it since it was created. */
  ghost predicate Faithful(s: State) {
    forall r <- s.policies :: s.now < s.policies[r].expiry ==>
      r in s.history && s.history[r] != [] && SumsUp(s.policies[r].value, s.history[r])
  }

  lemma ResolveKeepsDominated(s: State, keys: seq<Alias>, candidate: Root, record: Record, ttl: nat)
    requires Dominated(s, ttl)
    ensures Dominated(Resolve(s, keys, candidate, record, ttl).1, ttl)
  {
    var (reply, t) := Resolve(s, keys, candidate, record, ttl);
    if reply.Resolved? {
      var e := Entry(reply.root, s.now + ttl);
      forall a | a in t.aliases
        ensures t.aliases[a].expiry <= t.now + ttl
        ensures t.now < t.aliases[a].expiry ==>
          t.aliases[a].value in t.policies && t.policies[t.aliases[a].value].expiry >= t.aliases[a].expiry
      {
        BindAt(s.aliases, keys, e, a);
      }
    }
  }

  lemma ResolveKeepsFaithful(s: State, keys: seq<Alias>, candidate: Root, record: Record, ttl: nat)
    requires Faithful(s) && DistinctDocuments(record.provenance)
    ensures Faithful(Resolve(s, keys, candidate, record, ttl).1)
  {
    var (reply, t) := Resolve(s, keys, candidate, record, ttl);
    if reply.Resolved? {
      var existing := GetKey(s.policies, reply.root, s.now);
      if existing.Some? {
        MergeSumsUp(existing.value, s.history[reply.root], record);
      } else {
        FirstSumsUp(record);
        assert t.history[reply.root] == [record];
      }
    }
  }

  /** Over every run, a live alias has a live policy record at least as long-lived, and every live policy record holds
      the minimum non-null publication and exactly one entry, the newest, per document resolved to it. */
  lemma {:induction false} RegistryInvariant(ttl: nat, actions: seq<Action>)
    requires forall a <- actions :: Proper(a)
    ensures Dominated(Run(EMPTY, ttl, actions), ttl) && Faithful(Run(EMPTY, ttl, actions))
  {
    if actions != [] {
      var n := |actions| - 1;
      RegistryInvariant(ttl, actions[..n]);
      var s := Run(EMPTY, ttl, actions[..n]);
      assert Proper(actions[n]);
      if actions[n].Submit? {
        ResolveKeepsDominated(s, actions[n].keys, actions[n].candidate, actions[n].record, ttl);
        ResolveKeepsFaithful(s, actions[n].keys, actions[n].candidate, actions[n].record, ttl);
      }
    }
  }

  /** One script call never rebinds a live alias and never shortens its life; a conflict writes nothing at all; and
      every submitted key ends bound to the returned root. */
  lemma ResolveNeverRebinds(s: State, keys: seq<Alias>, candidate: Root, record: Record, ttl: nat, a: Alias)
    requires Dominated(s, ttl)
    ensures var (reply, t) := Resolve(s, keys, candidate, record, ttl);
      && (GetKey(s.aliases, a, s.now).Some? ==>
        a in t.aliases && t.aliases[a].value == s.aliases[a].value && t.aliases[a].expiry >= s.aliases[a].expiry)
      && (reply == Conflict ==> t == s)
      && (reply.Resolved? && a in keys ==> Lookup(t.aliases, a) == Some(Entry(reply.root, s.now + ttl)))
  {
    var (reply, t) := Resolve(s, keys, candidate, record, ttl);
    FindRootMeaning(s, keys);
    if reply.Resolved? {
      BindAt(s.aliases, keys, Entry(reply.root, s.now + ttl), a);
    }
  }

  /** The alias is live in every state of the run. */
  ghost predicate LiveThroughout(s: State, ttl: nat, actions: seq<Action>, a: Alias) {
    GetKey(Run(s, ttl, actions).aliases, a, Run(s, ttl, actions).now).Some?
    && (actions != [] ==> LiveThroughout(s, ttl, actions[..|actions| - 1], a))
  }

  lemma {:induction false} RunKeepsDominated(s: State, ttl: nat, actions: seq<Action>)
    requires Dominated(s, ttl)
    ensures Dominated(Run(s, ttl, actions), ttl)
  {
    if actions != [] {
      var n := |actions| - 1;
      RunKeepsDominated(s, ttl, actions[..n]);
      if actions[n].Submit? {
        ResolveKeepsDominated(Run(s, ttl, actions[..n]), actions[n].keys, actions[n].candidate, actions[n].record, ttl);
      }
    }
  }

  /** An alias keeps its root for as long as it stays live. */
  lemma {:induction false} LiveAliasKeepsRoot(s: State, ttl: nat, actions: seq<Action>, a: Alias)
    requires Dominated(s, ttl) && LiveThroughout(s, ttl, actions, a)
    ensures var t := Run(s, ttl, actions);
      GetKey(s.aliases, a, s.now).Some? && GetKey(t.aliases, a, t.now) == GetKey(s.aliases, a, s.now)
  {
    if actions != [] {
      var n := |actions| - 1;
      var mid := Run(s, ttl, actions[..n]);
      LiveAliasKeepsRoot(s, ttl, actions[..n], a);
      RunKeepsDominated(s, ttl, actions[..n]);
      if actions[n].Submit? {
        ResolveNeverRebinds(mid, actions[n].keys, actions[n].candidate, actions[n].record, ttl, a);
      }
    }
  }

  /** Two roots are never merged: the script succeeds exactly when the live keys do not disagree, and then only the
      returned root's record changes. */
  lemma RootsNeverMerge(s: State, keys: seq<Alias>, candidate: Root, record: Record, ttl: nat, other: Root)
    ensures var (reply, t) := Resolve(s, keys, candidate, record, ttl);
      && (reply == Conflict <==> Disagree(s, keys))
      && (reply == Conflict || other != reply.root ==> Lookup(t.policies, other) == Lookup(s.policies, other))
      && (reply.Resolved? ==> forall a <- keys ::
        GetKey(s.aliases, a, s.now).Some? ==> GetKey(s.aliases, a, s.now) == Some(reply.root))
  {
    FindRootMeaning(s, keys);
  }

  // ----------------------------------------------------------------- the script as it runs

  class Registry {
    var s: State
    const ttl: nat

    constructor (ttl: nat)
      ensures s == EMPTY && this.ttl == ttl
    {
      s := EMPTY;
      this.ttl := ttl;
    }

    /** Time passes and other processes submit events. */
    method Others(actions: seq<Action>)
      modifies this`s
      ensures s == Run(old(s), ttl, actions)
    {
      for n := 0 to |actions|
        invariant s == Run(old(s), ttl, actions[..n])
      {
        assert actions[..n + 1][..n] == actions[..n];
        s := Next(s, ttl, actions[n]);
      }
      assert actions[..|actions|] == actions;
    }

    /** The first loop of the script. */
    method AgreedRoot(keys: seq<Alias>) returns (r: Result<Option<Root>, ()>)
      ensures r == FindRoot(s, keys)
    {
      var root: Option<Root> := None;
      for i := 0 to |keys|
        invariant FindRoot(s, keys[..i]) == Ok(root)
      {
        assert keys[..i + 1][..i] == keys[..i];
        var value := GetKey(s.aliases, keys[i], s.now);
        if value.Some? {
          if root.Some? && root != value {
            ConflictPersists(keys, i + 1);
            return Err(());
          }
          root := value;
        }
      }
      assert keys[..|keys|] == keys;
      return Ok(root);
    }

    lemma {:induction false} ConflictPersists(keys: seq<Alias>, n: nat)
      requires n <= |keys| && FindRoot(s, keys[..n]) == Err(())
      ensures FindRoot(s, keys) == Err(())
      decreases |keys|
    {
      if n == |keys| {
        assert keys[..n] == keys;
      } else {
        assert keys[..|keys| - 1][..n] == keys[..n];
        ConflictPersists(keys[..|keys| - 1], n);
      }
    }

    /** The provenance loops: the record's own entries, then the stored ones whose document is not among them. */
    method MergeProvenance(own: seq<Provenance>, stored: seq<Provenance>) returns (merged: seq<Provenance>)
      ensures merged == own + Unseen(stored, own)
    {
      var seen: set<string> := {};
      for i := 0 to |own|
        invariant forall d :: d in seen <==> HasDocument(own[..i], d)
      {
        forall d ensures HasDocument(own[..i + 1], d) <==> HasDocument(own[..i], d) || own[i].documentId == d {
          EntryOfHas(own[..i + 1], d);
          EntryOfHas(own[..i], d);
          assert own[..i + 1][..i] == own[..i];
        }
        seen := seen + {own[i].documentId};
      }
      assert own[..|own|] == own;
      merged := own;
      for i := 0 to |stored|
        invariant merged == own + Unseen(stored[..i], own)
      {
        assert stored[..i + 1][..i] == stored[..i];
        if stored[i].documentId !in seen {
          merged := merged + [stored[i]];
        }
      }
      assert stored[..|stored|] == stored;
    }

    /** RESOLVE, key by key, on the shared state. */
    method Eval(keys: seq<Alias>, candidate: Root, record: Record) returns (reply: Reply)
      modifies this`s
      ensures (reply, s) == Resolve(old(s), keys, candidate, record, ttl)
    {
      var found := AgreedRoot(keys);
      if found.Err? {
        return Conflict;
      }
      var root := if found.value.Some? then found.value.value else candidate;
      var existing := GetKey(s.policies, root, s.now);
      var merged := record;
      if existing.Some? {
        var provenance := MergeProvenance(record.provenance, existing.value.provenance);
        merged := Record(Earlier(existing.value.published, record.published), provenance);
      }
      var past := if existing.Some? && root in s.history then s.history[root] else [];
      var e := Entry(root, s.now + ttl);
      var aliases := s.aliases;
      for i := 0 to |keys|
        invariant aliases == Bind(s.aliases, keys[..i], e)
      {
        assert keys[..i + 1][..i] == keys[..i];
        aliases := aliases[keys[i] := e];
      }
      assert keys[..|keys|] == keys;
      s := State(s.now, aliases, s.policies[root := Entry(merged, s.now + ttl)], s.history[root := past + [record]]);
      return Resolved(root, merged);
    }
  }
}
