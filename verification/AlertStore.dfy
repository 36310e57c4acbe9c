/** Any number of concurrent recorders over one shared cache (alert_engine/state_store.py). The marker read, the subject
    read and the compare-and-set commit are separate atomic steps, and a Redis error can hit any of them. */
module AlertStore {
  import opened Results
  import opened AlertState

  const MAX_COMMIT_ATTEMPTS := 3

  datatype Reply = Committed | AlreadySeen | SubjectChanged

  /** The commit script: write both keys only if the marker is absent and the subject is what was read. */
  function Commit(s: Store, id: string, key: SubjectKey, expected: Option<SubjectState>, next: SubjectState)
    : (Reply, Store)
  {
    if id in s.seen then (AlreadySeen, s)
    else if Lookup(s.subjects, key) != expected then (SubjectChanged, s)
    else (Committed, Store(s.seen + {id}, s.subjects[key := next]))
  }

  datatype Outcome = Decided(decision: Decision) | Unavailable | GaveUp

  /** `at` is the length of the commit log when the recorder finished (before its own commit, if it made one). */
  datatype Pc =
    | ReadMarker
    | ReadSubject(seen: bool)
    | TryCommit(raw: Option<SubjectState>, decision: Decision)
    | Finished(outcome: Outcome, at: nat)

  /** `base`, `snap` and `marker` are history: the number of commits on the subject when the call started and when the
      current attempt read the marker, and the length of the commit log at that read. */
  datatype Recorder = Recorder(alert: Alert, pc: Pc, failures: nat, base: nat, snap: nat, marker: nat)

  /** The cache, with the content it started from and, as history, the committed alerts in commit order and the
      recorders that committed them. */
  datatype Shared = Shared(initial: Store, store: Store, log: seq<Alert>, writers: seq<nat>)

  datatype System = System(shared: Shared, recorders: seq<Recorder>)

  datatype Action =
    | Start(alert: Alert)
    | Step(i: nat)
    | RedisError(i: nat)   // the command failed before taking effect
    | ReplyLost(i: nat)    // the command took effect, its reply did not arrive

  function Init(initial: Store): System {
    System(Shared(initial, initial, [], []), [])
  }

  /** How many alerts of the log belong to a subject. */
  function Hits(log: seq<Alert>, key: SubjectKey): nat {
    if log == [] then 0
    else
      var n := |log| - 1;
      Hits(log[..n], key) + (if KeyOf(log[n]) == key then 1 else 0)
  }

  function Finish(r: Recorder, outcome: Outcome, at: nat): Recorder {
    r.(pc := Finished(outcome, at))
  }

  function AfterRead(r: Recorder, raw: Option<SubjectState>, seen: bool, at: nat): Recorder {
    match Decide(r.alert, raw, seen)
    case Err(_) => Finish(r, Unavailable, at)
    case Ok(d) => if d.classification == New then r.(pc := TryCommit(raw, d)) else Finish(r, Decided(d), at)
  }

  /** The next atomic command of recorder `me`, and what it does to the cache. */
  function Advance(me: nat, r: Recorder, sh: Shared): (Recorder, Shared) {
    var key := KeyOf(r.alert);
    match r.pc
    case ReadMarker =>
      (r.(pc := ReadSubject(r.alert.id in sh.store.seen), snap := Hits(sh.log, key), marker := |sh.log|), sh)
    case ReadSubject(seen) => (AfterRead(r, Lookup(sh.store.subjects, key), seen, |sh.log|), sh)
    case TryCommit(raw, d) =>
      if d.state.None? then (r, sh)
      else
        var (reply, store) := Commit(sh.store, r.alert.id, key, raw, d.state.value);
        if reply == Committed then
          (Finish(r, Decided(d), |sh.log|),
           sh.(store := store, log := sh.log + [r.alert], writers := sh.writers + [me]))
        else if r.failures + 1 == MAX_COMMIT_ATTEMPTS then
          (Finish(r.(failures := r.failures + 1), GaveUp, |sh.log|), sh)
        else
          (r.(pc := ReadMarker, failures := r.failures + 1), sh)
    case Finished(_, _) => (r, sh)
  }

  /** A recorder the process abandons with `AlertStateUnavailable`. */
  function Abandon(r: Recorder, sh: Shared): Recorder {
    if r.pc.Finished? then r else Finish(r, Unavailable, |sh.log|)
  }

  function Next(sys: System, action: Action): System {
    match action
    case Start(alert) =>
      var hits := Hits(sys.shared.log, KeyOf(alert));
      sys.(recorders := sys.recorders + [Recorder(alert, ReadMarker, 0, hits, hits, 0)])
    case Step(i) =>
      if i < |sys.recorders| then
        var (r, sh) := Advance(i, sys.recorders[i], sys.shared);
        System(sh, sys.recorders[i := r])
      else sys
    case RedisError(i) =>
      if i < |sys.recorders| then sys.(recorders := sys.recorders[i := Abandon(sys.recorders[i], sys.shared)]) else sys
    case ReplyLost(i) =>
      if i < |sys.recorders| then
        var (_, sh) := Advance(i, sys.recorders[i], sys.shared);
        System(sh, sys.recorders[i := Abandon(sys.recorders[i], sh)])
      else sys
  }

  function Run(sys: System, actions: seq<Action>): System {
    if actions == [] then sys else Next(Run(sys, actions[..|actions| - 1]), actions[|actions| - 1])
  }

  // ----------------------------------------------------------------- the invariant

  /** What a recorder's program point promises about the shared store. */
  ghost predicate RecorderInv(sh: Shared, r: Recorder) {
    match r.pc
    case ReadMarker => true
    case ReadSubject(seen) => seen ==> r.alert.id in sh.store.seen
    case TryCommit(raw, d) => Decide(r.alert, raw, false) == Ok(d) && d.classification == New
    case Finished(Decided(d), at) => AnswerIsTrue(sh, r.alert, d, at)
    case Finished(_, _) => true
  }

  /** `new` names the alert's own place in the commit order and carries the replay's decision there; the two no-op
      answers are true of the cache. */
  ghost predicate AnswerIsTrue(sh: Shared, alert: Alert, d: Decision, at: nat) {
    match d.classification
    case New => at < |sh.log| && sh.log[at] == alert && DecideIn(alert, Fold(sh.log[..at], sh.initial)) == Ok(d)
    case Duplicate => alert.id in sh.store.seen
    case TerminalSuppressed => TerminalIn(sh.store, KeyOf(alert)) && d.state == Some(sh.store.subjects[KeyOf(alert)])
  }

  /** The cache is the replay of the committed alerts, each of which was new. */
  ghost predicate SharedInv(sh: Shared) {
    sh.store == Fold(sh.log, sh.initial) && AllNew(sh.log, sh.initial)
  }

  ghost predicate Inv(sys: System) {
    SharedInv(sys.shared) && forall i :: 0 <= i < |sys.recorders| ==> RecorderInv(sys.shared, sys.recorders[i])
  }

  /** `later` extends `sh` by commits only: what recorders may assume about each other's steps. */
  ghost predicate Grows(sh: Shared, later: Shared) {
    && later.initial == sh.initial
    && sh.log <= later.log
    && sh.store.seen <= later.store.seen
    && forall k <- sh.store.subjects :: sh.store.subjects[k].terminal ==>
      k in later.store.subjects && later.store.subjects[k] == sh.store.subjects[k]
  }

  lemma RecorderInvStable(sh: Shared, later: Shared, r: Recorder)
    requires RecorderInv(sh, r) && Grows(sh, later)
    ensures RecorderInv(later, r)
  {
    if r.pc.Finished? && r.pc.outcome.Decided? && r.pc.outcome.decision.classification == New {
      assert later.log[..r.pc.at] == sh.log[..r.pc.at];
    }
  }

  /** A successful commit is the acceptance of the alert by the pure fold. */
  lemma CommitAccepts(r: Recorder, sh: Shared)
    requires RecorderInv(sh, r) && r.pc.TryCommit?
    requires Commit(sh.store, r.alert.id, KeyOf(r.alert), r.pc.raw, r.pc.decision.state.value).0 == Committed
    ensures var store := Commit(sh.store, r.alert.id, KeyOf(r.alert), r.pc.raw, r.pc.decision.state.value).1;
      && IsNew(r.alert, sh.store) && DecideIn(r.alert, sh.store) == Ok(r.pc.decision)
      && store == Accept(r.alert, sh.store) && store.seen == sh.store.seen + {r.alert.id}
      && !TerminalIn(sh.store, KeyOf(r.alert))
      && store.subjects == sh.store.subjects[KeyOf(r.alert) := r.pc.decision.state.value]
  {
  }

  /** One command keeps the cache a replay; if it writes, it is the acceptance of one new alert by the pure fold. */
  lemma AdvanceShared(me: nat, r: Recorder, sh: Shared)
    requires SharedInv(sh) && RecorderInv(sh, r)
    ensures var (_, later) := Advance(me, r, sh);
      && SharedInv(later) && Grows(sh, later)
      && (later != sh ==>
        && r.pc.TryCommit? && IsNew(r.alert, sh.store) && DecideIn(r.alert, sh.store) == Ok(r.pc.decision)
        && later.store == Accept(r.alert, sh.store) && later.log == sh.log + [r.alert])
  {
    if r.pc.TryCommit? && Advance(me, r, sh).1 != sh {
      CommitAccepts(r, sh);
      AllNewExtend(sh.log, r.alert, sh.initial);
    }
  }

  lemma AdvanceOwn(me: nat, r: Recorder, sh: Shared)
    requires SharedInv(sh) && RecorderInv(sh, r)
    ensures var (r', later) := Advance(me, r, sh); RecorderInv(later, r')
  {
    var (r', later) := Advance(me, r, sh);
    match r.pc
    case TryCommit(raw, d) =>
      if later != sh {
        CommitAccepts(r, sh);
        assert later.log[..|sh.log|] == sh.log;
      }
    case ReadSubject(seen) => ReadDecides(r, sh, seen);
    case _ =>
  }

  lemma ReadDecides(r: Recorder, sh: Shared, seen: bool)
    requires RecorderInv(sh, r) && r.pc == ReadSubject(seen)
    ensures RecorderInv(sh, AfterRead(r, Lookup(sh.store.subjects, KeyOf(r.alert)), seen, |sh.log|))
  {
  }

  lemma NextKeepsInv(sys: System, action: Action)
    requires Inv(sys)
    ensures Inv(Next(sys, action)) && Grows(sys.shared, Next(sys, action).shared)
  {
    var t := Next(sys, action);
    if (action.Step? || action.ReplyLost?) && action.i < |sys.recorders| {
      assert RecorderInv(sys.shared, sys.recorders[action.i]);
      AdvanceShared(action.i, sys.recorders[action.i], sys.shared);
      AdvanceOwn(action.i, sys.recorders[action.i], sys.shared);
    }
    forall j | 0 <= j < |t.recorders| ensures RecorderInv(t.shared, t.recorders[j]) {
      if j < |sys.recorders| {
        RecorderInvStable(sys.shared, t.shared, sys.recorders[j]);
      }
    }
  }

  lemma {:induction false} RunKeepsInv(sys: System, actions: seq<Action>)
    requires Inv(sys)
    ensures Inv(Run(sys, actions)) && Grows(sys.shared, Run(sys, actions).shared)
  {
    if actions != [] {
      var n := |actions| - 1;
      RunKeepsInv(sys, actions[..n]);
      NextKeepsInv(Run(sys, actions[..n]), actions[n]);
    }
  }

  lemma {:induction false} InitialStays(sys: System, actions: seq<Action>)
    ensures Run(sys, actions).shared.initial == sys.shared.initial
  {
    if actions != [] {
      InitialStays(sys, actions[..|actions| - 1]);
    }
  }

  // ----------------------------------------------------------------- the main results

  /** Refinement: in every interleaving of any number of recorders, the cache is the replay of the committed alerts in
      commit order, each of them is new there, and no alert id commits twice. */
  lemma CacheRefinesReplay(initial: Store, actions: seq<Action>)
    ensures var sh := Run(Init(initial), actions).shared;
      && sh.store == Fold(sh.log, initial)
      && AllNew(sh.log, initial)
      && DistinctIds(sh.log)
      && Ids(sh.log) !! initial.seen
  {
    RunKeepsInv(Init(initial), actions);
    AllNewDistinct(Run(Init(initial), actions).shared.log, initial);
  }

  /** Once a subject is terminal, no further run changes it. */
  lemma TerminalNeverChanges(initial: Store, before: seq<Action>, after: seq<Action>, k: SubjectKey)
    requires TerminalIn(Run(Init(initial), before).shared.store, k)
    ensures var sys := Run(Init(initial), before); var later := Run(sys, after);
      TerminalIn(later.shared.store, k) && later.shared.store.subjects[k] == sys.shared.store.subjects[k]
  {
    RunKeepsInv(Init(initial), before);
    RunKeepsInv(Run(Init(initial), before), after);
  }

  /** Every answer a recorder has given is true in the final state of the run. */
  lemma AnswersAreTrue(initial: Store, actions: seq<Action>, i: nat)
    requires i < |Run(Init(initial), actions).recorders|
    requires Run(Init(initial), actions).recorders[i].pc.Finished?
    requires Run(Init(initial), actions).recorders[i].pc.outcome.Decided?
    ensures var sys := Run(Init(initial), actions); var r := sys.recorders[i];
      AnswerIsTrue(sys.shared, r.alert, r.pc.outcome.decision, r.pc.at)
  {
    RunKeepsInv(Init(initial), actions);
    var sys := Run(Init(initial), actions);
    assert RecorderInv(sys.shared, sys.recorders[i]);
  }

  /** Reading never writes: a step leaves the cache alone unless it is the commit of one alert that is new there. */
  lemma OnlyCommitsWrite(initial: Store, actions: seq<Action>, action: Action)
    ensures var sys := Run(Init(initial), actions); var later := Next(sys, action).shared;
      later != sys.shared ==>
        (action.Step? || action.ReplyLost?) && action.i < |sys.recorders| && sys.recorders[action.i].pc.TryCommit?
        && IsNew(sys.recorders[action.i].alert, sys.shared.store)
        && later.store == Accept(sys.recorders[action.i].alert, sys.shared.store)
        && later.log == sys.shared.log + [sys.recorders[action.i].alert]
  {
    RunKeepsInv(Init(initial), actions);
    var sys := Run(Init(initial), actions);
    if (action.Step? || action.ReplyLost?) && action.i < |sys.recorders| {
      assert RecorderInv(sys.shared, sys.recorders[action.i]);
      AdvanceShared(action.i, sys.recorders[action.i], sys.shared);
    }
  }

  // ----------------------------------------------------------------- one winner per alert

  ghost predicate SaidNew(r: Recorder) {
    r.pc.Finished? && r.pc.outcome.Decided? && r.pc.outcome.decision.classification == New
  }

  /** Recorders that answered `new` hold distinct places in the commit order. */
  ghost predicate OwnPlaces(sys: System) {
    forall i, j :: 0 <= i < j < |sys.recorders| && SaidNew(sys.recorders[i]) && SaidNew(sys.recorders[j]) ==>
      sys.recorders[i].pc.at != sys.recorders[j].pc.at
  }

  /** A recorder that just answered `new` took the next free place. */
  lemma NewPlaceIsFresh(me: nat, r: Recorder, sh: Shared)
    requires RecorderInv(sh, r) && SaidNew(Advance(me, r, sh).0)
    ensures r == Advance(me, r, sh).0 || Advance(me, r, sh).0.pc.at == |sh.log|
  {
  }

  lemma NextKeepsPlaces(sys: System, action: Action)
    requires Inv(sys) && OwnPlaces(sys)
    ensures OwnPlaces(Next(sys, action))
  {
    var t := Next(sys, action);
    forall i, j | 0 <= i < j < |t.recorders| && SaidNew(t.recorders[i]) && SaidNew(t.recorders[j])
      ensures t.recorders[i].pc.at != t.recorders[j].pc.at
    {
      PlaceBefore(sys, action, i);
      PlaceBefore(sys, action, j);
    }
  }

  lemma PlaceBefore(sys: System, action: Action, i: nat)
    requires Inv(sys) && i < |Next(sys, action).recorders| && SaidNew(Next(sys, action).recorders[i])
    ensures i < |sys.recorders|
    ensures var r := Next(sys, action).recorders[i];
      || (r == sys.recorders[i] && r.pc.at < |sys.shared.log|)
      || (action == Step(i) && r.pc.at == |sys.shared.log|)
  {
    if i < |sys.recorders| {
      assert RecorderInv(sys.shared, sys.recorders[i]);
      if action == Step(i) { NewPlaceIsFresh(i, sys.recorders[i], sys.shared); }
    }
  }

  lemma {:induction false} RunKeepsPlaces(sys: System, actions: seq<Action>)
    requires Inv(sys) && OwnPlaces(sys)
    ensures OwnPlaces(Run(sys, actions))
  {
    if actions != [] {
      var n := |actions| - 1;
      RunKeepsPlaces(sys, actions[..n]);
      RunKeepsInv(sys, actions[..n]);
      NextKeepsPlaces(Run(sys, actions[..n]), actions[n]);
    }
  }

  /** Two recorders never both report the same alert id as new. */
  lemma OneWinnerPerAlert(initial: Store, actions: seq<Action>, i: nat, j: nat)
    requires i < j < |Run(Init(initial), actions).recorders|
    requires SaidNew(Run(Init(initial), actions).recorders[i]) && SaidNew(Run(Init(initial), actions).recorders[j])
    ensures Run(Init(initial), actions).recorders[i].alert.id != Run(Init(initial), actions).recorders[j].alert.id
  {
    RunKeepsPlaces(Init(initial), actions);
    AnswersAreTrue(initial, actions, i);
    AnswersAreTrue(initial, actions, j);
    CacheRefinesReplay(initial, actions);
  }

  // ----------------------------------------------------------------- giving up

  /** Content-addressed ids: recorders working on the same id work on the same alert. */
  ghost predicate SealedRecorders(rs: seq<Recorder>) {
    forall i, j :: 0 <= i < |rs| && 0 <= j < |rs| && rs[i].alert.id == rs[j].alert.id ==> rs[i].alert == rs[j].alert
  }

  /** Every failed attempt of a recorder is paid for by a commit on its subject since its call started; and while no
      commit has hit the subject since the marker was read, what the recorder read is still true. */
  ghost predicate Paid(sh: Shared, r: Recorder) {
    var key := KeyOf(r.alert);
    var hits := Hits(sh.log, key);
    match r.pc
    case ReadMarker => r.base + r.failures <= hits
    case ReadSubject(seen) =>
      r.base + r.failures <= r.snap <= hits && (!seen && hits == r.snap ==> r.alert.id !in sh.store.seen)
    case TryCommit(raw, _) =>
      r.base + r.failures <= r.snap <= hits
      && (hits == r.snap ==> r.alert.id !in sh.store.seen && Lookup(sh.store.subjects, key) == raw)
    case Finished(GaveUp, _) => r.base + MAX_COMMIT_ATTEMPTS <= hits
    case Finished(_, _) => true
  }

  lemma PaidOwn(me: nat, r: Recorder, sh: Shared)
    requires SharedInv(sh) && RecorderInv(sh, r) && Paid(sh, r)
    ensures Paid(Advance(me, r, sh).1, Advance(me, r, sh).0)
  {
  }

  lemma PaidOther(r: Recorder, them: nat, other: Recorder, sh: Shared)
    requires SharedInv(sh) && RecorderInv(sh, other) && Paid(sh, r)
    requires r.alert.id == other.alert.id ==> r.alert == other.alert
    ensures Paid(Advance(them, other, sh).1, r)
  {
    AdvanceShared(them, other, sh);
  }

  ghost predicate AllPaid(sys: System) {
    Inv(sys) && SealedRecorders(sys.recorders)
    && forall i :: 0 <= i < |sys.recorders| ==> Paid(sys.shared, sys.recorders[i])
  }

  lemma NextKeepsPaid(sys: System, action: Action)
    requires AllPaid(sys) && SealedRecorders(Next(sys, action).recorders)
    ensures AllPaid(Next(sys, action))
  {
    NextKeepsInv(sys, action);
    var t := Next(sys, action);
    if (action.Step? || action.ReplyLost?) && action.i < |sys.recorders| {
      var own := sys.recorders[action.i];
      assert RecorderInv(sys.shared, own) && Paid(sys.shared, own);
      forall j | 0 <= j < |t.recorders| ensures Paid(t.shared, t.recorders[j]) {
        if j == action.i {
          PaidOwn(action.i, own, sys.shared);
          PaidOther(own, action.i, own, sys.shared);
        } else {
          PaidOther(sys.recorders[j], action.i, own, sys.shared);
        }
      }
    }
  }

  lemma {:induction false} RunKeepsPaid(initial: Store, actions: seq<Action>)
    requires SealedRecorders(Run(Init(initial), actions).recorders)
    ensures AllPaid(Run(Init(initial), actions))
  {
    if actions != [] {
      var n := |actions| - 1;
      var sys := Run(Init(initial), actions[..n]);
      forall i, j | 0 <= i < |sys.recorders| && 0 <= j < |sys.recorders|
        && sys.recorders[i].alert.id == sys.recorders[j].alert.id
        ensures sys.recorders[i].alert == sys.recorders[j].alert
      {
        var t := Next(sys, actions[n]);
        assert t.recorders[i].alert.id == t.recorders[j].alert.id;
      }
      RunKeepsPaid(initial, actions[..n]);
      NextKeepsPaid(sys, actions[n]);
    }
  }

  /** The places of the commit log that hold alerts about a subject. */
  ghost function CommitsAbout(log: seq<Alert>, key: SubjectKey): set<int> {
    set i | 0 <= i < |log| && About(log[i], key)
  }

  lemma {:induction false} HitsMeaning(log: seq<Alert>, key: SubjectKey)
    ensures Hits(log, key) == |CommitsAbout(log, key)|
  {
    if log != [] {
      var n := |log| - 1;
      HitsMeaning(log[..n], key);
      assert CommitsAbout(log, key) == CommitsAbout(log[..n], key) + if About(log[n], key) then {n} else {};
    }
  }

  /** What a recorder notes of the log when it starts. */
  lemma StartNotes(sys: System, alert: Alert)
    ensures var t := Next(sys, Start(alert));
      && |t.recorders| == |sys.recorders| + 1
      && t.recorders[|sys.recorders|].base == |CommitsAbout(sys.shared.log, KeyOf(alert))|
  {
    HitsMeaning(sys.shared.log, KeyOf(alert));
  }

  /** A call gives up only if at least three alerts were committed on its subject while it ran. */
  lemma GivesUpOnlyUnderContention(initial: Store, actions: seq<Action>, i: nat)
    requires SealedRecorders(Run(Init(initial), actions).recorders)
    requires i < |Run(Init(initial), actions).recorders|
    requires Run(Init(initial), actions).recorders[i].pc.Finished?
    requires Run(Init(initial), actions).recorders[i].pc.outcome.GaveUp?
    ensures var sys := Run(Init(initial), actions); var r := sys.recorders[i];
      |CommitsAbout(sys.shared.log, KeyOf(r.alert))| >= r.base + 3
  {
    RunKeepsPaid(initial, actions);
    HitsMeaning(Run(Init(initial), actions).shared.log, KeyOf(Run(Init(initial), actions).recorders[i].alert));
    assert Paid(Run(Init(initial), actions).shared, Run(Init(initial), actions).recorders[i]);
  }

  // ----------------------------------------------------------------- a call alone

  /** A recorder whose three commands meet no commit in between: its answer is the pure decision on the cache it found,
      and the cache becomes the pure next store. */
  lemma UncontendedRecord(me: nat, alert: Alert, sh: Shared, base: nat)
    requires DecideIn(alert, sh.store).Ok?
    ensures var (r1, s1) := Advance(me, Recorder(alert, ReadMarker, 0, base, base, 0), sh);
      var (r2, s2) := Advance(me, r1, s1);
      var (r3, s3) := Advance(me, r2, s2);
      r3.pc.Finished? && r3.pc.outcome == Decided(DecideIn(alert, sh.store).value)
      && s3.store == Accept(alert, sh.store)
  {
  }

  /** What a recorder noted when it started stays with it. */
  lemma {:induction false} BaseStays(sys: System, before: seq<Action>, after: seq<Action>, i: nat)
    requires i < |Run(sys, before).recorders|
    ensures var s, t := Run(sys, before), Run(sys, before + after);
      i < |t.recorders| && t.recorders[i].base == s.recorders[i].base && t.recorders[i].alert == s.recorders[i].alert
  {
    if after == [] {
      assert before + after == before;
    } else {
      var n := |after| - 1;
      assert (before + after)[..|before + after| - 1] == before + after[..n];
      BaseStays(sys, before, after[..n], i);
    }
  }

  lemma RunSnoc(sys: System, actions: seq<Action>, action: Action)
    ensures Run(sys, actions + [action]) == Next(Run(sys, actions), action)
  {
    assert (actions + [action])[..|actions|] == actions;
  }
}
