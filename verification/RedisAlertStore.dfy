/** The alert store as a client object: `record` command by command among rival clients, and the single-writer `restore`
    (alert_engine/state_store.py). */
module RedisAlertStore {
  import opened Results
  import opened AlertState
  import opened AlertStore

  /** What the connection does to one command. */
  datatype Fault = NoFault | BeforeEffect | AfterEffect

  /** The shared cache together with everything that has happened to it. */
  class RecorderClient {
    var sys: System
    ghost var trace: seq<Action>
    ghost const initial: Store

    /** The object's history is a run of the recorder machine. */
    ghost predicate Valid() reads this {
      sys == Run(Init(initial), trace)
    }

    constructor (initial: Store)
      ensures Valid() && trace == [] && this.initial == initial && sys.shared.store == initial
    {
      this.initial := initial;
      sys := Init(initial);
      trace := [];
    }

    method Do(action: Action)
      requires Valid()
      modifies this
      ensures Valid() && sys == Next(old(sys), action) && trace == old(trace) + [action]
    {
      RunSnoc(Init(initial), trace, action);
      sys := Next(sys, action);
      trace := trace + [action];
    }

    /** Other clients act between two commands of recorder `me`. */
    method Rivals(me: nat, actions: seq<Action>)
      requires Valid() && me < |sys.recorders|
      modifies this
      ensures Valid() && old(trace) <= trace
      ensures me < |sys.recorders| && sys.recorders[me] == old(sys.recorders[me])
      ensures actions == [] ==> sys == old(sys)
    {
      for n := 0 to |actions|
        invariant Valid() && old(trace) <= trace && (n == 0 ==> sys == old(sys))
        invariant me < |sys.recorders| && sys.recorders[me] == old(sys.recorders[me])
      {
        if actions[n].Start? || actions[n].i != me {
          Do(actions[n]);
        }
      }
    }

    /** Recorder `me` of the machine: whose alert it is, how often its commit failed, and where it stands. */
    ghost predicate At(me: nat, alert: Alert, failures: nat, pc: Pc) reads this {
      me < |sys.recorders| && sys.recorders[me].alert == alert && sys.recorders[me].failures == failures
      && sys.recorders[me].pc == pc
    }

    ghost predicate FinishedAs(me: nat, alert: Alert, outcome: Outcome) reads this {
      me < |sys.recorders| && sys.recorders[me].alert == alert
      && sys.recorders[me].pc.Finished? && sys.recorders[me].pc.outcome == outcome
    }

    /** Whether the stored states can be used: then only the connection can make a call unavailable. */
    ghost predicate Usable() reads this {
      ValidStore(initial)
    }

    lemma UsableStore()
      requires Valid() && Usable()
      ensures ValidStore(sys.shared.store)
    {
      RunKeepsInv(Init(initial), trace);
      InitialStays(Init(initial), trace);
      FoldValid(sys.shared.log, initial);
    }

    /** EXISTS on the seen marker. */
    method ReadSeenMarker(me: nat, alert: Alert, ghost failures: nat, rivals: seq<Action>, fault: Fault)
      returns (seen: Option<bool>)
      requires Valid() && At(me, alert, failures, ReadMarker)
      modifies this
      ensures Valid() && old(trace) <= trace
      ensures if seen.Some? then At(me, alert, failures, ReadSubject(seen.value))
              else FinishedAs(me, alert, Unavailable)
      ensures seen.None? <==> fault != NoFault
      ensures rivals == [] && seen.Some? ==>
        sys.shared == old(sys.shared) && seen.value == (alert.id in sys.shared.store.seen)
    {
      Rivals(me, rivals);
      if fault != NoFault {
        Do(RedisError(me));
        return None;
      }
      seen := Some(alert.id in sys.shared.store.seen);
      Do(Step(me));
    }

    /** GET of the subject and the pure decision on what was read. */
    method ReadAndDecide(me: nat, alert: Alert, ghost failures: nat, seen: bool, rivals: seq<Action>, fault: Fault)
      returns (done: Option<Outcome>, raw: Option<SubjectState>, decision: Option<Decision>)
      requires Valid() && At(me, alert, failures, ReadSubject(seen))
      modifies this
      ensures Valid() && old(trace) <= trace
      ensures done.Some? ==> FinishedAs(me, alert, done.value) && done.value != GaveUp
      ensures done.None? ==> decision.Some? && decision.value.classification == New && decision.value.state.Some?
      ensures done.None? ==> At(me, alert, failures, TryCommit(raw, decision.value))
      ensures fault != NoFault ==> done == Some(Unavailable)
      ensures fault == NoFault && Usable() ==> done != Some(Unavailable)
      ensures rivals == [] && fault == NoFault ==>
        sys.shared == old(sys.shared) && raw == Lookup(sys.shared.store.subjects, KeyOf(alert))
        && match Decide(alert, raw, seen)
           case Err(_) => done == Some(Unavailable)
           case Ok(d) => decision == Some(d) && done == if d.classification == New then None else Some(Decided(d))
    {
      Rivals(me, rivals);
      if fault != NoFault {
        Do(RedisError(me));
        return Some(Unavailable), None, None;
      }
      if ValidStore(initial) { UsableStore(); }
      raw := Lookup(sys.shared.store.subjects, KeyOf(alert));
      var d := Decide(alert, raw, seen);
      Do(Step(me));
      if d.Err? {
        return Some(Unavailable), raw, None;
      }
      decision := Some(d.value);
      done := if d.value.classification == New then None else Some(Decided(d.value));
    }

    /** The commit script; a lost reply may leave it applied. */
    method TryToCommit(me: nat, alert: Alert, ghost failures: nat, raw: Option<SubjectState>, decision: Decision,
                       rivals: seq<Action>, fault: Fault)
      returns (done: Option<Outcome>)
      requires Valid() && At(me, alert, failures, TryCommit(raw, decision)) && failures < MAX_COMMIT_ATTEMPTS
      requires decision.state.Some?
      modifies this
      ensures Valid() && old(trace) <= trace
      ensures done.Some? ==> FinishedAs(me, alert, done.value)
      ensures done.None? ==>
        if failures + 1 == MAX_COMMIT_ATTEMPTS then FinishedAs(me, alert, GaveUp)
        else At(me, alert, failures + 1, ReadMarker)
      ensures if fault != NoFault then done == Some(Unavailable) else done in {None, Some(Decided(decision))}
      ensures rivals == [] && fault == NoFault && decision.state.Some? ==>
        var (reply, store) := Commit(old(sys.shared.store), alert.id, KeyOf(alert), raw, decision.state.value);
        sys.shared.store == store && (done == Some(Decided(decision)) <==> reply == Committed)
    {
      Rivals(me, rivals);
      if fault != NoFault {
        Do(if fault == AfterEffect then ReplyLost(me) else RedisError(me));
        return Some(Unavailable);
      }
      var (reply, _) := Commit(sys.shared.store, alert.id, KeyOf(alert), raw, decision.state.value);
      Do(Step(me));
      done := if reply == Committed then Some(Decided(decision)) else None;
    }

    /** One `record` call: at most three rounds of marker read, subject read and commit, with rivals before each command
        and a possible connection fault at each. The call is one recorder of the machine, and what it returns is what
        that recorder answered: a decision is true, and with usable states it is unavailable only after a fault. */
    method Record(alert: Alert, rivals: nat -> seq<Action>, faults: nat -> Fault) returns (outcome: Outcome)
      requires Valid()
      modifies this
      ensures Valid() && old(trace) <= trace
      ensures FinishedAs(old(|sys.recorders|), alert, outcome)
      ensures outcome.Decided? ==>
        AnswerIsTrue(sys.shared, alert, outcome.decision, sys.recorders[old(|sys.recorders|)].pc.at)
      ensures outcome == Unavailable && Usable() ==>
        exists n: nat :: n < 3 * MAX_COMMIT_ATTEMPTS && faults(n) != NoFault
      ensures faults(0) != NoFault ==> outcome == Unavailable
      ensures outcome == GaveUp && SealedRecorders(sys.recorders) ==>
        |CommitsAbout(sys.shared.log, KeyOf(alert))| >= |CommitsAbout(old(sys.shared.log), KeyOf(alert))| + 3
      ensures Quiet(rivals, faults) && DecideIn(alert, old(sys.shared.store)).Ok? ==>
        outcome == Decided(DecideIn(alert, old(sys.shared.store)).value)
        && sys.shared.store == Accept(alert, old(sys.shared.store))
    {
      var me := |sys.recorders|;
      StartNotes(sys, alert);
      Do(Start(alert));
      ghost var began := trace;
      for attempt := 0 to MAX_COMMIT_ATTEMPTS
        invariant attempt == 0 || faults(0) == NoFault
        invariant Valid() && old(trace) <= trace && began <= trace
        invariant attempt == 0 ==> sys.shared == old(sys.shared)
        invariant attempt > 0 ==> !(Quiet(rivals, faults) && DecideIn(alert, old(sys.shared.store)).Ok?)
        invariant if attempt < MAX_COMMIT_ATTEMPTS then At(me, alert, attempt, ReadMarker)
                  else FinishedAs(me, alert, GaveUp)
      {
        var done := Round(me, alert, attempt, rivals, faults);
        if done.Some? {
          if done.value.Decided? { Answered(me); }
          return done.value;
        }
      }
      GaveUpAfter(me, alert, began);
      return GaveUp;
    }

    /** One round; `None` if the commit failed because another client was faster. */
    method Round(me: nat, alert: Alert, attempt: nat, rivals: nat -> seq<Action>, faults: nat -> Fault)
      returns (done: Option<Outcome>)
      requires Valid() && At(me, alert, attempt, ReadMarker) && attempt < MAX_COMMIT_ATTEMPTS
      modifies this
      ensures Valid() && old(trace) <= trace
      ensures done.Some? ==> FinishedAs(me, alert, done.value) && done.value != GaveUp
      ensures done.None? ==> if attempt + 1 == MAX_COMMIT_ATTEMPTS then FinishedAs(me, alert, GaveUp)
                             else At(me, alert, attempt + 1, ReadMarker)
      ensures faults(3 * attempt) != NoFault ==> done == Some(Unavailable)
      ensures done == Some(Unavailable) && Usable() ==> exists n: nat :: n < 3 * attempt + 3 && faults(n) != NoFault
      ensures Quiet(rivals, faults) && DecideIn(alert, old(sys.shared.store)).Ok? ==>
        done == Some(Decided(DecideIn(alert, old(sys.shared.store)).value))
        && sys.shared.store == Accept(alert, old(sys.shared.store))
    {
      var seen := ReadSeenMarker(me, alert, attempt, rivals(3 * attempt), faults(3 * attempt));
      if seen.None? {
        return Some(Unavailable);
      }
      var raw, decision;
      done, raw, decision :=
        ReadAndDecide(me, alert, attempt, seen.value, rivals(3 * attempt + 1), faults(3 * attempt + 1));
      if done.None? {
        done :=
          TryToCommit(me, alert, attempt, raw, decision.value, rivals(3 * attempt + 2), faults(3 * attempt + 2));
      }
    }

    /** A call that lost three rounds: three more commits on its subject than when it began. */
    lemma GaveUpAfter(me: nat, alert: Alert, began: seq<Action>)
      requires Valid() && FinishedAs(me, alert, GaveUp) && began <= trace
      requires me < |Run(Init(initial), began).recorders|
      ensures SealedRecorders(sys.recorders) ==>
        |CommitsAbout(sys.shared.log, KeyOf(alert))| >= Run(Init(initial), began).recorders[me].base + 3
    {
      if SealedRecorders(sys.recorders) {
        assert trace == began + trace[|began|..];
        BaseStays(Init(initial), began, trace[|began|..], me);
        GivesUpOnlyUnderContention(initial, trace, me);
      }
    }

    /** No other client acts and no command fails. */
    ghost predicate Quiet(rivals: nat -> seq<Action>, faults: nat -> Fault) {
      forall n :: rivals(n) == [] && faults(n) == NoFault
    }

    lemma Answered(me: nat)
      requires Valid() && me < |sys.recorders|
      requires sys.recorders[me].pc.Finished? && sys.recorders[me].pc.outcome.Decided?
      ensures AnswerIsTrue(sys.shared, sys.recorders[me].alert, sys.recorders[me].pc.outcome.decision,
        sys.recorders[me].pc.at)
    {
      AnswersAreTrue(initial, trace, me);
    }
  }

  // ----------------------------------------------------------------- restore

  /** No cached subject disagrees with the replayed one. */
  ghost predicate Agrees(s: Store, target: Store) {
    forall k <- s.subjects :: k in target.subjects ==> s.subjects[k] == target.subjects[k]
  }

  /** The cache with the missing keys of the replay added. */
  function Merge(s: Store, target: Store): Store {
    Store(s.seen + target.seen, target.subjects + s.subjects)
  }

  /** Only missing keys were added, and only with replayed values. */
  ghost predicate Partway(s: Store, mid: Store, target: Store) {
    && s.seen <= mid.seen <= s.seen + target.seen
    && s.subjects.Keys <= mid.subjects.Keys <= s.subjects.Keys + target.subjects.Keys
    && (forall k <- s.subjects :: mid.subjects[k] == s.subjects[k])
    && (forall k <- mid.subjects :: k !in s.subjects ==> mid.subjects[k] == target.subjects[k])
  }

  function PutMissing(s: Store, key: SubjectKey, value: SubjectState): Store {
    if key in s.subjects then s else s.(subjects := s.subjects[key := value])
  }

  /** The cache after the restore script ran for each key in turn. */
  function Fill(s: Store, target: Store, keys: seq<SubjectKey>): Store
    requires forall k <- keys :: k in target.subjects
  {
    if keys == [] then s
    else
      var n := |keys| - 1;
      PutMissing(Fill(s, target, keys[..n]), keys[n], target.subjects[keys[n]])
  }

  lemma {:induction false} FillIsPartway(s: Store, target: Store, keys: seq<SubjectKey>)
    requires Agrees(s, target) && forall k <- keys :: k in target.subjects
    ensures Partway(s, Fill(s, target, keys), target) && Fill(s, target, keys).seen == s.seen
    ensures Agrees(Fill(s, target, keys), target)
    ensures forall k <- keys :: k in Fill(s, target, keys).subjects
  {
    if keys != [] {
      FillIsPartway(s, target, keys[..|keys| - 1]);
    }
  }

  /** A crash anywhere in a restore leaves a cache that a second restore completes to the same result. */
  lemma ResumeCompletes(s: Store, mid: Store, target: Store)
    requires Agrees(s, target) && Partway(s, mid, target)
    ensures Agrees(mid, target) && Merge(mid, target) == Merge(s, target)
  {
    assert Merge(mid, target).subjects == Merge(s, target).subjects;
  }

  /** Restoring a replay into an empty cache rebuilds the cache that recording would have produced, and recording goes
      on from it exactly as if the cache had never been lost. */
  lemma RestoreContinuesHistory(history: seq<Alert>, later: seq<Alert>)
    ensures var restored := Merge(EMPTY, Fold(history, EMPTY));
      && restored == Fold(NewOnly(history, EMPTY), EMPTY)
      && Fold(later, restored) == Fold(history + later, EMPTY)
  {
    var replayed := Fold(history, EMPTY);
    assert Merge(EMPTY, replayed).subjects == replayed.subjects;
    ReplayOfNewSubsequence(history, EMPTY);
    FoldAppend(history, later, EMPTY);
  }

  datatype RestoreOutcome =
    | Restored(subjects: int, markers: int)
    | Refused        // the cache disagrees with sealed history
    | RestoreFailed  // a Redis error

  class AlertCache {
    var store: Store

    /** RESTORE_SUBJECT: 1 written, 0 already equal, -1 conflicting. */
    method RestoreSubject(key: SubjectKey, value: SubjectState) returns (result: int)
      modifies this
      ensures result == (if key !in old(store).subjects then 1 else if old(store).subjects[key] == value then 0 else -1)
      ensures store == PutMissing(old(store), key, value)
    {
      if key !in store.subjects {
        store := store.(subjects := store.subjects[key := value]);
        return 1;
      }
      return if store.subjects[key] == value then 0 else -1;
    }

    /** The check phase: `None` when every cached subject agrees with the replay. */
    method CheckAll(target: Store, keys: seq<SubjectKey>, budget: nat) returns (stop: Option<RestoreOutcome>)
      requires forall k :: k in keys <==> k in target.subjects
      ensures stop.None? ==> Agrees(store, target) && budget >= |keys|
      ensures stop == Some(Refused) ==> !Agrees(store, target)
      ensures stop.Some? ==> stop == Some(Refused) || (stop == Some(RestoreFailed) && budget < |keys|)
    {
      for i := 0 to |keys|
        invariant i <= budget
        invariant forall j :: 0 <= j < i && keys[j] in store.subjects ==>
          store.subjects[keys[j]] == target.subjects[keys[j]]
      {
        if budget == i { return Some(RestoreFailed); }
        if keys[i] in store.subjects && store.subjects[keys[i]] != target.subjects[keys[i]] {
          return Some(Refused);
        }
      }
      return None;
    }

    method WriteSubjects(target: Store, keys: seq<SubjectKey>, budget: nat) returns (failed: bool, written: int)
      requires forall k :: k in keys <==> k in target.subjects
      requires Agrees(store, target)
      modifies this
      ensures Partway(old(store), store, target) && store.seen == old(store).seen
      ensures failed <==> budget < |keys|
      ensures !failed ==> target.subjects.Keys <= store.subjects.Keys
      ensures written == |store.subjects| - |old(store).subjects|
    {
      written := 0;
      for i := 0 to |keys|
        invariant i <= budget
        invariant store == Fill(old(store), target, keys[..i])
        invariant written == |store.subjects| - |old(store).subjects|
      {
        FillIsPartway(old(store), target, keys[..i]);
        if budget == i { return true, written; }
        assert keys[..i + 1][..i] == keys[..i] && keys[i] in keys;
        var result := RestoreSubject(keys[i], target.subjects[keys[i]]);
        written := written + result;
      }
      assert keys[..|keys|] == keys;
      FillIsPartway(old(store), target, keys);
      return false, written;
    }

    method WriteMarkers(target: Store, ids: seq<string>, budget: nat) returns (failed: bool, written: int)
      requires forall id :: id in ids <==> id in target.seen
      modifies this
      ensures store.subjects == old(store).subjects && old(store).seen <= store.seen <= old(store).seen + target.seen
      ensures failed <==> budget < |ids|
      ensures !failed ==> target.seen <= store.seen
      ensures written == |store.seen| - |old(store).seen|
    {
      written := 0;
      for i := 0 to |ids|
        invariant i <= budget
        invariant store.subjects == old(store).subjects
        invariant old(store).seen <= store.seen <= old(store).seen + target.seen
        invariant forall j :: 0 <= j < i ==> ids[j] in store.seen
        invariant written == |store.seen| - |old(store).seen|
      {
        if budget == i { return true, written; }
        assert ids[i] in ids;
        if ids[i] !in store.seen {
          written := written + 1;
          store := store.(seen := store.seen + {ids[i]});
        }
      }
      return false, written;
    }

    /** Write the missing keys of a replay; `keys` and `ids` list it in order, and the connection survives `budget`
        commands. A disagreement writes nothing; a failure leaves a cache that a rerun completes (`ResumeCompletes`). */
    method Restore(target: Store, keys: seq<SubjectKey>, ids: seq<string>, budget: nat) returns (r: RestoreOutcome)
      requires (forall k :: k in keys <==> k in target.subjects) && forall id :: id in ids <==> id in target.seen
      modifies this
      ensures !Agrees(old(store), target) ==> store == old(store) && !r.Restored?
      ensures Agrees(old(store), target) ==> !r.Refused? && Partway(old(store), store, target)
      ensures r.Restored? ==> store == Merge(old(store), target)
      ensures r.Restored? ==>
        r.subjects == |store.subjects| - |old(store).subjects| && r.markers == |store.seen| - |old(store).seen|
      ensures budget >= 2 * |keys| + |ids| ==> !r.RestoreFailed?
    {
      var stop := CheckAll(target, keys, budget);
      if stop.Some? {
        return stop.value;
      }
      var failed, subjects := WriteSubjects(target, keys, budget - |keys|);
      if failed {
        return RestoreFailed;
      }
      ghost var mid := store;
      var markers;
      failed, markers := WriteMarkers(target, ids, budget - 2 * |keys|);
      if failed {
        return RestoreFailed;
      }
      CompleteIsMerge(old(store), store, target);
      return Restored(subjects, markers);
    }
  }

  lemma CompleteIsMerge(s: Store, done: Store, target: Store)
    requires Agrees(s, target) && Partway(s, done, target)
    requires target.seen <= done.seen && target.subjects.Keys <= done.subjects.Keys
    ensures done == Merge(s, target)
  {
    assert done.subjects == Merge(s, target).subjects;
  }
}
