/** What the answers of `record` say about the cache, exactly: which failed calls wrote nevertheless, and when the
    two-command read makes a recorder answer `terminal_suppressed` for an alert that is already seen
    (alert_engine/state_store.py). */
module AlertOutcomes {
  import opened Results
  import opened AlertState
  import opened AlertStore

  // ----------------------------------------------------------------- who wrote

  /** At some point of the run the reply of recorder `i`'s commit was lost although its script had committed. */
  ghost predicate CommitReplyLost(initial: Store, actions: seq<Action>, i: nat) {
    actions != [] &&
      var n := |actions| - 1;
      CommitReplyLost(initial, actions[..n], i) || LosesCommit(Run(Init(initial), actions[..n]), actions[n], i)
  }

  ghost predicate LosesCommit(sys: System, action: Action, i: nat) {
    action == ReplyLost(i) && i < |sys.recorders| && Commits(sys.recorders[i], sys.shared.store)
  }

  predicate Commits(r: Recorder, s: Store) {
    && r.pc.TryCommit? && r.pc.decision.state.Some?
    && Commit(s, r.alert.id, KeyOf(r.alert), r.pc.raw, r.pc.decision.state.value).0 == Committed
  }

  /** Each entry of the commit log is the alert of the recorder that wrote it. */
  ghost predicate Signed(sys: System) {
    && |sys.shared.writers| == |sys.shared.log|
    && forall k :: 0 <= k < |sys.shared.log| ==>
      sys.shared.writers[k] < |sys.recorders| && sys.recorders[sys.shared.writers[k]].alert == sys.shared.log[k]
  }

  /** One action: exactly the committing recorder is added to the writers. */
  lemma NextWrites(sys: System, action: Action, i: nat)
    requires Inv(sys) && i < |sys.recorders|
    ensures var t := Next(sys, action);
      var mine := action in {Step(i), ReplyLost(i)} && Commits(sys.recorders[i], sys.shared.store);
      && (i in t.shared.writers <==> i in sys.shared.writers || mine)
      && (SaidNew(t.recorders[i]) <==> SaidNew(sys.recorders[i]) || (mine && action.Step?))
  {
    assert RecorderInv(sys.shared, sys.recorders[i]);
  }

  lemma NextKeepsSigned(sys: System, action: Action)
    requires Signed(sys)
    ensures Signed(Next(sys, action))
  {
  }

  lemma {:induction false} RunIsSigned(initial: Store, actions: seq<Action>)
    ensures Signed(Run(Init(initial), actions))
  {
    if actions != [] {
      var n := |actions| - 1;
      RunIsSigned(initial, actions[..n]);
      NextKeepsSigned(Run(Init(initial), actions[..n]), actions[n]);
    }
  }

  /** A recorder has written exactly if it answered `new`, or its commit's reply was lost. */
  ghost predicate Accounted(sys: System, i: nat, lost: bool) {
    if i < |sys.recorders| then
      && (i in sys.shared.writers <==> SaidNew(sys.recorders[i]) || lost)
      && (lost ==> sys.recorders[i].pc.Finished? && sys.recorders[i].pc.outcome.Unavailable?)
    else
      !lost && i !in sys.shared.writers
  }

  lemma NextAccounts(sys: System, action: Action, i: nat, lost: bool)
    requires Inv(sys) && Accounted(sys, i, lost)
    ensures Accounted(Next(sys, action), i, lost || LosesCommit(sys, action, i))
  {
    if i < |sys.recorders| {
      NextWrites(sys, action, i);
    }
  }

  lemma {:induction false} WriterIsAccounted(initial: Store, actions: seq<Action>, i: nat)
    ensures Accounted(Run(Init(initial), actions), i, CommitReplyLost(initial, actions, i))
  {
    if actions != [] {
      var n := |actions| - 1;
      var sys := Run(Init(initial), actions[..n]);
      WriterIsAccounted(initial, actions[..n], i);
      RunKeepsInv(Init(initial), actions[..n]);
      NextAccounts(sys, actions[n], i, CommitReplyLost(initial, actions[..n], i));
    }
  }

  /** "Nothing was recorded" holds of a call that ends without a decision if and only if its commit's reply was not lost
      after the script had committed; in particular a call that gave up has written nothing. */
  lemma FailedCallWroteExactly(initial: Store, actions: seq<Action>, i: nat)
    requires i < |Run(Init(initial), actions).recorders|
    requires Run(Init(initial), actions).recorders[i].pc.Finished?
    ensures var sys := Run(Init(initial), actions); var outcome := sys.recorders[i].pc.outcome;
      && (!outcome.Decided? ==> (i in sys.shared.writers <==> CommitReplyLost(initial, actions, i)))
      && (outcome.GaveUp? ==> i !in sys.shared.writers)
      && (outcome.Decided? ==> (i in sys.shared.writers <==> outcome.decision.classification == New))
      && Signed(sys)
  {
    WriterIsAccounted(initial, actions, i);
    RunIsSigned(initial, actions);
  }

  /** The failing input: any new alert whose commit is applied while the connection breaks. */
  lemma LostReplyRecords(initial: Store, a: Alert) returns (run: seq<Action>)
    requires IsNew(a, initial)
    ensures var sys := Run(Init(initial), run);
      && |sys.recorders| == 1 && sys.recorders[0].pc.Finished? && sys.recorders[0].pc.outcome == Unavailable
      && sys.shared.log == [a] && sys.shared.writers == [0] && a.id in sys.shared.store.seen
  {
    run := BeforeCommit(initial, a, []);
    RunSnoc(Init(initial), run, ReplyLost(0));
    run := run + [ReplyLost(0)];
  }

  /** A recorder, and possibly a second one that has read the marker, just before the first one's commit. */
  lemma BeforeCommit(initial: Store, a: Alert, second: seq<Action>) returns (run: seq<Action>)
    requires IsNew(a, initial) && second in {[], [Start(a), Step(1)]}
    ensures var sys := Run(Init(initial), run);
      && sys.shared == Init(initial).shared && |sys.recorders| == (if second == [] then 1 else 2)
      && sys.recorders[0].alert == a && sys.recorders[0].failures == 0
      && sys.recorders[0].pc == TryCommit(Lookup(initial.subjects, KeyOf(a)), DecideIn(a, initial).value)
      && (second != [] ==> sys.recorders[1].alert == a && sys.recorders[1].pc == ReadSubject(false))
  {
    run := [Start(a)];
    RunSnoc(Init(initial), [], Start(a));
    assert [] + [Start(a)] == run;
    if second != [] {
      RunSnoc(Init(initial), run, Start(a));
      RunSnoc(Init(initial), run + [Start(a)], Step(1));
      run := run + [Start(a)] + [Step(1)];
    }
    RunSnoc(Init(initial), run, Step(0));
    RunSnoc(Init(initial), run + [Step(0)], Step(0));
    run := run + [Step(0)] + [Step(0)];
  }

  // ----------------------------------------------------------------- the two-command read

  /** A no-op answer is the pure decision on two states of the replay: the marker's at the first read, the subject's at
      the second. */
  ghost predicate ReadTwice(sh: Shared, r: Recorder) {
    match r.pc
    case ReadSubject(seen) =>
      r.marker <= |sh.log| && (seen <==> r.alert.id in Fold(sh.log[..r.marker], sh.initial).seen)
    case Finished(Decided(d), at) =>
      d.classification != New ==>
        && r.marker <= at <= |sh.log|
        && Decide(r.alert, Lookup(Fold(sh.log[..at], sh.initial).subjects, KeyOf(r.alert)),
                  r.alert.id in Fold(sh.log[..r.marker], sh.initial).seen) == Ok(d)
    case _ => true
  }

  ghost predicate AllReadTwice(sys: System) {
    forall i: nat :: i < |sys.recorders| ==> ReadTwice(sys.shared, sys.recorders[i])
  }

  lemma AdvanceReadsTwice(me: nat, r: Recorder, sh: Shared)
    requires SharedInv(sh) && RecorderInv(sh, r) && ReadTwice(sh, r)
    ensures ReadTwice(Advance(me, r, sh).1, Advance(me, r, sh).0)
  {
    assert sh.log[..|sh.log|] == sh.log;
  }

  lemma ReadTwiceStable(sh: Shared, later: Shared, r: Recorder)
    requires ReadTwice(sh, r) && Grows(sh, later)
    ensures ReadTwice(later, r)
  {
    if r.marker <= |sh.log| {
      assert later.log[..r.marker] == sh.log[..r.marker];
    }
    if r.pc.Finished? && r.pc.at <= |sh.log| {
      assert later.log[..r.pc.at] == sh.log[..r.pc.at];
    }
  }

  lemma NextReadsTwice(sys: System, action: Action)
    requires Inv(sys) && AllReadTwice(sys)
    ensures AllReadTwice(Next(sys, action))
  {
    var t := Next(sys, action);
    NextKeepsInv(sys, action);
    forall j: nat | j < |t.recorders| ensures ReadTwice(t.shared, t.recorders[j]) {
      if j < |sys.recorders| {
        assert RecorderInv(sys.shared, sys.recorders[j]);
        if action in {Step(j), ReplyLost(j)} { AdvanceReadsTwice(j, sys.recorders[j], sys.shared); }
        ReadTwiceStable(sys.shared, t.shared, sys.recorders[j]);
      }
    }
  }

  lemma {:induction false} RunReadsTwice(initial: Store, actions: seq<Action>)
    ensures AllReadTwice(Run(Init(initial), actions))
  {
    if actions != [] {
      var n := |actions| - 1;
      RunReadsTwice(initial, actions[..n]);
      RunKeepsInv(Init(initial), actions[..n]);
      NextReadsTwice(Run(Init(initial), actions[..n]), actions[n]);
    }
  }

  /** The alert was committed after the call's marker read and before its subject read. */
  ghost predicate CommittedBetween(log: seq<Alert>, id: string, marker: nat, at: nat) {
    exists n :: marker <= n < at && n < |log| && log[n].id == id
  }

  /** The seen ids of two points of the commit order differ by the ids committed in between. */
  lemma SeenBetween(log: seq<Alert>, initial: Store, id: string, marker: nat, at: nat)
    requires AllNew(log, initial) && marker <= at <= |log|
    ensures id in Fold(log[..at], initial).seen <==>
      id in Fold(log[..marker], initial).seen || CommittedBetween(log, id, marker, at)
    ensures CommittedBetween(log, id, marker, at) ==> id !in Fold(log[..marker], initial).seen
  {
    AllNewPrefix(log, initial, at);
    AllNewPrefix(log, initial, marker);
    AllNewDistinct(log, initial);
    AllNewDistinct(log[..at], initial);
    AllNewDistinct(log[..marker], initial);
    if CommittedBetween(log, id, marker, at) {
      var n :| marker <= n < at && log[n].id == id;
      assert log[..at][n].id in Ids(log[..at]);
      assert id in Ids(log) by { assert log[n].id in Ids(log); }
    }
    if id in Ids(log[..marker]) {
      var k :| 0 <= k < marker && log[..marker][k].id == id;
      assert log[..at][k].id in Ids(log[..at]);
    }
    if id in Ids(log[..at]) && id !in Ids(log[..marker]) {
      var k :| 0 <= k < at && log[..at][k].id == id;
      assert log[k].id == id;
      forall m | 0 <= m < marker ensures log[m].id in Ids(log[..marker]) {
        assert log[..marker][m].id == log[m].id;
      }
    }
  }

  lemma {:induction false} AllNewPrefix(log: seq<Alert>, initial: Store, n: nat)
    requires AllNew(log, initial) && n <= |log|
    ensures AllNew(log[..n], initial)
  {
    if n < |log| {
      AllNewPrefix(log[..|log| - 1], initial, n);
      assert log[..|log| - 1][..n] == log[..n];
    } else {
      assert log[..n] == log;
    }
  }

  /** Exactly when an already seen alert is answered `terminal_suppressed` instead of `duplicate`: a call that finds its
      subject terminal, and whose alert is seen by then, answers so if and only if that alert was committed between the
      call's two reads. */
  lemma SuppressedExactlyWhenCommittedBetween(initial: Store, actions: seq<Action>, i: nat)
    requires i < |Run(Init(initial), actions).recorders|
    requires var r := Run(Init(initial), actions).recorders[i];
      r.pc.Finished? && r.pc.outcome.Decided? && r.pc.outcome.decision.classification != New
    ensures var sys := Run(Init(initial), actions); var r := sys.recorders[i]; var log := sys.shared.log;
      && r.pc.at <= |log|
      && var found := Fold(log[..r.pc.at], initial);
        TerminalIn(found, KeyOf(r.alert)) && r.alert.id in found.seen ==>
          (r.pc.outcome.decision.classification == TerminalSuppressed <==>
            CommittedBetween(log, r.alert.id, r.marker, r.pc.at))
  {
    RunReadsTwice(initial, actions);
    RunKeepsInv(Init(initial), actions);
    var sys := Run(Init(initial), actions);
    var r := sys.recorders[i];
    assert ReadTwice(sys.shared, r);
    SeenBetween(sys.shared.log, initial, r.alert.id, r.marker, r.pc.at);
  }

  /** The failing schedule: two recorders of one new invalidation, the second of which reads the marker before the first
      commits and the subject after it. */
  lemma SplitReadSuppresses(initial: Store, a: Alert) returns (run: seq<Action>)
    requires a.code.SetupInvalidated? && IsNew(a, initial)
    ensures var sys := Run(Init(initial), run);
      && |sys.recorders| == 2 && sys.recorders[1].alert == a && a.id in sys.shared.store.seen
      && sys.recorders[1].pc.Finished? && sys.recorders[1].pc.outcome.Decided?
      && sys.recorders[1].pc.outcome.decision.classification == TerminalSuppressed
  {
    run := BeforeCommit(initial, a, [Start(a), Step(1)]);
    RunSnoc(Init(initial), run, Step(0));
    RunSnoc(Init(initial), run + [Step(0)], Step(1));
    run := run + [Step(0)] + [Step(1)];
  }
}
