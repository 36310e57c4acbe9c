/** Why an `append_receipt` call ends as it does (alert_engine/receipts.py:66-120): what a valid receipt is, and what a
    refusal means. */
module ReceiptOutcomes {
  import opened Results
  import opened Receipts

  /** A receipt that some number makes valid: at least one attempt, completed no earlier than attempted, and with a
      message id if it was delivered. */
  predicate WellMade(draft: Receipt) {
    draft.attempts >= 1 && draft.attemptedAt <= draft.completedAt &&
      match draft.status case Delivered(id) => id != "" case Failed(_) => true
  }

  lemma ValidMeaning(r: Receipt)
    ensures ValidReceipt(r) <==> WellMade(r) && 1 <= r.sequence <= 999_999
  {
  }

  /** The last number that a name has room for is taken. */
  ghost predicate Full(dir: Directory, p: Pair) {
    ReceiptName(p, 999_999) in dir
  }

  /** A call that was refused had an invalid draft or no number left; one that chose a number had a valid draft. */
  ghost predicate Reasoned(a: Appender, dir: Directory) {
    match a.pc
    case Refused => !WellMade(a.draft) || Full(dir, a.draft.pair)
    case Chosen(_, s) => WellMade(a.draft)
    case Writing(_, s) => WellMade(a.draft)
    case Written(_, s) => WellMade(a.draft)
    case LostRace(_) => WellMade(a.draft)
    case Linked(_, s) => WellMade(a.draft)
    case Appended(_) => WellMade(a.draft)
    case _ => true
  }

  lemma ListedIsFull(dir: Directory, p: Pair, listed: seq<nat>, low: set<nat>)
    requires GoodDirectory(dir) && PossibleListing(listed, low, SequencesIn(dir, p)) && MaxOf(listed) + 1 > 999_999
    ensures Full(dir, p)
  {
    var m := MaxOf(listed);
    MaxOfMeaning(listed);
    assert m in SequencesIn(dir, p) && ReceiptName(p, m) in dir;
    assert GoodEntry(dir, ReceiptName(p, m));
    ValidMeaning(dir[ReceiptName(p, m)].receipt);
  }

  lemma AdvanceReasoned(me: nat, a: Appender, dir: Directory, listed: seq<nat>)
    requires GoodDirectory(dir) && AppenderInv(me, a, dir) && Reasoned(a, dir)
    ensures var (a', dir') := Advance(me, a, dir, listed); Reasoned(a', dir')
  {
    if a.pc.Listing? && PossibleListing(listed, a.pc.low, SequencesIn(dir, a.draft.pair)) {
      if MaxOf(listed) + 1 > 999_999 { ListedIsFull(dir, a.draft.pair, listed, a.pc.low); }
      ValidMeaning(ReceiptFor(a, MaxOf(listed) + 1));
    }
  }

  ghost predicate AllReasoned(sys: System) {
    forall i :: 0 <= i < |sys.appenders| ==> Reasoned(sys.appenders[i], sys.dir)
  }

  lemma NextReasoned(sys: System, action: Action)
    requires Inv(sys) && AllReasoned(sys)
    ensures AllReasoned(Next(sys, action))
  {
    var t := Next(sys, action);
    if action.Step? && action.i < |sys.appenders| {
      var i := action.i;
      assert Reasoned(sys.appenders[i], sys.dir) && AppenderInv(i, sys.appenders[i], sys.dir);
      AdvanceReasoned(i, sys.appenders[i], sys.dir, action.listed);
      AdvanceDirectory(i, sys.appenders[i], sys.dir, action.listed);
      forall j | 0 <= j < |t.appenders| && j != i ensures Reasoned(t.appenders[j], t.dir) {
        assert Reasoned(sys.appenders[j], sys.dir);
      }
    } else if action.Error? && action.i < |sys.appenders| {
      assert Reasoned(sys.appenders[action.i], sys.dir);
    }
  }

  lemma {:induction false} RunReasoned(actions: seq<Action>)
    ensures AllReasoned(Run(INIT, actions))
  {
    if actions != [] {
      RunReasoned(actions[..|actions| - 1]);
      RunKeepsInv(actions[..|actions| - 1]);
      NextReasoned(Run(INIT, actions[..|actions| - 1]), actions[|actions| - 1]);
    }
  }

  /** On every run a call is refused only if its receipt cannot be valid or the pair's last number is taken, and
      succeeds only with a valid receipt. */
  lemma RefusalsAreJustified(actions: seq<Action>, i: nat)
    requires i < |Run(INIT, actions).appenders|
    ensures var sys := Run(INIT, actions); var a := sys.appenders[i];
      && (a.pc == Refused ==> !WellMade(a.draft) || Full(sys.dir, a.draft.pair))
      && (a.pc.Appended? ==> WellMade(a.draft) && 1 <= a.pc.sequence <= 999_999)
  {
    RunReasoned(actions);
    RunKeepsInv(actions);
    var sys := Run(INIT, actions);
    var a := sys.appenders[i];
    assert Reasoned(a, sys.dir) && AppenderInv(i, a, sys.dir);
    if a.pc.Appended? {
      assert GoodEntry(sys.dir, ReceiptName(a.draft.pair, a.pc.sequence));
      ValidMeaning(ReceiptFor(a, a.pc.sequence));
    }
  }

  /** What a call knew when it began stays with it. */
  lemma {:induction false} BaseIsKept(before: seq<Action>, after: seq<Action>, i: nat)
    requires i < |Run(INIT, before).appenders|
    ensures var sys, later := Run(INIT, before), Run(INIT, before + after);
      i < |later.appenders| && later.appenders[i].base == sys.appenders[i].base
  {
    if after == [] {
      assert before + after == before;
    } else {
      var n := |after| - 1;
      assert (before + after)[..|before + after| - 1] == before + after[..n];
      BaseIsKept(before, after[..n], i);
    }
  }

  // ----------------------------------------------------------------- temporary files

  /** The race whose temporary file a call has in the directory. */
  function OpenRace(pc: Pc): Option<nat> {
    match pc
    case Writing(race, _) => Some(race)
    case Written(race, _) => Some(race)
    case LostRace(race) => Some(race)
    case Linked(race, _) => Some(race)
    case Failing(race) => Some(race)
    case _ => None
  }

  /** Of a call that has not reported an error no other temporary file is left. */
  ghost predicate Tidy(me: nat, a: Appender, dir: Directory) {
    a.pc.Errored? || forall n <- dir :: n.TempName? && n.owner == me ==> OpenRace(a.pc) == Some(n.race)
  }

  ghost predicate AllTidy(sys: System) {
    && (forall i: nat :: i < |sys.appenders| ==> Tidy(i, sys.appenders[i], sys.dir))
    && (forall n <- sys.dir :: n.TempName? ==> n.owner < |sys.appenders|)
  }

  /** A step creates no temporary file of another call. */
  lemma AdvanceAdds(me: nat, a: Appender, dir: Directory, listed: seq<nat>)
    ensures forall n <- Advance(me, a, dir, listed).1 :: n in dir || n.ReceiptName? || (n.TempName? && n.owner == me)
  {
  }

  lemma AdvanceTidy(me: nat, a: Appender, dir: Directory, listed: seq<nat>)
    requires Tidy(me, a, dir) && AppenderInv(me, a, dir)
    ensures var (a', dir') := Advance(me, a, dir, listed); Tidy(me, a', dir')
  {
  }

  lemma NextTidy(sys: System, action: Action)
    requires Inv(sys) && AllTidy(sys)
    ensures AllTidy(Next(sys, action))
  {
    var t := Next(sys, action);
    if action.Step? && action.i < |sys.appenders| {
      var i := action.i;
      assert Tidy(i, sys.appenders[i], sys.dir) && AppenderInv(i, sys.appenders[i], sys.dir);
      AdvanceAdds(i, sys.appenders[i], sys.dir, action.listed);
      AdvanceTidy(i, sys.appenders[i], sys.dir, action.listed);
      forall j: nat | j < |t.appenders| && j != i ensures Tidy(j, t.appenders[j], t.dir) {
        assert Tidy(j, sys.appenders[j], sys.dir);
      }
    } else if action.Error? && action.i < |sys.appenders| {
      assert Tidy(action.i, sys.appenders[action.i], sys.dir);
    }
  }

  lemma {:induction false} RunTidy(actions: seq<Action>)
    ensures AllTidy(Run(INIT, actions))
  {
    if actions != [] {
      RunTidy(actions[..|actions| - 1]);
      RunKeepsInv(actions[..|actions| - 1]);
      NextTidy(Run(INIT, actions[..|actions| - 1]), actions[|actions| - 1]);
    }
  }

  /** On every run a call that ended without reporting an operating-system error has left no temporary file. */
  lemma NoLeftovers(actions: seq<Action>, i: nat, race: nat)
    requires i < |Run(INIT, actions).appenders|
    ensures var sys := Run(INIT, actions); var pc := sys.appenders[i].pc;
      pc.Appended? || pc == Refused || pc == GaveUp ==> TempName(i, race) !in sys.dir
  {
    RunTidy(actions);
    var sys := Run(INIT, actions);
    assert Tidy(i, sys.appenders[i], sys.dir);
    if TempName(i, race) in sys.dir {
      assert sys.appenders[i].pc.Errored? || OpenRace(sys.appenders[i].pc) == Some(TempName(i, race).race);
    }
  }
}
