/** Durable delivery receipts (alert_engine/receipts.py): any number of concurrent appenders over one directory.
    Listing, creating, writing, linking and unlinking are separate steps; an appender may stop after any of them or meet
    an operating-system error at it. */
module Receipts {
  import opened Results

  const MAX_SEQUENCE := 999_999
  const MAX_WRITE_RACES := 5

  /** Alert digests have a fixed length in lower-case hex, so they order like numbers. */
  datatype Pair = Pair(alertId: nat, channel: nat)

  datatype Status = Delivered(messageId: string) | Failed(code: string)

  datatype Receipt = Receipt(pair: Pair, sequence: nat, status: Status, attempts: nat, attemptedAt: int,
                             completedAt: int)

  /** `<channel>-<hex>-<sequence>.json`, `.receipt-*.tmp` (unique per writer and race), or anything else. */
  datatype Name = ReceiptName(pair: Pair, sequence: nat) | TempName(owner: nat, race: nat) | OtherName(text: string)

  datatype File = Torn | Whole(receipt: Receipt)

  type Directory = map<Name, File>

  predicate ValidReceipt(r: Receipt) {
    && 1 <= r.sequence <= MAX_SEQUENCE && r.attempts >= 1 && r.attemptedAt <= r.completedAt
    && (r.status.Delivered? ==> r.status.messageId != "")
  }

  function NameOf(r: Receipt): Name {
    ReceiptName(r.pair, r.sequence)
  }

  /** `_sequences`, as a set. */
  function SequencesIn(dir: Directory, p: Pair): set<nat> {
    set n <- dir.Keys | n.ReceiptName? && n.pair == p :: n.sequence
  }

  /** `max(found, default=0)`. */
  function MaxOf(found: seq<nat>): nat {
    if found == [] then 0
    else
      var m := MaxOf(found[..|found| - 1]);
      if found[|found| - 1] > m then found[|found| - 1] else m
  }

  lemma {:induction false} MaxOfMeaning(found: seq<nat>)
    ensures forall k <- found :: k <= MaxOf(found)
    ensures MaxOf(found) == 0 || MaxOf(found) in found
  {
    if found != [] {
      var n := |found| - 1;
      assert found == found[..n] + [found[n]];
      MaxOfMeaning(found[..n]);
    }
  }

  // ----------------------------------------------------------------- the machine

  datatype Pc =
    | Start(race: nat)
    | Listing(race: nat, low: set<nat>)     // the listing began when these were linked
    | Chosen(race: nat, sequence: nat)
    | Writing(race: nat, sequence: nat)     // the temporary file exists
    | Written(race: nat, sequence: nat)
    | LostRace(race: nat)                   // the name was taken; the temporary file is still there
    | Linked(race: nat, sequence: nat)      // the temporary file is still there
    | Failing(race: nat)                    // an error occurred; the temporary file is still there
    | Appended(sequence: nat)
    | Refused                               // no valid receipt can be made
    | GaveUp                                // the last race was lost
    | Errored(linked: Option<nat>)           // an error was reported; `linked` is what the call linked before

  /** One `append_receipt` call: the receipt without its sequence, and where the call stands. `base` is history: how
      many receipts of the pair were linked when the call began. */
  datatype Appender = Appender(draft: Receipt, pc: Pc, base: nat)

  datatype System = System(dir: Directory, appenders: seq<Appender>)

  datatype Action =
    | Begin(draft: Receipt)
    | Step(i: nat, listed: seq<nat>)   // `listed` matters to the end of a listing only
    | Error(i: nat)

  const INIT := System(map[], [])

  function ReceiptFor(a: Appender, sequence: nat): Receipt {
    a.draft.(sequence := sequence)
  }

  /** A listing that overlaps other writers shows what was there when it began, and some of what was linked meanwhile,
      in any order. */
  predicate PossibleListing(listed: seq<nat>, low: set<nat>, now: set<nat>) {
    (forall k <- low :: k in listed) && forall k <- listed :: k in now
  }

  function Advance(me: nat, a: Appender, dir: Directory, listed: seq<nat>): (Appender, Directory) {
    match a.pc
    case Start(race) =>
      if race == MAX_WRITE_RACES then (a.(pc := GaveUp), dir)
      else (a.(pc := Listing(race, SequencesIn(dir, a.draft.pair))), dir)
    case Listing(race, low) =>
      if !PossibleListing(listed, low, SequencesIn(dir, a.draft.pair)) then (a, dir)
      else
        var sequence := MaxOf(listed) + 1;
        if sequence > MAX_SEQUENCE || !ValidReceipt(ReceiptFor(a, sequence)) then (a.(pc := Refused), dir)
        else (a.(pc := Chosen(race, sequence)), dir)
    case Chosen(race, s) => (a.(pc := Writing(race, s)), dir[TempName(me, race) := Torn])
    case Writing(race, s) => (a.(pc := Written(race, s)), dir[TempName(me, race) := Whole(ReceiptFor(a, s))])
    case Written(race, s) =>
      if TempName(me, race) !in dir then (a.(pc := Refused), dir)
      else if ReceiptName(a.draft.pair, s) in dir then (a.(pc := LostRace(race)), dir)
      else (a.(pc := Linked(race, s)), dir[ReceiptName(a.draft.pair, s) := dir[TempName(me, race)]])
    case LostRace(race) => (a.(pc := Start(race + 1)), dir - {TempName(me, race)})
    case Linked(race, s) => (a.(pc := Appended(s)), dir - {TempName(me, race)})
    case Failing(race) => (a.(pc := Errored(None)), dir - {TempName(me, race)})
    case _ => (a, dir)
  }

  /** An operating-system error: before the temporary file exists it ends the call; while writing or linking it leads to
      the removal of the temporary file; if that removal fails, the error is reported whatever was linked. */
  function Fail(a: Appender): Appender {
    match a.pc
    case Start(_) => a.(pc := Errored(None))
    case Listing(_, _) => a.(pc := Errored(None))
    case Chosen(_, _) => a.(pc := Errored(None))
    case Writing(race, _) => a.(pc := Failing(race))
    case Written(race, _) => a.(pc := Failing(race))
    case LostRace(_) => a.(pc := Errored(None))
    case Linked(_, s) => a.(pc := Errored(Some(s)))
    case Failing(_) => a.(pc := Errored(None))
    case _ => a
  }

  function Next(sys: System, action: Action): System {
    match action
    case Begin(draft) =>
      sys.(appenders := sys.appenders + [Appender(draft, Start(0), |SequencesIn(sys.dir, draft.pair)|)])
    case Step(i, listed) =>
      if i < |sys.appenders| then
        var (a, dir) := Advance(i, sys.appenders[i], sys.dir, listed);
        System(dir, sys.appenders[i := a])
      else sys
    case Error(i) =>
      if i < |sys.appenders| then sys.(appenders := sys.appenders[i := Fail(sys.appenders[i])]) else sys
  }

  function Run(sys: System, actions: seq<Action>): System {
    if actions == [] then sys else Next(Run(sys, actions[..|actions| - 1]), actions[|actions| - 1])
  }

  // ----------------------------------------------------------------- the invariant

  /** Every linked receipt is whole, valid, named after its content, and preceded by its predecessor; nothing unknown is
      in the directory. */
  ghost predicate GoodEntry(dir: Directory, n: Name)
    requires n in dir
  {
    match n
    case ReceiptName(p, s) =>
      && dir[n].Whole? && ValidReceipt(dir[n].receipt) && NameOf(dir[n].receipt) == n
      && (s > 1 ==> ReceiptName(p, s - 1) in dir)
    case TempName(_, _) => true
    case OtherName(_) => false
  }

  ghost predicate GoodDirectory(dir: Directory) {
    forall n <- dir :: GoodEntry(dir, n)
  }

  /** A chosen sequence number continues the linked ones. */
  ghost predicate Continues(dir: Directory, a: Appender, s: nat) {
    ValidReceipt(ReceiptFor(a, s)) && (s > 1 ==> ReceiptName(a.draft.pair, s - 1) in dir)
  }

  ghost predicate Holds(dir: Directory, n: Name, r: Receipt) {
    n in dir && dir[n] == Whole(r)
  }

  ghost predicate AppenderInv(me: nat, a: Appender, dir: Directory) {
    match a.pc
    case Start(_) => true
    case Listing(_, low) => low <= SequencesIn(dir, a.draft.pair)
    case Chosen(_, s) => Continues(dir, a, s)
    case Writing(_, s) => Continues(dir, a, s)
    case Written(race, s) => Continues(dir, a, s) && Holds(dir, TempName(me, race), ReceiptFor(a, s))
    case Linked(_, s) => Holds(dir, ReceiptName(a.draft.pair, s), ReceiptFor(a, s))
    case Appended(s) => Holds(dir, ReceiptName(a.draft.pair, s), ReceiptFor(a, s))
    case Errored(Some(s)) => Holds(dir, ReceiptName(a.draft.pair, s), ReceiptFor(a, s))
    case _ => true
  }

  ghost predicate Inv(sys: System) {
    GoodDirectory(sys.dir) && forall i :: 0 <= i < |sys.appenders| ==> AppenderInv(i, sys.appenders[i], sys.dir)
  }

  /** What an appender may do to the directory: its own temporary files, and new names. */
  ghost predicate Respects(me: nat, dir: Directory, later: Directory) {
    forall n <- dir :: (n.TempName? && n.owner == me) || (n in later && later[n] == dir[n])
  }

  lemma ListingContinues(a: Appender, dir: Directory, listed: seq<nat>, low: set<nat>)
    requires PossibleListing(listed, low, SequencesIn(dir, a.draft.pair))
    ensures MaxOf(listed) > 0 ==> ReceiptName(a.draft.pair, MaxOf(listed)) in dir
  {
    MaxOfMeaning(listed);
  }

  lemma AdvanceOwn(me: nat, a: Appender, dir: Directory, listed: seq<nat>)
    requires GoodDirectory(dir) && AppenderInv(me, a, dir)
    ensures var (a', dir') := Advance(me, a, dir, listed); AppenderInv(me, a', dir')
  {
    if a.pc.Listing? && PossibleListing(listed, a.pc.low, SequencesIn(dir, a.draft.pair)) {
      ListingContinues(a, dir, listed, a.pc.low);
    }
  }

  lemma AdvanceDirectory(me: nat, a: Appender, dir: Directory, listed: seq<nat>)
    requires GoodDirectory(dir) && AppenderInv(me, a, dir)
    ensures var (_, dir') := Advance(me, a, dir, listed); GoodDirectory(dir') && Respects(me, dir, dir')
  {
    var (_, dir') := Advance(me, a, dir, listed);
    forall n | n in dir' ensures GoodEntry(dir', n) {
      if n in dir { assert GoodEntry(dir, n); }
    }
  }

  lemma OthersUndisturbed(me: nat, other: nat, o: Appender, dir: Directory, later: Directory)
    requires me != other && Respects(me, dir, later) && AppenderInv(other, o, dir)
    ensures AppenderInv(other, o, later)
  {
    if o.pc.Listing? {
      forall s | s in SequencesIn(dir, o.draft.pair) ensures s in SequencesIn(later, o.draft.pair) {
        assert ReceiptName(o.draft.pair, s) in later;
      }
    }
  }

  lemma NextKeepsInv(sys: System, action: Action)
    requires Inv(sys)
    ensures Inv(Next(sys, action))
  {
    var t := Next(sys, action);
    if action.Step? && action.i < |sys.appenders| {
      var i := action.i;
      AdvanceOwn(i, sys.appenders[i], sys.dir, action.listed);
      AdvanceDirectory(i, sys.appenders[i], sys.dir, action.listed);
      forall j | 0 <= j < |t.appenders| ensures AppenderInv(j, t.appenders[j], t.dir) {
        if j != i { OthersUndisturbed(i, j, sys.appenders[j], sys.dir, t.dir); }
      }
    }
  }

  lemma {:induction false} RunKeepsInv(actions: seq<Action>)
    ensures Inv(Run(INIT, actions))
  {
    if actions != [] {
      RunKeepsInv(actions[..|actions| - 1]);
      NextKeepsInv(Run(INIT, actions[..|actions| - 1]), actions[|actions| - 1]);
    }
  }

  // ----------------------------------------------------------------- the main results

  lemma {:induction false} DownwardClosed(dir: Directory, p: Pair, s: nat, k: nat)
    requires GoodDirectory(dir) && ReceiptName(p, s) in dir && 1 <= k <= s
    ensures ReceiptName(p, k) in dir
    decreases s
  {
    assert GoodEntry(dir, ReceiptName(p, s));
    if k < s {
      DownwardClosed(dir, p, s - 1, k);
    }
  }

  /** A directory of linked receipts has, for each (alert, channel), exactly the sequences 1..n. */
  ghost predicate GapFree(dir: Directory, p: Pair, n: nat) {
    forall k: nat :: ReceiptName(p, k) in dir <==> 1 <= k <= n
  }

  ghost function Largest(ks: set<nat>): (m: nat)
    ensures forall k <- ks :: k <= m
    ensures ks != {} ==> m in ks
  {
    if ks == {} then 0
    else
      var k :| k in ks;
      var m := Largest(ks - {k});
      assert forall x <- ks :: x == k || x in ks - {k};
      if k > m || ks == {k} then k else m
  }

  lemma GoodIsGapFree(dir: Directory, p: Pair)
    requires GoodDirectory(dir)
    ensures GapFree(dir, p, Largest(SequencesIn(dir, p)))
  {
    var n := Largest(SequencesIn(dir, p));
    forall k: nat ensures ReceiptName(p, k) in dir <==> 1 <= k <= n {
      if ReceiptName(p, k) in dir {
        assert GoodEntry(dir, ReceiptName(p, k)) && k in SequencesIn(dir, p);
      } else if 1 <= k <= n {
        assert n in SequencesIn(dir, p);
        DownwardClosed(dir, p, n, k);
      }
    }
  }

  /** In every run of any number of appenders, stopped anywhere, the linked sequences of each (alert, channel) are
      exactly 1..n, and every linked receipt is whole and valid under its own name. */
  lemma SequencesStayGapFree(actions: seq<Action>, p: Pair)
    ensures GoodDirectory(Run(INIT, actions).dir)
    ensures exists n :: GapFree(Run(INIT, actions).dir, p, n)
  {
    RunKeepsInv(actions);
    GoodIsGapFree(Run(INIT, actions).dir, p);
  }

  /** A linked receipt is never overwritten or removed. */
  lemma {:induction false} LinkedReceiptIsPermanent(before: seq<Action>, after: seq<Action>, n: Name)
    requires n in Run(INIT, before).dir && n.ReceiptName?
    ensures Run(INIT, before + after) == Run(Run(INIT, before), after)
    ensures var dir := Run(INIT, before).dir; var later := Run(INIT, before + after).dir;
      n in later && later[n] == dir[n]
  {
    if after == [] {
      assert before + after == before;
    } else {
      var m := |after| - 1;
      assert (before + after)[..|before + after| - 1] == before + after[..m];
      LinkedReceiptIsPermanent(before, after[..m], n);
      RunKeepsInv(before + after[..m]);
      var sys := Run(INIT, before + after[..m]);
      if after[m].Step? && after[m].i < |sys.appenders| {
        AdvanceDirectory(after[m].i, sys.appenders[after[m].i], sys.dir, after[m].listed);
      }
    }
  }

  predicate HasLinked(a: Appender, p: Pair, s: nat) {
    a.draft.pair == p && ((a.pc.Linked? && a.pc.sequence == s) || a.pc in {Appended(s), Errored(Some(s))})
  }

  /** No two calls for the same (alert, channel) hold the same sequence number. */
  ghost predicate DistinctNumbers(sys: System) {
    forall i, j, p, s :: 0 <= i < j < |sys.appenders| && HasLinked(sys.appenders[i], p, s) ==>
      !HasLinked(sys.appenders[j], p, s)
  }

  lemma NextKeepsDistinct(sys: System, action: Action)
    requires Inv(sys) && DistinctNumbers(sys)
    ensures DistinctNumbers(Next(sys, action))
  {
    var t := Next(sys, action);
    forall i, j, p, s | 0 <= i < j < |t.appenders| && HasLinked(t.appenders[i], p, s)
      ensures !HasLinked(t.appenders[j], p, s)
    {
      LinkedBefore(sys, action, i, p, s);
      if HasLinked(t.appenders[j], p, s) { LinkedBefore(sys, action, j, p, s); }
    }
  }

  /** Who holds a number after a step held it before, or took a free one in this step. */
  lemma LinkedBefore(sys: System, action: Action, i: nat, p: Pair, s: nat)
    requires Inv(sys) && i < |Next(sys, action).appenders| && HasLinked(Next(sys, action).appenders[i], p, s)
    ensures i < |sys.appenders|
    ensures || (HasLinked(sys.appenders[i], p, s) && ReceiptName(p, s) in sys.dir)
            || (action.Step? && action.i == i && ReceiptName(p, s) !in sys.dir)
  {
    if i < |sys.appenders| {
      assert AppenderInv(i, sys.appenders[i], sys.dir);
    }
  }

  lemma {:induction false} RunKeepsDistinct(actions: seq<Action>)
    ensures DistinctNumbers(Run(INIT, actions))
  {
    if actions != [] {
      RunKeepsDistinct(actions[..|actions| - 1]);
      RunKeepsInv(actions[..|actions| - 1]);
      NextKeepsDistinct(Run(INIT, actions[..|actions| - 1]), actions[|actions| - 1]);
    }
  }

  /** Successful appends hold their own receipt and get distinct sequence numbers. */
  lemma SuccessfulAppendsAreDistinct(actions: seq<Action>, i: nat, j: nat)
    requires i < j < |Run(INIT, actions).appenders|
    requires Run(INIT, actions).appenders[i].pc.Appended? && Run(INIT, actions).appenders[j].pc.Appended?
    ensures var sys := Run(INIT, actions); var a, b := sys.appenders[i], sys.appenders[j];
      && Holds(sys.dir, ReceiptName(a.draft.pair, a.pc.sequence), ReceiptFor(a, a.pc.sequence))
      && (a.draft.pair == b.draft.pair ==> a.pc.sequence != b.pc.sequence)
  {
    RunKeepsInv(actions);
    RunKeepsDistinct(actions);
    var sys := Run(INIT, actions);
    var a, b := sys.appenders[i], sys.appenders[j];
    assert AppenderInv(i, a, sys.dir);
    assert HasLinked(a, a.draft.pair, a.pc.sequence);
    assert HasLinked(b, b.draft.pair, b.pc.sequence);
  }

  // ----------------------------------------------------------------- giving up, and errors

  lemma {:induction false} UpTo(ks: set<nat>, m: nat)
    ensures (forall k <- ks :: 1 <= k <= m) ==> |ks| <= m
    ensures (forall k :: 1 <= k <= m ==> k in ks) ==> |ks| >= m
  {
    if m > 0 {
      UpTo(ks - {m}, m - 1);
    } else if ks != {} {
      var k :| k in ks;
    }
  }

  lemma Subset(a: set<nat>, b: set<nat>)
    requires a <= b
    ensures |a| <= |b|
  {
    assert b == a + (b - a);
  }

  /** Every lost race of a call is paid for by a receipt of its pair that was linked since the call began. */
  ghost predicate Paid(a: Appender, dir: Directory) {
    var linked := |SequencesIn(dir, a.draft.pair)|;
    match a.pc
    case Start(race) => a.base + race <= linked
    case Listing(race, low) => a.base + race <= |low|
    case Chosen(race, s) => a.base + race < s
    case Writing(race, s) => a.base + race < s
    case Written(race, s) => a.base + race < s
    case LostRace(race) => a.base + race + 1 <= linked
    case GaveUp => a.base + MAX_WRITE_RACES <= linked
    case _ => true
  }

  lemma LinkedUpTo(dir: Directory, p: Pair, s: nat)
    requires GoodDirectory(dir) && ReceiptName(p, s) in dir
    ensures |SequencesIn(dir, p)| >= s
  {
    forall k | 1 <= k <= s ensures k in SequencesIn(dir, p) {
      DownwardClosed(dir, p, s, k);
      assert ReceiptName(p, k) in dir;
    }
    UpTo(SequencesIn(dir, p), s);
  }

  lemma ListedUpTo(listed: seq<nat>, low: set<nat>, dir: Directory, p: Pair)
    requires GoodDirectory(dir) && PossibleListing(listed, low, SequencesIn(dir, p))
    ensures |low| <= MaxOf(listed)
  {
    MaxOfMeaning(listed);
    forall k | k in low ensures 1 <= k <= MaxOf(listed) {
      assert k in listed && ReceiptName(p, k) in dir && GoodEntry(dir, ReceiptName(p, k));
    }
    UpTo(low, MaxOf(listed));
  }

  lemma AdvancePaid(me: nat, a: Appender, dir: Directory, listed: seq<nat>)
    requires GoodDirectory(dir) && AppenderInv(me, a, dir) && Paid(a, dir)
    ensures var (a', dir') := Advance(me, a, dir, listed); Paid(a', dir')
  {
    var (a', dir') := Advance(me, a, dir, listed);
    var p := a.draft.pair;
    match a.pc
    case Listing(_, low) =>
      if PossibleListing(listed, low, SequencesIn(dir, p)) { ListedUpTo(listed, low, dir, p); }
    case Written(_, s) =>
      if ReceiptName(p, s) in dir { LinkedUpTo(dir, p, s); }
    case LostRace(_) => assert SequencesIn(dir', p) == SequencesIn(dir, p);
    case _ =>
  }

  /** Other calls only add receipts. */
  lemma PaidStable(a: Appender, me: nat, dir: Directory, later: Directory)
    requires Respects(me, dir, later) && Paid(a, dir)
    ensures Paid(a, later)
  {
    var p := a.draft.pair;
    forall s | s in SequencesIn(dir, p) ensures s in SequencesIn(later, p) {
      assert ReceiptName(p, s) in later;
    }
    Subset(SequencesIn(dir, p), SequencesIn(later, p));
  }

  ghost predicate AllPaid(sys: System) {
    forall i: nat :: i < |sys.appenders| ==> Paid(sys.appenders[i], sys.dir)
  }

  lemma NextKeepsPaid(sys: System, action: Action)
    requires Inv(sys) && AllPaid(sys)
    ensures AllPaid(Next(sys, action))
  {
    var t := Next(sys, action);
    if action.Step? && action.i < |sys.appenders| {
      var i := action.i;
      AdvanceDirectory(i, sys.appenders[i], sys.dir, action.listed);
      AdvancePaid(i, sys.appenders[i], sys.dir, action.listed);
      forall j: nat | j < |t.appenders| ensures Paid(t.appenders[j], t.dir) {
        if j != i { PaidStable(sys.appenders[j], i, sys.dir, t.dir); }
      }
    }
  }

  lemma {:induction false} RunKeepsPaid(actions: seq<Action>)
    ensures AllPaid(Run(INIT, actions))
  {
    if actions != [] {
      RunKeepsPaid(actions[..|actions| - 1]);
      RunKeepsInv(actions[..|actions| - 1]);
      NextKeepsPaid(Run(INIT, actions[..|actions| - 1]), actions[|actions| - 1]);
    }
  }

  /** A call gives up only if at least five receipts of its pair were linked while it ran. */
  lemma GivesUpOnlyAfterFiveReceipts(actions: seq<Action>, i: nat)
    requires i < |Run(INIT, actions).appenders| && Run(INIT, actions).appenders[i].pc == GaveUp
    ensures var sys := Run(INIT, actions); var a := sys.appenders[i];
      |SequencesIn(sys.dir, a.draft.pair)| >= a.base + MAX_WRITE_RACES
  {
    RunKeepsPaid(actions);
  }

  /** The removal of the temporary file failed after the link. */
  ghost predicate UnlinkFailed(actions: seq<Action>, i: nat) {
    actions != [] &&
      var n := |actions| - 1;
      var sys := Run(INIT, actions[..n]);
      UnlinkFailed(actions[..n], i) || (actions[n] == Error(i) && i < |sys.appenders| && sys.appenders[i].pc.Linked?)
  }

  ghost predicate LinkedAnyway(sys: System, i: nat) {
    i < |sys.appenders| && sys.appenders[i].pc.Errored? && sys.appenders[i].pc.linked.Some?
  }

  lemma {:induction false} UnlinkFailures(actions: seq<Action>, i: nat)
    ensures LinkedAnyway(Run(INIT, actions), i) <==> UnlinkFailed(actions, i)
  {
    if actions != [] {
      var n := |actions| - 1;
      UnlinkFailures(actions[..n], i);
      NextLinkedAnyway(Run(INIT, actions[..n]), actions[n], i);
    }
  }

  lemma NextLinkedAnyway(sys: System, action: Action, i: nat)
    ensures LinkedAnyway(Next(sys, action), i) <==>
      LinkedAnyway(sys, i) || (action == Error(i) && i < |sys.appenders| && sys.appenders[i].pc.Linked?)
  {
  }

  /** A call that reports an error has linked a receipt nevertheless exactly if only the removal of its temporary file
      failed; that receipt is whole, under the call's own number. */
  lemma ErrorLinkedExactly(actions: seq<Action>, i: nat)
    ensures var sys := Run(INIT, actions);
      i < |sys.appenders| && sys.appenders[i].pc.Errored? ==>
        && (sys.appenders[i].pc.linked.Some? <==> UnlinkFailed(actions, i))
        && (sys.appenders[i].pc.linked.Some? ==> var s := sys.appenders[i].pc.linked.value;
          Holds(sys.dir, ReceiptName(sys.appenders[i].draft.pair, s), ReceiptFor(sys.appenders[i], s)))
    ensures var sys := Run(INIT, actions);
      UnlinkFailed(actions, i) ==>
        i < |sys.appenders| && sys.appenders[i].pc.Errored? && sys.appenders[i].pc.linked.Some?
  {
    RunKeepsInv(actions);
    UnlinkFailures(actions, i);
    var sys := Run(INIT, actions);
    if i < |sys.appenders| { assert AppenderInv(i, sys.appenders[i], sys.dir); }
  }
}
