/** Writing, reading and using delivery receipts (alert_engine/receipts.py, and the delivery restore of
    alert_engine/runner.py). */
module ReceiptHistory {
  import opened Results
  import opened Sorting
  import opened Receipts
  import RO = ReceiptOutcomes

  datatype ReceiptError = UnknownFile | Unreadable | Malformed | NameMismatch | SequenceGap | CannotWrite | KeptRacing
    | Exhausted

  // ----------------------------------------------------------------- append_receipt

  class ReceiptDirectory {
    var sys: System
    ghost var trace: seq<Action>

    /** The directory's history is a run of the appender machine. */
    ghost predicate Valid() reads this {
      sys == Run(INIT, trace)
    }

    constructor ()
      ensures Valid() && trace == [] && sys == INIT
    {
      sys, trace := INIT, [];
    }

    ghost predicate At(me: nat, draft: Receipt, pc: Pc) reads this {
      me < |sys.appenders| && sys.appenders[me].draft == draft && sys.appenders[me].pc == pc
    }

    method Do(action: Action)
      requires Valid()
      modifies this
      ensures Valid() && sys == Next(old(sys), action) && trace == old(trace) + [action]
    {
      sys := Next(sys, action);
      trace := trace + [action];
    }

    method Rivals(me: nat, draft: Receipt, pc: Pc, actions: seq<Action>)
      requires Valid() && At(me, draft, pc)
      modifies this
      ensures Valid() && old(trace) <= trace && At(me, draft, pc)
    {
      for n := 0 to |actions|
        invariant Valid() && old(trace) <= trace && At(me, draft, pc)
      {
        if actions[n].Begin? || actions[n].i != me {
          Do(actions[n]);
        }
      }
    }

    /** The number, if a receipt with it can be made. */
    static function Numbered(draft: Receipt, sequence: nat): Result<nat, ReceiptError> {
      if sequence > MAX_SEQUENCE then Err(Exhausted)
      else if ValidReceipt(draft.(sequence := sequence)) then Ok(sequence)
      else Err(Malformed)
    }

    /** Everything there is, in some order. */
    method ListAll(ks: set<nat>) returns (listed: seq<nat>)
      ensures forall k :: k in listed <==> k in ks
    {
      listed := [];
      var left := ks;
      while left != {}
        invariant left <= ks && forall k :: k in listed <==> k in ks - left
      {
        var k :| k in left;
        left := left - {k};
        listed := listed + [k];
      }
    }

    /** List the directory while others write, and choose the next sequence. The listing is `hint` if the directory can
        show that, or everything there is. */
    method Choose(me: nat, draft: Receipt, race: nat, others: seq<Action>, hint: seq<nat>, fault: bool)
      returns (r: Result<nat, ReceiptError>, shown: seq<nat>)
      requires Valid() && At(me, draft, Start(race)) && race < MAX_WRITE_RACES
      modifies this
      ensures Valid() && old(trace) <= trace
      ensures r == if fault then Err(CannotWrite) else Numbered(draft, MaxOf(shown) + 1)
      ensures !fault ==>
        var low, now := old(SequencesIn(sys.dir, draft.pair)), SequencesIn(sys.dir, draft.pair);
        PossibleListing(shown, low, now) && (PossibleListing(hint, low, now) ==> shown == hint)
      ensures At(me, draft, if r.Ok? then Chosen(race, r.value) else if fault then Errored(None) else Refused)
    {
      var low := SequencesIn(sys.dir, draft.pair);
      shown := [];
      Do(Step(me, []));
      Rivals(me, draft, Listing(race, low), others);
      if fault {
        Do(Error(me));
        return Err(CannotWrite), [];
      }
      var now := SequencesIn(sys.dir, draft.pair);
      ListingGrows(me);
      if PossibleListing(hint, low, now) {
        shown := hint;
      } else {
        shown := ListAll(now);
      }
      r := Number(me, draft, race, low, shown);
    }

    /** The next number after a listing, if a receipt with it can be made. */
    method Number(me: nat, draft: Receipt, race: nat, low: set<nat>, shown: seq<nat>)
      returns (r: Result<nat, ReceiptError>)
      requires Valid() && At(me, draft, Listing(race, low))
      requires PossibleListing(shown, low, SequencesIn(sys.dir, draft.pair))
      modifies this
      ensures Valid() && old(trace) <= trace && sys.dir == old(sys.dir)
      ensures r == Numbered(draft, MaxOf(shown) + 1)
      ensures At(me, draft, if r.Ok? then Chosen(race, r.value) else Refused)
    {
      var largest := LargestListed(shown);
      var sequence := largest + 1;
      Do(Step(me, shown));
      if sequence > MAX_SEQUENCE {
        r := Err(Exhausted);
      } else {
        r := if ValidReceipt(draft.(sequence := sequence)) then Ok(sequence) else Err(Malformed);
      }
    }

    /** A name that was linked when a listing began is still there. */
    lemma ListingGrows(me: nat)
      requires Valid() && me < |sys.appenders| && sys.appenders[me].pc.Listing?
      ensures sys.appenders[me].pc.low <= SequencesIn(sys.dir, sys.appenders[me].draft.pair)
    {
      RunKeepsInv(trace);
      assert AppenderInv(me, sys.appenders[me], sys.dir);
    }

    /** Create and write the temporary file. */
    method WriteTemp(me: nat, draft: Receipt, race: nat, sequence: nat, first: seq<Action>, second: seq<Action>,
                     third: seq<Action>, createFault: bool, writeFault: bool)
      returns (ok: bool)
      requires Valid() && At(me, draft, Chosen(race, sequence))
      modifies this
      ensures Valid() && old(trace) <= trace && (ok <==> !createFault && !writeFault)
      ensures At(me, draft, if ok then Written(race, sequence) else Errored(None))
    {
      Rivals(me, draft, Chosen(race, sequence), first);
      if createFault {
        Do(Error(me));
        return false;
      }
      Do(Step(me, []));
      Rivals(me, draft, Writing(race, sequence), second);
      if writeFault {
        Do(Error(me));
        CleanUp(me, draft, race, third);
        return false;
      }
      Do(Step(me, []));
      ok := true;
    }

    /** After an error the temporary file is removed. */
    method CleanUp(me: nat, draft: Receipt, race: nat, others: seq<Action>)
      requires Valid() && At(me, draft, Failing(race))
      modifies this
      ensures Valid() && old(trace) <= trace && At(me, draft, Errored(None))
    {
      Rivals(me, draft, Failing(race), others);
      Do(Step(me, []));
    }

    /** Remove the temporary name after the link was tried. */
    method Unlink(me: nat, draft: Receipt, race: nat, sequence: nat, linked: bool, others: seq<Action>, fault: bool)
      requires Valid() && At(me, draft, if linked then Linked(race, sequence) else LostRace(race))
      modifies this
      ensures Valid() && old(trace) <= trace
      ensures fault ==> At(me, draft, Errored(if linked then Some(sequence) else None))
      ensures !fault ==> At(me, draft, if linked then Appended(sequence) else Start(race + 1))
    {
      Rivals(me, draft, if linked then Linked(race, sequence) else LostRace(race), others);
      Do(if fault then Error(me) else Step(me, []));
    }

    /** Link the temporary file to the chosen name if that is free, and remove the temporary name. An error of the
        removal ends the call even if the receipt is linked. */
    method LinkTemp(me: nat, draft: Receipt, race: nat, sequence: nat, first: seq<Action>, second: seq<Action>,
                    linkFault: bool, unlinkFault: bool)
      returns (linked: bool)
      requires Valid() && At(me, draft, Written(race, sequence))
      modifies this
      ensures Valid() && old(trace) <= trace
      ensures linkFault ==> !linked && At(me, draft, Errored(None))
      ensures !linkFault && unlinkFault ==> At(me, draft, Errored(if linked then Some(sequence) else None))
      ensures !linkFault && !unlinkFault ==> At(me, draft, if linked then Appended(sequence) else Start(race + 1))
    {
      Rivals(me, draft, Written(race, sequence), first);
      if linkFault {
        Do(Error(me));
        CleanUp(me, draft, race, second);
        return false;
      }
      TempSurvives(me, race, sequence);
      linked := ReceiptName(draft.pair, sequence) !in sys.dir;
      Do(Step(me, []));
      Unlink(me, draft, race, sequence, linked, second, unlinkFault);
    }

    lemma TempSurvives(me: nat, race: nat, sequence: nat)
      requires Valid() && me < |sys.appenders| && sys.appenders[me].pc == Written(race, sequence)
      ensures TempName(me, race) in sys.dir
    {
      RunKeepsInv(trace);
      assert AppenderInv(me, sys.appenders[me], sys.dir);
    }

    /** The faults of one race: listing, creating, writing, linking and unlinking. */
    ghost predicate Faulty(faults: (nat, nat) -> bool) {
      exists race: nat, command: nat :: race < MAX_WRITE_RACES && command < 5 && faults(race, command)
    }

    /** One `append_receipt` call: at most five races for the next sequence number. On success the receipt is linked,
        whole, under the returned number. It reports an operating-system error only after one, that it kept racing only
        after five more receipts of its pair, a malformed receipt only if no number makes it valid, and exhaustion only
        if the pair's last number is taken. */
    method Append(draft: Receipt, rivals: (nat, nat) -> seq<Action>, hints: nat -> seq<nat>, faults: (nat, nat) -> bool)
      returns (r: Result<nat, ReceiptError>)
      requires Valid()
      modifies this
      ensures Valid() && old(trace) <= trace
      ensures r.Ok? ==> At(old(|sys.appenders|), draft, Appended(r.value))
      ensures r.Ok? ==> Holds(sys.dir, ReceiptName(draft.pair, r.value), draft.(sequence := r.value))
      ensures r.Err? ==> r.error in {CannotWrite, KeptRacing, Exhausted, Malformed}
      ensures r == Err(CannotWrite) ==> Faulty(faults)
      ensures r == Err(KeptRacing) ==> At(old(|sys.appenders|), draft, GaveUp)
      ensures r == Err(KeptRacing) ==>
        |SequencesIn(sys.dir, draft.pair)| >= old(|SequencesIn(sys.dir, draft.pair)|) + 5
      ensures r in {Err(Exhausted), Err(Malformed)} ==> At(old(|sys.appenders|), draft, Refused)
      ensures r == Err(Malformed) ==> !RO.WellMade(draft)
      ensures r == Err(Exhausted) ==> RO.Full(sys.dir, draft.pair)
      ensures r.Ok? ==> RO.WellMade(draft) && 1 <= r.value <= 999_999
    {
      var me := |sys.appenders|;
      ghost var base := |SequencesIn(sys.dir, draft.pair)|;
      Do(Begin(draft));
      ghost var began := trace;
      for race := 0 to MAX_WRITE_RACES
        invariant Valid() && old(trace) <= trace && At(me, draft, Start(race)) && began <= trace
      {
        var lost;
        r, lost := Race(me, draft, race, rivals, hints(race), faults);
        if !lost {
          if r.Ok? { Appending(me); }
          return;
        }
      }
      Do(Step(me, []));
      RunKeepsPaid(trace);
      assert trace == began + trace[|began|..];
      RO.BaseIsKept(began, trace[|began|..], me);
      r := Err(KeptRacing);
    }

    /** One race; `lost` if another call took the number. */
    method Race(me: nat, draft: Receipt, race: nat, rivals: (nat, nat) -> seq<Action>, hint: seq<nat>,
                faults: (nat, nat) -> bool)
      returns (r: Result<nat, ReceiptError>, lost: bool)
      requires Valid() && At(me, draft, Start(race)) && race < MAX_WRITE_RACES
      modifies this
      ensures Valid() && old(trace) <= trace
      ensures lost ==> At(me, draft, Start(race + 1))
      ensures !lost && r.Ok? ==> At(me, draft, Appended(r.value))
      ensures !lost && r.Err? ==> r.error in {CannotWrite, Exhausted, Malformed}
      ensures !lost && r == Err(CannotWrite) ==> Faulty(faults)
      ensures !lost && r in {Err(Exhausted), Err(Malformed)} ==> At(me, draft, Refused)
      ensures !lost && r == Err(Malformed) ==> !RO.WellMade(draft)
      ensures !lost && r == Err(Exhausted) ==> RO.Full(sys.dir, draft.pair)
    {
      Rivals(me, draft, Start(race), rivals(race, 0));
      var shown;
      r, shown := Choose(me, draft, race, rivals(race, 1), hint, faults(race, 0));
      if r.Err? {
        if !faults(race, 0) { Refusal(draft, shown); }
        return r, false;
      }
      var failed;
      failed, lost := Attempt(me, draft, race, r.value, rivals, faults);
      if failed { r := Err(CannotWrite); }
    }

    /** Write and link under the chosen number. */
    method Attempt(me: nat, draft: Receipt, race: nat, sequence: nat, rivals: (nat, nat) -> seq<Action>,
                   faults: (nat, nat) -> bool)
      returns (failed: bool, lost: bool)
      requires Valid() && At(me, draft, Chosen(race, sequence)) && race < MAX_WRITE_RACES
      modifies this
      ensures Valid() && old(trace) <= trace && !(failed && lost)
      ensures failed ==> Faulty(faults)
      ensures !failed ==> At(me, draft, if lost then Start(race + 1) else Appended(sequence))
    {
      var ok := WriteTemp(me, draft, race, sequence, rivals(race, 2), rivals(race, 3), rivals(race, 4),
                          faults(race, 1), faults(race, 2));
      if !ok {
        return true, false;
      }
      var linked :=
        LinkTemp(me, draft, race, sequence, rivals(race, 5), rivals(race, 6), faults(race, 3), faults(race, 4));
      failed := faults(race, 3) || faults(race, 4);
      lost := !failed && !linked;
    }

    /** A refusal after a listing: an invalid draft, or no number left. */
    lemma Refusal(draft: Receipt, shown: seq<nat>)
      requires Valid() && PossibleListing(shown, {}, SequencesIn(sys.dir, draft.pair))
      ensures Numbered(draft, MaxOf(shown) + 1) == Err(Malformed) ==> !RO.WellMade(draft)
      ensures Numbered(draft, MaxOf(shown) + 1) == Err(Exhausted) ==> RO.Full(sys.dir, draft.pair)
    {
      RunKeepsInv(trace);
      RO.ValidMeaning(draft.(sequence := MaxOf(shown) + 1));
      if MaxOf(shown) + 1 > MAX_SEQUENCE { RO.ListedIsFull(sys.dir, draft.pair, shown, {}); }
    }

    lemma Appending(me: nat)
      requires Valid() && me < |sys.appenders| && sys.appenders[me].pc.Appended?
      ensures var a := sys.appenders[me];
        && Holds(sys.dir, ReceiptName(a.draft.pair, a.pc.sequence), ReceiptFor(a, a.pc.sequence))
        && RO.WellMade(a.draft) && 1 <= a.pc.sequence <= 999_999
    {
      RunKeepsInv(trace);
      assert AppenderInv(me, sys.appenders[me], sys.dir);
      RO.RefusalsAreJustified(trace, me);
    }
  }

  /** The loop of `_sequences` with `max`. */
  method LargestListed(listed: seq<nat>) returns (m: nat)
    ensures m == MaxOf(listed)
  {
    m := 0;
    for i := 0 to |listed|
      invariant m == MaxOf(listed[..i])
    {
      assert listed[..i + 1][..i] == listed[..i];
      if listed[i] > m { m := listed[i]; }
    }
    assert listed[..|listed|] == listed;
  }

  // ----------------------------------------------------------------- read_receipts

  predicate PairLess(a: Pair, b: Pair) {
    a.alertId < b.alertId || (a.alertId == b.alertId && a.channel < b.channel)
  }

  /** Ordered by (alert_id, channel, sequence). */
  predicate ReceiptLe(a: Receipt, b: Receipt) {
    PairLess(a.pair, b.pair) || (a.pair == b.pair && a.sequence <= b.sequence)
  }

  /** By alert, then channel, then sequence number. */
  predicate Earlier(a: Receipt, b: Receipt) {
    || a.pair.alertId < b.pair.alertId
    || (a.pair.alertId == b.pair.alertId && a.pair.channel < b.pair.channel)
    || (a.pair == b.pair && a.sequence < b.sequence)
  }

  /** The sequence numbers of one (alert, channel), in list order. */
  function SequencesOf(rs: seq<Receipt>, p: Pair): seq<nat> {
    if rs == [] then []
    else
      var n := |rs| - 1;
      SequencesOf(rs[..n], p) + (if rs[n].pair == p then [rs[n].sequence] else [])
  }

  function Range(n: nat): seq<nat> {
    seq(n, i => i + 1)
  }

  predicate Increasing(s: seq<nat>) {
    forall i, j :: 0 <= i < j < |s| ==> s[i] < s[j]
  }

  /** Strictly ordered: what sorting gives when names are unique. */
  predicate StrictlyOrdered(rs: seq<Receipt>) {
    forall i, j :: 0 <= i < j < |rs| ==> ReceiptLe(rs[i], rs[j]) && NameOf(rs[i]) != NameOf(rs[j])
  }

  ghost predicate Names(rs: seq<Receipt>, p: Pair, k: nat) {
    exists i :: 0 <= i < |rs| && NameOf(rs[i]) == ReceiptName(p, k)
  }

  lemma {:induction false} SequencesOfMembers(rs: seq<Receipt>, p: Pair, k: nat)
    ensures k in SequencesOf(rs, p) <==> Names(rs, p, k)
  {
    if rs != [] {
      var n := |rs| - 1;
      var h := rs[..n];
      SequencesOfMembers(h, p, k);
      if Names(h, p, k) {
        var i :| 0 <= i < n && NameOf(h[i]) == ReceiptName(p, k);
        assert NameOf(rs[i]) == ReceiptName(p, k);
      }
      if Names(rs, p, k) {
        var i :| 0 <= i < |rs| && NameOf(rs[i]) == ReceiptName(p, k);
        assert i < n ==> NameOf(h[i]) == ReceiptName(p, k);
      }
    }
  }

  lemma {:induction false} SequencesOfMeaning(rs: seq<Receipt>, p: Pair)
    requires StrictlyOrdered(rs)
    ensures Increasing(SequencesOf(rs, p))
    ensures forall k :: k in SequencesOf(rs, p) <==> Names(rs, p, k)
  {
    if rs != [] {
      var n := |rs| - 1;
      var h := rs[..n];
      assert forall i :: 0 <= i < n ==> h[i] == rs[i];
      SequencesOfMeaning(h, p);
      var t := SequencesOf(h, p);
      forall j | 0 <= j < |t| && rs[n].pair == p ensures t[j] < rs[n].sequence {
        var k := t[j];
        assert k in t;
        var i :| 0 <= i < n && NameOf(h[i]) == ReceiptName(p, k);
        assert ReceiptLe(rs[i], rs[n]) && NameOf(rs[i]) != NameOf(rs[n]);
      }
    }
    forall k ensures k in SequencesOf(rs, p) <==> Names(rs, p, k) { SequencesOfMembers(rs, p, k); }
  }

  /** An increasing list of positive numbers closed under predecessors is 1, 2, ..., n. */
  lemma {:induction false} ClosedIsRange(s: seq<nat>)
    requires Increasing(s) && forall k <- s :: k >= 1 && (k > 1 ==> k - 1 in s)
    ensures s == Range(|s|)
  {
    if s != [] {
      var n := |s| - 1;
      var h := s[..n];
      forall k | k in h ensures k >= 1 && (k > 1 ==> k - 1 in h) {
        var i :| 0 <= i < n && h[i] == k;
        assert s[i] == k && k in s;
        if k > 1 {
          assert k - 1 in s;
          var j :| 0 <= j < |s| && s[j] == k - 1;
          assert j < i;
          assert h[j] == k - 1;
        }
      }
      ClosedIsRange(h);
      assert s[n] == n + 1 by {
        assert s[n] in s;
        if s[n] > 1 {
          assert s[n] - 1 in s;
          var j :| 0 <= j < |s| && s[j] == s[n] - 1;
          assert j < n;
        }
        assert n > 0 ==> s[n - 1] == h[n - 1] == n;
      }
    }
  }

  // ----------------------------------------------------------------- reading the directory

  /** Why one listed file stops the reading, if it does. */
  function FileError(n: Name, f: File): Option<ReceiptError> {
    match n
    case TempName(_, _) => None
    case OtherName(_) => Some(UnknownFile)
    case ReceiptName(_, _) =>
      if f.Torn? then Some(Unreadable)
      else if !ValidReceipt(f.receipt) then Some(Malformed)
      else if NameOf(f.receipt) != n then Some(NameMismatch)
      else None
  }

  /** A file is acceptable exactly if it is a leftover temporary file or a whole, well-made receipt under its own name;
      otherwise the error says what is wrong with it. */
  lemma FileErrorMeaning(n: Name, f: File)
    ensures var made := f.Whole? && RO.WellMade(f.receipt) && 1 <= f.receipt.sequence <= 999_999;
      && (FileError(n, f) == None <==>
            n.TempName? || (n.ReceiptName? && made && f.receipt.pair == n.pair && f.receipt.sequence == n.sequence))
      && (FileError(n, f) == Some(UnknownFile) <==> n.OtherName?)
      && (FileError(n, f) == Some(Unreadable) <==> n.ReceiptName? && f == Torn)
      && (FileError(n, f) == Some(Malformed) <==> n.ReceiptName? && f.Whole? && !made)
      && (FileError(n, f) == Some(NameMismatch) <==>
            n.ReceiptName? && made && !(f.receipt.pair == n.pair && f.receipt.sequence == n.sequence))
  {
    if f.Whole? { RO.ValidMeaning(f.receipt); }
  }

  /** `rs` holds the receipts of the names listed so far, once each. */
  ghost predicate Collected(dir: Directory, names: seq<Name>, rs: seq<Receipt>) {
    && Distinct(rs)
    && (forall r <- rs :: ValidReceipt(r) && NameOf(r) in names && Holds(dir, NameOf(r), r))
    && (forall n <- names :: n.ReceiptName? ==> exists r <- rs :: NameOf(r) == n)
    && (forall n <- names :: n in dir && FileError(n, dir[n]) == None)
  }

  /** A complete, sorted collection is strictly ordered by (alert, channel, sequence). */
  lemma CollectedSorted(dir: Directory, names: seq<Name>, rs: seq<Receipt>)
    requires Collected(dir, names, rs)
    ensures StrictlyOrdered(Sort(rs, ReceiptLe))
    ensures forall r :: r in Sort(rs, ReceiptLe) <==> r in rs
  {
    var s := Sort(rs, ReceiptLe);
    SortPermutes(rs, ReceiptLe);
    SortSorted(rs, ReceiptLe);
    DistinctPermutes(rs, s);
    forall r ensures r in s <==> r in rs { SameElements(s, rs, r); }
    forall i, j | 0 <= i < j < |s| ensures ReceiptLe(s[i], s[j]) && NameOf(s[i]) != NameOf(s[j]) {
      assert s[i] in rs && s[j] in rs;
      assert Holds(dir, NameOf(s[i]), s[i]) && Holds(dir, NameOf(s[j]), s[j]);
    }
  }

  /** Every file is acceptable on its own. */
  ghost predicate FilesOk(dir: Directory) {
    forall n <- dir :: FileError(n, dir[n]) == None
  }

  /** The group check of the reader is the absence of gaps. */
  lemma NamedIsListed(dir: Directory, rs: seq<Receipt>, p: Pair, k: nat)
    requires FilesOk(dir) && forall r :: r in rs <==> Holds(dir, NameOf(r), r)
    ensures Names(rs, p, k) <==> ReceiptName(p, k) in dir
  {
    var n := ReceiptName(p, k);
    if n in dir {
      assert FileError(n, dir[n]) == None;
      assert dir[n].receipt in rs;
    }
    if Names(rs, p, k) {
      var i :| 0 <= i < |rs| && NameOf(rs[i]) == n;
      assert rs[i] in rs;
    }
  }

  lemma GroupsAreRanges(dir: Directory, rs: seq<Receipt>, p: Pair)
    requires FilesOk(dir) && StrictlyOrdered(rs)
    requires forall r :: r in rs <==> Holds(dir, NameOf(r), r)
    ensures var s := SequencesOf(rs, p);
      s == Range(|s|) <==> forall k: nat :: k > 1 && ReceiptName(p, k) in dir ==> ReceiptName(p, k - 1) in dir
  {
    var s := SequencesOf(rs, p);
    SequencesOfMeaning(rs, p);
    forall k: nat ensures k in s <==> ReceiptName(p, k) in dir { NamedIsListed(dir, rs, p, k); }
    forall k | k in s ensures k >= 1 {
      assert FileError(ReceiptName(p, k), dir[ReceiptName(p, k)]) == None;
    }
    if s == Range(|s|) {
      forall k: nat | k > 1 && ReceiptName(p, k) in dir ensures ReceiptName(p, k - 1) in dir {
        var i :| 0 <= i < |s| && s[i] == k;
        assert s[i - 1] == k - 1;
      }
    } else if forall k: nat :: k > 1 && ReceiptName(p, k) in dir ==> ReceiptName(p, k - 1) in dir {
      ClosedIsRange(s);
    }
  }

  /** The reader's check of one group. */
  predicate GroupOk(rs: seq<Receipt>, p: Pair) {
    SequencesOf(rs, p) == Range(|SequencesOf(rs, p)|)
  }

  lemma AllGroupsDecide(dir: Directory, rs: seq<Receipt>)
    requires FilesOk(dir) && StrictlyOrdered(rs)
    requires forall r :: r in rs <==> Holds(dir, NameOf(r), r)
    ensures GoodDirectory(dir) <==> forall p :: GroupOk(rs, p)
  {
    if forall p :: GroupOk(rs, p) {
      forall n | n in dir ensures GoodEntry(dir, n) {
        assert FileError(n, dir[n]) == None;
        if n.ReceiptName? {
          GroupsAreRanges(dir, rs, n.pair);
          assert GroupOk(rs, n.pair);
          assert n == ReceiptName(n.pair, n.sequence);
        }
      }
    }
    if GoodDirectory(dir) {
      forall p ensures GroupOk(rs, p) {
        forall k: nat | k > 1 && ReceiptName(p, k) in dir ensures ReceiptName(p, k - 1) in dir {
          assert GoodEntry(dir, ReceiptName(p, k));
        }
        GroupsAreRanges(dir, rs, p);
      }
    }
  }

  /** `e` is the error of the first listed name that has one. */
  ghost predicate FirstError(dir: Directory, names: seq<Name>, e: ReceiptError)
    requires forall n <- names :: n in dir
  {
    exists i :: 0 <= i < |names| && FileError(names[i], dir[names[i]]) == Some(e)
      && forall j :: 0 <= j < i ==> FileError(names[j], dir[names[j]]) == None
  }

  /** The first loop of the reader: every file must be acceptable on its own. */
  method Collect(dir: Directory, names: seq<Name>) returns (r: Result<seq<Receipt>, ReceiptError>)
    requires Distinct(names) && forall n :: n in names <==> n in dir
    ensures r.Ok? <==> FilesOk(dir)
    ensures r.Ok? ==> Collected(dir, names, r.value)
    ensures r.Err? ==> FirstError(dir, names, r.error)
  {
    var receipts := [];
    for i := 0 to |names|
      invariant Collected(dir, names[..i], receipts)
    {
      var n := names[i];
      assert n in names;
      var e := FileError(n, dir[n]);
      if e.Some? {
        forall j | 0 <= j < i ensures FileError(names[j], dir[names[j]]) == None { assert names[j] in names[..i]; }
        return Err(e.value);
      }
      assert names[..i + 1] == names[..i] + [n];
      if n.ReceiptName? {
        receipts := receipts + [dir[n].receipt];
      }
    }
    assert names[..|names|] == names;
    return Ok(receipts);
  }

  /** The grouping loop and the gap check. */
  method HasGap(rs: seq<Receipt>) returns (gap: bool)
    ensures gap <==> exists p :: !GroupOk(rs, p)
  {
    var groups: map<Pair, seq<nat>> := map[];
    for i := 0 to |rs|
      invariant forall p :: SequencesOf(rs[..i], p) == if p in groups then groups[p] else []
    {
      assert rs[..i + 1][..i] == rs[..i];
      var p := rs[i].pair;
      groups := groups[p := (if p in groups then groups[p] else []) + [rs[i].sequence]];
    }
    assert rs[..|rs|] == rs;
    gap := exists p <- groups :: groups[p] != Range(|groups[p]|);
    if gap {
      var p :| p in groups && groups[p] != Range(|groups[p]|);
      assert !GroupOk(rs, p);
    }
  }

  /** Every receipt of the directory, ordered; it succeeds exactly on the directories that appenders can leave behind.
      */
  method ReadReceipts(dir: Directory, names: seq<Name>) returns (r: Result<seq<Receipt>, ReceiptError>)
    requires Distinct(names) && forall n :: n in names <==> n in dir
    ensures r.Ok? <==> GoodDirectory(dir)
    ensures r.Ok? ==> forall x :: x in r.value <==> Holds(dir, NameOf(x), x)
    ensures r.Ok? ==> forall i, j :: 0 <= i < j < |r.value| ==> Earlier(r.value[i], r.value[j])
    ensures r.Err? ==> if FilesOk(dir) then r.error == SequenceGap else FirstError(dir, names, r.error)
  {
    var collected := Collect(dir, names);
    if collected.Err? {
      return collected;
    }
    var receipts := Sort(collected.value, ReceiptLe);
    CollectedSorted(dir, names, collected.value);
    AllGroupsDecide(dir, receipts);
    var gap := HasGap(receipts);
    return if gap then Err(SequenceGap) else Ok(receipts);
  }

  // ----------------------------------------------------------------- delivered markers

  /** The message ids a pair was delivered under, in list order. */
  function DeliveredIds(rs: seq<Receipt>, p: Pair): seq<string> {
    if rs == [] then []
    else
      var n := |rs| - 1;
      DeliveredIds(rs[..n], p) + (if rs[n].pair == p && rs[n].status.Delivered? then [rs[n].status.messageId] else [])
  }

  method DeliveredMarkers(rs: seq<Receipt>) returns (markers: map<Pair, seq<string>>)
    ensures forall p :: DeliveredIds(rs, p) == if p in markers then markers[p] else []
    ensures forall p <- markers :: markers[p] != []
  {
    markers := map[];
    for i := 0 to |rs|
      invariant forall p :: DeliveredIds(rs[..i], p) == if p in markers then markers[p] else []
      invariant forall p <- markers :: markers[p] != []
    {
      assert rs[..i + 1][..i] == rs[..i];
      var p := rs[i].pair;
      if rs[i].status.Delivered? {
        markers := markers[p := (if p in markers then markers[p] else []) + [rs[i].status.messageId]];
      }
    }
    assert rs[..|rs|] == rs;
  }

  /** A marker id is one that a delivered receipt of the pair proves. */
  lemma {:induction false} DeliveredIdsAreProven(rs: seq<Receipt>, p: Pair, id: string)
    ensures id in DeliveredIds(rs, p) <==>
      exists i :: 0 <= i < |rs| && rs[i].pair == p && rs[i].status == Delivered(id)
  {
    if rs != [] {
      var n := |rs| - 1;
      var h := rs[..n];
      assert forall i :: 0 <= i < n ==> h[i] == rs[i];
      DeliveredIdsAreProven(h, p, id);
      if exists i :: 0 <= i < n && h[i].pair == p && h[i].status == Delivered(id) {
        var i :| 0 <= i < n && h[i].pair == p && h[i].status == Delivered(id);
        assert rs[i].status == Delivered(id);
      }
    }
  }

  /** The i-th receipt delivered the pair under `id`, and none of the pair with a greater number is delivered. */
  ghost predicate DeliveredLast(rs: seq<Receipt>, p: Pair, id: string, i: int) {
    && 0 <= i < |rs| && rs[i].pair == p && rs[i].status == Delivered(id)
    && forall j :: 0 <= j < |rs| && rs[j].pair == p && rs[j].status.Delivered? ==> rs[j].sequence <= rs[i].sequence
  }

  ghost predicate IsNewestId(rs: seq<Receipt>, p: Pair, id: string) {
    exists i :: DeliveredLast(rs, p, id, i)
  }

  /** The last marker id of a pair is that of its delivered receipt with the greatest number. */
  lemma {:induction false} LastIdIsNewest(rs: seq<Receipt>, p: Pair)
    requires forall i, j :: 0 <= i < j < |rs| ==> Earlier(rs[i], rs[j])
    ensures var ids := DeliveredIds(rs, p); ids != [] ==> IsNewestId(rs, p, ids[|ids| - 1])
  {
    if rs != [] {
      var n := |rs| - 1;
      var h := rs[..n];
      assert forall i :: 0 <= i < n ==> h[i] == rs[i];
      LastIdIsNewest(h, p);
      var ids := DeliveredIds(rs, p);
      if rs[n].pair == p && rs[n].status.Delivered? {
        assert DeliveredLast(rs, p, ids[|ids| - 1], n);
      } else if ids != [] {
        var i :| DeliveredLast(h, p, ids[|ids| - 1], i);
        assert DeliveredLast(rs, p, ids[|ids| - 1], i);
      }
    }
  }

  // ----------------------------------------------------------------- restore-delivery

  type Markers = map<Pair, string>

  /** Every cached marker is an id that the receipts prove for it. */
  ghost predicate Compatible(m: Markers, proven: map<Pair, seq<string>>) {
    forall p <- m :: p in proven ==> m[p] in proven[p]
  }

  /** RESTORE_DELIVERED on one key: a missing marker gets the last id. */
  function PutMarker(m: Markers, p: Pair, ids: seq<string>): Markers
    requires ids != []
  {
    if p in m then m else m[p := ids[|ids| - 1]]
  }

  function FillMarkers(m: Markers, proven: map<Pair, seq<string>>, keys: seq<Pair>): Markers
    requires forall p <- keys :: p in proven && proven[p] != []
  {
    if keys == [] then m
    else
      var n := |keys| - 1;
      PutMarker(FillMarkers(m, proven, keys[..n]), keys[n], proven[keys[n]])
  }

  lemma {:induction false} FillMarkersAt(m: Markers, proven: map<Pair, seq<string>>, keys: seq<Pair>, p: Pair)
    requires forall p <- keys :: p in proven && proven[p] != []
    ensures Lookup(FillMarkers(m, proven, keys), p) ==
      if p in m then Some(m[p]) else if p in keys then Some(proven[p][|proven[p]| - 1]) else None
  {
    if keys != [] {
      FillMarkersAt(m, proven, keys[..|keys| - 1], p);
      assert p in keys ==> p in keys[..|keys| - 1] || p == keys[|keys| - 1];
    }
  }

  lemma SameMarkers(a: Markers, b: Markers)
    requires forall p :: Lookup(a, p) == Lookup(b, p)
    ensures a == b
  {
    forall p ensures p in a <==> p in b { assert Lookup(a, p) == Lookup(b, p); }
    forall p | p in a ensures a[p] == b[p] { assert Lookup(a, p) == Lookup(b, p); }
  }

  /** Rerunning after any number of keys were written ends as an uninterrupted restore would. */
  lemma RestoreDeliveryResumes(m: Markers, proven: map<Pair, seq<string>>, keys: seq<Pair>, done: nat)
    requires (forall p <- keys :: p in proven && proven[p] != []) && Compatible(m, proven) && done <= |keys|
    ensures var mid := FillMarkers(m, proven, keys[..done]);
      Compatible(mid, proven) && FillMarkers(mid, proven, keys) == FillMarkers(m, proven, keys)
  {
    var mid := FillMarkers(m, proven, keys[..done]);
    forall p ensures Lookup(FillMarkers(mid, proven, keys), p) == Lookup(FillMarkers(m, proven, keys), p) {
      FillMarkersAt(mid, proven, keys, p);
      FillMarkersAt(m, proven, keys, p);
      FillMarkersAt(m, proven, keys[..done], p);
    }
    SameMarkers(FillMarkers(mid, proven, keys), FillMarkers(m, proven, keys));
    forall p | p in mid && p in proven ensures mid[p] in proven[p] {
      FillMarkersAt(m, proven, keys[..done], p);
    }
  }

  datatype RestoreOutcome = Restored(written: nat) | Disagreement | ConnectionLost(done: nat)

  class MarkerCache {
    var markers: Markers

    /** The check phase: `None` when no marker disagrees with the receipts. */
    method CheckMarkers(proven: map<Pair, seq<string>>, keys: seq<Pair>, budget: nat)
      returns (stop: Option<RestoreOutcome>)
      requires forall p :: p in keys <==> p in proven
      ensures stop.None? ==> Compatible(markers, proven) && budget >= |keys|
      ensures stop.Some? ==> stop in {Some(ConnectionLost(0)), Some(Disagreement)}
      ensures stop == Some(Disagreement) ==> !Compatible(markers, proven)
      ensures budget >= |keys| ==> stop != Some(ConnectionLost(0))
    {
      for i := 0 to |keys|
        invariant i <= budget
        invariant forall j :: 0 <= j < i && keys[j] in markers ==> markers[keys[j]] in proven[keys[j]]
      {
        if i == budget { return Some(ConnectionLost(0)); }
        assert keys[i] in keys;
        if keys[i] in markers && markers[keys[i]] !in proven[keys[i]] {
          return Some(Disagreement);
        }
      }
      forall p | p in markers && p in proven ensures markers[p] in proven[p] { assert p in keys; }
      return None;
    }

    /** The write phase: the script on each key in turn. */
    method WriteMarkers(proven: map<Pair, seq<string>>, keys: seq<Pair>, budget: nat) returns (done: nat, written: nat)
      requires forall p <- keys :: p in proven && proven[p] != []
      modifies this
      ensures done <= |keys| && (budget >= |keys| ==> done == |keys|)
      ensures markers == FillMarkers(old(markers), proven, keys[..done])
      ensures written == |markers| - |old(markers)|
    {
      done, written := 0, 0;
      while done < |keys| && done < budget
        invariant done <= |keys|
        invariant markers == FillMarkers(old(markers), proven, keys[..done])
        invariant written == |markers| - |old(markers)|
      {
        assert keys[..done + 1][..done] == keys[..done] && keys[done] in keys;
        if keys[done] !in markers {
          written := written + 1;
        }
        markers := PutMarker(markers, keys[done], proven[keys[done]]);
        done := done + 1;
      }
    }

    /** What was there is kept; a missing marker is the last id of its pair. */
    ghost predicate LastFilledIn(before: Markers, proven: map<Pair, seq<string>>, after: Markers)
      requires forall p <- proven :: proven[p] != []
    {
      forall p <- proven :: p in after && after[p] == if p in before then before[p] else proven[p][|proven[p]| - 1]
    }

    /** `restore-delivery`: check every key, then write the missing markers; the connection survives `budget` commands.
        A disagreement writes nothing, and on success every marker is an id that a delivered receipt proves. */
    method RestoreDelivery(proven: map<Pair, seq<string>>, keys: seq<Pair>, budget: nat) returns (r: RestoreOutcome)
      requires (forall p :: p in keys <==> p in proven) && forall p <- proven :: proven[p] != []
      modifies this
      ensures !Compatible(old(markers), proven) ==> markers == old(markers) && !r.Restored?
      ensures r.Disagreement? ==> !Compatible(old(markers), proven)
      ensures r.ConnectionLost? ==> r.done <= |keys| && markers == FillMarkers(old(markers), proven, keys[..r.done])
      ensures r.Restored? ==> markers == FillMarkers(old(markers), proven, keys)
      ensures r.Restored? ==> r.written == |markers| - |old(markers)|
      ensures r.Restored? ==> forall p <- proven :: p in markers && markers[p] in proven[p]
      ensures r.Restored? ==> LastFilledIn(old(markers), proven, markers)
      ensures r.Restored? ==> forall p :: p !in proven ==> Lookup(markers, p) == Lookup(old(markers), p)
      ensures budget >= 2 * |keys| ==> !r.ConnectionLost?
    {
      var stop := CheckMarkers(proven, keys, budget);
      if stop.Some? {
        return stop.value;
      }
      var done, written := WriteMarkers(proven, keys, budget - |keys|);
      if done < |keys| {
        return ConnectionLost(done);
      }
      assert keys[..done] == keys;
      forall p
        ensures Lookup(markers, p) ==
          if p in old(markers) then Some(old(markers)[p])
          else if p in keys then Some(proven[p][|proven[p]| - 1]) else None
      {
        FillMarkersAt(old(markers), proven, keys, p);
      }
      forall p | p in proven ensures p in markers && markers[p] in proven[p] {
        assert Lookup(markers, p).Some?;
      }
      return Restored(written);
    }
  }
}
