/** Immutable, no-clobber publishing by any number of concurrent publishers (artifact_store/store.py). Looking, creating
    the temporary file, each partial write, linking and unlinking are separate steps; a publisher may stop after any of
    them or fail with an operating-system error. */
module ArtifactPublish {
  import opened Results

  type Bytes = seq<nat>

  datatype Kind = MarketIntelligence | OptionsIntelligence | TradeSetup | InvalidationCheck | AlertKind

  /** A validated object; `canonical` is its canonical serialization. `instant` is its sealed as_of in microseconds. */
  datatype Artifact = Artifact(kind: Kind, symbol: string, instant: int, canonical: Bytes)

  /** Content addressing: an id stands for one body. */
  datatype Id = Sha256(body: Artifact)

  /** A file of one kind directory: `<hex>.json`, `.artifact-*.tmp` (unique per publisher), or anything else. */
  datatype Name = ArtifactName(kind: Kind, id: Id) | TempName(kind: Kind, owner: nat)
    | ForeignName(kind: Kind, text: string)

  /** The store: its kind directories and the bytes under each name. */
  datatype Disk = Disk(kinds: set<Kind>, files: map<Name, Bytes>)

  datatype Outcome = Published | AlreadyPresent | Conflict | Unavailable

  datatype Pc =
    | Begin
    | Entered                  // the kind directory exists
    | Absent                   // the name was free
    | Writing(written: nat)    // the temporary file holds this many bytes
    | Collided                 // the link failed: the name exists
    | Leaving(outcome: Outcome)
    | Finished(outcome: Outcome)

  datatype Publisher = Publisher(artifact: Artifact, pc: Pc)

  datatype System = System(disk: Disk, publishers: seq<Publisher>)

  datatype Action =
    | Request(artifact: Artifact)
    | Step(i: nat, chunk: nat)   // `chunk` matters to a write only: how many bytes it takes
    | Error(i: nat)

  const INIT := System(Disk({}, map[]), [])

  function FinalName(a: Artifact): Name {
    ArtifactName(a.kind, Sha256(a))
  }

  /** `_existing`. */
  function Existing(disk: Disk, a: Artifact): Option<Outcome> {
    match Lookup(disk.files, FinalName(a))
    case None => None
    case Some(current) => if current == a.canonical then Some(AlreadyPresent) else Some(Conflict)
  }

  function Min(a: nat, b: nat): nat {
    if a <= b then a else b
  }

  function Advance(me: nat, p: Publisher, disk: Disk, chunk: nat): (Publisher, Disk) {
    var a := p.artifact;
    var temp := TempName(a.kind, me);
    match p.pc
    case Begin => (p.(pc := Entered), disk.(kinds := disk.kinds + {a.kind}))
    case Entered =>
      (p.(pc := match Existing(disk, a) case Some(o) => Finished(o) case None => Absent), disk)
    case Absent => (p.(pc := Writing(0)), disk.(files := disk.files[temp := []]))
    case Writing(n) =>
      if n < |a.canonical| then
        var m := Min(n + Min(chunk, |a.canonical|) + 1, |a.canonical|);
        (p.(pc := Writing(m)), disk.(files := disk.files[temp := a.canonical[..m]]))
      else if temp !in disk.files then (p.(pc := Leaving(Unavailable)), disk)
      else if FinalName(a) in disk.files then (p.(pc := Collided), disk)
      else (p.(pc := Leaving(Published)), disk.(files := disk.files[FinalName(a) := disk.files[temp]]))
    case Collided =>
      (p.(pc := Leaving(match Existing(disk, a) case Some(o) => o case None => Conflict)), disk)
    case Leaving(o) => (p.(pc := Finished(o)), disk.(files := disk.files - {temp}))
    case Finished(_) => (p, disk)
  }

  function Fail(p: Publisher): Publisher {
    match p.pc
    case Begin => p.(pc := Finished(Unavailable))
    case Entered => p.(pc := Finished(Unavailable))
    case Absent => p.(pc := Finished(Unavailable))
    case Writing(_) => p.(pc := Leaving(Unavailable))
    case Collided => p.(pc := Leaving(Unavailable))
    case Leaving(o) => p.(pc := Finished(o))   // a failed unlink is ignored
    case Finished(_) => p
  }

  function Next(sys: System, action: Action): System {
    match action
    case Request(a) => sys.(publishers := sys.publishers + [Publisher(a, Begin)])
    case Step(i, chunk) =>
      if i < |sys.publishers| then
        var (p, disk) := Advance(i, sys.publishers[i], sys.disk, chunk);
        System(disk, sys.publishers[i := p])
      else sys
    case Error(i) =>
      if i < |sys.publishers| then sys.(publishers := sys.publishers[i := Fail(sys.publishers[i])]) else sys
  }

  function Run(sys: System, actions: seq<Action>): System {
    if actions == [] then sys else Next(Run(sys, actions[..|actions| - 1]), actions[|actions| - 1])
  }

  // ----------------------------------------------------------------- the invariant

  /** What the index builder demands of a file: a leftover temporary file, or a final name that holds exactly the
      canonical bytes of its id, in its own kind directory. */
  predicate GoodFile(n: Name, content: Bytes) {
    match n
    case ArtifactName(kind, id) => content == id.body.canonical && kind == id.body.kind
    case TempName(_, _) => true
    case ForeignName(_, _) => false
  }

  ghost predicate GoodDisk(disk: Disk) {
    forall n <- disk.files :: GoodFile(n, disk.files[n]) && n.kind in disk.kinds
  }

  ghost predicate Present(disk: Disk, a: Artifact) {
    Lookup(disk.files, FinalName(a)) == Some(a.canonical)
  }

  ghost predicate OutcomeInv(o: Outcome, a: Artifact, disk: Disk) {
    o != Conflict && (o in {Published, AlreadyPresent} ==> Present(disk, a))
  }

  ghost predicate PublisherInv(me: nat, p: Publisher, disk: Disk) {
    var a := p.artifact;
    match p.pc
    case Begin => true
    case Entered => a.kind in disk.kinds
    case Absent => a.kind in disk.kinds
    case Writing(n) =>
      n <= |a.canonical| && a.kind in disk.kinds && Lookup(disk.files, TempName(a.kind, me)) == Some(a.canonical[..n])
    case Collided => Present(disk, a)
    case Leaving(o) => OutcomeInv(o, a, disk)
    case Finished(o) => OutcomeInv(o, a, disk)
  }

  ghost predicate Inv(sys: System) {
    GoodDisk(sys.disk) && forall i :: 0 <= i < |sys.publishers| ==> PublisherInv(i, sys.publishers[i], sys.disk)
  }

  /** A publisher touches only its own temporary file, and adds. */
  ghost predicate Respects(me: nat, disk: Disk, later: Disk) {
    && disk.kinds <= later.kinds
    && forall n <- disk.files ::
      (n.TempName? && n.owner == me) || (n in later.files && later.files[n] == disk.files[n])
  }

  lemma AdvanceOwn(me: nat, p: Publisher, disk: Disk, chunk: nat)
    requires GoodDisk(disk) && PublisherInv(me, p, disk)
    ensures var (p', disk') := Advance(me, p, disk, chunk);
      PublisherInv(me, p', disk') && PublisherInv(me, Fail(p), disk)
  {
    var a := p.artifact;
    if FinalName(a) in disk.files {
      assert GoodFile(FinalName(a), disk.files[FinalName(a)]);
    }
    if p.pc.Writing? && p.pc.written == |a.canonical| {
      assert a.canonical[..p.pc.written] == a.canonical;
    }
  }

  lemma NextKeepsInv(sys: System, action: Action)
    requires Inv(sys)
    ensures Inv(Next(sys, action))
  {
    var t := Next(sys, action);
    if !action.Request? && action.i < |sys.publishers| {
      var i := action.i;
      var chunk := if action.Step? then action.chunk else 0;
      AdvanceOwn(i, sys.publishers[i], sys.disk, chunk);
      forall j | 0 <= j < |t.publishers| ensures PublisherInv(j, t.publishers[j], t.disk) { }
    }
  }

  lemma {:induction false} RunKeepsInv(actions: seq<Action>)
    ensures Inv(Run(INIT, actions))
  {
    if actions != [] {
      RunKeepsInv(actions[..|actions| - 1]);
      NextKeepsInv(Run(INIT, actions[..|actions| - 1]), actions[|actions| - 1]);
    }
  }

  // ----------------------------------------------------------------- the main results

  /** In every run, every final name holds the complete canonical bytes of its id, whatever was interrupted. */
  lemma FinalNamesAreComplete(actions: seq<Action>, kind: Kind, id: Id)
    requires ArtifactName(kind, id) in Run(INIT, actions).disk.files
    ensures Run(INIT, actions).disk.files[ArtifactName(kind, id)] == id.body.canonical && kind == id.body.kind
  {
    RunKeepsInv(actions);
    var disk := Run(INIT, actions).disk;
    assert GoodFile(ArtifactName(kind, id), disk.files[ArtifactName(kind, id)]);
  }

  /** A final name, once bound, keeps its bytes for ever. */
  lemma {:induction false} FinalNameIsPermanent(before: seq<Action>, after: seq<Action>, n: Name)
    requires n in Run(INIT, before).disk.files && n.ArtifactName?
    ensures var disk := Run(INIT, before).disk; var later := Run(INIT, before + after).disk;
      n in later.files && later.files[n] == disk.files[n]
  {
    if after == [] {
      assert before + after == before;
    } else {
      var m := |after| - 1;
      assert (before + after)[..|before + after| - 1] == before + after[..m];
      FinalNameIsPermanent(before, after[..m], n);
      RunKeepsInv(before + after[..m]);
    }
  }

  /** Given injective ids no publisher ever reports a conflict, and one that reports `published` or `already_present` is
      right: the artifact is stored. */
  lemma OutcomesAreTrue(actions: seq<Action>, i: nat)
    requires i < |Run(INIT, actions).publishers| && Run(INIT, actions).publishers[i].pc.Finished?
    ensures var p := Run(INIT, actions).publishers[i];
      && p.pc.outcome != Conflict
      && (p.pc.outcome in {Published, AlreadyPresent} ==> Present(Run(INIT, actions).disk, p.artifact))
  {
    RunKeepsInv(actions);
    assert PublisherInv(i, Run(INIT, actions).publishers[i], Run(INIT, actions).disk);
  }

  predicate Claims(p: Publisher) {
    p.pc in {Leaving(Published), Finished(Published)}
  }

  ghost predicate SingleClaims(sys: System) {
    forall i, j :: 0 <= i < j < |sys.publishers| && Claims(sys.publishers[i]) && Claims(sys.publishers[j]) ==>
      sys.publishers[i].artifact != sys.publishers[j].artifact
  }

  lemma NextKeepsClaims(sys: System, action: Action)
    requires Inv(sys) && SingleClaims(sys)
    ensures SingleClaims(Next(sys, action))
  {
    var t := Next(sys, action);
    if !action.Request? && action.i < |sys.publishers| {
      forall i, j | 0 <= i < j < |t.publishers| && Claims(t.publishers[i]) && Claims(t.publishers[j])
        ensures t.publishers[i].artifact != t.publishers[j].artifact
      {
        assert PublisherInv(i, sys.publishers[i], sys.disk) && PublisherInv(j, sys.publishers[j], sys.disk);
      }
    }
  }

  lemma {:induction false} RunKeepsClaims(actions: seq<Action>)
    ensures SingleClaims(Run(INIT, actions))
  {
    if actions != [] {
      RunKeepsClaims(actions[..|actions| - 1]);
      RunKeepsInv(actions[..|actions| - 1]);
      NextKeepsClaims(Run(INIT, actions[..|actions| - 1]), actions[|actions| - 1]);
    }
  }

  /** At most one publisher per id reports `published`. */
  lemma PublishedOnce(actions: seq<Action>, i: nat, j: nat)
    requires i < j < |Run(INIT, actions).publishers|
    requires Run(INIT, actions).publishers[i].pc == Run(INIT, actions).publishers[j].pc == Finished(Published)
    ensures Sha256(Run(INIT, actions).publishers[i].artifact) != Sha256(Run(INIT, actions).publishers[j].artifact)
  {
    RunKeepsClaims(actions);
  }

  /** The publisher that bound the name. */
  ghost predicate Bound(sys: System, n: Name) {
    exists i :: 0 <= i < |sys.publishers| && Claims(sys.publishers[i]) && FinalName(sys.publishers[i].artifact) == n
  }

  ghost predicate AllBound(sys: System) {
    forall n <- sys.disk.files :: n.ArtifactName? ==> Bound(sys, n)
  }

  lemma NextKeepsBound(sys: System, action: Action)
    requires Inv(sys) && AllBound(sys)
    ensures AllBound(Next(sys, action))
  {
    var t := Next(sys, action);
    forall n | n in t.disk.files && n.ArtifactName? ensures Bound(t, n) {
      if n in sys.disk.files {
        var i :| 0 <= i < |sys.publishers| && Claims(sys.publishers[i]) && FinalName(sys.publishers[i].artifact) == n;
        assert Claims(t.publishers[i]) && FinalName(t.publishers[i].artifact) == n;
      } else {
        assert Claims(t.publishers[action.i]) && FinalName(t.publishers[action.i].artifact) == n;
      }
    }
  }

  lemma {:induction false} RunKeepsBound(actions: seq<Action>)
    ensures AllBound(Run(INIT, actions))
  {
    if actions != [] {
      RunKeepsBound(actions[..|actions| - 1]);
      RunKeepsInv(actions[..|actions| - 1]);
      NextKeepsBound(Run(INIT, actions[..|actions| - 1]), actions[|actions| - 1]);
    }
  }

  /** Whatever is stored was published by a call that says so, or will say so when it ends; by `PublishedOnce` it is the
      only one. So a call that reports `already_present` found the work of another. */
  lemma StoredMeansPublished(actions: seq<Action>, a: Artifact)
    ensures FinalName(a) in Run(INIT, actions).disk.files <==> Bound(Run(INIT, actions), FinalName(a))
  {
    RunKeepsBound(actions);
    RunKeepsInv(actions);
    var sys := Run(INIT, actions);
    if Bound(sys, FinalName(a)) {
      var i :| 0 <= i < |sys.publishers| && Claims(sys.publishers[i])
               && FinalName(sys.publishers[i].artifact) == FinalName(a);
      assert PublisherInv(i, sys.publishers[i], sys.disk);
    }
  }

  ghost predicate GaveUp(p: Publisher) {
    p.pc in {Leaving(Unavailable), Finished(Unavailable)}
  }

  /** A call ends unavailable only after an operating-system error of its own. */
  lemma {:induction false} UnavailableAfterAnError(actions: seq<Action>, i: nat)
    requires i < |Run(INIT, actions).publishers| && GaveUp(Run(INIT, actions).publishers[i])
    ensures Error(i) in actions
  {
    var n := |actions| - 1;
    var sys := Run(INIT, actions[..n]);
    RunKeepsInv(actions[..n]);
    if i < |sys.publishers| {
      assert PublisherInv(i, sys.publishers[i], sys.disk);
      if GaveUp(sys.publishers[i]) {
        UnavailableAfterAnError(actions[..n], i);
      } else {
        assert actions[n] == Error(i);
      }
    }
  }

  /** A publisher's temporary file exists while it writes and links. */
  ghost predicate Tidy(me: nat, p: Publisher, disk: Disk) {
    forall n <- disk.files :: n.TempName? && n.owner == me ==> !(p.pc.Begin? || p.pc.Entered? || p.pc.Absent?)
                                                               && n.kind == p.artifact.kind
  }

  /** Nor after it ended, unless an error of its own kept it. */
  ghost predicate Swept(actions: seq<Action>, me: nat, p: Publisher, disk: Disk) {
    p.pc.Finished? && Error(me) !in actions ==> TempName(p.artifact.kind, me) !in disk.files
  }

  ghost predicate AllTidy(actions: seq<Action>, sys: System) {
    && (forall i: nat :: i < |sys.publishers| ==>
          Tidy(i, sys.publishers[i], sys.disk) && Swept(actions, i, sys.publishers[i], sys.disk))
    && (forall n <- sys.disk.files :: n.TempName? ==> n.owner < |sys.publishers|)
  }

  lemma NextTidy(actions: seq<Action>, sys: System, action: Action)
    requires Inv(sys) && AllTidy(actions, sys)
    ensures AllTidy(actions + [action], Next(sys, action))
  {
    var t := Next(sys, action);
    forall j: nat | j < |t.publishers|
      ensures Tidy(j, t.publishers[j], t.disk) && Swept(actions + [action], j, t.publishers[j], t.disk)
    {
      if j < |sys.publishers| {
        assert Tidy(j, sys.publishers[j], sys.disk) && Swept(actions, j, sys.publishers[j], sys.disk);
        assert PublisherInv(j, sys.publishers[j], sys.disk);
      }
    }
  }

  lemma {:induction false} RunTidy(actions: seq<Action>)
    ensures AllTidy(actions, Run(INIT, actions))
  {
    if actions != [] {
      var n := |actions| - 1;
      RunTidy(actions[..n]);
      RunKeepsInv(actions[..n]);
      NextTidy(actions[..n], Run(INIT, actions[..n]), actions[n]);
      assert actions == actions[..n] + [actions[n]];
    }
  }

  /** On every run a publisher that ended without an error of its own has left no temporary file. */
  lemma NoLeftovers(actions: seq<Action>, i: nat)
    requires i < |Run(INIT, actions).publishers| && Run(INIT, actions).publishers[i].pc.Finished?
    requires Error(i) !in actions
    ensures forall kind :: TempName(kind, i) !in Run(INIT, actions).disk.files
  {
    RunTidy(actions);
    var sys := Run(INIT, actions);
    assert Tidy(i, sys.publishers[i], sys.disk) && Swept(actions, i, sys.publishers[i], sys.disk);
  }

  /** On any disk at all, a publisher that looks at its name says whether the bytes there are its own, and touches
      nothing: `already_present` for the same bytes, a conflict for others. */
  lemma OtherBytesConflict(me: nat, p: Publisher, disk: Disk, chunk: nat)
    requires FinalName(p.artifact) in disk.files && (p.pc.Entered? || p.pc.Collided?)
    ensures var same := disk.files[FinalName(p.artifact)] == p.artifact.canonical;
      var o := if same then AlreadyPresent else Conflict;
      Advance(me, p, disk, chunk) == (p.(pc := if p.pc.Entered? then Finished(o) else Leaving(o)), disk)
  {
  }

  // ----------------------------------------------------------------- one publish call

  class Store {
    var sys: System
    ghost var trace: seq<Action>

    /** The store's history is a run of the publisher machine. */
    ghost predicate Valid() reads this {
      sys == Run(INIT, trace)
    }

    constructor ()
      ensures Valid() && trace == [] && sys == INIT
    {
      sys, trace := INIT, [];
    }

    ghost predicate At(me: nat, a: Artifact, pc: Pc) reads this {
      me < |sys.publishers| && sys.publishers[me] == Publisher(a, pc)
    }

    method Do(action: Action)
      requires Valid()
      modifies this
      ensures Valid() && sys == Next(old(sys), action) && trace == old(trace) + [action]
    {
      sys := Next(sys, action);
      trace := trace + [action];
    }

    method Rivals(me: nat, a: Artifact, pc: Pc, actions: seq<Action>)
      requires Valid() && At(me, a, pc)
      modifies this
      ensures Valid() && old(trace) <= trace && At(me, a, pc)
    {
      for n := 0 to |actions|
        invariant Valid() && old(trace) <= trace && At(me, a, pc)
      {
        if actions[n].Request? || actions[n].i != me {
          Do(actions[n]);
        }
      }
    }

    /** The write loop over the shrinking view; every write takes at least one byte. An error of a write removes the
        temporary name and ends the call. */
    method WriteAll(me: nat, a: Artifact, rivals: nat -> seq<Action>, chunks: nat -> nat, faults: nat -> bool)
      returns (ok: bool)
      requires Valid() && At(me, a, Writing(0))
      modifies this
      ensures Valid() && old(trace) <= trace
      ensures At(me, a, if ok then Writing(|a.canonical|) else Leaving(Unavailable))
      ensures !ok ==> exists n: nat :: n < |a.canonical| && faults(n)
    {
      var written := 0;
      var round := 0;
      while written < |a.canonical|
        invariant Valid() && old(trace) <= trace && round <= written <= |a.canonical| && At(me, a, Writing(written))
        decreases |a.canonical| - written
      {
        Rivals(me, a, Writing(written), rivals(round));
        if faults(round) {
          Do(Error(me));
          return false;
        }
        Do(Step(me, chunks(round)));
        written := Min(written + Min(chunks(round), |a.canonical|) + 1, |a.canonical|);
        round := round + 1;
      }
      ok := true;
    }

    /** A concurrent publisher won: identical, or a conflict. */
    method Recheck(me: nat, a: Artifact, others: seq<Action>, fault: bool) returns (outcome: Outcome)
      requires Valid() && At(me, a, Collided)
      modifies this
      ensures Valid() && old(trace) <= trace && At(me, a, Leaving(outcome))
      ensures if fault then outcome == Unavailable else outcome in {AlreadyPresent, Conflict}
    {
      Rivals(me, a, Collided, others);
      if fault {
        Do(Error(me));
        return Unavailable;
      }
      var existing := Existing(sys.disk, a);
      outcome := if existing.Some? then existing.value else Conflict;
      Do(Step(me, 0));
    }

    /** The link, which fails if the name exists. It is `published` only if the name was free, and unavailable only
        after an error. */
    method Link(me: nat, a: Artifact, first: seq<Action>, second: seq<Action>, linkFault: bool, checkFault: bool)
      returns (outcome: Outcome)
      requires Valid() && At(me, a, Writing(|a.canonical|))
      modifies this
      ensures Valid() && old(trace) <= trace && At(me, a, Leaving(outcome))
      ensures FinalName(a) in old(sys.disk.files) ==> outcome != Published
      ensures if linkFault then outcome == Unavailable else outcome == Unavailable ==> checkFault
      ensures !linkFault && !checkFault ==> outcome in {Published, AlreadyPresent} && Present(sys.disk, a)
    {
      ghost var before := trace;
      Rivals(me, a, Writing(|a.canonical|), first);
      KeptSince(a, before);
      if linkFault {
        Do(Error(me));
        return Unavailable;
      }
      TempSurvives(me, a);
      var taken := FinalName(a) in sys.disk.files;
      Do(Step(me, 0));
      outcome := Published;
      if taken {
        outcome := Recheck(me, a, second, checkFault);
      }
      Settled(me, a, outcome);
    }

    lemma TempSurvives(me: nat, a: Artifact)
      requires Valid() && At(me, a, Writing(|a.canonical|))
      ensures TempName(a.kind, me) in sys.disk.files
    {
      RunKeepsInv(trace);
      assert PublisherInv(me, sys.publishers[me], sys.disk);
    }

    lemma Settled(me: nat, a: Artifact, outcome: Outcome)
      requires Valid() && (At(me, a, Leaving(outcome)) || At(me, a, Finished(outcome)))
      ensures outcome != Conflict && (outcome in {Published, AlreadyPresent} ==> Present(sys.disk, a))
    {
      RunKeepsInv(trace);
      assert PublisherInv(me, sys.publishers[me], sys.disk);
    }

    /** A final name bound at an earlier point of the history is still bound. */
    lemma KeptSince(a: Artifact, before: seq<Action>)
      requires Valid() && before <= trace
      ensures FinalName(a) in Run(INIT, before).disk.files ==> FinalName(a) in sys.disk.files
    {
      if FinalName(a) in Run(INIT, before).disk.files {
        assert trace == before + trace[|before|..];
        FinalNameIsPermanent(before, trace[|before|..], FinalName(a));
      }
    }

    /** The kind directory and the first look. */
    method Look(me: nat, a: Artifact, first: seq<Action>, second: seq<Action>, mkdirFault: bool, readFault: bool)
      returns (existing: Option<Outcome>)
      requires Valid() && At(me, a, Begin)
      modifies this
      ensures Valid() && old(trace) <= trace
      ensures At(me, a, if existing.Some? then Finished(existing.value) else Absent)
      ensures if mkdirFault || readFault then existing == Some(Unavailable)
              else existing in {None, Some(AlreadyPresent), Some(Conflict)}
    {
      Rivals(me, a, Begin, first);
      if mkdirFault {
        Do(Error(me));
        return Some(Unavailable);
      }
      Do(Step(me, 0));
      Rivals(me, a, Entered, second);
      if readFault {
        Do(Error(me));
        return Some(Unavailable);
      }
      existing := Existing(sys.disk, a);
      Do(Step(me, 0));
    }

    /** The temporary name is given up; an error of that is ignored. */
    method Leave(me: nat, a: Artifact, outcome: Outcome, others: seq<Action>, fault: bool)
      requires Valid() && At(me, a, Leaving(outcome))
      modifies this
      ensures Valid() && old(trace) <= trace && At(me, a, Finished(outcome))
    {
      Rivals(me, a, Leaving(outcome), others);
      Do(if fault then Error(me) else Step(me, 0));
    }

    /** The temporary file, the writes and the link. */
    method StoreAbsent(me: nat, a: Artifact, rivals: nat -> seq<Action>, writeRivals: nat -> seq<Action>,
                       chunks: nat -> nat, faults: nat -> bool, writeFaults: nat -> bool)
      returns (outcome: Outcome)
      requires Valid() && At(me, a, Absent)
      modifies this
      ensures Valid() && old(trace) <= trace && At(me, a, Finished(outcome))
      ensures outcome == Unavailable ==> Faulty(a, faults, writeFaults)
    {
      Rivals(me, a, Absent, rivals(2));
      if faults(2) {
        Do(Error(me));
        return Unavailable;
      }
      Do(Step(me, 0));
      var ok := WriteAll(me, a, writeRivals, chunks, writeFaults);
      outcome := Unavailable;
      if ok {
        outcome := Link(me, a, rivals(3), rivals(4), faults(3), faults(4));
      }
      Leave(me, a, outcome, rivals(5), faults(5));
    }

    /** An error of a command whose errors count, or of a write. */
    ghost predicate Faulty(a: Artifact, faults: nat -> bool, writeFaults: nat -> bool) {
      (exists n: nat :: n < 5 && faults(n)) || exists n: nat :: n < |a.canonical| && writeFaults(n)
    }

    /** One `publish` call of a validated artifact, with a possible error at each command: it ends `published` or
        `already_present`, with the artifact stored, or unavailable, and that only after an error. */
    method Publish(a: Artifact, rivals: nat -> seq<Action>, writeRivals: nat -> seq<Action>, chunks: nat -> nat,
                   faults: nat -> bool, writeFaults: nat -> bool)
      returns (outcome: Outcome)
      requires Valid()
      modifies this
      ensures Valid() && old(trace) <= trace && At(old(|sys.publishers|), a, Finished(outcome))
      ensures outcome in {Published, AlreadyPresent, Unavailable} && (outcome != Unavailable ==> Present(sys.disk, a))
      ensures outcome == Unavailable ==> Faulty(a, faults, writeFaults)
      ensures faults(0) || faults(1) ==> outcome == Unavailable
      ensures outcome == AlreadyPresent ==> Bound(sys, FinalName(a))
    {
      var me := |sys.publishers|;
      Do(Request(a));
      var existing := Look(me, a, rivals(0), rivals(1), faults(0), faults(1));
      if existing.Some? {
        outcome := existing.value;
      } else {
        outcome := StoreAbsent(me, a, rivals, writeRivals, chunks, faults, writeFaults);
      }
      Settled(me, a, outcome);
      StoredMeansPublished(trace, a);
    }
  }
}
