/** Why a `_process` call ends as it does (collector/macro_collector.py, collector/geopolitical_collector.py): its
    outcome in terms of what it found at its own steps, and what a call does that nobody disturbs. */
module ProcessingOutcomes {
  import opened Results
  import opened ExpiringKeys
  import opened Processing

  /** What was shared when the process took its steps, one entry per step until it ended. */
  ghost function Found(cfg: Config, sys: System, actions: seq<Action>, me: nat): seq<Shared> {
    if actions == [] then []
    else
      var n := |actions| - 1;
      var before := Run(cfg, sys, actions[..n]);
      var found := Found(cfg, sys, actions[..n], me);
      if actions[n].Step? && actions[n].i == me && me < |before.pcs| && !before.pcs[me].Done?
      then found + [before.sh] else found
  }

  /** A cached event. */
  predicate Cached(sh: Shared) {
    sh.cache.Some? && sh.now < sh.cache.value.expiry
  }

  /** A live lease of another process. */
  predicate Taken(sh: Shared, me: nat) {
    sh.lease.Some? && sh.now < sh.lease.value.expiry && sh.lease.value.value != me
  }

  predicate Leased(sh: Shared) {
    sh.lease.Some? && sh.now < sh.lease.value.expiry
  }

  /** The cool-down after a failed API call. */
  predicate Cooling(sh: Shared) {
    sh.retry.Some? && sh.now < sh.retry.value.expiry
  }

  predicate Mine(sh: Shared, me: nat) {
    sh.lease.Some? && sh.now < sh.lease.value.expiry && sh.lease.value.value == me
  }

  /** The first look-up and the lease let the process in. */
  predicate Entered(found: seq<Shared>) {
    |found| >= 2 && !Cached(found[0]) && !Leased(found[1])
  }

  /** So did the second look-up. */
  predicate Missing(found: seq<Shared>) {
    |found| >= 3 && Entered(found) && !Cached(found[2])
  }

  /** And the BLS cool-down. */
  predicate Calling(cfg: Config, found: seq<Shared>) {
    |found| >= 4 && Missing(found) && cfg.bls && !Cooling(found[3])
  }

  /** The outcome of an ended call, and what it found on the way. */
  predicate EndExplained(cfg: Config, found: seq<Shared>, me: nat, outcome: Outcome) {
    match outcome
    case Duplicate =>
      || (|found| >= 1 && Cached(found[0]))
      || (|found| >= 2 && !Cached(found[0]) && Taken(found[1], me))
      || (|found| >= 3 && Entered(found) && Cached(found[2]))
    case CoolingDown => |found| >= 4 && Missing(found) && cfg.bls && Cooling(found[3])
    case ApiFailed => Calling(cfg, found)
    case OwnershipExpired =>
      if cfg.bls then |found| >= 6 && Calling(cfg, found) && !Mine(found[5], me)
      else |found| >= 5 && Missing(found) && !Mine(found[4], me)
    case Processed =>
      if cfg.bls then |found| >= 6 && Calling(cfg, found) && Mine(found[5], me)
      else |found| >= 5 && Missing(found) && Mine(found[4], me)
  }

  /** Where a process is, and what it has found so far. */
  predicate Explained(cfg: Config, found: seq<Shared>, me: nat, pc: Pc) {
    match pc
    case Start => |found| == 0
    case Missed => |found| == 1 && !Cached(found[0])
    case Holding => |found| == 2 && Entered(found)
    case Checked => |found| == 3 && Missing(found)
    case Cooled => |found| == 4 && Calling(cfg, found)
    case CallFailed => |found| == 5 && Calling(cfg, found)
    case Analyzed => if cfg.bls then |found| == 5 && Calling(cfg, found) else |found| == 4 && Missing(found)
    case Leaving(outcome) => EndExplained(cfg, found, me, outcome)
    case Done(outcome) => EndExplained(cfg, found, me, outcome)
  }

  /** A process that has no lease yet is not the one that the lease names. */
  ghost predicate LeaseNamesAHolder(sys: System) {
    sys.sh.lease.Some? ==>
      sys.sh.lease.value.value < |sys.pcs| && sys.pcs[sys.sh.lease.value.value] !in {Start, Missed}
  }

  lemma {:induction false} RunKeepsHolder(cfg: Config, now: int, actions: seq<Action>)
    ensures LeaseNamesAHolder(Run(cfg, Init(now), actions))
  {
    if actions != [] {
      var n := |actions| - 1;
      RunKeepsHolder(cfg, now, actions[..n]);
      var sys := Run(cfg, Init(now), actions[..n]);
      assert LeaseNamesAHolder(Next(cfg, sys, actions[n]));
    }
  }

  lemma StepExplained(cfg: Config, sys: System, found: seq<Shared>, me: nat, ok: bool)
    requires me < |sys.pcs| && Explained(cfg, found, me, sys.pcs[me]) && LeaseNamesAHolder(sys)
    ensures Explained(cfg, if sys.pcs[me].Done? then found else found + [sys.sh], me,
                      Next(cfg, sys, Step(me, ok)).pcs[me])
  {
  }

  lemma NextExplained(cfg: Config, sys: System, found: seq<Shared>, me: nat, action: Action)
    requires me < |sys.pcs| && Explained(cfg, found, me, sys.pcs[me]) && LeaseNamesAHolder(sys)
    ensures var own := action.Step? && action.i == me && !sys.pcs[me].Done?;
      Explained(cfg, if own then found + [sys.sh] else found, me, Next(cfg, sys, action).pcs[me])
  {
    if action.Step? && action.i == me {
      StepExplained(cfg, sys, found, me, action.apiOk);
    } else {
      assert Next(cfg, sys, action).pcs[me] == sys.pcs[me];
    }
  }

  /** On every run a process stands where its findings put it: it ends `Duplicate` only if the cache was live at one of
      its two look-ups or another live lease was held at its attempt, `CoolingDown` only if the cool-down was in force,
      `OwnershipExpired` only if its lease was gone at the write, and `Processed` only if nothing stood in its way. */
  lemma {:induction false} OutcomesAreExplained(cfg: Config, now: int, actions: seq<Action>, me: nat)
    requires me < |Run(cfg, Init(now), actions).pcs|
    ensures Explained(cfg, Found(cfg, Init(now), actions, me), me, Run(cfg, Init(now), actions).pcs[me])
  {
    var n := |actions| - 1;
    var sys := Run(cfg, Init(now), actions[..n]);
    if me < |sys.pcs| {
      OutcomesAreExplained(cfg, now, actions[..n], me);
      RunKeepsHolder(cfg, now, actions[..n]);
      NextExplained(cfg, sys, Found(cfg, Init(now), actions[..n], me), me, actions[n]);
    } else {
      NothingFound(cfg, now, actions[..n], me);
    }
  }

  lemma {:induction false} NothingFound(cfg: Config, now: int, actions: seq<Action>, me: nat)
    requires me >= |Run(cfg, Init(now), actions).pcs|
    ensures Found(cfg, Init(now), actions, me) == []
  {
    if actions != [] {
      NothingFound(cfg, now, actions[..|actions| - 1], me);
    }
  }

  // ----------------------------------------------------------------- an undisturbed call

  /** How a call ends that nobody disturbs, and what it leaves: an existing cache entry or lease makes it a duplicate
      that changes nothing; a cool-down or a failed API call lets it leave without caching; otherwise it leaves its own
      cache entry. A lease it took is gone. */
  predicate Alone(cfg: Config, before: Shared, me: nat, apiOk: bool, outcome: Outcome, after: Shared) {
    if Cached(before) || Leased(before) then outcome == Duplicate && after == before
    else AfterEntry(cfg, before, me, apiOk, outcome, after)
  }

  /** The same from the lease on. */
  predicate AfterEntry(cfg: Config, before: Shared, me: nat, apiOk: bool, outcome: Outcome, after: Shared) {
    var called := before.calls + [Call(me, before.now, apiOk)];
    if cfg.bls && Cooling(before) then outcome == CoolingDown && after == before.(lease := None)
    else if cfg.bls && !apiOk then
      outcome == ApiFailed
      && after == before.(lease := None, calls := called, retry := Some(Entry((), before.now + 4 * 3600 * 1_000_000)))
    else
      outcome == Processed
      && after == before.(lease := None, calls := if cfg.bls then called else before.calls,
                          cache := Some(Entry(me, before.now + cfg.cacheTtl)),
                          writes := before.writes + [Write(me, before.now)])
  }

  /** The steps of one process and nobody else. */
  function Steps(me: nat, apiOk: bool, n: nat): seq<Action> {
    if n == 0 then [] else [Step(me, apiOk)] + Steps(me, apiOk, n - 1)
  }

  /** The process alone: its next `n` steps. */
  function Walk(cfg: Config, me: nat, pc: Pc, sh: Shared, apiOk: bool, n: nat): (Pc, Shared)
    decreases n
  {
    if n == 0 then (pc, sh)
    else var (v, s) := Advance(cfg, me, pc, sh, apiOk); Walk(cfg, me, v, s, apiOk, n - 1)
  }

  /** A run that begins with a step of the process. */
  lemma {:induction false} RunFront(cfg: Config, sys: System, a: Action, rest: seq<Action>)
    ensures Run(cfg, sys, [a] + rest) == Run(cfg, Next(cfg, sys, a), rest)
  {
    if rest == [] {
      assert [a] + rest == [a] && [a][..0] == [];
    } else {
      assert ([a] + rest)[..|rest|] == [a] + rest[..|rest| - 1];
      RunFront(cfg, sys, a, rest[..|rest| - 1]);
    }
  }

  lemma {:induction false} RunIsWalk(cfg: Config, sys: System, me: nat, apiOk: bool, n: nat)
    requires me < |sys.pcs|
    ensures var (v, s) := Walk(cfg, me, sys.pcs[me], sys.sh, apiOk, n);
      Run(cfg, sys, Steps(me, apiOk, n)) == System(s, sys.pcs[me := v])
    decreases n
  {
    if n == 0 {
      assert sys.pcs[me := sys.pcs[me]] == sys.pcs;
    } else {
      var (v, s) := Advance(cfg, me, sys.pcs[me], sys.sh, apiOk);
      var t := System(s, sys.pcs[me := v]);
      RunFront(cfg, sys, Step(me, apiOk), Steps(me, apiOk, n - 1));
      RunIsWalk(cfg, t, me, apiOk, n - 1);
      var u := Walk(cfg, me, v, s, apiOk, n - 1).0;
      assert sys.pcs[me := v][me := u] == sys.pcs[me := u];
    }
  }

  lemma {:induction false} WalkStays(cfg: Config, me: nat, outcome: Outcome, sh: Shared, apiOk: bool, n: nat)
    ensures Walk(cfg, me, Done(outcome), sh, apiOk, n) == (Done(outcome), sh)
  {
    if n > 0 { WalkStays(cfg, me, outcome, sh, apiOk, n - 1); }
  }

  lemma WalkFromLeaving(cfg: Config, me: nat, sh: Shared, outcome: Outcome, apiOk: bool, n: nat)
    requires n >= 1 && Mine(sh, me)
    ensures Walk(cfg, me, Leaving(outcome), sh, apiOk, n) == (Done(outcome), sh.(lease := None))
  {
    WalkStays(cfg, me, outcome, sh.(lease := None), apiOk, n - 1);
  }

  lemma WalkFromAnalyzed(cfg: Config, me: nat, sh: Shared, apiOk: bool, n: nat)
    requires n >= 2 && Mine(sh, me)
    ensures Walk(cfg, me, Analyzed, sh, apiOk, n) ==
      (Done(Processed), sh.(lease := None, cache := Some(Entry(me, sh.now + cfg.cacheTtl)),
                            writes := sh.writes + [Write(me, sh.now)]))
  {
    var (_, after) := Advance(cfg, me, Analyzed, sh, apiOk);
    WalkFromLeaving(cfg, me, after, Processed, apiOk, n - 1);
  }

  lemma WalkFromCooled(cfg: Config, me: nat, sh: Shared, apiOk: bool, n: nat)
    requires n >= 3 && Mine(sh, me)
    ensures var calls := sh.calls + [Call(me, sh.now, apiOk)];
      Walk(cfg, me, Cooled, sh, apiOk, n) ==
      if apiOk then
        (Done(Processed), sh.(lease := None, calls := calls, cache := Some(Entry(me, sh.now + cfg.cacheTtl)),
                              writes := sh.writes + [Write(me, sh.now)]))
      else
        (Done(ApiFailed), sh.(lease := None, calls := calls,
                              retry := Some(Entry((), sh.now + 4 * 3600 * 1_000_000))))
  {
    var (pc, after) := Advance(cfg, me, Cooled, sh, apiOk);
    if apiOk {
      WalkFromAnalyzed(cfg, me, after, apiOk, n - 1);
    } else {
      var (_, noted) := Advance(cfg, me, CallFailed, after, apiOk);
      WalkFromLeaving(cfg, me, noted, ApiFailed, apiOk, n - 2);
      assert Walk(cfg, me, CallFailed, after, apiOk, n - 1) == Walk(cfg, me, Leaving(ApiFailed), noted, apiOk, n - 2);
    }
  }

  /** Under its lease, with no cached event. */
  lemma WalkFromChecked(cfg: Config, me: nat, sh: Shared, apiOk: bool, n: nat, before: Shared)
    requires n >= 4 && Mine(sh, me) && sh == before.(lease := sh.lease)
    ensures var (pc, after) := Walk(cfg, me, Checked, sh, apiOk, n);
      pc.Done? && AfterEntry(cfg, before, me, apiOk, pc.outcome, after)
  {
    if !cfg.bls {
      WalkFromAnalyzed(cfg, me, sh, apiOk, n - 1);
    } else if Cooling(sh) {
      WalkFromLeaving(cfg, me, sh, CoolingDown, apiOk, n - 1);
    } else {
      WalkFromCooled(cfg, me, sh, apiOk, n - 1);
    }
  }

  lemma WalkFromStart(cfg: Config, me: nat, sh: Shared, apiOk: bool, n: nat)
    requires n >= 7
    ensures var (pc, after) := Walk(cfg, me, Start, sh, apiOk, n);
      pc.Done? && Alone(cfg, sh, me, apiOk, pc.outcome, after)
  {
    if Cached(sh) {
      WalkStays(cfg, me, Duplicate, sh, apiOk, n - 1);
    } else {
      assert Walk(cfg, me, Start, sh, apiOk, n) == Walk(cfg, me, Missed, sh, apiOk, n - 1);
      if Leased(sh) {
        WalkStays(cfg, me, Duplicate, sh, apiOk, n - 2);
      } else {
        var leased := sh.(lease := Some(Entry(me, sh.now + 15 * 60 * 1_000_000)));
        assert Walk(cfg, me, Missed, sh, apiOk, n - 1) == Walk(cfg, me, Holding, leased, apiOk, n - 2);
        assert Walk(cfg, me, Holding, leased, apiOk, n - 2) == Walk(cfg, me, Checked, leased, apiOk, n - 3);
        WalkFromChecked(cfg, me, leased, apiOk, n - 3, sh);
      }
    }
  }

  /** Nobody else acts between the commands of a call. */
  ghost predicate Quiet(rivals: nat -> seq<Action>) {
    forall n :: rivals(n) == []
  }

  /** A process that takes its seven steps in a row ends, and as the cache, the lease, the cool-down and the API call
      decide. */
  lemma UndisturbedProcess(cfg: Config, sys: System, me: nat, apiOk: bool)
    requires me < |sys.pcs| && sys.pcs[me] == Start
    ensures var t := Run(cfg, sys, Steps(me, apiOk, 7));
      |t.pcs| == |sys.pcs| && t.pcs[me].Done? && Alone(cfg, sys.sh, me, apiOk, t.pcs[me].outcome, t.sh)
  {
    RunIsWalk(cfg, sys, me, apiOk, 7);
    WalkFromStart(cfg, me, sys.sh, apiOk, 7);
  }
}
