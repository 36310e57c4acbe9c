/** The processing of one event by any number of collector processes (`_process` in collector/macro_collector.py and
    collector/geopolitical_collector.py): an expiring lease, the owner-checked cache write, and the cool-down key of the
    BLS API. Leases may expire at any moment and a process may stop after any step. */
module Processing {
  import opened Results
  import opened ExpiringKeys

  const BLS_RETRY: int := 4 * 3600 * SECOND

  /** `bls`: the event needs an API call between the cache check and the cache write. */
  datatype Config = Config(bls: bool, cacheTtl: nat)

  /** How a call ended up to the cache write. */
  datatype Outcome = Duplicate | CoolingDown | ApiFailed | OwnershipExpired | Processed

  datatype Pc =
    | Start
    | Missed        // no cached event
    | Holding       // lease acquired
    | Checked       // still no cached event
    | Cooled        // no cool-down in force, about to call the API
    | CallFailed    // about to write the cool-down key
    | Analyzed      // about to write the cache
    | Leaving(outcome: Outcome)
    | Done(outcome: Outcome)

  datatype Write = Write(writer: nat, at: int)

  datatype Call = Call(caller: nat, at: int, ok: bool)

  /** `writes` and `calls` are history: the cache writes and the API calls. */
  datatype Shared = Shared(now: int, lease: Key<nat>, cache: Key<nat>, retry: Key<()>, writes: seq<Write>,
                           calls: seq<Call>)

  datatype System = System(sh: Shared, pcs: seq<Pc>)

  datatype Action =
    | Tick(elapsed: nat)
    | Enter
    | Step(i: nat, apiOk: bool)

  function Init(now: int): System {
    System(Shared(now, None, None, None, [], []), [])
  }

  function Advance(cfg: Config, me: nat, pc: Pc, sh: Shared, apiOk: bool): (Pc, Shared) {
    match pc
    case Start => (if Live(sh.cache, sh.now) then Done(Duplicate) else Missed, sh)
    case Missed =>
      if Live(sh.lease, sh.now) then (Done(Duplicate), sh) else (Holding, sh.(lease := Put(me, sh.now, LEASE_TTL)))
    case Holding => (if Live(sh.cache, sh.now) then Leaving(Duplicate) else Checked, sh)
    case Checked =>
      (if !cfg.bls then Analyzed else if Live(sh.retry, sh.now) then Leaving(CoolingDown) else Cooled, sh)
    case Cooled => (if apiOk then Analyzed else CallFailed, sh.(calls := sh.calls + [Call(me, sh.now, apiOk)]))
    case CallFailed => (Leaving(ApiFailed), sh.(retry := Put((), sh.now, BLS_RETRY)))
    case Analyzed =>
      if Get(sh.lease, sh.now) == Some(me)
      then (Leaving(Processed),
            sh.(cache := Put(me, sh.now, cfg.cacheTtl), writes := sh.writes + [Write(me, sh.now)]))
      else (Leaving(OwnershipExpired), sh)
    case Leaving(outcome) => (Done(outcome), sh.(lease := Release(sh.lease, me, sh.now)))
    case Done(_) => (pc, sh)
  }

  function Next(cfg: Config, sys: System, action: Action): System {
    match action
    case Tick(elapsed) => sys.(sh := sys.sh.(now := sys.sh.now + elapsed))
    case Enter => sys.(pcs := sys.pcs + [Start])
    case Step(i, ok) =>
      if i < |sys.pcs| then
        var (pc, sh) := Advance(cfg, i, sys.pcs[i], sys.sh, ok);
        System(sh, sys.pcs[i := pc])
      else sys
  }

  function Run(cfg: Config, sys: System, actions: seq<Action>): System {
    if actions == [] then sys else Next(cfg, Run(cfg, sys, actions[..|actions| - 1]), actions[|actions| - 1])
  }

  // ----------------------------------------------------------------- outcomes

  ghost predicate WroteBy(sh: Shared, me: nat) {
    exists x <- sh.writes :: x.writer == me
  }

  ghost predicate CalledBy(sh: Shared, me: nat, ok: bool) {
    exists x <- sh.calls :: x.caller == me && x.ok == ok
  }

  predicate Ended(pc: Pc, outcome: Outcome) {
    pc in {Leaving(outcome), Done(outcome)}
  }

  /** A process has written the cache exactly if it ends `Processed`, has made a failed API call exactly if it is about
      to end `ApiFailed`, and has made a successful one exactly if it needs one and got as far as the cache write. */
  ghost predicate Honest(cfg: Config, sh: Shared, me: nat, pc: Pc) {
    && (WroteBy(sh, me) <==> Ended(pc, Processed))
    && (CalledBy(sh, me, false) <==> pc == CallFailed || Ended(pc, ApiFailed))
    && (CalledBy(sh, me, true) <==> cfg.bls && (pc == Analyzed || Ended(pc, Processed) || Ended(pc, OwnershipExpired)))
    && (!cfg.bls ==> pc !in {Cooled, CallFailed, Leaving(CoolingDown), Done(CoolingDown)})
  }

  ghost predicate AllHonest(cfg: Config, sys: System) {
    && (forall i: nat :: i < |sys.pcs| ==> Honest(cfg, sys.sh, i, sys.pcs[i]))
    && (forall x <- sys.sh.writes :: x.writer < |sys.pcs|)
    && (forall x <- sys.sh.calls :: x.caller < |sys.pcs|)
  }

  /** A step adds to the history of its own process only. */
  lemma HistoryGrows(cfg: Config, sys: System, action: Action, j: nat)
    ensures var t := Next(cfg, sys, action);
      var mine := action.Step? && action.i == j < |sys.pcs|;
      && (WroteBy(t.sh, j) <==> WroteBy(sys.sh, j) || (mine && sys.pcs[j] == Analyzed && Owns(sys.sh, j)))
      && (forall ok :: CalledBy(t.sh, j, ok) <==>
            CalledBy(sys.sh, j, ok) || (mine && sys.pcs[j] == Cooled && action.apiOk == ok))
  {
    var t := Next(cfg, sys, action);
    if t.sh.writes != sys.sh.writes {
      var w := Write(action.i, sys.sh.now);
      assert t.sh.writes == sys.sh.writes + [w] && w in t.sh.writes;
      assert forall x :: x in t.sh.writes <==> x in sys.sh.writes || x == w;
    }
    if t.sh.calls != sys.sh.calls {
      var c := Call(action.i, sys.sh.now, action.apiOk);
      assert t.sh.calls == sys.sh.calls + [c] && c in t.sh.calls;
      assert forall x :: x in t.sh.calls <==> x in sys.sh.calls || x == c;
    }
  }

  lemma NextKeepsHonest(cfg: Config, sys: System, action: Action)
    requires AllHonest(cfg, sys)
    ensures AllHonest(cfg, Next(cfg, sys, action))
  {
    var t := Next(cfg, sys, action);
    forall j: nat | j < |t.pcs| ensures Honest(cfg, t.sh, j, t.pcs[j]) {
      HistoryGrows(cfg, sys, action, j);
      if j < |sys.pcs| { assert Honest(cfg, sys.sh, j, sys.pcs[j]); }
    }
  }

  /** On every run the outcomes say what the processes did. */
  lemma {:induction false} OutcomesAreTrue(cfg: Config, now: int, actions: seq<Action>)
    ensures AllHonest(cfg, Run(cfg, Init(now), actions))
  {
    if actions != [] {
      var n := |actions| - 1;
      OutcomesAreTrue(cfg, now, actions[..n]);
      NextKeepsHonest(cfg, Run(cfg, Init(now), actions[..n]), actions[n]);
    }
  }

  // ----------------------------------------------------------------- a single cache commit

  /** Each write is at least `gap` after the one before it. */
  ghost predicate Spaced(writes: seq<Write>, gap: nat) {
    |writes| >= 2 ==>
      writes[|writes| - 1].at >= writes[|writes| - 2].at + gap && Spaced(writes[..|writes| - 1], gap)
  }

  predicate PastCheck(pc: Pc) {
    pc in {Checked, Cooled, CallFailed, Analyzed}
  }

  /** A process past its second cache check that has not lost its lease still sees no cached event. */
  ghost predicate HolderSeesMiss(sh: Shared, me: nat, pc: Pc) {
    PastCheck(pc) && sh.lease.Some? && sh.lease.value.value == me ==> !Live(sh.cache, sh.now)
  }

  ghost predicate CacheInv(cfg: Config, sys: System) {
    && (forall i :: 0 <= i < |sys.pcs| ==> HolderSeesMiss(sys.sh, i, sys.pcs[i]))
    && Spaced(sys.sh.writes, cfg.cacheTtl)
    && (sys.sh.writes != [] ==>
      sys.sh.cache.Some? && sys.sh.cache.value.expiry == sys.sh.writes[|sys.sh.writes| - 1].at + cfg.cacheTtl)
  }

  lemma StepKeepsCache(cfg: Config, sys: System, i: nat, ok: bool)
    requires CacheInv(cfg, sys) && i < |sys.pcs|
    ensures CacheInv(cfg, Next(cfg, sys, Step(i, ok)))
  {
    var t := Next(cfg, sys, Step(i, ok));
    assert HolderSeesMiss(sys.sh, i, sys.pcs[i]);
    forall j | 0 <= j < |t.pcs| ensures HolderSeesMiss(t.sh, j, t.pcs[j]) {
      if j != i { assert HolderSeesMiss(sys.sh, j, sys.pcs[j]); }
    }
  }

  lemma {:induction false} RunKeepsCache(cfg: Config, now: int, actions: seq<Action>)
    ensures CacheInv(cfg, Run(cfg, Init(now), actions))
  {
    if actions != [] {
      var n := |actions| - 1;
      RunKeepsCache(cfg, now, actions[..n]);
      var sys := Run(cfg, Init(now), actions[..n]);
      var t := Next(cfg, sys, actions[n]);
      if actions[n].Step? && actions[n].i < |sys.pcs| {
        StepKeepsCache(cfg, sys, actions[n].i, actions[n].apiOk);
      } else {
        forall j | 0 <= j < |t.pcs| ensures HolderSeesMiss(t.sh, j, t.pcs[j]) {
          if j < |sys.pcs| { assert HolderSeesMiss(sys.sh, j, sys.pcs[j]); }
        }
      }
    }
  }

  lemma {:induction false} SpacedPairwise(writes: seq<Write>, gap: nat, i: nat, j: nat)
    requires Spaced(writes, gap) && i < j < |writes|
    ensures writes[j].at >= writes[i].at + gap
  {
    var n := |writes| - 1;
    if j < n {
      SpacedPairwise(writes[..n], gap, i, j);
    } else if i < n - 1 {
      SpacedPairwise(writes[..n], gap, i, n - 1);
    }
  }

  /** Single cache commit, over any run and whatever leases expire: of two cache writes of an event, the later one
      happens when the earlier entry has expired. */
  lemma CacheCommitsOnce(cfg: Config, now: int, actions: seq<Action>, i: nat, j: nat)
    requires i < j < |Run(cfg, Init(now), actions).sh.writes|
    ensures var w := Run(cfg, Init(now), actions).sh.writes; w[j].at >= w[i].at + cfg.cacheTtl
  {
    RunKeepsCache(cfg, now, actions);
    SpacedPairwise(Run(cfg, Init(now), actions).sh.writes, cfg.cacheTtl, i, j);
  }

  ghost predicate Owns(sh: Shared, me: nat) {
    Get(sh.lease, sh.now) == Some(me)
  }

  /** No process deletes or replaces a live lease that is not its own, and none writes the cache without owning it. */
  lemma OnlyTheOwnerActs(cfg: Config, sys: System, i: nat, ok: bool)
    ensures var t := Next(cfg, sys, Step(i, ok));
      && (t.sh.lease != sys.sh.lease ==> Owns(sys.sh, i) || !Live(sys.sh.lease, sys.sh.now))
      && (t.sh.cache != sys.sh.cache ==> Owns(sys.sh, i))
  {
    if i < |sys.pcs| {
      assert Release(sys.sh.lease, i, sys.sh.now) == sys.sh.lease || Owns(sys.sh, i);
    }
  }

  // ----------------------------------------------------------------- the API cool-down

  /** Every process about to call the API, or about to record a failed call, still owns its lease. */
  ghost predicate OnTime(sys: System) {
    forall i :: 0 <= i < |sys.pcs| && sys.pcs[i] in {Cooled, CallFailed} ==> Owns(sys.sh, i)
  }

  ghost predicate TimelyRun(cfg: Config, sys: System, actions: seq<Action>) {
    OnTime(Run(cfg, sys, actions)) && (actions != [] ==> TimelyRun(cfg, sys, actions[..|actions| - 1]))
  }

  /** A call that follows a failed one is at least the cool-down later. */
  ghost predicate CoolsDown(calls: seq<Call>) {
    |calls| >= 2 ==>
      var n := |calls| - 1;
      CoolsDown(calls[..n]) && (!calls[n - 1].ok ==> calls[n].at >= calls[n - 1].at + BLS_RETRY)
  }

  /** The last failed call is either about to be recorded by the lease holder or covered by the cool-down key. */
  ghost predicate LastFailureCovered(sys: System) {
    sys.sh.calls != [] && !sys.sh.calls[|sys.sh.calls| - 1].ok ==>
      var at := sys.sh.calls[|sys.sh.calls| - 1].at;
      at <= sys.sh.now
      && ((sys.sh.retry.Some? && sys.sh.retry.value.expiry >= at + BLS_RETRY)
          || exists i :: 0 <= i < |sys.pcs| && sys.pcs[i] == CallFailed)
  }

  ghost predicate RetryInv(sys: System) {
    && CoolsDown(sys.sh.calls)
    && LastFailureCovered(sys)
    && forall i :: 0 <= i < |sys.pcs| && sys.pcs[i] == Cooled ==> !Live(sys.sh.retry, sys.sh.now)
  }

  lemma StepKeepsRetry(cfg: Config, sys: System, i: nat, ok: bool)
    requires RetryInv(sys) && OnTime(sys) && OnTime(Next(cfg, sys, Step(i, ok))) && i < |sys.pcs|
    ensures RetryInv(Next(cfg, sys, Step(i, ok)))
  {
    var t := Next(cfg, sys, Step(i, ok));
    forall j | 0 <= j < |t.pcs| && t.pcs[j] == Cooled ensures !Live(t.sh.retry, t.sh.now) { }
    if sys.pcs[i] == Cooled {
      assert Owns(sys.sh, i);
      assert t.pcs[i] == (if ok then Analyzed else CallFailed);
    } else if exists k :: 0 <= k < |sys.pcs| && sys.pcs[k] == CallFailed {
      var k :| 0 <= k < |sys.pcs| && sys.pcs[k] == CallFailed;
      assert k != i ==> t.pcs[k] == CallFailed;
    }
  }

  lemma {:induction false} RunKeepsRetry(cfg: Config, now: int, actions: seq<Action>)
    requires TimelyRun(cfg, Init(now), actions)
    ensures RetryInv(Run(cfg, Init(now), actions))
  {
    if actions != [] {
      var n := |actions| - 1;
      RunKeepsRetry(cfg, now, actions[..n]);
      var sys := Run(cfg, Init(now), actions[..n]);
      assert TimelyRun(cfg, Init(now), actions[..n]);
      if actions[n].Step? && actions[n].i < |sys.pcs| {
        StepKeepsRetry(cfg, sys, actions[n].i, actions[n].apiOk);
      } else if exists k :: 0 <= k < |sys.pcs| && sys.pcs[k] == CallFailed {
        var k :| 0 <= k < |sys.pcs| && sys.pcs[k] == CallFailed;
        assert Next(cfg, sys, actions[n]).pcs[k] == CallFailed;
      }
    }
  }

  /** If API calls are made and recorded under their process's lease, no call follows a failed one within the four-hour
      cool-down. */
  lemma FailedCallsCoolDown(cfg: Config, now: int, actions: seq<Action>, n: nat)
    requires TimelyRun(cfg, Init(now), actions)
    requires n + 1 < |Run(cfg, Init(now), actions).sh.calls|
    ensures var calls := Run(cfg, Init(now), actions).sh.calls;
      !calls[n].ok ==> calls[n + 1].at >= calls[n].at + BLS_RETRY
  {
    RunKeepsRetry(cfg, now, actions);
    CoolsDownAt(Run(cfg, Init(now), actions).sh.calls, n);
  }

  lemma {:induction false} CoolsDownAt(calls: seq<Call>, n: nat)
    requires CoolsDown(calls) && n + 1 < |calls|
    ensures !calls[n].ok ==> calls[n + 1].at >= calls[n].at + BLS_RETRY
  {
    if n + 2 < |calls| {
      CoolsDownAt(calls[..|calls| - 1], n);
    }
  }
}
