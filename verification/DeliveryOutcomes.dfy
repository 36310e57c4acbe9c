/** Why a `_deliver` call ends as it does (collector/geopolitical_collector.py, collector/macro_collector.py): its
    outcome in terms of what it found at its own steps, and what a call does that nobody disturbs. */
module DeliveryOutcomes {
  import opened Results
  import opened ExpiringKeys
  import opened Delivery

  /** What was shared when the process took its steps, one entry per step until it ended. */
  ghost function Found(cfg: Config, sys: System, actions: seq<Action>, me: nat): seq<Shared> {
    if actions == [] then []
    else
      var n := |actions| - 1;
      var before := Run(cfg, sys, actions[..n]);
      var found := Found(cfg, sys, actions[..n], me);
      if actions[n].Step? && actions[n].i == me && me < |before.workers| && !before.workers[me].pc.Done?
      then found + [before.sh] else found
  }

  /** Published at most the maximum age ago, and not in the future. */
  predicate InTime(cfg: Config, published: int, sh: Shared) {
    published <= sh.now <= published + cfg.maxAgeHours * 3600 * 1_000_000
  }

  /** The event counts as delivered. */
  predicate Known(sh: Shared) {
    sh.marker.Some? && sh.now < sh.marker.value.expiry
  }

  predicate Leased(sh: Shared) {
    sh.lease.Some? && sh.now < sh.lease.value.expiry
  }

  /** A live lease of another process. */
  predicate Taken(sh: Shared, me: nat) {
    Leased(sh) && sh.lease.value.value != me
  }

  /** The first check, which only the geopolitical collector makes. */
  predicate Eligible(cfg: Config, published: int, found: seq<Shared>) {
    |found| >= 1 && (cfg.variant == Geopolitical ==> InTime(cfg, published, found[0]))
  }

  /** And the lease was free. */
  predicate Entered(cfg: Config, published: int, found: seq<Shared>) {
    |found| >= 2 && Eligible(cfg, published, found) && !Leased(found[1])
  }

  /** The first read of the second check, under the lease: the marker, or the macro collector's clock. */
  predicate Half(cfg: Config, published: int, found: seq<Shared>) {
    |found| >= 3 && Entered(cfg, published, found)
    && if cfg.variant == Geopolitical then !Known(found[2]) else InTime(cfg, published, found[2])
  }

  /** And the second read: the clock, or the macro collector's marker. */
  predicate Passed(cfg: Config, published: int, found: seq<Shared>) {
    |found| >= 4 && Half(cfg, published, found)
    && if cfg.variant == Geopolitical then InTime(cfg, published, found[3]) else !Known(found[3])
  }

  /** The outcome of an ended call, and what it found on the way. */
  predicate EndExplained(cfg: Config, published: int, found: seq<Shared>, me: nat, outcome: Outcome) {
    match outcome
    case NotEligible => cfg.variant == Geopolitical && |found| >= 1 && !InTime(cfg, published, found[0])
    case Busy => |found| >= 2 && Eligible(cfg, published, found) && Taken(found[1], me)
    case Withheld =>
      || (|found| >= 3 && Entered(cfg, published, found)
          && if cfg.variant == Geopolitical then Known(found[2]) else !InTime(cfg, published, found[2]))
      || (|found| >= 4 && Half(cfg, published, found)
          && if cfg.variant == Geopolitical then !InTime(cfg, published, found[3]) else Known(found[3]))
    case ProviderFailed => |found| >= 5 && Passed(cfg, published, found)
    case Delivered => |found| >= 6 && Passed(cfg, published, found)
  }

  /** Where a process is, and what it has found so far. */
  predicate Explained(cfg: Config, found: seq<Shared>, me: nat, w: Worker) {
    match w.pc
    case Start => |found| == 0
    case Cleared => |found| == 1 && Eligible(cfg, w.published, found)
    case Holding => |found| == 2 && Entered(cfg, w.published, found)
    case MarkerAbsent(read) =>
      cfg.variant == Geopolitical && |found| == 3 && Half(cfg, w.published, found) && read == found[2].now
    case ClockFresh(read) =>
      cfg.variant == Macro && |found| == 3 && Half(cfg, w.published, found) && read == found[2].now
    case Ready(gap) => |found| == 4 && Passed(cfg, w.published, found) && gap == found[3].now - found[2].now
    case Confirmed => |found| == 5 && Passed(cfg, w.published, found)
    case Releasing(outcome) => EndExplained(cfg, w.published, found, me, outcome)
    case Done(outcome) => EndExplained(cfg, w.published, found, me, outcome)
  }

  /** A process that has no lease yet is not the one that the lease names. */
  ghost predicate LeaseNamesAHolder(sys: System) {
    sys.sh.lease.Some? ==>
      sys.sh.lease.value.value < |sys.workers| && sys.workers[sys.sh.lease.value.value].pc !in {Start, Cleared}
  }

  lemma {:induction false} RunKeepsHolder(cfg: Config, now: int, actions: seq<Action>)
    ensures LeaseNamesAHolder(Run(cfg, Init(now), actions))
  {
    if actions != [] {
      var n := |actions| - 1;
      RunKeepsHolder(cfg, now, actions[..n]);
      var sys := Run(cfg, Init(now), actions[..n]);
      assert LeaseNamesAHolder(Next(cfg, sys, actions[n]));
    }
  }

  lemma EarlyStep(cfg: Config, sys: System, found: seq<Shared>, me: nat, ok: bool)
    requires me < |sys.workers| && Explained(cfg, found, me, sys.workers[me]) && LeaseNamesAHolder(sys)
    requires sys.workers[me].pc in {Start, Cleared, Holding}
    ensures Explained(cfg, found + [sys.sh], me, Advance(cfg, me, sys.workers[me], sys.sh, ok).0)
  {
  }

  lemma LateStep(cfg: Config, found: seq<Shared>, me: nat, w: Worker, sh: Shared, ok: bool)
    requires Explained(cfg, found, me, w) && !w.pc.Done? && w.pc !in {Start, Cleared, Holding}
    ensures Explained(cfg, found + [sh], me, Advance(cfg, me, w, sh, ok).0)
  {
  }

  lemma StepExplained(cfg: Config, sys: System, found: seq<Shared>, me: nat, ok: bool)
    requires me < |sys.workers| && Explained(cfg, found, me, sys.workers[me]) && LeaseNamesAHolder(sys)
    ensures Explained(cfg, if sys.workers[me].pc.Done? then found else found + [sys.sh], me,
                      Next(cfg, sys, Step(me, ok)).workers[me])
  {
    if sys.workers[me].pc in {Start, Cleared, Holding} {
      EarlyStep(cfg, sys, found, me, ok);
    } else if !sys.workers[me].pc.Done? {
      LateStep(cfg, found, me, sys.workers[me], sys.sh, ok);
    }
  }

  lemma NextExplained(cfg: Config, sys: System, found: seq<Shared>, me: nat, action: Action)
    requires me < |sys.workers| && Explained(cfg, found, me, sys.workers[me]) && LeaseNamesAHolder(sys)
    ensures var own := action.Step? && action.i == me && !sys.workers[me].pc.Done?;
      Explained(cfg, if own then found + [sys.sh] else found, me, Next(cfg, sys, action).workers[me])
  {
    if action.Step? && action.i == me {
      StepExplained(cfg, sys, found, me, action.providerOk);
    } else {
      assert Next(cfg, sys, action).workers[me] == sys.workers[me];
    }
  }

  /** On every run a process stands where its findings put it: it ends `NotEligible` only if its event was not in the
      window, `Busy` only if another live lease was held, `Withheld` only if the second check found the marker or an
      event out of the window, and sends only if both checks and the lease let it. */
  lemma {:induction false} OutcomesAreExplained(cfg: Config, now: int, actions: seq<Action>, me: nat)
    requires me < |Run(cfg, Init(now), actions).workers|
    ensures Explained(cfg, Found(cfg, Init(now), actions, me), me, Run(cfg, Init(now), actions).workers[me])
  {
    var n := |actions| - 1;
    var sys := Run(cfg, Init(now), actions[..n]);
    if me < |sys.workers| {
      OutcomesAreExplained(cfg, now, actions[..n], me);
      RunKeepsHolder(cfg, now, actions[..n]);
      NextExplained(cfg, sys, Found(cfg, Init(now), actions[..n], me), me, actions[n]);
    } else {
      NothingFound(cfg, now, actions[..n], me);
    }
  }

  lemma {:induction false} NothingFound(cfg: Config, now: int, actions: seq<Action>, me: nat)
    requires me >= |Run(cfg, Init(now), actions).workers|
    ensures Found(cfg, Init(now), actions, me) == []
  {
    if actions != [] {
      NothingFound(cfg, now, actions[..|actions| - 1], me);
    }
  }

  // ----------------------------------------------------------------- an undisturbed call

  /** When a marker written at `at` expires: a second after the longer of the configured lifetime and the window. */
  predicate MarkerEnds(cfg: Config, at: int, expiry: int) {
    var window := cfg.maxAgeHours * 3600;
    var seconds := if cfg.dedupTtlSeconds >= window then cfg.dedupTtlSeconds else window;
    expiry == at + (seconds + 1) * 1_000_000
  }

  /** How a call ends that nobody disturbs, and what it leaves: an event out of the window, a lease or a marker stops it
      without a send; otherwise it sends, and marks exactly if the provider confirms. A lease it took is gone. */
  predicate Alone(cfg: Config, before: Shared, me: nat, published: int, ok: bool, outcome: Outcome, after: Shared) {
    if cfg.variant == Geopolitical && !InTime(cfg, published, before) then outcome == NotEligible && after == before
    else if Leased(before) then outcome == Busy && after == before
    else AfterLease(cfg, before, me, published, ok, outcome, after)
  }

  /** The same from the lease on. */
  predicate AfterLease(cfg: Config, before: Shared, me: nat, published: int, ok: bool, outcome: Outcome,
                       after: Shared) {
    if Known(before) || !InTime(cfg, published, before) then
      outcome == Withheld && after == before.(lease := None)
    else AfterChecks(cfg, before, me, ok, outcome, after)
  }

  /** And from the second check on. */
  predicate AfterChecks(cfg: Config, before: Shared, me: nat, ok: bool, outcome: Outcome, after: Shared) {
    if !ok then outcome == ProviderFailed && after == before.(lease := None)
    else
      outcome == Delivered && after.marker.Some? && MarkerEnds(cfg, before.now, after.marker.value.expiry)
      && after == before.(lease := None, marker := after.marker, sends := before.sends + [Send(me, before.now)],
                          marks := before.marks + [me])
  }

  /** The steps of one process and nobody else. */
  function Steps(me: nat, ok: bool, n: nat): seq<Action> {
    if n == 0 then [] else [Step(me, ok)] + Steps(me, ok, n - 1)
  }

  /** The process alone: its next `n` steps. */
  function Walk(cfg: Config, me: nat, w: Worker, sh: Shared, ok: bool, n: nat): (Worker, Shared)
    decreases n
  {
    if n == 0 then (w, sh)
    else var (v, s) := Advance(cfg, me, w, sh, ok); Walk(cfg, me, v, s, ok, n - 1)
  }

  /** A run that begins with a step of the process. */
  lemma {:induction false} RunFront(cfg: Config, sys: System, a: Action, rest: seq<Action>)
    ensures Run(cfg, sys, [a] + rest) == Run(cfg, Next(cfg, sys, a), rest)
  {
    if rest == [] {
      assert [a] + rest == [a] && [a][..0] == [];
    } else {
      assert ([a] + rest)[..|rest|] == [a] + rest[..|rest| - 1];
      RunFront(cfg, sys, a, rest[..|rest| - 1]);
    }
  }

  lemma {:induction false} RunIsWalk(cfg: Config, sys: System, me: nat, ok: bool, n: nat)
    requires me < |sys.workers|
    ensures var (v, s) := Walk(cfg, me, sys.workers[me], sys.sh, ok, n);
      Run(cfg, sys, Steps(me, ok, n)) == System(s, sys.workers[me := v])
    decreases n
  {
    if n == 0 {
      assert sys.workers[me := sys.workers[me]] == sys.workers;
    } else {
      var (v, s) := Advance(cfg, me, sys.workers[me], sys.sh, ok);
      var t := System(s, sys.workers[me := v]);
      RunFront(cfg, sys, Step(me, ok), Steps(me, ok, n - 1));
      RunIsWalk(cfg, t, me, ok, n - 1);
      var u := Walk(cfg, me, v, s, ok, n - 1).0;
      assert sys.workers[me := v][me := u] == sys.workers[me := u];
    }
  }

  lemma {:induction false} WalkStays(cfg: Config, me: nat, w: Worker, sh: Shared, ok: bool, n: nat)
    requires w.pc.Done?
    ensures Walk(cfg, me, w, sh, ok, n) == (w, sh)
  {
    if n > 0 { WalkStays(cfg, me, w, sh, ok, n - 1); }
  }

  predicate Mine(sh: Shared, me: nat) {
    Leased(sh) && sh.lease.value.value == me
  }

  lemma WalkFromReleasing(cfg: Config, me: nat, w: Worker, sh: Shared, ok: bool, n: nat)
    requires n >= 1 && w.pc.Releasing? && Mine(sh, me)
    ensures Walk(cfg, me, w, sh, ok, n) == (w.(pc := Done(w.pc.outcome)), sh.(lease := None))
  {
    WalkStays(cfg, me, w.(pc := Done(w.pc.outcome)), sh.(lease := None), ok, n - 1);
  }

  /** Under its lease, with the event in the window and no marker. */
  lemma WalkFromReady(cfg: Config, me: nat, w: Worker, sh: Shared, ok: bool, n: nat, before: Shared)
    requires n >= 3 && w.pc.Ready? && Mine(sh, me) && sh == before.(lease := sh.lease)
    ensures var (v, after) := Walk(cfg, me, w, sh, ok, n);
      v.pc.Done? && AfterChecks(cfg, before, me, ok, v.pc.outcome, after)
  {
    var (v, sent) := Advance(cfg, me, w, sh, ok);
    if ok {
      var (u, marked) := Advance(cfg, me, v, sent, ok);
      assert Walk(cfg, me, v, sent, ok, n - 1) == Walk(cfg, me, u, marked, ok, n - 2);
      WalkFromReleasing(cfg, me, u, marked, ok, n - 2);
    } else {
      WalkFromReleasing(cfg, me, v, sent, ok, n - 1);
    }
  }

  /** Under its lease: the second check. */
  lemma WalkFromHolding(cfg: Config, me: nat, w: Worker, sh: Shared, ok: bool, n: nat, before: Shared)
    requires n >= 5 && w.pc == Holding && Mine(sh, me) && sh == before.(lease := sh.lease)
    ensures var (v, after) := Walk(cfg, me, w, sh, ok, n);
      v.pc.Done? && AfterLease(cfg, before, me, w.published, ok, v.pc.outcome, after)
  {
    var (v, _) := Advance(cfg, me, w, sh, ok);
    if v.pc.Releasing? {
      WalkFromReleasing(cfg, me, v, sh, ok, n - 1);
    } else {
      var (u, _) := Advance(cfg, me, v, sh, ok);
      assert Walk(cfg, me, v, sh, ok, n - 1) == Walk(cfg, me, u, sh, ok, n - 2);
      if u.pc.Releasing? {
        WalkFromReleasing(cfg, me, u, sh, ok, n - 2);
      } else {
        WalkFromReady(cfg, me, u, sh, ok, n - 2, before);
      }
    }
  }

  lemma WalkFromCleared(cfg: Config, me: nat, w: Worker, sh: Shared, ok: bool, n: nat)
    requires n >= 6 && w.pc == Cleared && (cfg.variant == Geopolitical ==> InTime(cfg, w.published, sh))
    ensures var (v, after) := Walk(cfg, me, w, sh, ok, n);
      v.pc.Done? && Alone(cfg, sh, me, w.published, ok, v.pc.outcome, after)
  {
    if Leased(sh) {
      WalkStays(cfg, me, w.(pc := Done(Busy)), sh, ok, n - 1);
    } else {
      var leased := sh.(lease := Some(Entry(me, sh.now + 15 * 60 * 1_000_000)));
      assert Walk(cfg, me, w, sh, ok, n) == Walk(cfg, me, w.(pc := Holding), leased, ok, n - 1);
      WalkFromHolding(cfg, me, w.(pc := Holding), leased, ok, n - 1, sh);
    }
  }

  lemma WalkFromStart(cfg: Config, me: nat, w: Worker, sh: Shared, ok: bool, n: nat)
    requires n >= 7 && w.pc == Start
    ensures var (v, after) := Walk(cfg, me, w, sh, ok, n);
      v.pc.Done? && Alone(cfg, sh, me, w.published, ok, v.pc.outcome, after)
  {
    if cfg.variant == Geopolitical && !InTime(cfg, w.published, sh) {
      WalkStays(cfg, me, w.(pc := Done(NotEligible)), sh, ok, n - 1);
    } else {
      var cleared := w.(pc := Cleared);
      assert Walk(cfg, me, w, sh, ok, n) == Walk(cfg, me, cleared, sh, ok, n - 1);
      WalkFromCleared(cfg, me, cleared, sh, ok, n - 1);
    }
  }

  /** Nobody else acts between the commands of a call. */
  ghost predicate Quiet(rivals: nat -> seq<Action>) {
    forall n :: rivals(n) == []
  }

  /** A process that takes its seven steps in a row ends, and as the window, the lease, the marker and the provider
      decide. */
  lemma UndisturbedDelivery(cfg: Config, sys: System, me: nat, ok: bool)
    requires me < |sys.workers| && sys.workers[me].pc == Start
    ensures var t := Run(cfg, sys, Steps(me, ok, 7));
      && |t.workers| == |sys.workers| && t.workers[me].pc.Done?
      && Alone(cfg, sys.sh, me, sys.workers[me].published, ok, t.workers[me].pc.outcome, t.sh)
  {
    RunIsWalk(cfg, sys, me, ok, 7);
    WalkFromStart(cfg, me, sys.workers[me], sys.sh, ok, 7);
  }
}
