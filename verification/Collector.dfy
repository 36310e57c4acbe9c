/** One collector process delivering an event among rivals, command by command (`_deliver` in
    collector/geopolitical_collector.py and collector/macro_collector.py). */
module Collector {
  import opened Results
  import opened ExpiringKeys
  import opened Delivery
  import P = Processing
  import DO = DeliveryOutcomes
  import PO = ProcessingOutcomes

  class DeliveryClient {
    const cfg: Config
    var sys: System
    var deliveredCount: nat
    var deliveryErrors: nat
    ghost var trace: seq<Action>
    ghost const start: int

    /** The object's history is a run of the delivery machine. */
    ghost predicate Valid() reads this {
      sys == Run(cfg, Init(start), trace)
    }

    constructor (cfg: Config, now: int)
      ensures Valid() && trace == [] && deliveredCount == deliveryErrors == 0
    {
      this.cfg := cfg;
      sys := Init(now);
      deliveredCount, deliveryErrors := 0, 0;
      trace, start := [], now;
    }

    method Do(action: Action)
      requires Valid()
      modifies this`sys, this`trace
      ensures Valid() && sys == Next(cfg, old(sys), action) && trace == old(trace) + [action]
    {
      sys := Next(cfg, sys, action);
      trace := trace + [action];
    }

    ghost predicate At(me: nat, published: int, pc: Pc) reads this {
      me < |sys.workers| && sys.workers[me] == Worker(published, pc)
    }

    lemma OutcomeIsTrue(me: nat)
      requires Valid() && me < |sys.workers|
      ensures Honest(sys.sh, me, sys.workers[me].pc)
      ensures sys.workers[me].pc.Done? ==> Explained(me, sys.workers[me].published, sys.workers[me].pc.outcome)
    {
      OutcomesAreTrue(cfg, start, trace);
      DO.OutcomesAreExplained(cfg, start, trace, me);
    }

    /** What the process found at its own steps explains its outcome. */
    ghost predicate Explained(me: nat, published: int, outcome: Outcome) reads this {
      DO.EndExplained(cfg, published, DO.Found(cfg, Init(start), trace, me), me, outcome)
    }

    /** Time passes and other processes act. */
    method Rivals(me: nat, published: int, pc: Pc, actions: seq<Action>)
      requires Valid() && At(me, published, pc)
      modifies this`sys, this`trace
      ensures Valid() && old(trace) <= trace && At(me, published, pc) && (actions == [] ==> sys == old(sys))
    {
      for n := 0 to |actions|
        invariant Valid() && old(trace) <= trace && At(me, published, pc) && (n == 0 ==> sys == old(sys))
      {
        if !actions[n].Step? || actions[n].i != me {
          Do(actions[n]);
        }
      }
    }

    /** The geopolitical order: marker, then clock. */
    method MarkerThenClock(me: nat, published: int, first: seq<Action>, second: seq<Action>) returns (proceed: bool)
      requires Valid() && At(me, published, Holding) && cfg.variant == Geopolitical
      modifies this`sys, this`trace
      ensures Valid() && old(trace) <= trace
      ensures me < |sys.workers| && sys.workers[me].published == published
      ensures if proceed then sys.workers[me].pc.Ready? else sys.workers[me].pc == Releasing(Withheld)
      ensures first == second == [] ==>
        proceed == (!DO.Known(old(sys.sh)) && DO.InTime(cfg, published, old(sys.sh))) && sys.sh == old(sys.sh)
    {
      Rivals(me, published, Holding, first);
      var read := sys.sh.now;
      var marked := Live(sys.sh.marker, sys.sh.now);
      Do(Step(me, false));
      if marked { return false; }
      Rivals(me, published, MarkerAbsent(read), second);
      proceed := FreshnessAt(cfg, published, sys.sh.now) == Fresh;
      Do(Step(me, false));
    }

    /** The macro order: clock, then marker. */
    method ClockThenMarker(me: nat, published: int, first: seq<Action>, second: seq<Action>) returns (proceed: bool)
      requires Valid() && At(me, published, Holding) && cfg.variant == Macro
      modifies this`sys, this`trace
      ensures Valid() && old(trace) <= trace
      ensures me < |sys.workers| && sys.workers[me].published == published
      ensures if proceed then sys.workers[me].pc.Ready? else sys.workers[me].pc == Releasing(Withheld)
      ensures first == second == [] ==>
        proceed == (!DO.Known(old(sys.sh)) && DO.InTime(cfg, published, old(sys.sh))) && sys.sh == old(sys.sh)
    {
      Rivals(me, published, Holding, first);
      var read := sys.sh.now;
      var inWindow := FreshnessAt(cfg, published, sys.sh.now) == Fresh;
      Do(Step(me, false));
      if !inWindow { return false; }
      Rivals(me, published, ClockFresh(read), second);
      proceed := !Live(sys.sh.marker, sys.sh.now);
      Do(Step(me, false));
    }

    /** The second eligibility check, in the collector's own order of reads. */
    method Recheck(me: nat, published: int, first: seq<Action>, second: seq<Action>) returns (proceed: bool)
      requires Valid() && At(me, published, Holding)
      modifies this`sys, this`trace
      ensures Valid() && old(trace) <= trace
      ensures me < |sys.workers| && sys.workers[me].published == published
      ensures if proceed then sys.workers[me].pc.Ready? else sys.workers[me].pc == Releasing(Withheld)
      ensures first == second == [] ==>
        proceed == (!DO.Known(old(sys.sh)) && DO.InTime(cfg, published, old(sys.sh))) && sys.sh == old(sys.sh)
    {
      if cfg.variant == Geopolitical {
        proceed := MarkerThenClock(me, published, first, second);
      } else {
        proceed := ClockThenMarker(me, published, first, second);
      }
    }

    /** After a confirmed send and its marker. */
    function Sent(sh: Shared, me: nat): Shared {
      sh.(sends := sh.sends + [Send(me, sh.now)], marker := Put((), sh.now, MarkerTtl(cfg)), marks := sh.marks + [me])
    }

    /** Send and, if the provider confirms, write the marker: afterwards there is a confirmed send and a marker write of
        this process exactly if the provider confirmed. */
    method SendAndMark(me: nat, published: int, gap: int, first: seq<Action>, second: seq<Action>, providerOk: bool)
      requires Valid() && At(me, published, Ready(gap))
      modifies this
      ensures Valid() && old(trace) <= trace
      ensures At(me, published, Releasing(if providerOk then Delivered else ProviderFailed))
      ensures (SentBy(sys.sh, me) <==> providerOk) && (me in sys.sh.marks <==> providerOk)
      ensures deliveredCount == old(deliveredCount) + (if providerOk then 1 else 0)
      ensures deliveryErrors == old(deliveryErrors) + (if providerOk then 0 else 1)
      ensures first == second == [] ==> sys.sh == if providerOk then Sent(old(sys.sh), me) else old(sys.sh)
    {
      Rivals(me, published, Ready(gap), first);
      Do(Step(me, providerOk));
      if providerOk {
        Rivals(me, published, Confirmed, second);
        Do(Step(me, false));
        deliveredCount := deliveredCount + 1;
      } else {
        deliveryErrors := deliveryErrors + 1;
      }
      OutcomeIsTrue(me);
    }

    /** The first eligibility check and the lease. */
    method Acquire(me: nat, published: int, first: seq<Action>, second: seq<Action>) returns (refused: Option<Outcome>)
      requires Valid() && At(me, published, Start)
      modifies this`sys, this`trace
      ensures Valid() && old(trace) <= trace
      ensures refused in {None, Some(NotEligible), Some(Busy)}
      ensures At(me, published, if refused.None? then Holding else Done(refused.value))
      ensures first == second == [] ==>
        var ineligible := cfg.variant == Geopolitical && !DO.InTime(cfg, published, old(sys.sh));
        && (refused == Some(NotEligible) <==> ineligible)
        && (refused == Some(Busy) <==> !ineligible && DO.Leased(old(sys.sh)))
        && sys.sh == old(sys.sh).(lease := if refused.None? then Put(me, old(sys.sh.now), LEASE_TTL)
                                           else old(sys.sh.lease))
    {
      Rivals(me, published, Start, first);
      var eligible := cfg.variant == Macro || FreshnessAt(cfg, published, sys.sh.now) == Fresh;
      Do(Step(me, false));
      if !eligible {
        return Some(NotEligible);
      }
      Rivals(me, published, Cleared, second);
      var free := !Live(sys.sh.lease, sys.sh.now);
      Do(Step(me, false));
      refused := if free then None else Some(Busy);
    }

    method GiveUpLease(me: nat, published: int, outcome: Outcome, others: seq<Action>)
      requires Valid() && At(me, published, Releasing(outcome))
      modifies this`sys, this`trace
      ensures Valid() && old(trace) <= trace && At(me, published, Done(outcome)) && !Owns(sys.sh, me)
      ensures others == [] && Owns(old(sys.sh), me) ==> sys.sh == old(sys.sh).(lease := None)
    {
      Rivals(me, published, Releasing(outcome), others);
      Do(Step(me, false));
    }

    /** One `_deliver` call of a process whose event carries the publication `published`; `rivals(n)` happens before its
        n-th command. The call ends as its process does in the machine; it is `Delivered` exactly if this process has a
        confirmed send and wrote the marker, and otherwise what it found at its own steps stopped it. A lease it took is
        released on every path, and the counters count what happened. A call that nobody disturbs does what window,
        lease, marker and provider decide. */
    method Deliver(me: nat, published: int, rivals: nat -> seq<Action>, providerOk: bool) returns (outcome: Outcome)
      requires Valid() && At(me, published, Start)
      modifies this
      ensures Valid() && old(trace) <= trace && At(me, published, Done(outcome))
      ensures (SentBy(sys.sh, me) <==> outcome == Delivered) && (me in sys.sh.marks <==> outcome == Delivered)
      ensures (outcome == Delivered ==> providerOk) && (outcome == ProviderFailed ==> !providerOk)
      ensures outcome !in {NotEligible, Busy} ==> !Owns(sys.sh, me)
      ensures deliveredCount == old(deliveredCount) + (if outcome == Delivered then 1 else 0)
      ensures deliveryErrors == old(deliveryErrors) + (if outcome == ProviderFailed then 1 else 0)
      ensures Explained(me, published, outcome)
      ensures DO.Quiet(rivals) ==> DO.Alone(cfg, old(sys.sh), me, published, providerOk, outcome, sys.sh)
    {
      var refused := Acquire(me, published, rivals(0), rivals(1));
      if refused.Some? {
        outcome := refused.value;
      } else {
        outcome := UnderLease(me, published, rivals, providerOk);
      }
      OutcomeIsTrue(me);
    }

    /** The second check, the send and the release of the lease. */
    method UnderLease(me: nat, published: int, rivals: nat -> seq<Action>, providerOk: bool) returns (outcome: Outcome)
      requires Valid() && At(me, published, Holding)
      modifies this
      ensures Valid() && old(trace) <= trace && At(me, published, Done(outcome)) && !Owns(sys.sh, me)
      ensures outcome in {Withheld, if providerOk then Delivered else ProviderFailed}
      ensures deliveredCount == old(deliveredCount) + (if outcome == Delivered then 1 else 0)
      ensures deliveryErrors == old(deliveryErrors) + (if outcome == ProviderFailed then 1 else 0)
      ensures DO.Quiet(rivals) && Owns(old(sys.sh), me) ==>
        DO.AfterLease(cfg, old(sys.sh), me, published, providerOk, outcome, sys.sh)
    {
      var proceed := Recheck(me, published, rivals(2), rivals(3));
      outcome := Withheld;
      if proceed {
        SendAndMark(me, published, sys.workers[me].pc.gap, rivals(4), rivals(5), providerOk);
        outcome := if providerOk then Delivered else ProviderFailed;
      }
      GiveUpLease(me, published, outcome, rivals(6));
    }
  }

  class ProcessingClient {
    const cfg: P.Config
    var sys: P.System
    var processed: nat
    var duplicates: nat
    ghost var trace: seq<P.Action>
    ghost const start: int

    /** The object's history is a run of the processing machine. */
    ghost predicate Valid() reads this {
      sys == P.Run(cfg, P.Init(start), trace)
    }

    constructor (cfg: P.Config, now: int)
      ensures Valid() && trace == [] && processed == duplicates == 0
    {
      this.cfg := cfg;
      sys := P.Init(now);
      processed, duplicates := 0, 0;
      trace, start := [], now;
    }

    method Do(action: P.Action)
      requires Valid()
      modifies this`sys, this`trace
      ensures Valid() && sys == P.Next(cfg, old(sys), action) && trace == old(trace) + [action]
    {
      sys := P.Next(cfg, sys, action);
      trace := trace + [action];
    }

    ghost predicate At(me: nat, pc: P.Pc) reads this {
      me < |sys.pcs| && sys.pcs[me] == pc
    }

    lemma OutcomeIsTrue(me: nat)
      requires Valid() && me < |sys.pcs|
      ensures P.Honest(cfg, sys.sh, me, sys.pcs[me])
      ensures sys.pcs[me].Done? ==> Explained(me, sys.pcs[me].outcome)
    {
      P.OutcomesAreTrue(cfg, start, trace);
      PO.OutcomesAreExplained(cfg, start, trace, me);
    }

    /** What the process found at its own steps explains its outcome. */
    ghost predicate Explained(me: nat, outcome: P.Outcome) reads this {
      PO.EndExplained(cfg, PO.Found(cfg, P.Init(start), trace, me), me, outcome)
    }

    method Rivals(me: nat, pc: P.Pc, actions: seq<P.Action>)
      requires Valid() && At(me, pc)
      modifies this`sys, this`trace
      ensures Valid() && old(trace) <= trace && At(me, pc) && (actions == [] ==> sys == old(sys))
    {
      for n := 0 to |actions|
        invariant Valid() && old(trace) <= trace && At(me, pc) && (n == 0 ==> sys == old(sys))
      {
        if !actions[n].Step? || actions[n].i != me {
          Do(actions[n]);
        }
      }
    }

    /** Cache look-up, lease, and the second look-up under it. */
    method Enter(me: nat, rivals: nat -> seq<P.Action>) returns (leased: bool, missed: bool)
      requires Valid() && At(me, P.Start)
      modifies this`sys, this`trace
      ensures Valid() && old(trace) <= trace && (missed ==> leased)
      ensures At(me, if missed then P.Checked else if leased then P.Leaving(P.Duplicate) else P.Done(P.Duplicate))
      ensures PO.Quiet(rivals) ==>
        missed == leased == !(PO.Cached(old(sys.sh)) || PO.Leased(old(sys.sh)))
        && sys.sh == old(sys.sh).(lease := if leased then Put(me, old(sys.sh.now), LEASE_TTL) else old(sys.sh.lease))
    {
      Rivals(me, P.Start, rivals(0));
      var cached := Live(sys.sh.cache, sys.sh.now);
      Do(P.Step(me, false));
      if cached { return false, false; }
      leased := TakeLease(me, rivals(1));
      missed := false;
      if leased { missed := LookAgain(me, rivals(2)); }
    }

    method TakeLease(me: nat, others: seq<P.Action>) returns (leased: bool)
      requires Valid() && At(me, P.Missed)
      modifies this`sys, this`trace
      ensures Valid() && old(trace) <= trace && At(me, if leased then P.Holding else P.Done(P.Duplicate))
      ensures others == [] ==>
        leased == !PO.Leased(old(sys.sh))
        && sys.sh == old(sys.sh).(lease := if leased then Put(me, old(sys.sh.now), LEASE_TTL) else old(sys.sh.lease))
    {
      Rivals(me, P.Missed, others);
      leased := !Live(sys.sh.lease, sys.sh.now);
      Do(P.Step(me, false));
    }

    method LookAgain(me: nat, others: seq<P.Action>) returns (missed: bool)
      requires Valid() && At(me, P.Holding)
      modifies this`sys, this`trace
      ensures Valid() && old(trace) <= trace && At(me, if missed then P.Checked else P.Leaving(P.Duplicate))
      ensures others == [] ==> missed == !PO.Cached(old(sys.sh)) && sys.sh == old(sys.sh)
    {
      Rivals(me, P.Holding, others);
      missed := !Live(sys.sh.cache, sys.sh.now);
      Do(P.Step(me, false));
    }

    /** The BLS cool-down and the API call; `None` when the event is ready to be cached. */
    method Enrich(me: nat, rivals: nat -> seq<P.Action>, apiOk: bool) returns (failed: Option<P.Outcome>)
      requires Valid() && At(me, P.Checked)
      modifies this`sys, this`trace
      ensures Valid() && old(trace) <= trace
      ensures failed in {None, Some(P.CoolingDown), Some(P.ApiFailed)}
      ensures At(me, if failed.None? then P.Analyzed else P.Leaving(failed.value))
      ensures if failed == Some(P.ApiFailed) then cfg.bls && !apiOk else failed.None? ==> !cfg.bls || apiOk
      ensures PO.Quiet(rivals) ==>
        (failed == Some(P.CoolingDown) <==> cfg.bls && PO.Cooling(old(sys.sh)))
        && sys.sh == if !cfg.bls || failed == Some(P.CoolingDown) then old(sys.sh) else Called(old(sys.sh), me, apiOk)
    {
      Rivals(me, P.Checked, rivals(3));
      var cooling := cfg.bls && Live(sys.sh.retry, sys.sh.now);
      Do(P.Step(me, false));
      if cooling {
        failed := Some(P.CoolingDown);
      } else if !cfg.bls {
        failed := None;
      } else {
        failed := CallApi(me, rivals, apiOk);
      }
    }

    /** What an API call leaves behind: the call, and the cool-down if it failed. */
    function Called(sh: P.Shared, me: nat, apiOk: bool): P.Shared {
      sh.(calls := sh.calls + [P.Call(me, sh.now, apiOk)],
          retry := if apiOk then sh.retry else Put((), sh.now, P.BLS_RETRY))
    }

    method CallApi(me: nat, rivals: nat -> seq<P.Action>, apiOk: bool) returns (failed: Option<P.Outcome>)
      requires Valid() && At(me, P.Cooled)
      modifies this`sys, this`trace
      ensures Valid() && old(trace) <= trace && failed == if apiOk then None else Some(P.ApiFailed)
      ensures At(me, if apiOk then P.Analyzed else P.Leaving(P.ApiFailed))
      ensures PO.Quiet(rivals) ==> sys.sh == Called(old(sys.sh), me, apiOk)
    {
      Rivals(me, P.Cooled, rivals(4));
      Do(P.Step(me, apiOk));
      if apiOk { return None; }
      Rivals(me, P.CallFailed, rivals(5));
      Do(P.Step(me, false));
      failed := Some(P.ApiFailed);
    }

    function Stored(sh: P.Shared, me: nat): P.Shared {
      sh.(cache := Put(me, sh.now, cfg.cacheTtl), writes := sh.writes + [P.Write(me, sh.now)])
    }

    /** The owner-checked cache write. */
    method Cache(me: nat, others: seq<P.Action>) returns (written: bool)
      requires Valid() && At(me, P.Analyzed)
      modifies this`sys, this`trace
      ensures Valid() && old(trace) <= trace
      ensures At(me, P.Leaving(if written then P.Processed else P.OwnershipExpired))
      ensures written <==> P.WroteBy(sys.sh, me)
      ensures written ==> sys.sh.cache == Put(me, sys.sh.now, cfg.cacheTtl) && P.Owns(sys.sh, me)
      ensures others == [] ==>
        written == PO.Mine(old(sys.sh), me)
        && sys.sh == if written then Stored(old(sys.sh), me) else old(sys.sh)
    {
      Rivals(me, P.Analyzed, others);
      written := Get(sys.sh.lease, sys.sh.now) == Some(me);
      Do(P.Step(me, false));
      OutcomeIsTrue(me);
    }

    /** The work under the lease, up to the cache write. */
    method Work(me: nat, rivals: nat -> seq<P.Action>, apiOk: bool) returns (outcome: P.Outcome)
      requires Valid() && At(me, P.Checked)
      modifies this`sys, this`trace
      ensures Valid() && old(trace) <= trace && At(me, P.Leaving(outcome)) && outcome != P.Duplicate
      ensures (outcome == P.ApiFailed ==> !apiOk) && (outcome == P.Processed && cfg.bls ==> apiOk)
      ensures PO.Quiet(rivals) && PO.Mine(old(sys.sh), me) ==>
        && (outcome == P.CoolingDown <==> cfg.bls && PO.Cooling(old(sys.sh)))
        && (outcome == P.ApiFailed <==> cfg.bls && !PO.Cooling(old(sys.sh)) && !apiOk)
        && outcome != P.OwnershipExpired
        && sys.sh == (if outcome == P.CoolingDown then old(sys.sh)
                      else var called := if cfg.bls then Called(old(sys.sh), me, apiOk) else old(sys.sh);
                        if outcome == P.Processed then Stored(called, me) else called)
    {
      var failed := Enrich(me, rivals, apiOk);
      if failed.Some? {
        outcome := failed.value;
      } else {
        var written := Cache(me, rivals(6));
        outcome := if written then P.Processed else P.OwnershipExpired;
      }
    }

    method Leave(me: nat, outcome: P.Outcome, others: seq<P.Action>)
      requires Valid() && At(me, P.Leaving(outcome))
      modifies this`sys, this`trace
      ensures Valid() && old(trace) <= trace && At(me, P.Done(outcome)) && !P.Owns(sys.sh, me)
      ensures others == [] && PO.Mine(old(sys.sh), me) ==> sys.sh == old(sys.sh).(lease := None)
    {
      Rivals(me, P.Leaving(outcome), others);
      Do(P.Step(me, false));
    }

    /** The call without its counters. */
    method Attempt(me: nat, rivals: nat -> seq<P.Action>, apiOk: bool) returns (outcome: P.Outcome)
      requires Valid() && At(me, P.Start)
      modifies this`sys, this`trace
      ensures Valid() && old(trace) <= trace && At(me, P.Done(outcome))
      ensures (outcome == P.ApiFailed ==> !apiOk) && (outcome == P.Processed && cfg.bls ==> apiOk)
      ensures outcome != P.Duplicate ==> !P.Owns(sys.sh, me)
      ensures PO.Quiet(rivals) ==> PO.Alone(cfg, old(sys.sh), me, apiOk, outcome, sys.sh)
    {
      var leased, missed := Enter(me, rivals);
      outcome := P.Duplicate;
      if missed {
        outcome := WorkAndLeave(me, rivals, apiOk);
      } else if leased {
        Leave(me, outcome, rivals(7));
      }
    }

    method WorkAndLeave(me: nat, rivals: nat -> seq<P.Action>, apiOk: bool) returns (outcome: P.Outcome)
      requires Valid() && At(me, P.Checked)
      modifies this`sys, this`trace
      ensures Valid() && old(trace) <= trace && At(me, P.Done(outcome)) && outcome != P.Duplicate
      ensures (outcome == P.ApiFailed ==> !apiOk) && (outcome == P.Processed && cfg.bls ==> apiOk)
      ensures !P.Owns(sys.sh, me)
      ensures PO.Quiet(rivals) && PO.Mine(old(sys.sh), me) ==>
        PO.AfterEntry(cfg, old(sys.sh), me, apiOk, outcome, sys.sh)
    {
      outcome := Work(me, rivals, apiOk);
      Leave(me, outcome, rivals(7));
    }

    /** One `_process` call up to the delivery. The call ends as its process does in the machine: it is `Processed`
        exactly if this process wrote the cache, and `ApiFailed` exactly if its API call failed; the other outcomes say
        what it found at its own steps. The lease is released on every path that took it, and the counters count what
        happened. A call that nobody disturbs does what cache, lease, cool-down and API call decide. */
    method Process(me: nat, rivals: nat -> seq<P.Action>, apiOk: bool) returns (outcome: P.Outcome)
      requires Valid() && At(me, P.Start)
      modifies this
      ensures Valid() && old(trace) <= trace && At(me, P.Done(outcome))
      ensures outcome == P.Processed <==> P.WroteBy(sys.sh, me)
      ensures outcome == P.ApiFailed <==> P.CalledBy(sys.sh, me, false)
      ensures (outcome == P.ApiFailed ==> !apiOk) && (outcome == P.Processed && cfg.bls ==> apiOk)
      ensures outcome != P.Duplicate ==> !P.Owns(sys.sh, me)
      ensures processed == old(processed) + (if outcome == P.Processed then 1 else 0)
      ensures duplicates == old(duplicates) + (if outcome == P.Duplicate then 1 else 0)
      ensures Explained(me, outcome)
      ensures PO.Quiet(rivals) ==> PO.Alone(cfg, old(sys.sh), me, apiOk, outcome, sys.sh)
    {
      outcome := Attempt(me, rivals, apiOk);
      if outcome == P.Duplicate { duplicates := duplicates + 1; }
      if outcome == P.Processed { processed := processed + 1; }
      OutcomeIsTrue(me);
    }
  }
}
