/** The delivery of one event by any number of collector processes (collector/geopolitical_collector.py and
    collector/macro_collector.py, `_deliver`): a lease with a unique token, the delivered marker, and the freshness
    window, under a monotone clock. A process may stop after any step. */
module Delivery {
  import opened Results
  import opened ExpiringKeys

  datatype Variant = Geopolitical | Macro

  datatype Config = Config(variant: Variant, dedupTtlSeconds: int, maxAgeHours: int, aliasTtlDays: int)

  /** What the settings demand: a positive window, and a policy record that outlives it. */
  predicate ValidConfig(cfg: Config) {
    cfg.maxAgeHours > 0 && (cfg.variant == Geopolitical ==> cfg.aliasTtlDays * 24 > cfg.maxAgeHours)
  }

  function Window(cfg: Config): int {
    cfg.maxAgeHours * 3600 * SECOND
  }

  function Max(a: int, b: int): int {
    if a >= b then a else b
  }

  function Min(a: int, b: int): int {
    if a <= b then a else b
  }

  /** `_ttl`: the lifetime of a delivered marker. */
  function MarkerTtl(cfg: Config): int {
    (Max(cfg.dedupTtlSeconds, cfg.maxAgeHours * 3600) + 1) * SECOND
  }

  /** The lifetime of a policy record after its last resolution. */
  function RecordTtl(cfg: Config): int {
    cfg.aliasTtlDays * 86400 * SECOND
  }

  /** How much longer a marker lives than its event is fresh. */
  function Slack(cfg: Config): (slack: int)
    ensures slack >= SECOND
  {
    MarkerTtl(cfg) - Window(cfg)
  }

  datatype Freshness = Fresh | Future | Stale

  function FreshnessAt(cfg: Config, published: int, now: int): Freshness {
    var age := now - published;
    if age < 0 then Future else if age > Window(cfg) then Stale else Fresh
  }

  /** How a call ended: for lack of freshness, behind another lease, by the second check, or after a send. */
  datatype Outcome = NotEligible | Busy | Withheld | ProviderFailed | Delivered

  /** The geopolitical collector reads the marker and then the clock; the macro collector the clock and then the
      marker. `gap` is the time between the two reads. */
  datatype Pc =
    | Start
    | Cleared
    | Holding
    | MarkerAbsent(read: int)
    | ClockFresh(read: int)
    | Ready(gap: int)
    | Confirmed
    | Releasing(outcome: Outcome)
    | Done(outcome: Outcome)

  /** One `_deliver` call; its index is its lease token. `published` is the publication its event carries. */
  datatype Worker = Worker(published: int, pc: Pc)

  datatype Send = Send(sender: nat, at: int)

  /** What the processes share. `record` is the geopolitical policy record's publication time; the macro collector has
      no such record. `sends` and `marks` are history: the confirmed sends and the marker writes. */
  datatype Shared = Shared(now: int, record: Key<int>, lease: Key<nat>, marker: Key<()>, sends: seq<Send>,
                           marks: seq<nat>)

  datatype System = System(sh: Shared, workers: seq<Worker>)

  datatype Action =
    | Tick(elapsed: nat)
    | Resolve(published: int)            // a new process holds a document of the event, which dates it `published`
    | Step(i: nat, providerOk: bool)     // `providerOk` matters to the send only

  function Init(now: int): System {
    System(Shared(now, None, None, None, [], []), [])
  }

  /** The publication time of a policy resolved with a document's date: the earliest one its live record knows. */
  function Merged(record: Key<int>, published: int, now: int): int {
    match Get(record, now) case Some(q) => Min(q, published) case None => published
  }

  function Advance(cfg: Config, me: nat, w: Worker, sh: Shared, providerOk: bool): (Worker, Shared) {
    var inWindow := FreshnessAt(cfg, w.published, sh.now) == Fresh;
    match w.pc
    case Start =>
      (w.(pc := if cfg.variant == Geopolitical && !inWindow then Done(NotEligible) else Cleared), sh)
    case Cleared =>
      if Live(sh.lease, sh.now) then (w.(pc := Done(Busy)), sh)
      else (w.(pc := Holding), sh.(lease := Put(me, sh.now, LEASE_TTL)))
    case Holding =>
      if cfg.variant == Geopolitical then
        (w.(pc := if Live(sh.marker, sh.now) then Releasing(Withheld) else MarkerAbsent(sh.now)), sh)
      else
        (w.(pc := if inWindow then ClockFresh(sh.now) else Releasing(Withheld)), sh)
    case MarkerAbsent(read) => (w.(pc := if inWindow then Ready(sh.now - read) else Releasing(Withheld)), sh)
    case ClockFresh(read) =>
      (w.(pc := if Live(sh.marker, sh.now) then Releasing(Withheld) else Ready(sh.now - read)), sh)
    case Ready(_) =>
      if providerOk then (w.(pc := Confirmed), sh.(sends := sh.sends + [Send(me, sh.now)]))
      else (w.(pc := Releasing(ProviderFailed)), sh)
    case Confirmed =>
      (w.(pc := Releasing(Delivered)), sh.(marker := Put((), sh.now, MarkerTtl(cfg)), marks := sh.marks + [me]))
    case Releasing(outcome) => (w.(pc := Done(outcome)), sh.(lease := Release(sh.lease, me, sh.now)))
    case Done(_) => (w, sh)
  }

  /** Only documents that are not dated in the future get as far as here. A macro process keeps its document's date (or
      that of the event cached from an earlier one); a geopolitical one resolves the policy, and goes on if that is
      fresh. */
  function Arrived(cfg: Config, sys: System, published: int): System {
    if published > sys.sh.now then sys
    else if cfg.variant == Macro then sys.(workers := sys.workers + [Worker(published, Start)])
    else
      var earliest := Merged(sys.sh.record, published, sys.sh.now);
      var sh := sys.sh.(record := Put(earliest, sys.sh.now, RecordTtl(cfg)));
      System(sh, if FreshnessAt(cfg, earliest, sh.now) == Fresh then sys.workers + [Worker(earliest, Start)]
                 else sys.workers)
  }

  /** The publication of a document's event: a geopolitical policy is dated by its earliest known date while its record
      lives, the macro event by the document. */
  predicate DatedBy(cfg: Config, sys: System, published: int, date: int) {
    var known := cfg.variant == Geopolitical && sys.sh.record.Some? && sys.sh.now < sys.sh.record.value.expiry;
    if known then
      date <= published && date <= sys.sh.record.value.value && date in {published, sys.sh.record.value.value}
    else date == published
  }

  /** What a document leaves: nothing if it is dated in the future; else the geopolitical record, renewed for its whole
      lifetime with the event's date, and a new process with that date, for a geopolitical event only if it is in the
      window. */
  lemma ArrivalMeaning(cfg: Config, sys: System, published: int) returns (date: int)
    ensures DatedBy(cfg, sys, published, date)
    ensures var t := Next(cfg, sys, Resolve(published));
      if published > sys.sh.now then t == sys
      else if cfg.variant == Macro then t == sys.(workers := sys.workers + [Worker(date, Start)])
      else
        && t.sh == sys.sh.(record := Some(Entry(date, sys.sh.now + cfg.aliasTtlDays * 24 * 3600 * 1_000_000)))
        && t.workers == sys.workers + if sys.sh.now - date <= cfg.maxAgeHours * 3600 * 1_000_000
                                      then [Worker(date, Start)] else []
  {
    date := if cfg.variant == Macro then published else Merged(sys.sh.record, published, sys.sh.now);
  }

  function Next(cfg: Config, sys: System, action: Action): System {
    match action
    case Tick(elapsed) => sys.(sh := sys.sh.(now := sys.sh.now + elapsed))
    case Resolve(p) => Arrived(cfg, sys, p)
    case Step(i, ok) =>
      if i < |sys.workers| then
        var (w, sh) := Advance(cfg, i, sys.workers[i], sys.sh, ok);
        System(sh, sys.workers[i := w])
      else sys
  }

  function Run(cfg: Config, sys: System, actions: seq<Action>): System {
    if actions == [] then sys else Next(cfg, Run(cfg, sys, actions[..|actions| - 1]), actions[|actions| - 1])
  }

  ghost predicate Owns(sh: Shared, me: nat) {
    Get(sh.lease, sh.now) == Some(me)
  }

  // ----------------------------------------------------------------- outcomes

  ghost predicate SentBy(sh: Shared, me: nat) {
    exists x <- sh.sends :: x.sender == me
  }

  /** A call has a confirmed send exactly from its confirmation on, and wrote the marker exactly if it then went on. */
  ghost predicate Honest(sh: Shared, me: nat, pc: Pc) {
    var delivered := pc in {Releasing(Delivered), Done(Delivered)};
    (SentBy(sh, me) <==> delivered || pc == Confirmed) && (me in sh.marks <==> delivered)
  }

  ghost predicate AllHonest(sys: System) {
    && (forall i: nat :: i < |sys.workers| ==> Honest(sys.sh, i, sys.workers[i].pc))
    && (forall x <- sys.sh.sends :: x.sender < |sys.workers|)
    && (forall m <- sys.sh.marks :: m < |sys.workers|)
  }

  lemma NextKeepsHonest(cfg: Config, sys: System, action: Action)
    requires AllHonest(sys)
    ensures AllHonest(Next(cfg, sys, action))
  {
    var t := Next(cfg, sys, action);
    forall j: nat | j < |t.workers| ensures Honest(t.sh, j, t.workers[j].pc) {
      if j < |sys.workers| {
        assert Honest(sys.sh, j, sys.workers[j].pc);
        HistoryGrows(cfg, sys, action, j);
      }
    }
  }

  /** A step adds to the history of its own process only, by sending or by writing the marker. */
  lemma HistoryGrows(cfg: Config, sys: System, action: Action, j: nat)
    ensures var t := Next(cfg, sys, action);
      var mine := action.Step? && action.i == j < |sys.workers|;
      && (SentBy(t.sh, j) <==> SentBy(sys.sh, j) || (mine && sys.workers[j].pc.Ready? && action.providerOk))
      && (j in t.sh.marks <==> j in sys.sh.marks || (mine && sys.workers[j].pc == Confirmed))
  {
    var t := Next(cfg, sys, action);
    if t.sh.sends != sys.sh.sends {
      assert t.sh.sends == sys.sh.sends + [Send(action.i, sys.sh.now)];
      assert Send(action.i, sys.sh.now) in t.sh.sends;
      assert forall x :: x in t.sh.sends <==> x in sys.sh.sends || x == Send(action.i, sys.sh.now);
    }
  }

  /** On every run: a call ends `Delivered` exactly if it has a confirmed send and then wrote the marker, and a call
      that ended otherwise did neither. */
  lemma {:induction false} OutcomesAreTrue(cfg: Config, now: int, actions: seq<Action>)
    ensures AllHonest(Run(cfg, Init(now), actions))
  {
    if actions != [] {
      var n := |actions| - 1;
      OutcomesAreTrue(cfg, now, actions[..n]);
      NextKeepsHonest(cfg, Run(cfg, Init(now), actions[..n]), actions[n]);
    }
  }

  /** No process ever deletes or overwrites a live lease that is not its own. */
  lemma LiveLeaseIsSafe(cfg: Config, sys: System, i: nat, ok: bool, holder: nat)
    requires Owns(sys.sh, holder) && i != holder
    ensures Next(cfg, sys, Step(i, ok)).sh.lease == sys.sh.lease
  {
  }

  // ----------------------------------------------------------------- conditions on a run

  /** `timely`: every confirmed send is made, and its marker written, under its sender's live lease. `gap`: the longest
      time between the two reads of a macro process about to send. `shift`: how much later than the first send the event
      may be dated afterwards. */
  datatype Limits = Limits(timely: bool, gap: nat, shift: nat)

  ghost predicate OnTime(sys: System) {
    forall i: nat :: i < |sys.workers| && sys.workers[i].pc == Confirmed ==> Owns(sys.sh, i)
  }

  ghost predicate Prompt(sys: System, gap: nat) {
    forall w <- sys.workers :: w.pc.Ready? ==> w.pc.gap <= gap
  }

  ghost predicate Dated(sys: System, shift: nat) {
    sys.sh.sends != [] ==> forall w <- sys.workers :: w.published <= sys.sh.sends[0].at + shift
  }

  ghost predicate Within(cfg: Config, sys: System, lim: Limits) {
    && (lim.timely ==> OnTime(sys))
    && (cfg.variant == Macro ==> Prompt(sys, lim.gap))
    && Dated(sys, lim.shift)
  }

  ghost predicate RunWithin(cfg: Config, sys: System, actions: seq<Action>, lim: Limits) {
    Within(cfg, Run(cfg, sys, actions), lim) && (actions != [] ==> RunWithin(cfg, sys, actions[..|actions| - 1], lim))
  }

  /** The least re-dating that allows a second send. The event must be fresh when the marker has expired. A geopolitical
      event keeps its date while its record lives, which is at least until the record's lifetime after a date that was
      fresh when the first sender checked. A macro sender that lets its lease expire between its reads is not timely. */
  function Reach(cfg: Config, gap: nat): int {
    match cfg.variant
    case Geopolitical => Max(Slack(cfg), RecordTtl(cfg) - 2 * Window(cfg) - (LEASE_TTL - 1))
    case Macro => Slack(cfg) - Min(gap, LEASE_TTL - 1)
  }

  // ----------------------------------------------------------------- the invariant

  /** The record dates the event no later than `p`, until it expires a lifetime after `p`. */
  ghost predicate Covered(cfg: Config, sh: Shared, p: int) {
    || sh.now >= p + RecordTtl(cfg)
    || (sh.record.Some? && sh.record.value.value <= p && sh.record.value.expiry >= p + RecordTtl(cfg))
  }

  ghost predicate Holds(sh: Shared, me: nat) {
    sh.lease.Some? && sh.lease.value.value == me
  }

  /** Before the first send. */
  ghost predicate Unsent(cfg: Config, sh: Shared, me: nat, w: Worker) {
    && w.pc != Confirmed && w.published <= sh.now
    && (cfg.variant == Geopolitical ==> Covered(cfg, sh, w.published) && !w.pc.ClockFresh?)
    && (cfg.variant == Geopolitical && w.pc.Ready? && Holds(sh, me) ==>
      sh.lease.value.expiry <= w.published + Window(cfg) + LEASE_TTL)
  }

  /** When the record that covered the first send's date expires. */
  function RecordEnd(cfg: Config, sent: int): int {
    sent - Window(cfg) - (LEASE_TTL - 1) + RecordTtl(cfg)
  }

  /** After the send a geopolitical event is dated later only when that record has expired. */
  ghost predicate Known(cfg: Config, sys: System, sent: int) {
    && sent <= sys.sh.now
    && (cfg.variant == Geopolitical && sys.sh.now < RecordEnd(cfg, sent) ==>
      && sys.sh.record.Some? && sys.sh.record.value.value <= sent
      && sys.sh.record.value.expiry >= RecordEnd(cfg, sent)
      && forall w <- sys.workers :: w.published <= sent)
  }

  /** Once the send is marked, a lease holder past its marker read can only have seen the marker expire. */
  ghost predicate HolderIsLate(cfg: Config, sh: Shared, me: nat, w: Worker, sent: int) {
    && w.pc != Confirmed
    && (Holds(sh, me) ==>
      match w.pc
      case MarkerAbsent(read) => cfg.variant == Geopolitical && sent + MarkerTtl(cfg) <= read <= sh.now
      case ClockFresh(read) =>
        cfg.variant == Macro && read <= w.published + Window(cfg) && sh.lease.value.expiry <= read + LEASE_TTL
      case Ready(_) => !Live(sh.lease, sh.now)
      case _ => true)
  }

  ghost predicate Marked(cfg: Config, sys: System, sent: int) {
    && sys.sh.marker.Some? && sys.sh.marker.value.expiry >= sent + MarkerTtl(cfg)
    && forall i: nat :: i < |sys.workers| ==> HolderIsLate(cfg, sys.sh, i, sys.workers[i], sent)
  }

  /** The sender still holds the lease, and nobody else has a confirmed send. */
  ghost predicate Unmarked(sys: System, sender: nat) {
    && sender < |sys.workers| && sys.workers[sender].pc == Confirmed && Holds(sys.sh, sender)
    && forall i: nat :: i < |sys.workers| && i != sender ==> sys.workers[i].pc != Confirmed
  }

  ghost predicate Clean(cfg: Config, sys: System) {
    forall i: nat :: i < |sys.workers| ==> Unsent(cfg, sys.sh, i, sys.workers[i])
  }

  ghost predicate Inv(cfg: Config, sys: System) {
    && (sys.sh.lease.Some? ==> sys.sh.lease.value.expiry <= sys.sh.now + LEASE_TTL)
    && |sys.sh.sends| <= 1
    && (|sys.sh.sends| == 0 ==> Clean(cfg, sys))
    && (|sys.sh.sends| == 1 ==>
      var sent := sys.sh.sends[0].at;
      Known(cfg, sys, sent) && (Marked(cfg, sys, sent) || exists i :: Unmarked(sys, i)))
  }

  // ----------------------------------------------------------------- one step

  ghost predicate Tight(cfg: Config, lim: Limits) {
    lim.timely && lim.shift < Reach(cfg, lim.gap)
  }

  /** The heart of the argument: with the marker expired, a process that becomes ready to send in time carries a date at
      least `Reach` after the first send. */
  lemma ReadyIsLate(cfg: Config, gap: nat, sys: System, i: nat, ok: bool)
    requires Inv(cfg, sys) && |sys.sh.sends| == 1 && Marked(cfg, sys, sys.sh.sends[0].at) && i < |sys.workers|
    requires var pc := Next(cfg, sys, Step(i, ok)).workers[i].pc; pc.Ready? && (cfg.variant == Macro ==> pc.gap <= gap)
    requires Owns(sys.sh, i) && !sys.workers[i].pc.Ready?
    ensures sys.workers[i].published >= sys.sh.sends[0].at + Reach(cfg, gap)
  {
    var sent, w := sys.sh.sends[0].at, sys.workers[i];
    assert HolderIsLate(cfg, sys.sh, i, w, sent);
    if cfg.variant == Geopolitical {
      assert w.published >= sent + Slack(cfg);
      assert w in sys.workers && sys.sh.now >= RecordEnd(cfg, sent);
    }
  }

  lemma StepWhenMarked(cfg: Config, lim: Limits, sys: System, i: nat, ok: bool)
    requires Tight(cfg, lim) && Inv(cfg, sys) && |sys.sh.sends| == 1 && Marked(cfg, sys, sys.sh.sends[0].at)
    requires i < |sys.workers| && Within(cfg, Next(cfg, sys, Step(i, ok)), lim)
    ensures Inv(cfg, Next(cfg, sys, Step(i, ok)))
  {
    var sent, w := sys.sh.sends[0].at, sys.workers[i];
    var t := Next(cfg, sys, Step(i, ok));
    assert HolderIsLate(cfg, sys.sh, i, w, sent);
    assert OnTime(t) && t.workers[i] in t.workers;
    if t.workers[i].pc.Ready? && !w.pc.Ready? && Owns(sys.sh, i) {
      ReadyIsLate(cfg, lim.gap, sys, i, ok);
    }
    forall j: nat | j < |t.workers| && j != i ensures HolderIsLate(cfg, t.sh, j, t.workers[j], sent) {
      OthersStayLate(cfg, sys, i, ok, j, sent);
    }
    StepKeepsKnown(cfg, sys, i, ok, sent);
  }

  lemma OthersStayLate(cfg: Config, sys: System, i: nat, ok: bool, j: nat, sent: int)
    requires i < |sys.workers| && j < |sys.workers| && i != j && HolderIsLate(cfg, sys.sh, j, sys.workers[j], sent)
    ensures var t := Next(cfg, sys, Step(i, ok)); HolderIsLate(cfg, t.sh, j, t.workers[j], sent)
  {
  }

  lemma StepKeepsKnown(cfg: Config, sys: System, i: nat, ok: bool, sent: int)
    requires Known(cfg, sys, sent) && i < |sys.workers|
    ensures Known(cfg, Next(cfg, sys, Step(i, ok)), sent)
  {
    var t := Next(cfg, sys, Step(i, ok));
    forall w | w in t.workers ensures exists u <- sys.workers :: u.published == w.published {
      var k :| 0 <= k < |t.workers| && t.workers[k] == w;
      assert sys.workers[k] in sys.workers && sys.workers[k].published == w.published;
    }
  }

  lemma StepWhenUnmarked(cfg: Config, lim: Limits, sys: System, i: nat, ok: bool, sender: nat)
    requires lim.timely && Inv(cfg, sys) && |sys.sh.sends| == 1 && Unmarked(sys, sender)
    requires i < |sys.workers| && Within(cfg, sys, lim) && Within(cfg, Next(cfg, sys, Step(i, ok)), lim)
    ensures Inv(cfg, Next(cfg, sys, Step(i, ok)))
  {
    var sent := sys.sh.sends[0].at;
    var t := Next(cfg, sys, Step(i, ok));
    StepKeepsKnown(cfg, sys, i, ok, sent);
    assert Owns(sys.sh, sender);
    if i != sender {
      assert t.workers[i].pc == Confirmed ==> Owns(t.sh, i);
      assert t.workers[sender] == sys.workers[sender];
      assert Unmarked(t, sender);
    } else {
      forall j: nat | j < |t.workers| ensures HolderIsLate(cfg, t.sh, j, t.workers[j], sent) { }
      assert Marked(cfg, t, sent);
    }
  }

  lemma StepWhenClean(cfg: Config, lim: Limits, sys: System, i: nat, ok: bool)
    requires lim.timely && Inv(cfg, sys) && |sys.sh.sends| == 0 && i < |sys.workers|
    requires Within(cfg, Next(cfg, sys, Step(i, ok)), lim)
    ensures Inv(cfg, Next(cfg, sys, Step(i, ok)))
  {
    var t := Next(cfg, sys, Step(i, ok));
    var w := sys.workers[i];
    assert Unsent(cfg, sys.sh, i, w);
    if |t.sh.sends| == 1 {
      assert t.workers[i].pc == Confirmed && Owns(t.sh, i);
      assert Unmarked(t, i);
      FirstSendIsKnown(cfg, sys, i, ok);
    } else {
      forall j: nat | j < |t.workers| ensures Unsent(cfg, t.sh, j, t.workers[j]) {
        assert Unsent(cfg, sys.sh, j, sys.workers[j]);
      }
    }
  }

  lemma FirstSendIsKnown(cfg: Config, sys: System, i: nat, ok: bool)
    requires |sys.sh.sends| == 0 && Clean(cfg, sys) && i < |sys.workers| && sys.workers[i].pc.Ready? && Owns(sys.sh, i)
    ensures Known(cfg, Next(cfg, sys, Step(i, ok)), sys.sh.now)
  {
    var t := Next(cfg, sys, Step(i, ok));
    assert Unsent(cfg, sys.sh, i, sys.workers[i]);
    forall w | w in t.workers ensures w.published <= sys.sh.now {
      var k :| 0 <= k < |t.workers| && t.workers[k] == w;
      assert Unsent(cfg, sys.sh, k, sys.workers[k]);
    }
  }

  lemma TickKeepsInv(cfg: Config, sys: System, elapsed: nat)
    requires Inv(cfg, sys)
    ensures Inv(cfg, Next(cfg, sys, Tick(elapsed)))
  {
    var t := Next(cfg, sys, Tick(elapsed));
    if |sys.sh.sends| == 0 {
      forall j: nat | j < |t.workers| ensures Unsent(cfg, t.sh, j, t.workers[j]) {
        assert Unsent(cfg, sys.sh, j, sys.workers[j]);
      }
    } else {
      var sent := sys.sh.sends[0].at;
      if Marked(cfg, sys, sent) {
        forall j: nat | j < |t.workers| ensures HolderIsLate(cfg, t.sh, j, t.workers[j], sent) {
          assert HolderIsLate(cfg, sys.sh, j, sys.workers[j], sent);
        }
      } else {
        var s :| Unmarked(sys, s);
        assert Unmarked(t, s);
      }
    }
  }

  lemma ResolveKeepsInv(cfg: Config, sys: System, p: int)
    requires ValidConfig(cfg) && Inv(cfg, sys)
    ensures Inv(cfg, Next(cfg, sys, Resolve(p)))
  {
    var t := Next(cfg, sys, Resolve(p));
    if |sys.sh.sends| == 0 {
      forall j: nat | j < |t.workers| ensures Unsent(cfg, t.sh, j, t.workers[j]) {
        if j < |sys.workers| { assert Unsent(cfg, sys.sh, j, sys.workers[j]); }
      }
    } else if t != sys {
      var sent := sys.sh.sends[0].at;
      if Marked(cfg, sys, sent) {
        forall j: nat | j < |t.workers| ensures HolderIsLate(cfg, t.sh, j, t.workers[j], sent) {
          if j < |sys.workers| { assert HolderIsLate(cfg, sys.sh, j, sys.workers[j], sent); }
        }
      } else {
        var s :| Unmarked(sys, s);
        assert Unmarked(t, s);
      }
    }
  }

  lemma NextKeepsInv(cfg: Config, lim: Limits, sys: System, action: Action)
    requires ValidConfig(cfg) && Tight(cfg, lim) && Inv(cfg, sys)
    requires Within(cfg, sys, lim) && Within(cfg, Next(cfg, sys, action), lim)
    ensures Inv(cfg, Next(cfg, sys, action))
  {
    match action
    case Tick(elapsed) => TickKeepsInv(cfg, sys, elapsed);
    case Resolve(p) => ResolveKeepsInv(cfg, sys, p);
    case Step(i, ok) =>
      if i < |sys.workers| {
        if |sys.sh.sends| == 0 {
          StepWhenClean(cfg, lim, sys, i, ok);
        } else if Marked(cfg, sys, sys.sh.sends[0].at) {
          StepWhenMarked(cfg, lim, sys, i, ok);
        } else {
          var s :| Unmarked(sys, s);
          StepWhenUnmarked(cfg, lim, sys, i, ok, s);
        }
      }
  }

  lemma {:induction false} RunKeepsInv(cfg: Config, lim: Limits, now: int, actions: seq<Action>)
    requires ValidConfig(cfg) && Tight(cfg, lim) && RunWithin(cfg, Init(now), actions, lim)
    ensures Inv(cfg, Run(cfg, Init(now), actions))
  {
    if actions != [] {
      var n := |actions| - 1;
      RunKeepsInv(cfg, lim, now, actions[..n]);
      NextKeepsInv(cfg, lim, Run(cfg, Init(now), actions[..n]), actions[n]);
    }
  }

  // ----------------------------------------------------------------- two sends

  /** `sys` is reached by `actions` from time 0 within the limits. */
  ghost predicate Reaches(cfg: Config, lim: Limits, actions: seq<Action>, sys: System) {
    Run(cfg, Init(0), actions) == sys && RunWithin(cfg, Init(0), actions, lim)
  }

  lemma Extend(cfg: Config, lim: Limits, actions: seq<Action>, sys: System, a: Action) returns (longer: seq<Action>)
    requires Reaches(cfg, lim, actions, sys) && Within(cfg, Next(cfg, sys, a), lim)
    ensures Reaches(cfg, lim, longer, Next(cfg, sys, a))
  {
    longer := actions + [a];
  }

  /** The newest process takes one step. */
  lemma Move(cfg: Config, lim: Limits, before: seq<Action>, sh: Shared, ws: seq<Worker>, w: Worker, later: Shared,
             next: Worker)
    returns (run: seq<Action>)
    requires Reaches(cfg, lim, before, System(sh, ws + [w])) && Advance(cfg, |ws|, w, sh, true) == (next, later)
    requires Within(cfg, System(later, ws + [next]), lim)
    ensures Reaches(cfg, lim, run, System(later, ws + [next]))
  {
    assert (ws + [w])[|ws| := next] == ws + [next];
    run := Extend(cfg, lim, before, System(sh, ws + [w]), Step(|ws|, true));
  }

  /** Nobody else is about to send, and the event may be dated `p`. */
  ghost predicate Quiet(lim: Limits, sh: Shared, ws: seq<Worker>, p: int) {
    && (forall w <- ws :: !w.pc.Ready? && (lim.timely ==> w.pc != Confirmed))
    && p <= sh.now && (forall w <- ws :: w.published <= sh.now)
    && (sh.sends != [] ==>
      p <= sh.sends[0].at + lim.shift && forall w <- ws :: w.published <= sh.sends[0].at + lim.shift)
  }

  lemma QuietLater(lim: Limits, sh: Shared, ws: seq<Worker>, p: int, later: int)
    requires Quiet(lim, sh, ws, p) && later >= sh.now
    ensures Quiet(lim, sh.(now := later), ws, p)
  {
  }

  lemma QuietIsWithin(cfg: Config, lim: Limits, sh: Shared, ws: seq<Worker>, w: Worker)
    requires Quiet(lim, sh, ws, w.published) && w.pc != Confirmed && (w.pc.Ready? ==> w.pc.gap <= lim.gap)
    ensures Within(cfg, System(sh, ws + [w]), lim)
  {
    forall x | x in ws + [w] ensures x in ws || x == w {}
  }

  lemma SendIsWithin(cfg: Config, lim: Limits, sh: Shared, ws: seq<Worker>, p: int)
    requires Quiet(lim, sh, ws, p) && Owns(sh, |ws|)
    ensures Within(cfg, System(sh.(sends := sh.sends + [Send(|ws|, sh.now)]), ws + [Worker(p, Confirmed)]), lim)
  {
    forall x | x in ws + [Worker(p, Confirmed)] ensures x in ws || x == Worker(p, Confirmed) {}
  }

  /** The newest process goes on to `pc` without touching what is shared. */
  lemma GoOn(cfg: Config, lim: Limits, before: seq<Action>, sh: Shared, ws: seq<Worker>, p: int, pc: Pc, next: Pc)
    returns (run: seq<Action>)
    requires Reaches(cfg, lim, before, System(sh, ws + [Worker(p, pc)])) && Quiet(lim, sh, ws, p)
    requires Advance(cfg, |ws|, Worker(p, pc), sh, true) == (Worker(p, next), sh)
    requires next != Confirmed && (next.Ready? ==> next.gap <= lim.gap)
    ensures Reaches(cfg, lim, run, System(sh, ws + [Worker(p, next)]))
  {
    QuietIsWithin(cfg, lim, sh, ws, Worker(p, next));
    run := Move(cfg, lim, before, sh, ws, Worker(p, pc), sh, Worker(p, next));
  }

  lemma Wait(cfg: Config, lim: Limits, before: seq<Action>, sh: Shared, ws: seq<Worker>, w: Worker, elapsed: nat)
    returns (run: seq<Action>)
    requires Reaches(cfg, lim, before, System(sh, ws + [w])) && Quiet(lim, sh, ws, w.published)
    requires w.pc != Confirmed && (w.pc.Ready? ==> w.pc.gap <= lim.gap)
    ensures Reaches(cfg, lim, run, System(sh.(now := sh.now + elapsed), ws + [w]))
  {
    QuietLater(lim, sh, ws, w.published, sh.now + elapsed);
    QuietIsWithin(cfg, lim, sh.(now := sh.now + elapsed), ws, w);
    run := Extend(cfg, lim, before, System(sh, ws + [w]), Tick(elapsed));
  }

  /** A process takes the free lease, and its clock read finds the event fresh. */
  lemma TakeLease(cfg: Config, lim: Limits, before: seq<Action>, sh: Shared, ws: seq<Worker>, p: int)
    returns (run: seq<Action>)
    requires Reaches(cfg, lim, before, System(sh, ws + [Worker(p, Start)])) && Quiet(lim, sh, ws, p)
    requires FreshnessAt(cfg, p, sh.now) == Fresh && !Live(sh.lease, sh.now)
    ensures Reaches(cfg, lim, run, System(sh.(lease := Put(|ws|, sh.now, LEASE_TTL)), ws + [Worker(p, Holding)]))
  {
    var leased := sh.(lease := Put(|ws|, sh.now, LEASE_TTL));
    run := GoOn(cfg, lim, before, sh, ws, p, Start, Cleared);
    QuietIsWithin(cfg, lim, leased, ws, Worker(p, Holding));
    run := Move(cfg, lim, run, sh, ws, Worker(p, Cleared), leased, Worker(p, Holding));
  }

  /** The holder's two reads, `gap` apart in the macro order, let it send. */
  lemma ReadBoth(cfg: Config, lim: Limits, before: seq<Action>, sh: Shared, ws: seq<Worker>, p: int, gap: nat)
    returns (run: seq<Action>)
    requires Reaches(cfg, lim, before, System(sh, ws + [Worker(p, Holding)])) && Quiet(lim, sh, ws, p)
    requires FreshnessAt(cfg, p, sh.now) == Fresh && gap <= lim.gap && (cfg.variant == Geopolitical ==> gap == 0)
    requires !Live(sh.marker, sh.now + gap)
    ensures Reaches(cfg, lim, run, System(sh.(now := sh.now + gap), ws + [Worker(p, Ready(gap))]))
  {
    var read := if cfg.variant == Macro then ClockFresh(sh.now) else MarkerAbsent(sh.now);
    FirstRead(cfg, |ws|, p, sh, gap);
    run := GoOn(cfg, lim, before, sh, ws, p, Holding, read);
    run := Wait(cfg, lim, run, sh, ws, Worker(p, read), gap);
    QuietLater(lim, sh, ws, p, sh.now + gap);
    run := GoOn(cfg, lim, run, sh.(now := sh.now + gap), ws, p, read, Ready(gap));
  }

  /** What the two reads of a holder find. */
  lemma FirstRead(cfg: Config, me: nat, p: int, sh: Shared, gap: nat)
    requires FreshnessAt(cfg, p, sh.now) == Fresh && (cfg.variant == Geopolitical ==> gap == 0)
    requires !Live(sh.marker, sh.now + gap)
    ensures var read := if cfg.variant == Macro then ClockFresh(sh.now) else MarkerAbsent(sh.now);
      var later := sh.(now := sh.now + gap);
      && Advance(cfg, me, Worker(p, Holding), sh, true) == (Worker(p, read), sh)
      && Advance(cfg, me, Worker(p, read), later, true) == (Worker(p, Ready(gap)), later)
  {
  }

  /** What is shared after a confirmed send of process `me` at `at`. */
  function AfterSend(sh: Shared, me: nat, at: int): Shared {
    sh.(now := at, sends := sh.sends + [Send(me, at)])
  }

  lemma SendNow(cfg: Config, lim: Limits, before: seq<Action>, sh: Shared, ws: seq<Worker>, p: int, gap: nat)
    returns (run: seq<Action>)
    requires Reaches(cfg, lim, before, System(sh, ws + [Worker(p, Ready(gap))])) && Quiet(lim, sh, ws, p)
    requires Owns(sh, |ws|)
    ensures Reaches(cfg, lim, run, System(AfterSend(sh, |ws|, sh.now), ws + [Worker(p, Confirmed)]))
  {
    SendIsWithin(cfg, lim, sh, ws, p);
    run := Move(cfg, lim, before, sh, ws, Worker(p, Ready(gap)), AfterSend(sh, |ws|, sh.now), Worker(p, Confirmed));
  }

  lemma SendLater(cfg: Config, lim: Limits, before: seq<Action>, sh: Shared, ws: seq<Worker>, p: int, gap: nat,
                  delay: nat)
    returns (run: seq<Action>)
    requires Reaches(cfg, lim, before, System(sh, ws + [Worker(p, Ready(gap))])) && Quiet(lim, sh, ws, p)
    requires gap <= lim.gap && Owns(sh.(now := sh.now + delay), |ws|)
    ensures Reaches(cfg, lim, run, System(AfterSend(sh, |ws|, sh.now + delay), ws + [Worker(p, Confirmed)]))
  {
    run := Wait(cfg, lim, before, sh, ws, Worker(p, Ready(gap)), delay);
    QuietLater(lim, sh, ws, p, sh.now + delay);
    run := SendNow(cfg, lim, run, sh.(now := sh.now + delay), ws, p, gap);
  }

  /** The holder reads, and sends `delay` later. */
  lemma ReadAndSend(cfg: Config, lim: Limits, before: seq<Action>, sh: Shared, ws: seq<Worker>, p: int, gap: nat,
                    delay: nat)
    returns (run: seq<Action>)
    requires Reaches(cfg, lim, before, System(sh, ws + [Worker(p, Holding)])) && Quiet(lim, sh, ws, p)
    requires FreshnessAt(cfg, p, sh.now) == Fresh && sh.lease == Put(|ws|, sh.now, LEASE_TTL)
    requires gap <= lim.gap && gap + delay < LEASE_TTL && (cfg.variant == Geopolitical ==> gap == 0)
    requires !Live(sh.marker, sh.now + gap)
    ensures Reaches(cfg, lim, run,
                    System(AfterSend(sh, |ws|, sh.now + gap + delay), ws + [Worker(p, Confirmed)]))
  {
    var at := sh.now + gap;
    run := ReadBoth(cfg, lim, before, sh, ws, p, gap);
    QuietLater(lim, sh, ws, p, at);
    run := SendLater(cfg, lim, run, sh.(now := at), ws, p, gap, delay);
  }

  /** The event resolved at 0 and seen again at `now`. */
  function Resolved(cfg: Config, now: int): Shared {
    Shared(now, if cfg.variant == Macro then None else Put(0, 0, RecordTtl(cfg)), None, None, [], [])
  }

  lemma FirstArrival(cfg: Config, lim: Limits, checked: nat) returns (run: seq<Action>)
    requires checked <= Window(cfg)
    ensures Reaches(cfg, lim, run, System(Resolved(cfg, checked), [] + [Worker(0, Start)]))
  {
    var arrived := System(Resolved(cfg, 0), [] + [Worker(0, Start)]);
    assert Next(cfg, Init(0), Resolve(0)) == arrived;
    run := Extend(cfg, lim, [], Init(0), Resolve(0));
    run := Extend(cfg, lim, run, arrived, Tick(checked));
  }

  /** The first delivery: resolved at 0, checked and leased at `checked`, sent `delay` later. */
  lemma FirstSend(cfg: Config, lim: Limits, checked: nat, delay: nat) returns (run: seq<Action>)
    requires checked <= Window(cfg) && delay < LEASE_TTL
    ensures Reaches(cfg, lim, run, AfterFirst(cfg, checked, checked + delay))
  {
    var sh := Resolved(cfg, checked);
    run := FirstArrival(cfg, lim, checked);
    run := TakeLease(cfg, lim, run, sh, [], 0);
    run := ReadAndSend(cfg, lim, run, sh.(lease := Put(0, checked, LEASE_TTL)), [], 0, 0, delay);
    assert AfterSend(sh, 0, checked + delay).sends == [Send(0, checked + delay)];
    assert [] + [Worker(0, Confirmed)] == [Worker(0, Confirmed)];
  }

  function AfterFirst(cfg: Config, checked: int, sent: int): System {
    System(Resolved(cfg, sent).(lease := Put(0, checked, LEASE_TTL), sends := [Send(0, sent)]), [Worker(0, Confirmed)])
  }

  /** A second process with date `p` sends: the lease is free, the marker gone `gap` later, the record not in the way.
      */
  lemma SecondSend(cfg: Config, lim: Limits, before: seq<Action>, sh: Shared, w: Worker, p: int, gap: nat)
    returns (run: seq<Action>)
    requires Reaches(cfg, lim, before, System(sh, [w])) && Quiet(lim, sh, [w], p) && |sh.sends| == 1
    requires FreshnessAt(cfg, p, sh.now) == Fresh && (cfg.variant == Geopolitical ==> Merged(sh.record, p, sh.now) == p)
    requires gap <= lim.gap && gap < LEASE_TTL && (cfg.variant == Geopolitical ==> gap == 0)
    requires !Live(sh.lease, sh.now) && !Live(sh.marker, sh.now + gap)
    ensures RunWithin(cfg, Init(0), run, lim) && |Run(cfg, Init(0), run).sh.sends| == 2
  {
    var known := if cfg.variant == Macro then sh else sh.(record := Put(p, sh.now, RecordTtl(cfg)));
    assert Next(cfg, System(sh, [w]), Resolve(p)) == System(known, [w] + [Worker(p, Start)]);
    run := Extend(cfg, lim, before, System(sh, [w]), Resolve(p));
    run := TakeLease(cfg, lim, run, known, [w], p);
    run := ReadAndSend(cfg, lim, run, known.(lease := Put(1, sh.now, LEASE_TTL)), [w], p, gap, 0);
  }

  /** A send whose marker is not written under its lease is not covered: a second process takes the lease and sends. */
  lemma LateMarkSendsTwice(cfg: Config, lim: Limits) returns (run: seq<Action>)
    requires ValidConfig(cfg) && !lim.timely
    ensures RunWithin(cfg, Init(0), run, lim) && |Run(cfg, Init(0), run).sh.sends| == 2
  {
    run := FirstSend(cfg, lim, 0, 0);
    var sys := AfterFirst(cfg, 0, 0);
    run := Extend(cfg, lim, run, sys, Tick(LEASE_TTL));
    run := SecondSend(cfg, lim, run, sys.sh.(now := LEASE_TTL), Worker(0, Confirmed), 0, 0);
  }

  /** The first delivery with its marker, sent as late as its lease allows. */
  lemma FirstDelivery(cfg: Config, lim: Limits, checked: nat) returns (run: seq<Action>)
    requires checked == Window(cfg)
    ensures Reaches(cfg, lim, run, System(AfterDelivery(cfg, checked + LEASE_TTL - 1), [Worker(0, Done(Delivered))]))
  {
    var sent := checked + LEASE_TTL - 1;
    run := FirstSend(cfg, lim, checked, LEASE_TTL - 1);
    var sh := AfterFirst(cfg, checked, sent).sh;
    assert [] + [Worker(0, Confirmed)] == [Worker(0, Confirmed)];
    assert sh.marks + [0] == [0];
    var marked := AfterDelivery(cfg, sent).(lease := sh.lease);
    run := Move(cfg, lim, run, sh, [], Worker(0, Confirmed), marked, Worker(0, Releasing(Delivered)));
    run := Move(cfg, lim, run, marked, [], Worker(0, Releasing(Delivered)),
                AfterDelivery(cfg, sent), Worker(0, Done(Delivered)));
    assert [] + [Worker(0, Done(Delivered))] == [Worker(0, Done(Delivered))];
  }

  function AfterDelivery(cfg: Config, sent: int): Shared {
    Resolved(cfg, sent).(sends := [Send(0, sent)], marker := Put((), sent, MarkerTtl(cfg)), marks := [0])
  }

  /** An event dated `Reach` after its first send, once that send's marker (and its policy record) has expired, is sent
      again, although every send is made and marked under its lease and the reads are prompt. */
  lemma RedatedEventSendsTwice(cfg: Config, lim: Limits) returns (run: seq<Action>)
    requires ValidConfig(cfg) && lim.shift >= Reach(cfg, lim.gap)
    ensures RunWithin(cfg, Init(0), run, lim) && |Run(cfg, Init(0), run).sh.sends| == 2
  {
    var checked := Window(cfg);
    var sent := checked + LEASE_TTL - 1;
    run := FirstDelivery(cfg, lim, checked);
    var gap := if cfg.variant == Macro then Min(lim.gap, LEASE_TTL - 1) else 0;
    var later := if cfg.variant == Macro then sent + MarkerTtl(cfg) - gap
                 else Max(sent + MarkerTtl(cfg), RecordTtl(cfg));
    var w := Worker(0, Done(Delivered));
    run := Extend(cfg, lim, run, System(AfterDelivery(cfg, sent), [w]), Tick(later - sent));
    run := SecondSend(cfg, lim, run, AfterDelivery(cfg, sent).(now := later), w, later - checked, gap);
  }

  // ----------------------------------------------------------------- the main result

  /** At-most-once delivery, over any run within the limits: timely sends, bounded read gaps and bounded re-dating keep
      an event from being sent twice, even after its delivered marker has expired. */
  lemma AtMostOnce(cfg: Config, lim: Limits, now: int, actions: seq<Action>)
    requires ValidConfig(cfg) && lim.timely && lim.shift < Reach(cfg, lim.gap) &&
      RunWithin(cfg, Init(now), actions, lim)
    ensures |Run(cfg, Init(now), actions).sh.sends| <= 1
  {
    RunKeepsInv(cfg, lim, now, actions);
  }

  /** The least re-dating in microseconds: a window of hours, a marker that lives a second longer than the longer of the
      window and its configured seconds, a record of days, a lease of fifteen minutes. */
  lemma ReachSpelledOut(cfg: Config, gap: nat)
    ensures var window, lease := cfg.maxAgeHours * 3600 * 1_000_000, 15 * 60 * 1_000_000;
      var seconds := if cfg.dedupTtlSeconds >= cfg.maxAgeHours * 3600 then cfg.dedupTtlSeconds
                     else cfg.maxAgeHours * 3600;
      var slack := (seconds + 1) * 1_000_000 - window;
      var late := cfg.aliasTtlDays * 24 * 3600 * 1_000_000 - 2 * window - (lease - 1);
      Reach(cfg, gap) == match cfg.variant
        case Geopolitical => if slack >= late then slack else late
        case Macro => slack - (if gap < lease then gap else lease - 1)
  {
  }

  ghost predicate SendsOnce(cfg: Config, lim: Limits) {
    forall now, actions :: RunWithin(cfg, Init(now), actions, lim) ==> |Run(cfg, Init(now), actions).sh.sends| <= 1
  }

  /** Exactly these limits keep the promise: without timely sends, or with an event re-dated by `Reach` or more, there
      is a run with two sends. */
  lemma AtMostOnceExactly(cfg: Config, lim: Limits)
    requires ValidConfig(cfg)
    ensures SendsOnce(cfg, lim) <==> lim.timely && lim.shift < Reach(cfg, lim.gap)
  {
    if !lim.timely {
      var run := LateMarkSendsTwice(cfg, lim);
    } else if lim.shift >= Reach(cfg, lim.gap) {
      var run := RedatedEventSendsTwice(cfg, lim);
    } else {
      forall now, actions | RunWithin(cfg, Init(now), actions, lim)
        ensures |Run(cfg, Init(now), actions).sh.sends| <= 1
      {
        AtMostOnce(cfg, lim, now, actions);
      }
    }
  }
}
