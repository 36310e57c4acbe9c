/** Pure alert state: deduplication and terminal suppression around sealed alerts (alert_engine/state.py). */
module AlertState {
  import opened Results

  type Name = s: string | s != "" witness "A"

  datatype Pattern = AllBullish | AllBearish | AllNonDirectional | Opposed | PartiallyDirectional | Incomplete

  /** `setup:<assessment_id>` or `symbol:<SYMBOL>`. */
  datatype SubjectKey = SetupSubject(assessmentId: string) | SymbolSubject(symbol: Name)

  /** The alert code together with the part of the sealed body that the code fixes. */
  datatype AlertCode =
    | SetupAvailable(assessmentId: string)
    | SetupInvalidated(assessmentId: string)
    | MarketPatternChanged(current: Pattern)

  /** A validated AlertEvent; `sourceId` is the id of its source in role `current`. */
  datatype Alert = Alert(id: string, code: AlertCode, symbol: Name, sourceId: string, asOf: string)

  datatype SubjectState = SubjectState(
    key: SubjectKey, symbol: Name, terminal: bool, terminalAlertId: Option<string>,
    lastAlertId: string, lastSourceId: string, lastAsOf: string, currentPattern: Option<Pattern>)

  datatype Classification = New | Duplicate | TerminalSuppressed

  datatype Decision = Decision(
    alertId: string, code: AlertCode, key: SubjectKey, classification: Classification, state: Option<SubjectState>)

  datatype InputError = MalformedState | ForeignState

  /** What the cache holds: accepted alert ids and the current state of each subject. */
  datatype Store = Store(seen: set<string>, subjects: map<SubjectKey, SubjectState>)

  const EMPTY := Store({}, map[])

  function KeyOf(alert: Alert): SubjectKey {
    match alert.code
    case SetupAvailable(a) => SetupSubject(a)
    case SetupInvalidated(a) => SetupSubject(a)
    case MarketPatternChanged(_) => SymbolSubject(alert.symbol)
  }

  predicate WellFormed(s: SubjectState) {
    && (s.key.SymbolSubject? ==> s.key.symbol == s.symbol)
    && s.terminalAlertId.Some? == s.terminal
    && (s.terminal ==> s.key.SetupSubject?)
    && (s.currentPattern.Some? ==> s.key.SymbolSubject?)
  }

  /** Every stored state is well formed and filed under its own key. */
  ghost predicate ValidStore(s: Store) {
    forall k <- s.subjects :: s.subjects[k].key == k && WellFormed(s.subjects[k])
  }

  function NextState(alert: Alert, previous: Option<SubjectState>): SubjectState {
    var base := match previous
      case Some(p) => p
      case None => SubjectState(KeyOf(alert), alert.symbol, false, None, "", "", "", None);
    var state := base.(lastAlertId := alert.id, lastSourceId := alert.sourceId, lastAsOf := alert.asOf);
    match alert.code
    case SetupAvailable(_) => state
    case SetupInvalidated(_) => state.(terminal := true, terminalAlertId := Some(alert.id))
    case MarketPatternChanged(p) => state.(currentPattern := Some(p))
  }

  /** The alert is about the subject: a setup alert about the setup of its assessment, a pattern alert about its symbol.
      */
  predicate About(alert: Alert, k: SubjectKey) {
    match k
    case SetupSubject(id) => alert.code == SetupAvailable(id) || alert.code == SetupInvalidated(id)
    case SymbolSubject(s) => alert.code.MarketPatternChanged? && alert.symbol == s
  }

  /** What a subject's state holds after an accepted alert, field by field. */
  predicate Recorded(alert: Alert, previous: Option<SubjectState>, s: SubjectState) {
    && About(alert, s.key)
    && s.symbol == (if previous.Some? then previous.value.symbol else alert.symbol)
    && s.lastAlertId == alert.id && s.lastSourceId == alert.sourceId && s.lastAsOf == alert.asOf
    && s.terminal == alert.code.SetupInvalidated?
    && s.terminalAlertId == (if alert.code.SetupInvalidated? then Some(alert.id) else None)
    && s.currentPattern == (if alert.code.MarketPatternChanged? then Some(alert.code.current) else None)
  }

  function Decide(alert: Alert, previous: Option<SubjectState>, seen: bool): (r: Result<Decision, InputError>)
    ensures r == Err(MalformedState) <==> previous.Some? && !WellFormed(previous.value)
    ensures r == Err(ForeignState) <==>
      previous.Some? && WellFormed(previous.value) && !About(alert, previous.value.key)
    ensures r.Ok? ==>
      r.value.alertId == alert.id && r.value.code == alert.code && About(alert, r.value.key)
      && (r.value.classification == Duplicate <==> seen)
      && (r.value.classification == TerminalSuppressed <==> !seen && previous.Some? && previous.value.terminal)
      && (r.value.classification != New ==> r.value.state == previous)
      && (r.value.classification == New ==> r.value.state.Some? && Recorded(alert, previous, r.value.state.value))
    ensures r.Ok? && r.value.state.Some? ==> r.value.state.value.key == r.value.key && WellFormed(r.value.state.value)
  {
    var key := KeyOf(alert);
    if previous.Some? && !WellFormed(previous.value) then Err(MalformedState)
    else if previous.Some? && previous.value.key != key then Err(ForeignState)
    else if seen then Ok(Decision(alert.id, alert.code, key, Duplicate, previous))
    else if previous.Some? && previous.value.terminal then
      Ok(Decision(alert.id, alert.code, key, TerminalSuppressed, previous))
    else Ok(Decision(alert.id, alert.code, key, New, Some(NextState(alert, previous))))
  }

  /** The decision that a store's content gives for an alert. */
  function DecideIn(alert: Alert, s: Store): Result<Decision, InputError> {
    Decide(alert, Lookup(s.subjects, KeyOf(alert)), alert.id in s.seen)
  }

  predicate IsNew(alert: Alert, s: Store) {
    var d := DecideIn(alert, s);
    d.Ok? && d.value.classification == New
  }

  /** The store after one alert: changed only by a new one. */
  function Accept(alert: Alert, s: Store): Store {
    if IsNew(alert, s)
    then Store(s.seen + {alert.id}, s.subjects[KeyOf(alert) := DecideIn(alert, s).value.state.value])
    else s
  }

  /** The store after a caller-ordered sequence of alerts. */
  function Fold(alerts: seq<Alert>, s: Store): Store {
    if alerts == [] then s else Accept(alerts[|alerts| - 1], Fold(alerts[..|alerts| - 1], s))
  }

  /** `ds` are the decisions of the fold, one per alert, each taken on what the earlier alerts left behind. */
  ghost predicate Decided(alerts: seq<Alert>, s: Store, ds: seq<Decision>) {
    |ds| == |alerts|
    && (alerts != [] ==>
      var n := |alerts| - 1;
      Decided(alerts[..n], s, ds[..n]) && DecideIn(alerts[n], Fold(alerts[..n], s)) == Ok(ds[n]))
  }

  /** None of the first `n` alerts is refused. */
  ghost predicate NoneRefused(alerts: seq<Alert>, n: nat, s: Store)
    requires n <= |alerts|
  {
    forall i :: 0 <= i < n ==> DecideIn(alerts[i], Fold(alerts[..i], s)).Ok?
  }

  /** The fold as the source runs it: one pass that fills the decisions and the two collections, up to the first
      stored state that cannot be used. */
  method Replay(alerts: seq<Alert>, initial: Store)
    returns (r: Result<(seq<Decision>, Store), InputError>, failed: nat)
    ensures r.Ok? ==> failed == |alerts| && r.value.1 == Fold(alerts, initial) && Decided(alerts, initial, r.value.0)
    ensures r.Err? ==> (failed < |alerts| && NoneRefused(alerts, failed, initial)
      && DecideIn(alerts[failed], Fold(alerts[..failed], initial)) == Err(r.error))
  {
    var seen, subjects := initial.seen, initial.subjects;
    var decisions := [];
    for i := 0 to |alerts|
      invariant Store(seen, subjects) == Fold(alerts[..i], initial)
      invariant Decided(alerts[..i], initial, decisions) && NoneRefused(alerts, i, initial)
    {
      var alert := alerts[i];
      var key := KeyOf(alert);
      var decision := Decide(alert, Lookup(subjects, key), alert.id in seen);
      assert DecideIn(alert, Fold(alerts[..i], initial)) == decision;
      if decision.Err? {
        return Err(decision.error), i;
      }
      assert alerts[..i + 1][..i] == alerts[..i];
      assert (decisions + [decision.value])[..i] == decisions;
      decisions := decisions + [decision.value];
      if decision.value.classification == New {
        seen := seen + {alert.id};
        subjects := subjects[key := decision.value.state.value];
      }
    }
    assert alerts[..|alerts|] == alerts;
    return Ok((decisions, Store(seen, subjects))), |alerts|;
  }

  lemma {:induction false} FoldAppend(a: seq<Alert>, b: seq<Alert>, s: Store)
    ensures Fold(a + b, s) == Fold(b, Fold(a, s))
  {
    if b == [] {
      assert a + b == a;
    } else {
      var n := |b| - 1;
      assert (a + b)[..|a + b| - 1] == a + b[..n];
      FoldAppend(a, b[..n], s);
    }
  }

  lemma AcceptValid(alert: Alert, s: Store)
    requires ValidStore(s)
    ensures DecideIn(alert, s).Ok? && ValidStore(Accept(alert, s))
  {
  }

  /** From a well-formed store no alert is ever refused, and the store stays well formed. */
  lemma {:induction false} FoldValid(alerts: seq<Alert>, s: Store)
    requires ValidStore(s)
    ensures ValidStore(Fold(alerts, s))
  {
    if alerts != [] {
      var n := |alerts| - 1;
      FoldValid(alerts[..n], s);
      AcceptValid(alerts[n], Fold(alerts[..n], s));
    }
  }

  /** A terminal subject never changes again, and an accepted id is never forgotten. */
  lemma {:induction false} TerminalIsFinal(alerts: seq<Alert>, s: Store, k: SubjectKey)
    requires k in s.subjects && s.subjects[k].terminal
    ensures s.seen <= Fold(alerts, s).seen
    ensures k in Fold(alerts, s).subjects && Fold(alerts, s).subjects[k] == s.subjects[k]
  {
    if alerts != [] {
      TerminalIsFinal(alerts[..|alerts| - 1], s, k);
    }
  }

  /** The subsequence of alerts that were new when they were folded. */
  function NewOnly(alerts: seq<Alert>, s: Store): seq<Alert> {
    if alerts == [] then []
    else
      var n := |alerts| - 1;
      NewOnly(alerts[..n], s) + (if IsNew(alerts[n], Fold(alerts[..n], s)) then [alerts[n]] else [])
  }

  /** Every alert of the sequence was new when it was folded. */
  ghost predicate AllNew(alerts: seq<Alert>, s: Store) {
    alerts != [] ==>
      var n := |alerts| - 1;
      AllNew(alerts[..n], s) && IsNew(alerts[n], Fold(alerts[..n], s))
  }

  lemma AllNewExtend(log: seq<Alert>, alert: Alert, s: Store)
    requires AllNew(log, s) && IsNew(alert, Fold(log, s))
    ensures AllNew(log + [alert], s)
    ensures Fold(log + [alert], s) == Accept(alert, Fold(log, s))
  {
    assert (log + [alert])[..|log|] == log;
  }

  /** Replaying the whole history equals replaying only the alerts that were new in it, all of which are new again. */
  lemma {:induction false} ReplayOfNewSubsequence(alerts: seq<Alert>, s: Store)
    ensures Fold(NewOnly(alerts, s), s) == Fold(alerts, s)
    ensures AllNew(NewOnly(alerts, s), s)
  {
    if alerts != [] {
      var n := |alerts| - 1;
      ReplayOfNewSubsequence(alerts[..n], s);
      var kept := NewOnly(alerts[..n], s);
      if IsNew(alerts[n], Fold(alerts[..n], s)) {
        AllNewExtend(kept, alerts[n], s);
      } else {
        assert NewOnly(alerts, s) == kept;
      }
    }
  }

  ghost function Ids(alerts: seq<Alert>): set<string> {
    set i | 0 <= i < |alerts| :: alerts[i].id
  }

  ghost predicate DistinctIds(alerts: seq<Alert>) {
    forall i, j :: 0 <= i < j < |alerts| ==> alerts[i].id != alerts[j].id
  }

  lemma IdsExtend(log: seq<Alert>)
    requires log != []
    ensures var n := |log| - 1; Ids(log) == Ids(log[..n]) + {log[n].id}
  {
    var n := |log| - 1;
    forall id | id in Ids(log) ensures id in Ids(log[..n]) + {log[n].id} {
      var i :| 0 <= i < |log| && log[i].id == id;
      if i < n { assert log[..n][i].id == id; }
    }
    forall id | id in Ids(log[..n]) ensures id in Ids(log) {
      var i :| 0 <= i < n && log[..n][i].id == id;
      assert log[i].id == id;
    }
  }

  lemma NewIsUnseen(alert: Alert, s: Store)
    requires IsNew(alert, s)
    ensures alert.id !in s.seen && Accept(alert, s).seen == s.seen + {alert.id}
  {
  }

  lemma DistinctExtend(log: seq<Alert>)
    requires log != [] && DistinctIds(log[..|log| - 1]) && log[|log| - 1].id !in Ids(log[..|log| - 1])
    ensures DistinctIds(log)
  {
    var h := log[..|log| - 1];
    forall i, j | 0 <= i < j < |log| ensures log[i].id != log[j].id {
      assert h[i].id in Ids(h);
      assert j < |h| ==> h[i].id != h[j].id;
    }
  }

  /** In a sequence where every alert was new, ids never repeat, none was seen before, and the seen set grows by
      exactly these ids. */
  lemma {:induction false} AllNewDistinct(log: seq<Alert>, s: Store)
    requires AllNew(log, s)
    ensures DistinctIds(log) && Ids(log) !! s.seen && Fold(log, s).seen == s.seen + Ids(log)
  {
    if log != [] {
      var n := |log| - 1;
      AllNewDistinct(log[..n], s);
      IdsExtend(log);
      NewIsUnseen(log[n], Fold(log[..n], s));
      DistinctExtend(log);
    }
  }

  // ----------------------------------------------------------------- the closed form

  /** Content addressing: an id names one alert. */
  ghost predicate Sealed(alerts: seq<Alert>) {
    forall i, j :: 0 <= i < |alerts| && 0 <= j < |alerts| && alerts[i].id == alerts[j].id ==> alerts[i] == alerts[j]
  }

  /** No earlier alert has the same id, and none invalidated the same setup. */
  ghost predicate Unopposed(alerts: seq<Alert>, i: nat)
    requires i < |alerts|
  {
    forall j :: 0 <= j < i ==> alerts[j].id != alerts[i].id && !Closes(alerts[j], alerts[i])
  }

  /** The earlier alert invalidated the setup that the later one is about. */
  predicate Closes(earlier: Alert, later: Alert) {
    earlier.code.SetupInvalidated?
    && later.code in {SetupAvailable(earlier.code.assessmentId), SetupInvalidated(earlier.code.assessmentId)}
  }

  predicate Invalidates(alert: Alert, k: SubjectKey) {
    k.SetupSubject? && alert.code == SetupInvalidated(k.assessmentId)
  }

  ghost predicate HasInvalidation(alerts: seq<Alert>, k: SubjectKey) {
    exists j :: 0 <= j < |alerts| && Invalidates(alerts[j], k)
  }

  ghost predicate Occurs(alerts: seq<Alert>, id: string) {
    exists j :: 0 <= j < |alerts| && alerts[j].id == id
  }

  ghost predicate TerminalIn(s: Store, k: SubjectKey) {
    k in s.subjects && s.subjects[k].terminal
  }

  /** What one alert does to the terminal subjects and the seen ids of a well-formed store. */
  lemma AcceptEffect(a: Alert, s: Store, k: SubjectKey)
    requires ValidStore(s)
    ensures var t := Accept(a, s);
      && (TerminalIn(t, k) <==> TerminalIn(s, k) || (Invalidates(a, k) && a.id !in s.seen))
      && t.seen == (if a.id in s.seen || TerminalIn(s, KeyOf(a)) then s.seen else s.seen + {a.id})
  {
    AcceptValid(a, s);
  }

  /** A subject is terminal exactly when the history holds an invalidation of it. */
  lemma {:induction false} TerminalExactlyWhenInvalidated(alerts: seq<Alert>, k: SubjectKey)
    requires Sealed(alerts)
    ensures TerminalIn(Fold(alerts, EMPTY), k) <==> HasInvalidation(alerts, k)
    decreases alerts
  {
    if alerts != [] {
      var n := |alerts| - 1;
      var h, a := alerts[..n], alerts[n];
      var s := Fold(h, EMPTY);
      TerminalExactlyWhenInvalidated(h, k);
      FoldValid(h, EMPTY);
      AcceptEffect(a, s, k);
      if Invalidates(a, k) && a.id in s.seen {
        SeenOccurs(h, a.id);
        var j :| 0 <= j < n && h[j].id == a.id;
        assert alerts[j] == alerts[n];
        assert Invalidates(h[j], k);
        assert HasInvalidation(h, k);
      }
    }
  }

  lemma {:induction false} SeenOccurs(alerts: seq<Alert>, id: string)
    requires id in Fold(alerts, EMPTY).seen
    ensures Occurs(alerts, id)
  {
    if alerts != [] {
      if id != alerts[|alerts| - 1].id { SeenOccurs(alerts[..|alerts| - 1], id); }
    }
  }

  lemma InvalidationExtends(h: seq<Alert>, a: Alert, k: SubjectKey)
    requires HasInvalidation(h, k)
    ensures HasInvalidation(h + [a], k)
  {
    var j :| 0 <= j < |h| && Invalidates(h[j], k);
    assert (h + [a])[j] == h[j];
  }

  /** An id that occurs was accepted, unless its subject was terminal. */
  lemma {:induction false} OccursSeen(alerts: seq<Alert>, j: nat)
    requires Sealed(alerts) && j < |alerts|
    ensures alerts[j].id in Fold(alerts, EMPTY).seen || HasInvalidation(alerts, KeyOf(alerts[j]))
  {
    var n := |alerts| - 1;
    var h, a, k := alerts[..n], alerts[n], KeyOf(alerts[j]);
    assert h + [a] == alerts;
    FoldValid(h, EMPTY);
    AcceptEffect(a, Fold(h, EMPTY), k);
    if j < n {
      OccursSeen(h, j);
    } else {
      TerminalExactlyWhenInvalidated(h, k);
    }
    if HasInvalidation(h, k) { InvalidationExtends(h, a, k); }
  }

  /** Which alerts of a sealed history are new, without following the fold: exactly the unopposed ones. */
  lemma NewExactlyWhenUnopposed(alerts: seq<Alert>, i: nat)
    requires Sealed(alerts) && i < |alerts|
    ensures IsNew(alerts[i], Fold(alerts[..i], EMPTY)) <==> Unopposed(alerts, i)
  {
    var h, a := alerts[..i], alerts[i];
    var k := KeyOf(a);
    FoldValid(h, EMPTY);
    AcceptValid(a, Fold(h, EMPTY));
    TerminalExactlyWhenInvalidated(h, k);
    assert forall j :: 0 <= j < i ==> h[j] == alerts[j];
    if a.id in Fold(h, EMPTY).seen {
      SeenOccurs(h, a.id);
    }
    if exists j :: 0 <= j < i && alerts[j].id == a.id {
      var j :| 0 <= j < i && alerts[j].id == a.id;
      OccursSeen(h, j);
    }
  }
}
