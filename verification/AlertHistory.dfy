/** What a sealed history of alerts leaves stored, read off the history itself (alert_engine/state.py). */
module AlertHistory {
  import opened Results
  import opened AlertState

  /** The i-th alert of the history is about the subject and was accepted. */
  ghost predicate Counts(alerts: seq<Alert>, k: SubjectKey, i: int) {
    0 <= i < |alerts| && About(alerts[i], k) && Unopposed(alerts, i)
  }

  ghost predicate IsFirst(alerts: seq<Alert>, k: SubjectKey, i: int) {
    Counts(alerts, k, i) && forall j :: Counts(alerts, k, j) ==> i <= j
  }

  ghost predicate IsLast(alerts: seq<Alert>, k: SubjectKey, i: int) {
    Counts(alerts, k, i) && forall j :: Counts(alerts, k, j) ==> j <= i
  }

  /** `last` is the pattern of a pattern alert, and no pattern for any other. */
  predicate HoldsPattern(last: Alert, pattern: Option<Pattern>) {
    if last.code.MarketPatternChanged? then pattern == Some(last.code.current) else pattern == None
  }

  /** A stored subject tells its first accepted alert's symbol, its last accepted alert with that alert's pattern, and
      the id of its accepted invalidation. */
  ghost predicate Tells(alerts: seq<Alert>, k: SubjectKey, s: SubjectState) {
    && s.key == k
    && (exists i :: IsFirst(alerts, k, i) && s.symbol == alerts[i].symbol)
    && (exists i :: IsLast(alerts, k, i) && s.lastAlertId == alerts[i].id && s.lastSourceId == alerts[i].sourceId
                    && s.lastAsOf == alerts[i].asOf && HoldsPattern(alerts[i], s.currentPattern))
    && TellsEnd(alerts, k, s)
  }

  ghost predicate TellsEnd(alerts: seq<Alert>, k: SubjectKey, s: SubjectState) {
    && (s.terminal <==> exists i :: Counts(alerts, k, i) && alerts[i].code.SetupInvalidated?)
    && (s.terminalAlertId.Some? <==> s.terminal)
    && forall i :: Counts(alerts, k, i) && alerts[i].code.SetupInvalidated? ==> s.terminalAlertId == Some(alerts[i].id)
  }

  lemma AboutItsKey(a: Alert, k: SubjectKey)
    ensures About(a, k) <==> KeyOf(a) == k
  {
  }

  /** A further alert leaves it open which earlier ones count. */
  lemma CountsExtends(h: seq<Alert>, a: Alert, k: SubjectKey)
    ensures forall i :: i < |h| ==> (Counts(h + [a], k, i) <==> Counts(h, k, i))
  {
    var longer := h + [a];
    forall i | 0 <= i < |h| ensures Unopposed(longer, i) <==> Unopposed(h, i) {
      assert forall j :: 0 <= j <= i ==> longer[j] == h[j];
    }
  }

  /** One alert: the subject keeps its state unless the alert is accepted and about it. */
  lemma AcceptAt(h: seq<Alert>, a: Alert, k: SubjectKey)
    requires Sealed(h + [a])
    ensures var was, now := Lookup(Fold(h, EMPTY).subjects, k), Lookup(Fold(h + [a], EMPTY).subjects, k);
      if Counts(h + [a], k, |h|) then
        now.Some? && Recorded(a, was, now.value) && now.value.key == k && (was.Some? ==> !was.value.terminal)
      else now == was
  {
    var s := Fold(h, EMPTY);
    assert (h + [a])[..|h|] == h;
    FoldValid(h, EMPTY);
    AcceptValid(a, s);
    NewExactlyWhenUnopposed(h + [a], |h|);
    AboutItsKey(a, k);
  }

  /** Whatever the history, a subject is stored exactly if one of its alerts was accepted, and then it tells them. */
  lemma {:induction false} StoredExactly(alerts: seq<Alert>, k: SubjectKey)
    requires Sealed(alerts)
    ensures var stored := Fold(alerts, EMPTY).subjects;
      && (k in stored <==> exists i :: Counts(alerts, k, i))
      && (k in stored ==> Tells(alerts, k, stored[k]))
    decreases alerts
  {
    if alerts != [] {
      var n := |alerts| - 1;
      var h, a := alerts[..n], alerts[n];
      assert alerts == h + [a];
      StoredExactly(h, k);
      AcceptAt(h, a, k);
      CountsExtends(h, a, k);
      var was := Lookup(Fold(h, EMPTY).subjects, k);
      if Counts(alerts, k, n) {
        AcceptedTells(h, a, k, was, Fold(alerts, EMPTY).subjects[k]);
      } else if was.Some? {
        SkippedTells(h, a, k, was.value);
      }
    }
  }

  lemma SkippedTells(h: seq<Alert>, a: Alert, k: SubjectKey, s: SubjectState)
    requires Tells(h, k, s) && !Counts(h + [a], k, |h|)
    ensures Tells(h + [a], k, s) && exists i :: Counts(h + [a], k, i)
  {
    CountsExtends(h, a, k);
    var i :| IsFirst(h, k, i) && s.symbol == h[i].symbol;
    assert IsFirst(h + [a], k, i);
    var j :| IsLast(h, k, j) && s.lastAlertId == h[j].id && s.lastSourceId == h[j].sourceId
             && s.lastAsOf == h[j].asOf && HoldsPattern(h[j], s.currentPattern);
    assert IsLast(h + [a], k, j);
    if s.terminal {
      var e :| Counts(h, k, e) && h[e].code.SetupInvalidated?;
      assert Counts(h + [a], k, e);
    }
  }

  lemma AcceptedTells(h: seq<Alert>, a: Alert, k: SubjectKey, was: Option<SubjectState>, s: SubjectState)
    requires Counts(h + [a], k, |h|) && Recorded(a, was, s) && s.key == k
    requires if was.Some? then Tells(h, k, was.value) && !was.value.terminal else !exists i :: Counts(h, k, i)
    ensures Tells(h + [a], k, s)
  {
    CountsExtends(h, a, k);
    assert IsLast(h + [a], k, |h|);
    if was.Some? {
      var i :| IsFirst(h, k, i) && was.value.symbol == h[i].symbol;
      assert IsFirst(h + [a], k, i);
    } else {
      assert IsFirst(h + [a], k, |h|);
    }
    forall i | Counts(h + [a], k, i) && (h + [a])[i].code.SetupInvalidated? ensures i == |h| {
      if i < |h| { assert false; }
    }
  }
}
