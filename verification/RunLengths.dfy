/** What the circular run lengths are: how many runs of each length there are, by definition
    (evaluation/nulls.py:59-78). */
module RunLengths {
  import opened Results
  import opened CircularRuns
  import S = Sorting

  // ----------------------------------------------------------------- runs by definition

  /** The element at a position up to twice around. */
  function Around<T>(s: seq<T>, i: nat): T
    requires i < 2 * |s|
  {
    if i < |s| then s[i] else s[i - |s|]
  }

  /** From `i` on exactly `length` equal elements, read around the circle: the one before and the one after differ. */
  ghost predicate IsRun<T>(s: seq<T>, i: nat, length: nat) {
    && i < |s| && 1 <= length <= |s|
    && Around(s, i + |s| - 1) != s[i] && Around(s, i + length) != s[i]
    && forall k :: i <= k < i + length ==> Around(s, k) == s[i]
  }

  ghost function RunsOf<T>(s: seq<T>, length: nat): set<nat> {
    set i: nat | i < |s| && IsRun(s, i, length)
  }

  // ----------------------------------------------------------------- read from first to last

  /** A maximal stretch of equal elements, the ends of the list counting as changes. */
  ghost predicate IsStretch<T>(xs: seq<T>, i: nat, length: nat) {
    && 1 <= length && i + length <= |xs|
    && (i == 0 || xs[i - 1] != xs[i]) && (i + length == |xs| || xs[i + length] != xs[i])
    && forall k :: i <= k < i + length ==> xs[k] == xs[i]
  }

  ghost function Stretches<T>(xs: seq<T>, length: nat): set<nat> {
    set i: nat | i < |xs| && IsStretch(xs, i, length)
  }

  /** The last run length is that of the stretch at the end. */
  lemma {:induction false} LastStretch<T>(xs: seq<T>)
    requires xs != []
    ensures Runs(xs) != []
    ensures var l := Runs(xs)[|Runs(xs)| - 1]; 1 <= l <= |xs| && IsStretch(xs, |xs| - l, l)
  {
    var n := |xs| - 1;
    var h := xs[..n];
    assert xs == h + [xs[n]];
    RunsOneMore(h, xs[n]);
    if n > 0 { LastStretch(h); }
  }

  /** A stretch that does not reach the end is not touched by one more element. */
  lemma StretchBefore<T>(h: seq<T>, x: T, i: nat, length: nat)
    requires i + length < |h|
    ensures IsStretch(h + [x], i, length) <==> IsStretch(h, i, length)
  {
    var xs := h + [x];
    assert forall k :: 0 <= k < |h| ==> xs[k] == h[k];
  }

  /** Within a stretch neighbours are equal. */
  lemma Inside<T>(xs: seq<T>, i: nat, length: nat, k: nat)
    requires IsStretch(xs, i, length)
    ensures i < k < i + length ==> xs[k - 1] == xs[k]
  {
  }

  /** Two stretches that end together are one. */
  lemma SameEnd<T>(xs: seq<T>, i: nat, a: nat, j: nat, b: nat)
    requires IsStretch(xs, i, a) && IsStretch(xs, j, b) && i + a == j + b
    ensures i == j && a == b
  {
    Inside(xs, i, a, j);
    Inside(xs, j, b, i);
  }

  /** One more, different element: a stretch of its own, and the others stay. */
  lemma NewStretch<T>(h: seq<T>, x: T, length: nat)
    requires length >= 1 && (h == [] || h[|h| - 1] != x)
    ensures Stretches(h + [x], length) == Stretches(h, length) + if length == 1 then {|h|} else {}
  {
    var xs := h + [x];
    assert forall k :: 0 <= k < |h| ==> xs[k] == h[k];
    forall i: nat | i < |xs|
      ensures IsStretch(xs, i, length) <==> (i < |h| && IsStretch(h, i, length)) || (i == |h| && length == 1)
    {
      if i + length < |h| {
        StretchBefore(h, x, i, length);
      } else if i + length == |h| {
        assert i < |h| && xs[i] == h[i] && xs[|h| - 1] == h[|h| - 1];
      } else if i + length == |xs| && i < |h| {
        assert xs[|h| - 1] != xs[|h|] && i <= |h| - 1;
      }
    }
  }

  /** One more, equal element: the last stretch, of length `l`, grows. */
  lemma GrownStretch<T>(h: seq<T>, x: T, l: nat, length: nat)
    requires length >= 1 && h != [] && h[|h| - 1] == x && 1 <= l <= |h| && IsStretch(h, |h| - l, l)
    ensures var p := |h| - l;
      Stretches(h + [x], length) == Stretches(h, length) - {p} + (if length == l + 1 then {p} else {})
    ensures |h| - l in Stretches(h, length) <==> length == l
  {
    var xs, p := h + [x], |h| - l;
    assert forall k :: 0 <= k < |h| ==> xs[k] == h[k];
    forall i: nat | i < |xs|
      ensures IsStretch(xs, i, length) <==>
        (i < |h| && i != p && IsStretch(h, i, length)) || (i == p && length == l + 1)
    {
      GrownAt(h, x, l, length, i);
    }
    assert p + length < |h| ==> h[p + length] == h[p];
  }

  lemma GrownAt<T>(h: seq<T>, x: T, l: nat, length: nat, i: nat)
    requires length >= 1 && h != [] && h[|h| - 1] == x && 1 <= l <= |h| && IsStretch(h, |h| - l, l) && i <= |h|
    ensures IsStretch(h + [x], i, length) <==>
      (i < |h| && i != |h| - l && IsStretch(h, i, length)) || (i == |h| - l && length == l + 1)
  {
    var xs, p := h + [x], |h| - l;
    assert forall k :: 0 <= k < |h| ==> xs[k] == h[k];
    assert IsStretch(xs, p, l + 1) && xs[|h|] == x && xs[|h| - 1] == x;
    if i + length < |h| {
      StretchBefore(h, x, i, length);
      assert i == p ==> h[p + length] == h[p];
    } else if i + length == |h| {
      if IsStretch(h, i, length) { SameEnd(h, i, length, p, l); }
    } else if i + length == |xs| {
      if IsStretch(xs, i, length) { SameEnd(xs, i, length, p, l + 1); }
    }
  }

  /** How often a length occurs in a list. */
  function Times(runs: seq<int>, length: int): nat {
    if runs == [] then 0
    else Times(runs[..|runs| - 1], length) + if runs[|runs| - 1] == length then 1 else 0
  }

  lemma TimesSnoc(runs: seq<int>, l: int, length: int)
    ensures Times(runs + [l], length) == Times(runs, length) + if l == length then 1 else 0
  {
    assert (runs + [l])[..|runs|] == runs;
  }

  lemma {:induction false} TimesMeaning(runs: seq<int>, length: int)
    ensures Times(runs, length) == multiset(runs)[length]
  {
    if runs != [] {
      TimesMeaning(runs[..|runs| - 1], length);
      assert runs == runs[..|runs| - 1] + [runs[|runs| - 1]];
    }
  }

  lemma MovedElement(a: set<nat>, b: set<nat>, p: nat, kept: bool)
    requires b == a - {p} + (if kept then {p} else {})
    ensures |b| == |a| - (if p in a then 1 else 0) + (if kept then 1 else 0)
  {
    if p in a { assert a == (a - {p}) + {p}; }
    assert |a - {p}| == |a| - if p in a then 1 else 0;
  }

  lemma StretchesMove<T>(h: seq<T>, x: T, l: nat, length: nat)
    requires length >= 1 && h != [] && h[|h| - 1] == x && 1 <= l <= |h| && IsStretch(h, |h| - l, l)
    ensures |Stretches(h + [x], length)| ==
      |Stretches(h, length)| - (if length == l then 1 else 0) + (if length == l + 1 then 1 else 0)
  {
    GrownStretch(h, x, l, length);
    MovedElement(Stretches(h, length), Stretches(h + [x], length), |h| - l, length == l + 1);
  }

  lemma StretchesGrow<T>(h: seq<T>, x: T, length: nat)
    requires length >= 1 && (h == [] || h[|h| - 1] != x)
    ensures |Stretches(h + [x], length)| == |Stretches(h, length)| + if length == 1 then 1 else 0
  {
    NewStretch(h, x, length);
    assert |h| !in Stretches(h, length);
  }

  lemma OneMoreRun<T>(h: seq<T>, x: T, length: nat)
    requires length >= 1 && Times(Runs(h), length) == |Stretches(h, length)|
    ensures Times(Runs(h + [x]), length) == |Stretches(h + [x], length)|
  {
    var runs := Runs(h);
    RunsOneMore(h, x);
    RunsAreNonempty(h);
    if h != [] && h[|h| - 1] == x {
      var m := |runs| - 1;
      LastStretch(h);
      TimesSnoc(runs[..m], runs[m] + 1, length);
      StretchesMove(h, x, runs[m], length);
    } else {
      TimesSnoc(runs, 1, length);
      StretchesGrow(h, x, length);
    }
  }

  /** Each length occurs among the run lengths as often as there are stretches of it. */
  lemma {:induction false} RunsCountStretches<T>(xs: seq<T>, length: nat)
    requires length >= 1
    ensures Times(Runs(xs), length) == |Stretches(xs, length)|
  {
    if xs == [] {
      assert Stretches(xs, length) == {};
    } else {
      RunsCountStretches(xs[..|xs| - 1], length);
      OneMoreRun(xs[..|xs| - 1], xs[|xs| - 1], length);
      assert xs == xs[..|xs| - 1] + [xs[|xs| - 1]];
    }
  }

  // ----------------------------------------------------------------- around the circle

  /** A list whose ends differ has the same runs around the circle as from first to last. */
  lemma RunsAreStretches<T>(r: seq<T>, length: nat)
    requires r != [] && r[0] != r[|r| - 1] && length >= 1
    ensures RunsOf(r, length) == Stretches(r, length)
  {
    var n := |r|;
    assert Around(r, n) == r[0] && Around(r, n - 1) == r[n - 1];
    forall i: nat | i < n ensures IsRun(r, i, length) <==> IsStretch(r, i, length) {
      if IsRun(r, i, length) && i + length <= n {
        forall k | i <= k < i + length ensures r[k] == r[i] { assert Around(r, k) == r[i]; }
      }
      if IsStretch(r, i, length) {
        forall k | i <= k < i + length ensures Around(r, k) == r[i] { assert r[k] == r[i]; }
      }
    }
  }

  /** A position of the rotation is one of the sequence, once around less if need be. */
  lemma RotatedAround<T>(s: seq<T>, p: nat, k: nat)
    requires p < |s| && k < 2 * |s|
    ensures p + k < 2 * |s| ==> Around(Rotated(s, p), k) == Around(s, p + k)
    ensures p + k >= |s| ==> Around(Rotated(s, p), k) == Around(s, p + k - |s|)
  {
  }

  lemma RotatedRun<T>(s: seq<T>, p: nat, i: nat, length: nat)
    requires p < |s| && i < |s|
    ensures IsRun(Rotated(s, p), i, length) <==> IsRun(s, Wrapped(p + i, |s|), length)
  {
    var n := |s|;
    var r, j := Rotated(s, p), Wrapped(p + i, n);
    RotatedAround(s, p, i);
    RotatedAround(s, p, i + n - 1);
    if 1 <= length <= n {
      RotatedAround(s, p, i + length);
      forall k | i <= k < i + length ensures Around(r, k) == Around(s, j + (k - i)) { RotatedAround(s, p, k); }
      forall k | j <= k < j + length ensures Around(s, k) == Around(r, i + (k - j)) {
        RotatedAround(s, p, i + (k - j));
      }
    }
  }

  ghost function RunsFrom<T>(s: seq<T>, length: nat, low: nat, high: nat): set<nat> {
    set i: nat | low <= i < high && IsRun(s, i, length)
  }

  lemma SplitRuns<T>(s: seq<T>, length: nat, p: nat)
    requires p <= |s|
    ensures |RunsOf(s, length)| == |RunsFrom(s, length, 0, p)| + |RunsFrom(s, length, p, |s|)|
  {
    assert RunsOf(s, length) == RunsFrom(s, length, 0, p) + RunsFrom(s, length, p, |s|);
    assert RunsFrom(s, length, 0, p) !! RunsFrom(s, length, p, |s|);
  }

  /** The runs from `p` on are the first ones of the rotation. */
  lemma LaterRuns<T>(s: seq<T>, p: nat, length: nat)
    requires p < |s|
    ensures Moved(RunsFrom(Rotated(s, p), length, 0, |s| - p), RunsFrom(s, length, p, |s|), p)
  {
    forall i: nat | i < |s| - p ensures IsRun(Rotated(s, p), i, length) <==> IsRun(s, i + p, length) {
      RotatedRun(s, p, i, length);
    }
  }

  /** And those before `p` its last ones. */
  lemma EarlierRuns<T>(s: seq<T>, p: nat, length: nat)
    requires p < |s|
    ensures Moved(RunsFrom(s, length, 0, p), RunsFrom(Rotated(s, p), length, |s| - p, |s|), |s| - p)
  {
    forall i: nat | i < p ensures IsRun(Rotated(s, p), i + (|s| - p), length) <==> IsRun(s, i, length) {
      RotatedRun(s, p, i + (|s| - p), length);
    }
  }

  /** A rotation has as many runs of each length. */
  lemma RunsMove<T>(s: seq<T>, p: nat, length: nat)
    requires p < |s|
    ensures |RunsOf(Rotated(s, p), length)| == |RunsOf(s, length)|
  {
    var n, r := |s|, Rotated(s, p);
    SplitRuns(s, length, p);
    SplitRuns(r, length, n - p);
    LaterRuns(s, p, length);
    EarlierRuns(s, p, length);
    MovedUp(RunsFrom(r, length, 0, n - p), RunsFrom(s, length, p, n), p);
    MovedUp(RunsFrom(s, length, 0, p), RunsFrom(r, length, n - p, n), n - p);
  }

  /** The circular run lengths, by definition: sorted, each length as often as the circle has runs of it; and for a
      sequence that never changes the whole length alone. */
  lemma LengthsSay<T>(s: seq<T>, length: nat)
    requires s != [] && length >= 1
    ensures S.Sorted(CircularLengths(s), AtMost)
    ensures (exists i :: 0 <= i < |s| && s[i] != s[0]) ==>
      multiset(CircularLengths(s))[length] == |RunsOf(s, length)|
    ensures (forall i :: 0 <= i < |s| ==> s[i] == s[0]) ==> CircularLengths(s) == [|s|]
  {
    FirstStartFacts(s, 0);
    if FirstStart(s, 0).None? {
      AllEqual(s, |s|);
    } else {
      var p := FirstStart(s, 0).value;
      var r := Rotated(s, p);
      S.SortPermutes(Runs(r), AtMost);
      S.SortSorted(Runs(r), AtMost);
      RotatedStarts(s, p, 0);
      RunsCountStretches(r, length);
      TimesMeaning(Runs(r), length);
      RunsAreStretches(r, length);
      RunsMove(s, p, length);
    }
  }

  lemma {:induction false} AllEqual<T>(s: seq<T>, n: nat)
    requires n <= |s| && forall k: nat :: k < |s| ==> !StartsAt(s, k)
    ensures forall i :: 0 <= i < n ==> s[i] == s[0]
  {
    if n > 1 {
      AllEqual(s, n - 1);
      assert !StartsAt(s, n - 1);
    }
  }
}
