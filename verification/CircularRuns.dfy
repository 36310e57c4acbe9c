/** Circular run structure (evaluation/nulls.py:59-78): the invariant that the circular-shift null relies on. */
module CircularRuns {
  import opened Results
  import N = Arithmetic
  import S = Sorting

  /** `states[i - 1]`, where index -1 is the last one. */
  function Before<T>(s: seq<T>, i: nat): T
    requires i < |s|
  {
    s[if i == 0 then |s| - 1 else i - 1]
  }

  /** A run starts at `i`, reading circularly. */
  predicate StartsAt<T(==)>(s: seq<T>, i: nat)
    requires i < |s|
  {
    s[i] != Before(s, i)
  }

  /** `shifted`: the sequence rotated by any offset. */
  function Shifted<T>(s: seq<T>, k: int): seq<T> {
    seq(|s|, t requires 0 <= t < |s| => s[(t - k) % |s|])
  }

  /** The sequence read from position `p` around to it again. */
  function Rotated<T>(s: seq<T>, p: nat): seq<T>
    requires p <= |s|
  {
    s[p..] + s[..p]
  }

  /** One more element: it prolongs the last run or starts a new one. */
  function Append(runs: seq<int>, same: bool): seq<int> {
    if same && runs != [] then runs[..|runs| - 1] + [runs[|runs| - 1] + 1] else runs + [1]
  }

  /** Run lengths of a sequence read from its first to its last element. */
  function Runs<T(==)>(xs: seq<T>): seq<int> {
    if xs == [] then [] else Append(Runs(xs[..|xs| - 1]), |xs| > 1 && xs[|xs| - 1] == xs[|xs| - 2])
  }

  function FirstStart<T(==)>(s: seq<T>, i: nat): Option<nat>
    requires i <= |s|
    decreases |s| - i
  {
    if i == |s| then None else if StartsAt(s, i) then Some(i) else FirstStart(s, i + 1)
  }

  predicate AtMost(x: int, y: int) {
    x <= y
  }

  function CircularLengths<T(==)>(s: seq<T>): seq<int> {
    match FirstStart(s, 0)
    case None => [|s|]
    case Some(start) => FirstStartFacts(s, 0); S.Sort(Runs(Rotated(s, start)), AtMost)
  }

  lemma {:induction false} FirstStartFacts<T>(s: seq<T>, i: nat)
    requires i <= |s|
    ensures FirstStart(s, i).Some? ==> i <= FirstStart(s, i).value < |s| && StartsAt(s, FirstStart(s, i).value)
    ensures FirstStart(s, i).None? ==> forall k: nat :: i <= k < |s| ==> !StartsAt(s, k)
    decreases |s| - i
  {
    if i < |s| && !StartsAt(s, i) { FirstStartFacts(s, i + 1); }
  }

  // ----------------------------------------------------------------- the loop

  lemma {:induction false} RunsAreNonempty<T>(xs: seq<T>)
    ensures xs != [] ==> Runs(xs) != []
  {
  }

  lemma RunsOneMore<T>(xs: seq<T>, x: T)
    ensures Runs(xs + [x]) == Append(Runs(xs), xs != [] && x == xs[|xs| - 1])
  {
    var ys := xs + [x];
    assert ys[..|xs|] == xs && ys[|xs|] == x;
    if xs != [] { assert ys[|xs| - 1] == xs[|xs| - 1]; }
  }

  lemma RotatedAt<T>(s: seq<T>, start: nat, step: nat)
    requires start < |s| && step < |s|
    ensures var i := if start + step < |s| then start + step else start + step - |s|;
      Rotated(s, start)[step] == s[i] && (step > 0 ==> Rotated(s, start)[step - 1] == Before(s, i))
  {
  }

  lemma AppendLast(runs: seq<int>, length: int)
    ensures Append(runs + [length], true) == runs + [length + 1]
  {
  }

  /** One round of the loop over the part read so far. */
  lemma OneRound<T>(s: seq<T>, start: nat, step: nat, runs: seq<int>, length: int)
    requires start < |s| && step < |s|
    requires if step == 0 then runs == [] && length == 0 else Runs(Rotated(s, start)[..step]) == runs + [length]
    ensures var i := if start + step < |s| then start + step else start + step - |s|;
      Runs(Rotated(s, start)[..step + 1]) ==
      if step > 0 && StartsAt(s, i) then runs + [length] + [1] else runs + [length + 1]
  {
    var r := Rotated(s, start);
    RotatedAt(s, start, step);
    RunsOneMore(r[..step], r[step]);
    assert r[..step + 1] == r[..step] + [r[step]];
    assert step > 0 ==> r[..step][step - 1] == r[step - 1];
    AppendLast(runs, length);
    assert Runs(r[..0]) == [];
  }

  method FindStart<T(==)>(s: seq<T>) returns (start: Option<nat>)
    ensures start == FirstStart(s, 0)
  {
    for i := 0 to |s|
      invariant FirstStart(s, i) == FirstStart(s, 0)
    {
      if StartsAt(s, i) {
        return Some(i);
      }
    }
    return None;
  }

  /** `circular_runs`. */
  method CircularRunLengths<T(==)>(s: seq<T>) returns (r: seq<int>)
    ensures r == CircularLengths(s)
  {
    var n := |s|;
    var start := FindStart(s);
    if start.None? {
      return [n];
    }
    FirstStartFacts(s, 0);
    var runs, length := [], 0;
    for step := 0 to n
      invariant step == 0 ==> runs == [] && length == 0
      invariant step > 0 ==> Runs(Rotated(s, start.value)[..step]) == runs + [length]
    {
      var i := if start.value + step < n then start.value + step else start.value + step - n;
      OneRound(s, start.value, step, runs, length);
      if step > 0 && s[i] != Before(s, i) {
        runs := runs + [length];
        length := 0;
      }
      length := length + 1;
    }
    assert Rotated(s, start.value)[..n] == Rotated(s, start.value);
    runs := runs + [length];
    return S.Sort(runs, AtMost);
  }

  // ----------------------------------------------------------------- rotations

  /** A rotation by `p` and then by `q` is one rotation. */
  lemma RotatedTwice<T>(s: seq<T>, p: nat, q: nat)
    requires p < |s| && q < |s|
    ensures Rotated(Rotated(s, p), q) == Rotated(s, if p + q < |s| then p + q else p + q - |s|)
  {
  }

  lemma RotatedStarts<T>(s: seq<T>, p: nat, i: nat)
    requires p < |s| && i < |s|
    ensures StartsAt(Rotated(s, p), i) <==> StartsAt(s, if p + i < |s| then p + i else p + i - |s|)
  {
  }

  /** Every shift is a rotation. */
  lemma ShiftIsRotation<T>(s: seq<T>, k: int) returns (p: nat)
    requires s != []
    ensures p < |s| && Shifted(s, k) == Rotated(s, p)
  {
    var n := |s|;
    p := (-k) % n;
    var q := (-k) / n;
    forall t | 0 <= t < n ensures Shifted(s, k)[t] == Rotated(s, p)[t] {
      if p + t < n {
        N.ModuloIsUnique(t - k, n, q, p + t);
      } else {
        assert (q + 1) * n == q * n + n;
        N.ModuloIsUnique(t - k, n, q + 1, p + t - n);
      }
    }
  }

  // ----------------------------------------------------------------- runs of a concatenation

  lemma AppendConcat(x: seq<int>, y: seq<int>, same: bool)
    requires y != []
    ensures Append(x + y, same) == x + Append(y, same)
  {
  }

  lemma {:induction false} RunsConcat<T>(a: seq<T>, b: seq<T>)
    requires a != [] && b != [] && a[|a| - 1] != b[0]
    ensures Runs(a + b) == Runs(a) + Runs(b)
  {
    var n := |b| - 1;
    var h, x := b[..n], b[n];
    assert a + b == a + h + [x] && b == h + [x];
    RunsOneMore(a + h, x);
    RunsOneMore(h, x);
    if n == 0 {
      assert a + h == a && Runs(h) == [];
    } else {
      RunsConcat(a, h);
      RunsAreNonempty(h);
      AppendConcat(Runs(a), Runs(h), x == h[n - 1]);
    }
  }

  /** Reading from either of two run starts gives the same run lengths, in another order. */
  lemma TwoStarts<T>(s: seq<T>, p: nat, q: nat)
    requires p <= q < |s| && StartsAt(s, p) && StartsAt(s, q)
    ensures multiset(Runs(Rotated(s, p))) == multiset(Runs(Rotated(s, q)))
  {
    if p < q {
      var a, b := s[p..q], s[q..] + s[..p];
      assert Rotated(s, p) == a + b && Rotated(s, q) == b + a;
      assert b[|b| - 1] == Before(s, p);
      RunsConcat(a, b);
      RunsConcat(b, a);
    }
  }

  lemma SortedAlike(xs: seq<int>, ys: seq<int>)
    requires multiset(xs) == multiset(ys)
    ensures S.Sort(xs, AtMost) == S.Sort(ys, AtMost)
  {
    S.SortIgnoresOrder(xs, ys, AtMost);
  }

  function Wrapped(i: nat, n: nat): nat
    requires i < 2 * n
  {
    if i < n then i else i - n
  }

  lemma SomeStartMoves<T>(s: seq<T>, p: nat, i: nat)
    requires p < |s| && i < |s| && StartsAt(s, i)
    ensures FirstStart(Rotated(s, p), 0).Some?
  {
    var n := |s|;
    var j := Wrapped(i + n - p, n);
    RotatedStarts(s, p, j);
    assert StartsAt(Rotated(s, p), j);
    FirstStartFacts(Rotated(s, p), 0);
  }

  /** From any run start at all, the sorted run lengths are the circular ones. */
  lemma AnyStart<T>(s: seq<T>, i: nat)
    requires i < |s| && StartsAt(s, i)
    ensures CircularLengths(s) == S.Sort(Runs(Rotated(s, i)), AtMost)
  {
    FirstStartFacts(s, 0);
    var one := FirstStart(s, 0).value;
    if one <= i { TwoStarts(s, one, i); } else { TwoStarts(s, i, one); }
    SortedAlike(Runs(Rotated(s, one)), Runs(Rotated(s, i)));
  }

  lemma RotationInvariant<T>(s: seq<T>, p: nat)
    requires p < |s|
    ensures CircularLengths(Rotated(s, p)) == CircularLengths(s)
  {
    var r := Rotated(s, p);
    FirstStartFacts(s, 0);
    FirstStartFacts(r, 0);
    if FirstStart(s, 0).Some? { SomeStartMoves(s, p, FirstStart(s, 0).value); }
    if FirstStart(r, 0).Some? { FromStart(s, p, FirstStart(r, 0).value); }
  }

  /** Read from one of its run starts, a rotation shows the circular runs of the sequence. */
  lemma FromStart<T>(s: seq<T>, p: nat, q: nat)
    requires p < |s| && q < |s| && StartsAt(Rotated(s, p), q)
    ensures CircularLengths(Rotated(s, p)) == CircularLengths(s)
  {
    RotatedStarts(s, p, q);
    RotatedTwice(s, p, q);
    AnyStart(Rotated(s, p), q);
    AnyStart(s, Wrapped(p + q, |s|));
  }

  // ----------------------------------------------------------------- the main results

  /** Every circular shift, by any offset, keeps the run structure. */
  lemma ShiftKeepsRuns<T>(s: seq<T>, k: int)
    ensures CircularLengths(Shifted(s, k)) == CircularLengths(s)
  {
    if s == [] {
      assert Shifted(s, k) == s;
    } else {
      var p := ShiftIsRotation(s, k);
      RotationInvariant(s, p);
    }
  }

  function Sum(xs: seq<int>): int {
    if xs == [] then 0 else Sum(xs[..|xs| - 1]) + xs[|xs| - 1]
  }

  lemma {:induction false} SumSnoc(xs: seq<int>, x: int)
    ensures Sum(xs + [x]) == Sum(xs) + x
  {
    assert (xs + [x])[..|xs|] == xs;
  }

  lemma {:induction false} SumOfMultiset(xs: seq<int>, ys: seq<int>)
    requires multiset(xs) == multiset(ys)
    ensures Sum(xs) == Sum(ys)
    decreases |xs|
  {
    if xs == [] {
      assert |multiset(ys)| == 0;
    } else {
      var n := |xs| - 1;
      S.SameElements(xs, ys, xs[n]);
      var k :| 0 <= k < |ys| && ys[k] == xs[n];
      var rest := ys[..k] + ys[k + 1..];
      assert ys == ys[..k] + [ys[k]] + ys[k + 1..];
      S.DropLast(xs);
      SumOfMultiset(xs[..n], rest);
      SumWithout(ys, k);
    }
  }

  lemma {:induction false} SumWithout(ys: seq<int>, k: nat)
    requires k < |ys|
    ensures Sum(ys) == Sum(ys[..k] + ys[k + 1..]) + ys[k]
  {
    var n := |ys| - 1;
    if k == n {
      assert ys[..k] + ys[k + 1..] == ys[..n];
    } else {
      SumWithout(ys[..n], k);
      assert ys[..k] + ys[k + 1..] == (ys[..n][..k] + ys[..n][k + 1..]) + [ys[n]];
      SumSnoc(ys[..n][..k] + ys[..n][k + 1..], ys[n]);
    }
  }

  predicate AllPositive(runs: seq<int>) {
    forall l <- runs :: l > 0
  }

  lemma AppendFacts(runs: seq<int>, same: bool)
    requires AllPositive(runs)
    ensures Sum(Append(runs, same)) == Sum(runs) + 1 && AllPositive(Append(runs, same))
  {
    if same && runs != [] {
      SumSnoc(runs[..|runs| - 1], runs[|runs| - 1] + 1);
      var h, last := runs[..|runs| - 1], runs[|runs| - 1];
      assert last in runs;
      var more := h + [last + 1];
      forall l | l in more ensures l > 0 {
        assert l in h ==> l in runs;
      }
    } else {
      SumSnoc(runs, 1);
    }
  }

  lemma {:induction false} RunsFacts<T>(xs: seq<T>)
    ensures Sum(Runs(xs)) == |xs| && AllPositive(Runs(xs))
  {
    if xs != [] {
      RunsFacts(xs[..|xs| - 1]);
      AppendFacts(Runs(xs[..|xs| - 1]), |xs| > 1 && xs[|xs| - 1] == xs[|xs| - 2]);
    }
  }

  /** The run lengths add up to the length of the sequence, and each is positive unless there is nothing to run. */
  lemma LengthsAddUp<T>(s: seq<T>)
    ensures Sum(CircularLengths(s)) == |s|
    ensures s != [] ==> forall l <- CircularLengths(s) :: l > 0
  {
    FirstStartFacts(s, 0);
    var start := FirstStart(s, 0);
    if start.Some? {
      var runs := Runs(Rotated(s, start.value));
      RunsFacts(Rotated(s, start.value));
      S.SortPermutes(runs, AtMost);
      SumOfMultiset(S.Sort(runs, AtMost), runs);
      forall l | l in S.Sort(runs, AtMost) ensures l > 0 { S.SameElements(S.Sort(runs, AtMost), runs, l); }
    } else {
      SumSnoc([], |s|);
      assert [] + [|s|] == [|s|];
    }
  }

  /** The positions where runs start. */
  ghost function Starts<T>(s: seq<T>, n: nat): set<nat>
    requires n <= |s|
  {
    set i: nat | i < n && StartsAt(s, i)
  }

  lemma {:induction false} RunsCountStarts<T>(s: seq<T>, n: nat)
    requires 0 < n <= |s| && StartsAt(s, 0)
    ensures |Runs(s[..n])| == |Starts(s, n)|
  {
    if n == 1 {
      assert s[..1] == [] + [s[0]] && Starts(s, 1) == {0};
      RunsOneMore([], s[0]);
    } else {
      RunsCountStarts(s, n - 1);
      RunsAreNonempty(s[..n - 1]);
      RunsOneMore(s[..n - 1], s[n - 1]);
      assert s[..n] == s[..n - 1] + [s[n - 1]];
      StartsOneMore(s, n - 1);
    }
  }

  lemma StartsOneMore<T>(s: seq<T>, n: nat)
    requires n < |s|
    ensures |Starts(s, n + 1)| == |Starts(s, n)| + if StartsAt(s, n) then 1 else 0
  {
    assert Starts(s, n + 1) == if StartsAt(s, n) then Starts(s, n) + {n} else Starts(s, n);
  }

  /** There is one run per position where the state changes, or a single run if it never does. */
  lemma OneRunPerChange<T>(s: seq<T>)
    requires s != []
    ensures |CircularLengths(s)| == if Starts(s, |s|) == {} then 1 else |Starts(s, |s|)|
  {
    FirstStartFacts(s, 0);
    var start := FirstStart(s, 0);
    if start.Some? {
      var p := start.value;
      assert p in Starts(s, |s|);
      var r := Rotated(s, p);
      RotatedStarts(s, p, 0);
      RunsCountStarts(r, |r|);
      assert r[..|r|] == r;
      S.SortPermutes(Runs(r), AtMost);
      StartsMove(s, p);
    }
  }

  /** The starts from `from` on. */
  ghost function StartsFrom<T>(s: seq<T>, from: nat, n: nat): set<nat>
    requires n <= |s|
  {
    set i: nat | from <= i < n && StartsAt(s, i)
  }

  lemma SplitStarts<T>(s: seq<T>, p: nat)
    requires p <= |s|
    ensures |Starts(s, |s|)| == |Starts(s, p)| + |StartsFrom(s, p, |s|)|
  {
    assert Starts(s, |s|) == Starts(s, p) + StartsFrom(s, p, |s|);
    assert Starts(s, p) !! StartsFrom(s, p, |s|);
  }

  lemma StartsMove<T>(s: seq<T>, p: nat)
    requires p < |s|
    ensures |Starts(Rotated(s, p), |s|)| == |Starts(s, |s|)|
  {
    var n := |s|;
    var r := Rotated(s, p);
    forall i: nat | i < n ensures StartsAt(r, i) <==> StartsAt(s, if p + i < n then p + i else p + i - n) {
      RotatedStarts(s, p, i);
    }
    SplitStarts(s, p);
    SplitStarts(r, n - p);
    MovedUp(Starts(r, n - p), StartsFrom(s, p, n), p);
    MovedUp(Starts(s, p), StartsFrom(r, n - p, n), n - p);
  }

  ghost predicate Moved(xs: set<nat>, ys: set<nat>, up: nat) {
    (forall i: nat :: i in xs <==> i + up in ys) && forall i <- ys :: i >= up
  }

  lemma Origin(xs: set<nat>, ys: set<nat>, up: nat)
    requires Moved(xs, ys, up)
    ensures ys != {} ==> exists i: nat :: i in xs
  {
    if y: nat :| y in ys {
      assert (y - up) + up in ys;
      assert y - up in xs;
    }
  }

  /** Moving every element up by the same amount keeps the number of elements. */
  lemma {:induction false} MovedUp(xs: set<nat>, ys: set<nat>, up: nat)
    requires Moved(xs, ys, up)
    ensures |xs| == |ys|
    decreases |xs|
  {
    Origin(xs, ys, up);
    if xs != {} {
      var x :| x in xs;
      MovedUp(xs - {x}, ys - {x + up}, up);
    }
  }
}
