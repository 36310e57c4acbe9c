/** Filtering a list, and lists in which every earlier element is related to every later one. */
module Lists {

  function Keep<T>(xs: seq<T>, p: T -> bool): seq<T> {
    if xs == [] then []
    else
      var kept := Keep(xs[..|xs| - 1], p);
      if p(xs[|xs| - 1]) then kept + [xs[|xs| - 1]] else kept
  }

  lemma KeepOneMore<T>(h: seq<T>, x: T, p: T -> bool)
    ensures Keep(h + [x], p) == Keep(h, p) + if p(x) then [x] else []
  {
    assert (h + [x])[..|h|] == h;
  }

  lemma {:induction false} KeepMembers<T>(xs: seq<T>, p: T -> bool, x: T)
    ensures x in Keep(xs, p) <==> x in xs && p(x)
  {
    if xs != [] {
      KeepMembers(xs[..|xs| - 1], p, x);
      assert xs == xs[..|xs| - 1] + [xs[|xs| - 1]];
    }
  }

  lemma {:induction false} KeepCounts<T>(xs: seq<T>, p: T -> bool, x: T)
    ensures multiset(Keep(xs, p))[x] == if p(x) then multiset(xs)[x] else 0
  {
    if xs != [] {
      KeepCounts(xs[..|xs| - 1], p, x);
      assert xs == xs[..|xs| - 1] + [xs[|xs| - 1]];
    }
  }

  /** What is kept does not depend on the order of the list. */
  lemma KeepPermutes<T(!new)>(xs: seq<T>, ys: seq<T>, p: T -> bool)
    requires multiset(xs) == multiset(ys)
    ensures multiset(Keep(xs, p)) == multiset(Keep(ys, p)) && |Keep(xs, p)| == |Keep(ys, p)|
  {
    forall x: T ensures multiset(Keep(xs, p))[x] == multiset(Keep(ys, p))[x] {
      KeepCounts(xs, p, x);
      KeepCounts(ys, p, x);
    }
    assert multiset(Keep(xs, p)) == multiset(Keep(ys, p));
    assert |multiset(Keep(xs, p))| == |multiset(Keep(ys, p))|;
  }

  lemma {:induction false} KeepSplits<T>(xs: seq<T>, p: T -> bool, q: T -> bool, both: T -> bool)
    requires forall x <- xs :: !(p(x) && q(x)) && both(x) == (p(x) || q(x))
    ensures |Keep(xs, both)| == |Keep(xs, p)| + |Keep(xs, q)|
  {
    if xs != [] {
      KeepSplits(xs[..|xs| - 1], p, q, both);
      assert xs[|xs| - 1] in xs;
    }
  }

  lemma {:induction false} KeepSame<T>(xs: seq<T>, p: T -> bool, q: T -> bool)
    requires forall x <- xs :: p(x) == q(x)
    ensures Keep(xs, p) == Keep(xs, q)
  {
    if xs != [] {
      KeepSame(xs[..|xs| - 1], p, q);
      assert xs[|xs| - 1] in xs;
    }
  }

  lemma {:induction false} NothingKept<T>(xs: seq<T>)
    ensures Keep(xs, (x: T) => false) == []
  {
    if xs != [] { NothingKept(xs[..|xs| - 1]); }
  }

  lemma {:induction false} EverythingKept<T>(xs: seq<T>)
    ensures Keep(xs, (x: T) => true) == xs
  {
    if xs != [] {
      EverythingKept(xs[..|xs| - 1]);
      assert xs == xs[..|xs| - 1] + [xs[|xs| - 1]];
    }
  }

  /** Filtering part of a list gives a first part of the filtered list. */
  lemma {:induction false} KeepPrefix<T>(xs: seq<T>, p: T -> bool, n: nat)
    requires n <= |xs|
    ensures Keep(xs[..n], p) <= Keep(xs, p)
  {
    if n == |xs| {
      assert xs[..n] == xs;
    } else {
      KeepPrefix(xs[..|xs| - 1], p, n);
      assert xs[..|xs| - 1][..n] == xs[..n];
    }
  }

  /** Once `p` fails along the list it keeps failing. */
  ghost predicate Downward<T>(xs: seq<T>, p: T -> bool) {
    forall i, j :: 0 <= i < j < |xs| && p(xs[j]) ==> p(xs[i])
  }

  /** Then filtering takes a first part of the list. */
  lemma {:induction false} KeepDownward<T>(xs: seq<T>, p: T -> bool)
    requires Downward(xs, p)
    ensures Keep(xs, p) <= xs
    ensures forall i :: 0 <= i < |xs| ==> (p(xs[i]) <==> i < |Keep(xs, p)|)
  {
    if xs != [] {
      var n := |xs| - 1;
      KeepDownward(xs[..n], p);
      assert forall i :: 0 <= i < n ==> xs[..n][i] == xs[i];
      if p(xs[n]) {
        assert forall i :: 0 <= i < n ==> p(xs[..n][i]);
        assert |Keep(xs[..n], p)| == n;
      }
    }
  }

  /** If the list goes on and what passes stays, the filtered list goes on too. */
  lemma KeepGrows<T>(xs: seq<T>, ys: seq<T>, p: T -> bool, q: T -> bool)
    requires Downward(xs, p) && Downward(ys, q) && |xs| <= |ys|
    requires forall k :: 0 <= k < |xs| && p(xs[k]) ==> ys[k] == xs[k] && q(ys[k])
    ensures Keep(xs, p) <= Keep(ys, q)
  {
    KeepDownward(xs, p);
    KeepDownward(ys, q);
    var n := |Keep(xs, p)|;
    if n > 0 { assert p(xs[n - 1]); }
  }

  ghost predicate Chain<T>(xs: seq<T>, r: (T, T) -> bool) {
    forall i, j :: 0 <= i < j < |xs| ==> r(xs[i], xs[j])
  }

  lemma {:induction false} KeepChain<T>(xs: seq<T>, p: T -> bool, r: (T, T) -> bool)
    requires Chain(xs, r)
    ensures Chain(Keep(xs, p), r)
  {
    if xs != [] {
      var n := |xs| - 1;
      var kept := Keep(xs[..n], p);
      KeepChain(xs[..n], p, r);
      forall i | 0 <= i < |kept| ensures r(kept[i], xs[n]) {
        KeepMembers(xs[..n], p, kept[i]);
      }
    }
  }

  /** A strict order: nothing precedes itself, and no two elements precede each other. */
  ghost predicate Strict<T(!new)>(r: (T, T) -> bool) {
    forall x, y :: r(x, y) ==> !r(y, x)
  }

  lemma Inhabited<T(!new)>(xs: seq<T>)
    ensures xs == [] || exists x :: x in xs
  {
    if xs != [] { assert xs[0] in xs; }
  }

  lemma ChainConcat<T>(xs: seq<T>, ys: seq<T>, r: (T, T) -> bool)
    requires Chain(xs, r) && Chain(ys, r)
    requires forall x <- xs, y <- ys :: r(x, y)
    ensures Chain(xs + ys, r)
  {
  }

  /** Two chains of a strict order with the same elements are the same list. */
  lemma {:induction false} ChainUnique<T(!new)>(xs: seq<T>, ys: seq<T>, r: (T, T) -> bool)
    requires Strict(r) && Chain(xs, r) && Chain(ys, r)
    requires forall x :: x in xs <==> x in ys
    ensures xs == ys
    decreases |xs|
  {
    if xs == [] || ys == [] {
      Inhabited(xs);
      Inhabited(ys);
    } else {
      var m, n := |xs| - 1, |ys| - 1;
      LastAgrees(xs, ys, r);
      forall x ensures x in xs[..m] <==> x in ys[..n] {
        WithoutLast(xs, r, x);
        WithoutLast(ys, r, x);
      }
      ChainUnique(xs[..m], ys[..n], r);
      assert xs == xs[..m] + [xs[m]] && ys == ys[..n] + [ys[n]];
    }
  }

  lemma LastAgrees<T(!new)>(xs: seq<T>, ys: seq<T>, r: (T, T) -> bool)
    requires Strict(r) && Chain(xs, r) && Chain(ys, r)
    requires xs != [] && ys != [] && forall x :: x in xs <==> x in ys
    ensures xs[|xs| - 1] == ys[|ys| - 1]
  {
    assert ys[|ys| - 1] in xs && xs[|xs| - 1] in ys;
    var j :| 0 <= j < |xs| && xs[j] == ys[|ys| - 1];
    var i :| 0 <= i < |ys| && ys[i] == xs[|xs| - 1];
    assert j < |xs| - 1 ==> r(xs[j], xs[|xs| - 1]);
    assert i < |ys| - 1 ==> r(ys[i], ys[|ys| - 1]);
  }

  lemma WithoutLast<T(!new)>(xs: seq<T>, r: (T, T) -> bool, x: T)
    requires Strict(r) && Chain(xs, r) && xs != []
    ensures x in xs[..|xs| - 1] <==> x in xs && x != xs[|xs| - 1]
  {
    assert xs == xs[..|xs| - 1] + [xs[|xs| - 1]];
  }

  /** A chain of a strict order has no more elements than any list that contains them. */
  lemma {:induction false} ChainFits<T(!new)>(xs: seq<T>, ys: seq<T>, r: (T, T) -> bool)
    requires Strict(r) && Chain(xs, r)
    requires forall x <- xs :: x in ys
    ensures |xs| <= |ys|
    decreases |xs|
  {
    if xs != [] {
      var last := xs[|xs| - 1];
      assert last in ys;
      var k :| 0 <= k < |ys| && ys[k] == last;
      var rest := ys[..k] + ys[k + 1..];
      forall x | x in xs[..|xs| - 1] ensures x in rest {
        WithoutLast(xs, r, x);
        var i :| 0 <= i < |ys| && ys[i] == x;
        assert i != k;
        assert if i < k then rest[i] == x else rest[i - 1] == x;
      }
      ChainFits(xs[..|xs| - 1], rest, r);
    }
  }
}
