/** Python's `sorted` with a key, as a function: a stable insertion sort under a total preorder. */
module Sorting {

  ghost predicate TotalPreorder<T(!new)>(le: (T, T) -> bool) {
    (forall x, y :: le(x, y) || le(y, x)) && (forall x, y, z :: le(x, y) && le(y, z) ==> le(x, z))
  }

  ghost predicate Sorted<T>(xs: seq<T>, le: (T, T) -> bool) {
    forall i, j :: 0 <= i < j < |xs| ==> le(xs[i], xs[j])
  }

  /** `x` goes after every element not greater than it. */
  function Insert<T>(xs: seq<T>, x: T, le: (T, T) -> bool): seq<T> {
    if xs == [] || le(xs[|xs| - 1], x) then xs + [x]
    else Insert(xs[..|xs| - 1], x, le) + [xs[|xs| - 1]]
  }

  function Sort<T>(xs: seq<T>, le: (T, T) -> bool): seq<T> {
    if xs == [] then [] else Insert(Sort(xs[..|xs| - 1], le), xs[|xs| - 1], le)
  }

  lemma {:induction false} InsertPermutes<T>(xs: seq<T>, x: T, le: (T, T) -> bool)
    ensures multiset(Insert(xs, x, le)) == multiset(xs) + multiset{x}
  {
    if xs != [] && !le(xs[|xs| - 1], x) {
      InsertPermutes(xs[..|xs| - 1], x, le);
      assert xs == xs[..|xs| - 1] + [xs[|xs| - 1]];
    }
  }

  lemma {:induction false} SortPermutes<T>(xs: seq<T>, le: (T, T) -> bool)
    ensures multiset(Sort(xs, le)) == multiset(xs)
    ensures |Sort(xs, le)| == |xs|
  {
    if xs != [] {
      SortPermutes(xs[..|xs| - 1], le);
      InsertPermutes(Sort(xs[..|xs| - 1], le), xs[|xs| - 1], le);
      assert xs == xs[..|xs| - 1] + [xs[|xs| - 1]];
    }
    assert |multiset(Sort(xs, le))| == |multiset(xs)|;
  }

  lemma SameElements<T>(xs: seq<T>, ys: seq<T>, y: T)
    requires multiset(xs) == multiset(ys)
    ensures y in xs <==> y in ys
  {
    assert y in xs <==> y in multiset(xs);
    assert y in ys <==> y in multiset(ys);
  }

  lemma {:induction false} InsertSorted<T(!new)>(xs: seq<T>, x: T, le: (T, T) -> bool)
    requires TotalPreorder(le) && Sorted(xs, le)
    ensures Sorted(Insert(xs, x, le), le)
  {
    if xs != [] {
      var n := |xs| - 1;
      if le(xs[n], x) {
        forall i | 0 <= i < |xs| ensures le(xs[i], x) {
          assert i < n ==> le(xs[i], xs[n]);
        }
      } else {
        var r := Insert(xs[..n], x, le);
        InsertSorted(xs[..n], x, le);
        InsertPermutes(xs[..n], x, le);
        forall i | 0 <= i < |r| ensures le(r[i], xs[n]) {
          assert r[i] in multiset(r);
          assert r[i] == x || r[i] in xs[..n];
        }
      }
    }
  }

  lemma {:induction false} SortSorted<T(!new)>(xs: seq<T>, le: (T, T) -> bool)
    requires TotalPreorder(le)
    ensures Sorted(Sort(xs, le), le)
  {
    if xs != [] {
      SortSorted(xs[..|xs| - 1], le);
      InsertSorted(Sort(xs[..|xs| - 1], le), xs[|xs| - 1], le);
    }
  }

  /** Equal keys mean equal elements. */
  ghost predicate KeysIdentify<T>(xs: seq<T>, le: (T, T) -> bool) {
    forall x, y :: x in xs && y in xs && le(x, y) && le(y, x) ==> x == y
  }

  lemma LastElementAgrees<T(!new)>(xs: seq<T>, ys: seq<T>, le: (T, T) -> bool)
    requires Sorted(xs, le) && Sorted(ys, le) && multiset(xs) == multiset(ys)
    requires KeysIdentify(xs, le) && xs != [] && ys != []
    ensures xs[|xs| - 1] == ys[|ys| - 1]
  {
    var x, y := xs[|xs| - 1], ys[|ys| - 1];
    SameElements(xs, ys, x);
    SameElements(xs, ys, y);
    var i :| 0 <= i < |ys| && ys[i] == x;
    var j :| 0 <= j < |xs| && xs[j] == y;
    if i != |ys| - 1 && j != |xs| - 1 {
      assert le(x, y) && le(y, x);
    }
  }

  lemma DropLast<T>(xs: seq<T>)
    requires xs != []
    ensures multiset(xs[..|xs| - 1]) == multiset(xs) - multiset{xs[|xs| - 1]}
  {
    assert xs == xs[..|xs| - 1] + [xs[|xs| - 1]];
  }

  lemma DropLastPermutes<T>(xs: seq<T>, ys: seq<T>)
    requires multiset(xs) == multiset(ys) && xs != [] && ys != [] && xs[|xs| - 1] == ys[|ys| - 1]
    ensures multiset(xs[..|xs| - 1]) == multiset(ys[..|ys| - 1])
    ensures xs[..|xs| - 1] == ys[..|ys| - 1] ==> xs == ys
  {
    DropLast(xs);
    DropLast(ys);
    assert xs == xs[..|xs| - 1] + [xs[|xs| - 1]] && ys == ys[..|ys| - 1] + [ys[|ys| - 1]];
  }

  lemma SameLength<T>(xs: seq<T>, ys: seq<T>)
    requires multiset(xs) == multiset(ys)
    ensures |xs| == |ys|
  {
    assert |xs| == |multiset(xs)| == |multiset(ys)| == |ys|;
  }

  lemma ShorterIsSorted<T(!new)>(xs: seq<T>, le: (T, T) -> bool)
    requires xs != [] && Sorted(xs, le) && KeysIdentify(xs, le)
    ensures Sorted(xs[..|xs| - 1], le) && KeysIdentify(xs[..|xs| - 1], le)
  {
    var h := xs[..|xs| - 1];
    assert forall x :: x in h ==> x in xs;
  }

  /** A sorted arrangement is unique when equal keys mean equal elements. */
  lemma {:induction false} SortedUnique<T(!new)>(xs: seq<T>, ys: seq<T>, le: (T, T) -> bool)
    requires Sorted(xs, le) && Sorted(ys, le) && multiset(xs) == multiset(ys)
    requires KeysIdentify(xs, le)
    ensures xs == ys
    decreases |xs|
  {
    SameLength(xs, ys);
    if xs != [] {
      var n := |xs| - 1;
      LastElementAgrees(xs, ys, le);
      DropLastPermutes(xs, ys);
      ShorterIsSorted(xs, le);
      assert Sorted(ys[..n], le);
      SortedUnique(xs[..n], ys[..n], le);
    }
  }

  /** Sorting forgets the input order: permuted inputs whose equal keys mean equal elements sort alike. */
  lemma SortIgnoresOrder<T(!new)>(xs: seq<T>, ys: seq<T>, le: (T, T) -> bool)
    requires TotalPreorder(le) && multiset(xs) == multiset(ys)
    requires KeysIdentify(xs, le)
    ensures Sort(xs, le) == Sort(ys, le)
  {
    SortPermutes(xs, le);
    SortPermutes(ys, le);
    SortSorted(xs, le);
    SortSorted(ys, le);
    forall x | x in Sort(xs, le) ensures x in xs { SameElements(Sort(xs, le), xs, x); }
    SortedUnique(Sort(xs, le), Sort(ys, le), le);
  }

  ghost predicate Distinct<T>(xs: seq<T>) {
    forall i, j :: 0 <= i < j < |xs| ==> xs[i] != xs[j]
  }

  lemma {:induction false} DistinctMeansSingle<T>(xs: seq<T>)
    ensures Distinct(xs) <==> forall x <- xs :: multiset(xs)[x] <= 1
  {
    if xs != [] {
      var n := |xs| - 1;
      var h := xs[..n];
      assert xs == h + [xs[n]];
      DistinctMeansSingle(h);
      if Distinct(xs) {
        assert Distinct(h);
        assert forall i :: 0 <= i < n ==> h[i] == xs[i] != xs[n];
      } else {
        var i, j :| 0 <= i < j < |xs| && xs[i] == xs[j];
        if j < n {
          assert h[i] == h[j];
          var y :| y in h && multiset(h)[y] > 1;
          assert y in xs && multiset(xs)[y] > 1;
        } else {
          assert h[i] == xs[n];
          assert multiset(xs)[xs[n]] > 1;
        }
      }
    }
  }

  lemma DistinctPermutes<T>(xs: seq<T>, ys: seq<T>)
    requires Distinct(xs) && multiset(xs) == multiset(ys)
    ensures Distinct(ys)
  {
    DistinctMeansSingle(xs);
    DistinctMeansSingle(ys);
    forall y | y in ys ensures multiset(ys)[y] <= 1 {
      SameElements(xs, ys, y);
    }
  }
}
