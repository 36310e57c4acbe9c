/** Python's order on strings and on tuples of strings. */
module Texts {
  import S = Sorting

  predicate StringBefore(a: string, b: string) {
    if a == "" then b != ""
    else if b == "" then false
    else if a[0] != b[0] then a[0] < b[0]
    else StringBefore(a[1..], b[1..])
  }

  lemma {:induction false} StringsAreOrdered(a: string, b: string)
    ensures StringBefore(a, b) ==> !StringBefore(b, a)
    ensures a == b || StringBefore(a, b) || StringBefore(b, a)
  {
    if a != "" && b != "" && a[0] == b[0] {
      StringsAreOrdered(a[1..], b[1..]);
      assert a == [a[0]] + a[1..] && b == [b[0]] + b[1..];
    }
  }

  /** `a` and `b` first differ at `i`, where `a` has the smaller character. */
  ghost predicate SmallerAt(a: string, b: string, i: int) {
    0 <= i < |a| && i < |b| && a[..i] == b[..i] && a[i] < b[i]
  }

  lemma SmallerInTails(a: string, b: string, i: nat)
    requires a != "" && b != "" && a[0] == b[0]
    ensures SmallerAt(a, b, i + 1) <==> SmallerAt(a[1..], b[1..], i)
  {
    if i < |a| - 1 && i < |b| - 1 {
      assert a[..i + 1] == [a[0]] + a[1..][..i] && b[..i + 1] == [b[0]] + b[1..][..i];
      assert a[..i + 1] == b[..i + 1] ==> a[1..][..i] == a[..i + 1][1..] && b[1..][..i] == b[..i + 1][1..];
    }
  }

  /** Texts are ordered by the first characters in which they differ; a text comes after its own beginnings. */
  lemma {:induction false} StringOrder(a: string, b: string)
    ensures StringBefore(a, b) <==> (a <= b && a != b) || exists i :: SmallerAt(a, b, i)
  {
    if a != "" && b != "" && a[0] == b[0] {
      StringOrder(a[1..], b[1..]);
      assert a == [a[0]] + a[1..] && b == [b[0]] + b[1..];
      if i: int :| SmallerAt(a[1..], b[1..], i) {
        SmallerInTails(a, b, i);
      }
      if i: int :| SmallerAt(a, b, i) {
        assert i > 0;
        SmallerInTails(a, b, i - 1);
      }
    } else if a != "" && b != "" {
      assert a[..0] == b[..0] && (a[0] < b[0] ==> SmallerAt(a, b, 0));
    }
  }

  lemma {:induction false} StringsAreTransitive(a: string, b: string, c: string)
    requires StringBefore(a, b) && StringBefore(b, c)
    ensures StringBefore(a, c)
  {
    if a != "" && a[0] == b[0] == c[0] { StringsAreTransitive(a[1..], b[1..], c[1..]); }
  }

  /** Tuples compare element by element. */
  predicate TupleBefore(a: seq<string>, b: seq<string>) {
    if a == [] then b != []
    else if b == [] then false
    else if a[0] != b[0] then StringBefore(a[0], b[0])
    else TupleBefore(a[1..], b[1..])
  }

  lemma {:induction false} TuplesAreOrdered(a: seq<string>, b: seq<string>)
    ensures TupleBefore(a, b) ==> !TupleBefore(b, a)
    ensures a == b || TupleBefore(a, b) || TupleBefore(b, a)
  {
    if a != [] && b != [] {
      StringsAreOrdered(a[0], b[0]);
      if a[0] == b[0] {
        TuplesAreOrdered(a[1..], b[1..]);
        assert a == [a[0]] + a[1..] && b == [b[0]] + b[1..];
      }
    }
  }

  lemma {:induction false} TuplesAreTransitive(a: seq<string>, b: seq<string>, c: seq<string>)
    requires TupleBefore(a, b) && TupleBefore(b, c)
    ensures TupleBefore(a, c)
  {
    if a != [] {
      if a[0] == b[0] == c[0] {
        TuplesAreTransitive(a[1..], b[1..], c[1..]);
      } else if a[0] != b[0] && b[0] != c[0] {
        StringsAreTransitive(a[0], b[0], c[0]);
        StringsAreOrdered(a[0], b[0]);
      }
    }
  }

  predicate NotAfter(a: seq<string>, b: seq<string>) {
    !TupleBefore(b, a)
  }

  lemma NotAfterIsTotal()
    ensures S.TotalPreorder(NotAfter)
  {
    forall a, b ensures NotAfter(a, b) || NotAfter(b, a) { TuplesAreOrdered(a, b); }
    forall a, b, c | NotAfter(a, b) && NotAfter(b, c) ensures NotAfter(a, c) {
      TuplesAreOrdered(a, b);
      TuplesAreOrdered(b, c);
      if TupleBefore(c, a) {
        if a != b { TuplesAreTransitive(c, a, b); }
        if a != b && b != c { TuplesAreTransitive(a, b, c); }
      }
    }
  }

  /** `le` compares by a tuple of strings. */
  ghost predicate ComparesBy<T(!new)>(key: T -> seq<string>, le: (T, T) -> bool) {
    forall a, b :: le(a, b) <==> NotAfter(key(a), key(b))
  }

  lemma ComparisonIsTotal<T(!new)>(key: T -> seq<string>, le: (T, T) -> bool)
    requires ComparesBy(key, le)
    ensures S.TotalPreorder(le)
  {
    NotAfterIsTotal();
    forall a, b ensures le(a, b) || le(b, a) { assert NotAfter(key(a), key(b)) || NotAfter(key(b), key(a)); }
    forall a, b, c | le(a, b) && le(b, c) ensures le(a, c) {
      assert NotAfter(key(a), key(b)) && NotAfter(key(b), key(c));
    }
  }

  ghost predicate KeysDistinct<T>(xs: seq<T>, key: T -> seq<string>) {
    forall i, j :: 0 <= i < j < |xs| ==> key(xs[i]) != key(xs[j])
  }

  lemma DifferentKeys<T>(xs: seq<T>, key: T -> seq<string>, x: T, y: T)
    requires KeysDistinct(xs, key) && x in xs && y in xs && x != y
    ensures key(x) != key(y)
  {
    var i :| 0 <= i < |xs| && xs[i] == x;
    var j :| 0 <= j < |xs| && xs[j] == y;
    assert i < j || j < i;
  }

  ghost predicate Ascending<T>(xs: seq<T>, key: T -> seq<string>) {
    forall i, j :: 0 <= i < j < |xs| ==> TupleBefore(key(xs[i]), key(xs[j]))
  }

  lemma AscendingAt<T>(xs: seq<T>, key: T -> seq<string>, i: nat, j: nat)
    requires Ascending(xs, key) && i < j < |xs|
    ensures TupleBefore(key(xs[i]), key(xs[j]))
  {
  }

  /** Sorting by distinct keys gives the same elements in strict key order. */
  lemma SortedByKey<T(!new)>(xs: seq<T>, key: T -> seq<string>, le: (T, T) -> bool)
    requires ComparesBy(key, le) && KeysDistinct(xs, key)
    ensures var out := S.Sort(xs, le); forall x :: x in out <==> x in xs
    ensures Ascending(S.Sort(xs, le), key)
  {
    var out := S.Sort(xs, le);
    ComparisonIsTotal(key, le);
    S.SortPermutes(xs, le);
    S.SortSorted(xs, le);
    S.DistinctPermutes(xs, out);
    forall x ensures x in out <==> x in xs { S.SameElements(out, xs, x); }
    forall i, j | 0 <= i < j < |out| ensures TupleBefore(key(out[i]), key(out[j])) {
      assert out[i] in out && out[j] in out && le(out[i], out[j]);
      DifferentKeys(xs, key, out[i], out[j]);
      TuplesAreOrdered(key(out[i]), key(out[j]));
    }
  }
}
