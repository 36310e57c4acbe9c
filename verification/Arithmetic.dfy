/** Uniqueness of quotient and remainder, without the solver's own nonlinear search. */
module Arithmetic {

  lemma MultiplesApart(p: int, q: int, size: int)
    requires size > 0 && p < q
    ensures p * size + size <= q * size
  {
    assert q * size == p * size + (q - p) * size;
    assert (q - p) * size == size + (q - p - 1) * size;
  }

  lemma QuotientIsUnique(x: int, size: int, q: int, p: int)
    requires size > 0 && q * size <= x < q * size + size && p * size <= x < p * size + size
    ensures q == p
  {
    if p < q { MultiplesApart(p, q, size); }
    if q < p { MultiplesApart(q, p, size); }
  }

  lemma ModuloIsUnique(x: int, n: int, q: int, r: int)
    requires n > 0 && x == q * n + r && 0 <= r < n
    ensures x % n == r
  {
    var p := x / n;
    assert x == p * n + x % n;
    QuotientIsUnique(x, n, q, p);
  }
}
