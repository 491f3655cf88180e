/** Facts about division that the solver does not find by itself. */
module Arithmetic {
  lemma MultipleGrows(d: int, p: int)
    requires p >= 1
    ensures d >= 1 ==> d * p >= p
    ensures d <= -1 ==> d * p <= -p
  {
  }

  lemma DivisionUnique(x: int, p: int, q: int, r: int)
    requires p >= 1 && 0 <= r < p && x == q * p + r
    ensures x / p == q && x % p == r
  {
    var t := x / p;
    assert x == t * p + x % p;
    assert (q - t) * p == q * p - t * p;
    MultipleGrows(q - t, p);
  }

  lemma SubtractOnce(n: nat, w: nat)
    requires w >= 1 && n >= w
    ensures (n - w) % w == n % w
  {
    var q, r := n / w, n % w;
    assert n - w == (q - 1) * w + r;
    DivisionUnique(n - w, w, q - 1, r);
  }

  lemma QuotientPositive(x: int, p: int)
    requires 1 <= p <= x
    ensures x / p >= 1
  {
  }
}
