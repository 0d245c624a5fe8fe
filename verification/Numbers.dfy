/** Integer facts that the solver does not find by itself. */
module Numbers {

  lemma MulMono(a: int, b: int, c: int)
    requires a <= b && 0 <= c
    ensures a * c <= b * c
  {
  }

  /** q is n / d as soon as it satisfies the defining inequalities. */
  lemma DivIs(n: int, d: int, q: int)
    requires d > 0 && q * d <= n < (q + 1) * d
    ensures n / d == q
  {
    var r := n - q * d;
    assert n == q * d + r && 0 <= r < d;
    var e := n / d;
    assert n == e * d + n % d;
    if e < q {
      MulMono(e + 1, q, d);
    } else if e > q {
      MulMono(q + 1, e, d);
    }
  }

  lemma DivBounds(n: int, d: int)
    requires d > 0
    ensures (n / d) * d <= n < (n / d) * d + d
  {
    assert n == (n / d) * d + n % d;
  }

  lemma DivAtMost(n: nat, d: int)
    requires d > 0
    ensures 0 <= n / d <= n
  {
    var q := n / d;
    assert n == q * d + n % d;
    if q > n {
      MulMono(1, d, q);
    }
    if q < 0 {
      MulMono(q, -1, d);
    }
  }

  function Pow2(k: nat): (r: nat)
    ensures r > 0
  {
    if k == 0 then 1 else 2 * Pow2(k - 1)
  }

  lemma {:induction false} Pow2Add(a: nat, b: nat)
    ensures Pow2(a + b) == Pow2(a) * Pow2(b)
  {
    if a > 0 {
      Pow2Add(a - 1, b);
      MulAssoc(2, Pow2(a - 1), Pow2(b));
    }
  }

  lemma {:induction false} Pow2Mono(a: nat, b: nat)
    requires a <= b
    ensures Pow2(a) <= Pow2(b)
    ensures a < b ==> 2 * Pow2(a) <= Pow2(b)
    decreases b
  {
    if a < b {
      Pow2Mono(a, b - 1);
    }
  }

  lemma MulAssoc(a: int, b: int, c: int)
    ensures a * b * c == a * (b * c)
  {
  }

  lemma QuotientBelow(x: int, q: int, p: int, limit: int)
    requires p > 0 && q * p <= x < limit * p
    ensures q < limit
  {
    if q >= limit {
      MulMono(limit, q, p);
    }
  }

  lemma QuotientAbove(x: int, q: int, p: int, least: int)
    requires p > 0 && x < q * p + p && least * p <= x
    ensures q >= least
  {
    assert (q + 1) * p == q * p + p;
    if q + 1 <= least {
      MulMono(q + 1, least, p);
    }
  }

  lemma Difference(x: int, y: int, w: int)
    ensures (x - y) * w == x * w - y * w
  {
  }

  /** The remainder is the one in range. */
  lemma ModIs(n: int, d: int, q: int, r: int)
    requires n == q * d + r && 0 <= r < d
    ensures n / d == q && n % d == r
  {
    assert (q + 1) * d == q * d + d;
    DivIs(n, d, q);
    assert n == (n / d) * d + n % d;
  }
}
