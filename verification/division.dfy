/** Products, quotients and remainders of natural numbers. */
module Division {

  lemma TimesGrows(a: nat, b: nat, t: nat)
    requires a <= b
    ensures a * t <= b * t
  {
  }

  lemma TimesAssociates(a: nat, b: nat, c: nat)
    ensures a * (b * c) == (a * b) * c
  {
  }

  lemma Successor(n: nat, a: nat, b: nat)
    requires a < b
    ensures n * a + n <= n * b
  {
    TimesGrows(a + 1, b, n);
    assert n * (a + 1) == n * a + n;
  }

  /** Quotient and remainder are unique. */
  lemma DividedOnce(q: nat, r: nat, low: nat, high: nat, n: nat)
    requires low < n && r < n && r + n * q == low + n * high
    ensures q == high && r == low
  {
    if q > high {
      Successor(n, high, q);
    } else if q < high {
      Successor(n, q, high);
    }
  }

  lemma Divided(low: nat, n: nat, high: nat)
    requires low < n
    ensures (low + n * high) / n == high && (low + n * high) % n == low
  {
    var v := low + n * high;
    assert v % n + n * (v / n) == v;
    DividedOnce(v / n, v % n, low, high, n);
  }
}
