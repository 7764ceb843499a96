/** Division by a positive number: quotient and remainder are unique. */
module Arithmetic {
  lemma ProductGrows(a: nat, b: nat, max: nat)
    requires a < b
    ensures a * max + max <= b * max
  {
    var d: nat := b - a - 1;
    assert d * max >= 0;
    assert b == a + 1 + d;
    assert b * max == a * max + max + d * max;
  }

  lemma QuotientUnique(len: nat, max: nat, q: nat, k: nat)
    requires max >= 1 && q * max <= len < q * max + max && k * max <= len < k * max + max
    ensures q == k
  {
    if q < k {
      ProductGrows(q, k, max);
    } else if k < q {
      ProductGrows(k, q, max);
    }
  }

  lemma RemainderIs(n: nat, b: nat, k: nat, m: nat)
    requires m < b && n == k * b + m
    ensures n % b == m
  {
    QuotientUnique(n, b, k, n / b);
  }
}
