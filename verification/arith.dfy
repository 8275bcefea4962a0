/**
 Integer facts shared by the mixed-radix numbering of combinations, the
 stepped ranges and the run numbering: monotonicity of multiplication and
 quotient and remainder by a positive divisor.
 */
module Arith {

  lemma Distribute(a: int, d: int)
    ensures (a + 1) * d == a * d + d
  {
  }

  lemma MulMono(a: int, b: int, d: int)
    requires a <= b && d >= 0
    ensures a * d <= b * d
  {
    assert b * d - a * d == (b - a) * d;
  }

  lemma MulAtLeastOne(a: nat, b: nat)
    requires a >= 1 && b >= 1
    ensures a * b >= 1 && a * b >= a
  {
    assert a * b == a * (b - 1) + a;
  }

  lemma MulLess(i: nat, n: nat, p: nat, k: nat)
    requires i < n && k < p
    ensures i * p + k < n * p
  {
    MulMono(i + 1, n, p);
  }

  lemma DivBelow(i: nat, n: nat, p: nat)
    requires p > 0 && i < n * p
    ensures i / p < n
  {
    if i / p >= n {
      MulMono(n, i / p, p);
    }
  }

  /** The leading digit and the remainder of `i` in radix `p`, when `i < n * p`. */
  lemma Digits(i: nat, n: nat, p: nat)
    requires i < n * p
    ensures p > 0 && 0 <= i / p < n && i % p < p
    ensures (i / p) * p + i % p == i
  {
    DivBelow(i, n, p);
  }

  /** The quotient is the unique `q` whose multiples bracket `x`. */
  lemma DivUnique(x: int, d: int, q: int)
    requires d > 0 && q * d <= x < (q + 1) * d
    ensures x / d == q
  {
    var q' := x / d;
    assert q' * d + x % d == x && 0 <= x % d < d;
    if q' > q {
      MulMono(q + 1, q', d);
    } else if q' < q {
      MulMono(q' + 1, q, d);
      Distribute(q', d);
    }
  }

  lemma ModOfMultiple(i: int, d: int)
    requires d > 0
    ensures (i * d) % d == 0
  {
    DivUnique(i * d, d, i);
  }
}
