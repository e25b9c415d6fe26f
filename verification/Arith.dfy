/** Facts about products, quotients and remainders that the solver needs spelled out. */
module Arith {

  lemma {:induction false} MulNotLess(i: int, j: int, d: nat)
    requires i <= j
    ensures i * d <= j * d
  {
  }

  lemma MulMonotone(i: int, j: int, d: nat)
    requires i <= j
    ensures i * d <= j * d
    ensures i < j && d > 0 ==> i * d + d <= j * d
  {
    MulNotLess(i, j, d);
    if i < j {
      MulNotLess(i + 1, j, d);
      assert (i + 1) * d == i * d + d;
    }
  }

  /** Quotient and remainder are the only ones of their kind. */
  lemma DivModUnique(x: int, d: nat, q: int, r: nat)
    requires d > 0 && x == q * d + r && r < d
    ensures x / d == q && x % d == r
  {
    var q', r' := x / d, x % d;
    assert x == q' * d + r' && r' < d;
    if q < q' {
      MulMonotone(q, q', d);
    } else if q > q' {
      MulMonotone(q', q, d);
    }
  }

  lemma SmallNotMultiple(x: nat, m: nat)
    requires 0 < x < m
    ensures x % m != 0
  {
  }

  lemma MultipleOf32(k: nat, size: nat)
    requires size % 32 == 0
    ensures k * size % 32 == 0
  {
    assert k * size == 32 * (k * (size / 32));
  }

  lemma AddModulo32(a: nat, b: nat)
    requires a % 32 == 0 && b % 32 == 1
    ensures (a + b) % 32 == 1
  {
  }

  lemma NotMultipleOf512(n: nat)
    requires n % 32 == 1
    ensures n % 512 != 0
  {
  }

  function Pow2(n: nat): (p: nat)
    ensures p > 0
  {
    if n == 0 then 1 else 2 * Pow2(n - 1)
  }

  lemma {:induction false} Pow2Add(m: nat, n: nat)
    ensures Pow2(m + n) == Pow2(m) * Pow2(n)
  {
    if n > 0 {
      Pow2Add(m, n - 1);
      assert Pow2(m) * (2 * Pow2(n - 1)) == 2 * (Pow2(m) * Pow2(n - 1));
    }
  }

  lemma {:induction false} Pow2Monotone(m: nat, n: nat)
    requires m <= n
    ensures Pow2(m) <= Pow2(n)
  {
    if m < n { Pow2Monotone(m, n - 1); }
  }
}
