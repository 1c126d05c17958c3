/** Multiplication, division and powers of two by recursion, so that the proofs elsewhere stay linear. */
module Arith {

  function Pow2(k: nat): (p: nat)
    ensures p >= 1
  {
    if k == 0 then 1 else 2 * Pow2(k - 1)
  }

  /** k * p */
  function Times(k: nat, p: nat): (t: nat)
    ensures k > 0 ==> t >= p
  {
    if k == 0 then 0 else Times(k - 1, p) + p
  }

  lemma {:induction false} TimesIsProduct(k: nat, p: nat)
    ensures Times(k, p) == k * p
  {
    if k > 0 {
      TimesIsProduct(k - 1, p);
      ProductStep(k, p);
    }
  }

  lemma ProductStep(k: nat, p: nat)
    requires k > 0
    ensures k * p == (k - 1) * p + p
  {
  }

  lemma {:induction false} TimesDouble(k: nat, p: nat)
    ensures Times(2 * k, p) == 2 * Times(k, p) == Times(k, 2 * p)
  {
    if k > 0 {
      TimesDouble(k - 1, p);
      assert Times(2 * k, p) == Times(2 * k - 1, p) + p;
    }
  }

  lemma {:induction false} Pow2Add(j: nat, k: nat)
    ensures Pow2(j + k) == Times(Pow2(j), Pow2(k))
  {
    if j > 0 {
      Pow2Add(j - 1, k);
      TimesDouble(Pow2(j - 1), Pow2(k));
    } else {
      assert Times(1, Pow2(k)) == Times(0, Pow2(k)) + Pow2(k);
    }
  }

  lemma {:induction false} Pow2Monotone(j: nat, k: nat)
    requires j <= k
    ensures Pow2(j) <= Pow2(k)
  {
    if j < k { Pow2Monotone(j, k - 1); }
  }

  lemma DivModSplit(x: nat, p: nat)
    requires p > 0
    ensures x == (x / p) * p + x % p && x % p < p
  {
  }

  lemma ProductMonotone(a: nat, b: nat, p: nat)
    requires a < b
    ensures a * p + p <= b * p
  {
    TimesIsProduct(a, p);
    TimesIsProduct(b, p);
    TimesMonotone(a, b, p);
  }

  lemma {:induction false} TimesMonotone(a: nat, b: nat, p: nat)
    requires a < b
    ensures Times(a, p) + p <= Times(b, p)
  {
    if a + 1 < b { TimesMonotone(a, b - 1, p); }
  }

  lemma DivUnique(x: nat, p: nat, q: nat, r: nat)
    requires p > 0 && r < p && x == q * p + r
    ensures x / p == q && x % p == r
  {
    DivModSplit(x, p);
    if x / p < q {
      ProductMonotone(x / p, q, p);
    } else if x / p > q {
      ProductMonotone(q, x / p, p);
    }
  }

  /** Remainders of integers below zero are not negative either. */
  lemma RemainderRange(a: int, p: nat)
    requires p > 0
    ensures a == (a / p) * p + a % p && 0 <= a % p < p
  {
  }

  lemma Distribute(a: int, p: nat)
    ensures (a + 1) * p == a * p + p
  {
  }

  lemma {:induction false} IntProductMonotone(a: int, b: int, p: nat)
    requires a < b
    ensures a * p + p <= b * p
    decreases b - a
  {
    Distribute(a, p);
    if a + 1 < b { IntProductMonotone(a + 1, b, p); }
  }

  lemma RemainderUnique(a: int, p: nat, q: int, r: nat)
    requires r < p && a == q * p + r
    ensures a % p == r
  {
    RemainderRange(a, p);
    if a / p < q {
      IntProductMonotone(a / p, q, p);
    } else if a / p > q {
      IntProductMonotone(q, a / p, p);
    }
  }

  /** Division by a variable divisor, one subtraction at a time. */
  lemma DivStep(x: nat, p: nat)
    requires p > 0
    ensures x < p ==> x / p == 0 && x % p == x
    ensures x >= p ==> x / p == (x - p) / p + 1 && x % p == (x - p) % p
  {
    if x < p {
      DivUnique(x, p, 0, x);
    } else {
      DivModSplit(x - p, p);
      ProductStep((x - p) / p + 1, p);
      DivUnique(x, p, (x - p) / p + 1, (x - p) % p);
    }
  }

  lemma SmallModulo(k: nat, n: nat)
    requires k < n
    ensures k % n == k
  {
    DivStep(k, n);
  }

  /** x & (2^log - 1) */
  function LowBits(x: nat, log: nat): (m: nat)
    ensures m < Pow2(log)
  {
    if log == 0 then 0 else x % 2 + 2 * LowBits(x / 2, log - 1)
  }

  /** The low bits are the remainder modulo 2^log. */
  lemma {:induction false} LowBitsOf(q: nat, log: nat, m: nat)
    requires m < Pow2(log)
    ensures LowBits(Times(q, Pow2(log)) + m, log) == m
  {
    if log > 0 {
      TimesDouble(q, Pow2(log - 1));
      LowBitsOf(q, log - 1, m / 2);
      HalfOf(Times(q, Pow2(log - 1)), m);
    }
  }

  lemma HalfOf(t: nat, m: nat)
    ensures (2 * t + m) / 2 == t + m / 2 && (2 * t + m) % 2 == m % 2
  {
  }

  lemma {:induction false} Quotient(x: nat, log: nat) returns (q: nat)
    ensures x == Times(q, Pow2(log)) + LowBits(x, log)
  {
    if log == 0 {
      q := x;
      TimesIsProduct(x, 1);
    } else {
      q := Quotient(x / 2, log - 1);
      TimesDouble(q, Pow2(log - 1));
    }
  }

  /** The number of significant bits of x, that is 64 - clz(x) for a 64-bit x. */
  function BitLength(x: nat): nat {
    if x == 0 then 0 else 1 + BitLength(x / 2)
  }

  lemma {:induction false} BitLengthBounds(x: nat)
    requires x > 0
    ensures BitLength(x) > 0
    ensures Pow2(BitLength(x) - 1) <= x < Pow2(BitLength(x))
  {
    if x > 1 {
      BitLengthBounds(x / 2);
    } else {
      assert BitLength(1) == 1 + BitLength(0);
    }
  }
}
