/** The probe sequence of mini_libcxx/include/hashmap.hpp: from group g, steps of 1, 2, 3, ... modulo the number of
    groups, which is 2^k. */
module HashProbe {
  import opened Arith

  /** The group of probe number p. */
  function Probe(g: nat, p: nat, k: nat): (r: nat)
    ensures r < Pow2(k)
  {
    if p == 0 then LowBits(g, k) else LowBits(Probe(g, p - 1, k) + p, k)
  }

  /** 1 + 2 + ... + p */
  function Triangle(p: nat): nat {
    if p == 0 then 0 else Triangle(p - 1) + p
  }

  lemma LowBitsAdd(x: nat, y: nat, k: nat)
    ensures LowBits(LowBits(x, k) + y, k) == LowBits(x + y, k)
  {
    hide LowBits, Pow2;
    var q := Quotient(x, k);
    var m := LowBits(x, k) + y;
    var r := Quotient(m, k);
    TimesSum(q, r, Pow2(k));
    LowBitsOf(q + r, k, LowBits(m, k));
  }

  lemma {:induction false} TimesSum(a: nat, b: nat, p: nat)
    ensures Times(a + b, p) == Times(a, p) + Times(b, p)
  {
    if a > 0 { TimesSum(a - 1, b, p); }
  }

  lemma {:induction false} ProbeIsTriangle(g: nat, p: nat, k: nat)
    ensures Probe(g, p, k) == LowBits(g + Triangle(p), k)
  {
    hide LowBits, Pow2;
    if p > 0 {
      ProbeIsTriangle(g, p - 1, k);
      LowBitsAdd(g + Triangle(p - 1), p, k);
    }
  }

  lemma {:induction false} TimesNextRight(d: nat, x: nat)
    ensures Times(d, x + 1) == Times(d, x) + d
  {
    if d > 0 { TimesNextRight(d - 1, x); }
  }

  /** Twice the distance between two triangle numbers is a product of an odd and an even number. */
  lemma {:induction false} TriangleDistance(i: nat, d: nat)
    ensures 2 * (Triangle(i + d) - Triangle(i)) == Times(d, 2 * i + d + 1)
  {
    if d > 0 {
      TriangleDistance(i, d - 1);
      TimesNextRight(d - 1, 2 * i + d);
    }
  }

  lemma {:induction false} OddTimes(a: nat, b: nat)
    requires a % 2 == 1
    ensures Times(a, b) % 2 == b % 2
  {
    if a > 1 {
      OddTimes(a - 2, b);
      assert Times(a, b) == Times(a - 1, b) + b == Times(a - 2, b) + b + b;
    } else {
      assert Times(1, b) == Times(0, b) + b;
    }
  }

  /** A power of two that divides a product divides the even factor. */
  lemma {:induction false} OddFactor(a: nat, b: nat, m: nat)
    requires a % 2 == 1 && LowBits(Times(a, b), m) == 0
    ensures LowBits(b, m) == 0
  {
    if m > 0 {
      OddTimes(a, b);
      assert b == 2 * (b / 2);
      TimesDoubleRight(a, b / 2);
      OddFactor(a, b / 2, m - 1);
    }
  }

  lemma {:induction false} TimesDoubleRight(a: nat, b: nat)
    ensures Times(a, 2 * b) == 2 * Times(a, b)
  {
    if a > 0 { TimesDoubleRight(a - 1, b); }
  }

  lemma TimesCommutes(a: nat, b: nat)
    ensures Times(a, b) == Times(b, a)
  {
    TimesIsProduct(a, b);
    TimesIsProduct(b, a);
  }

  lemma SameLowBits(x: nat, y: nat, k: nat)
    requires x <= y && LowBits(x, k) == LowBits(y, k)
    ensures LowBits(2 * (y - x), k + 1) == 0
  {
    hide LowBits, Pow2;
    var q := Quotient(x, k);
    var r := Quotient(y, k);
    if r < q { TimesMonotone(r, q, Pow2(k)); }
    TimesSum(q, r - q, Pow2(k));
    LowBitsOf(r - q, k, 0);
    DoubleLowBits(y - x, k);
  }

  lemma DoubleLowBits(x: nat, k: nat)
    ensures LowBits(2 * x, k + 1) == 2 * LowBits(x, k)
  {
  }

  lemma SmallLowBits(x: nat, k: nat)
    requires x < Pow2(k)
    ensures LowBits(x, k) == x
  {
    LowBitsOf(0, k, x);
  }

  /** 2^(k + 1) does not divide the product of an odd and an even number that are both smaller. */
  lemma NoSuchProduct(d: nat, e: nat, k: nat)
    requires d % 2 != e % 2 && 0 < d < Pow2(k + 1) && 0 < e < Pow2(k + 1)
    ensures LowBits(Times(d, e), k + 1) != 0
  {
    if LowBits(Times(d, e), k + 1) == 0 {
      hide LowBits, Times, Pow2;
      TimesCommutes(d, e);
      SmallLowBits(e, k + 1);
      SmallLowBits(d, k + 1);
      if d % 2 == 1 { OddFactor(d, e, k + 1); } else { OddFactor(e, d, k + 1); }
    }
  }

  lemma OneOdd(i: nat, d: nat)
    ensures d % 2 != (2 * i + d + 1) % 2
  {
  }

  lemma SameGroup(g: nat, i: nat, d: nat, k: nat)
    requires Probe(g, i, k) == Probe(g, i + d, k)
    ensures LowBits(Times(d, 2 * i + d + 1), k + 1) == 0
  {
    hide LowBits, Triangle, Probe, Times, Pow2;
    ProbeIsTriangle(g, i, k);
    ProbeIsTriangle(g, i + d, k);
    TriangleDistance(i, d);
    SameLowBits(g + Triangle(i), g + Triangle(i + d), k);
  }

  /** No group is probed twice in 2^k probes. */
  lemma ProbeInjective(g: nat, i: nat, j: nat, k: nat)
    requires i < j < Pow2(k)
    ensures Probe(g, i, k) != Probe(g, j, k)
  {
    assert Pow2(k + 1) == 2 * Pow2(k);
    hide LowBits, Probe, Times, Pow2;
    if Probe(g, i, k) == Probe(g, j, k) {
      var d := j - i;
      SameGroup(g, i, d, k);
      OneOdd(i, d);
      NoSuchProduct(d, 2 * i + d + 1, k);
    }
  }

  /** The groups seen in the first n probes. */
  ghost function Seen(g: nat, n: nat, k: nat): set<nat> {
    if n == 0 then {} else Seen(g, n - 1, k) + {Probe(g, n - 1, k)}
  }

  lemma {:induction false} SeenAt(g: nat, n: nat, k: nat, x: nat) returns (p: nat)
    requires x in Seen(g, n, k)
    ensures p < n && Probe(g, p, k) == x
  {
    if x == Probe(g, n - 1, k) {
      p := n - 1;
    } else {
      p := SeenAt(g, n - 1, k, x);
    }
  }

  lemma {:induction false} SeenCount(g: nat, n: nat, k: nat)
    requires n <= Pow2(k)
    ensures |Seen(g, n, k)| == n
  {
    hide Probe, Pow2, LowBits;
    if n > 0 {
      SeenCount(g, n - 1, k);
      if Probe(g, n - 1, k) in Seen(g, n - 1, k) {
        var p := SeenAt(g, n - 1, k, Probe(g, n - 1, k));
        ProbeInjective(g, p, n - 1, k);
      }
    }
  }

  ghost function Below(n: nat): (s: set<nat>)
    ensures |s| == n && forall x :: x in s <==> 0 <= x < n
  {
    if n == 0 then {} else Below(n - 1) + {n - 1}
  }

  lemma SubsetFull(s: set<nat>, t: set<nat>)
    requires s <= t && |s| == |t|
    ensures s == t
  {
    assert t == s + (t - s);
    assert |t - s| == 0;
  }

  /** 2^k probes visit each of the 2^k groups. */
  lemma ProbeCovers(g: nat, k: nat, x: nat) returns (p: nat)
    requires x < Pow2(k)
    ensures p < Pow2(k) && Probe(g, p, k) == x
  {
    SeenCount(g, Pow2(k), k);
    forall y: nat | y in Seen(g, Pow2(k), k) ensures y in Below(Pow2(k)) {
      var p := SeenAt(g, Pow2(k), k, y);
    }
    SubsetFull(Seen(g, Pow2(k), k), Below(Pow2(k)));
    p := SeenAt(g, Pow2(k), k, x);
  }
}
