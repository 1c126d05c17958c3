/** The constant-time sorting routine of src/crypto/sort/sort.c: Batcher's merge exchange
    for arrays of any length.

    `safe_sort_uint32` and `safe_sort_uint64` are the same loop nest over two word widths,
    so the width is the parameter `modulus` (2^32 or 2^64) of the methods below. */
module MergeExchange {
  import opened Arith

  function Min(x: nat, y: nat): nat { if x <= y then x else y }

  function Max(x: nat, y: nat): nat { if x <= y then y else x }

  // ----- Blocks -----

  /** Indices are grouped in blocks of p; y lies in a block with an odd number. */
  predicate OddBlock(y: nat, p: nat)
    requires p > 0
  {
    y >= p && !OddBlock(y - p, p)
  }

  lemma {:induction false} OddBlockIsQuotientParity(y: nat, p: nat)
    requires p > 0
    ensures OddBlock(y, p) <==> (y / p) % 2 == 1
  {
    DivStep(y, p);
    if y >= p { OddBlockIsQuotientParity(y - p, p); }
  }

  /** Moving by d changes the parity of the block. */
  ghost predicate Flips(d: nat, p: nat) {
    exists k: nat :: k % 2 == 1 && Times(k, p) == d
  }

  lemma {:induction false} BlockShift(y: nat, p: nat, k: nat)
    requires p > 0
    ensures OddBlock(y + Times(k, p), p) == (OddBlock(y, p) != (k % 2 == 1))
  {
    if k > 0 { BlockShift(y, p, k - 1); }
  }

  lemma Flip(y: nat, p: nat, d: nat)
    requires p > 0 && Flips(d, p)
    ensures OddBlock(y + d, p) == !OddBlock(y, p)
  {
    var k: nat :| k % 2 == 1 && Times(k, p) == d;
    BlockShift(y, p, k);
  }

  lemma FlipsOnce(p: nat)
    ensures Flips(p, p)
  {
    assert Times(1, p) == Times(0, p) + p;
  }

  lemma FlipsShort(p: nat, m: nat, q: nat)
    requires m > 0 && q == Times(m, 2 * p)
    ensures q >= 2 * p && Flips(q - p, p)
  {
    TimesDouble(m, p);
    assert Times(2 * m - 1, p) == q - p;
  }

  // ----- What a pass means -----

  /** The value at index y after one pass that compares x with x + d for every x whose block
      parity is `odd`, smaller value first. */
  function Exchanged(s: seq<nat>, p: nat, odd: bool, d: nat, y: nat): nat
    requires p > 0 && y < |s|
  {
    if OddBlock(y, p) == odd then
      if y + d < |s| then Min(s[y], s[y + d]) else s[y]
    else
      if y >= d then Max(s[y - d], s[y]) else s[y]
  }

  ghost predicate Passed(s: seq<nat>, s': seq<nat>, p: nat, odd: bool, d: nat)
    requires p > 0
  {
    |s'| == |s| && forall y: nat :: y < |s| ==> s'[y] == Exchanged(s, p, odd, d, y)
  }

  ghost predicate SortedAtStride(s: seq<nat>, m: nat) {
    forall y: nat, z: nat :: y + m == z < |s| ==> s[y] <= s[z]
  }

  /** The state between two passes of phase p.  Every residue class modulo p holds two interleaved
      ascending runs; an entry of an even block is at most its right neighbour in
      the other run, and an entry of an odd block is at most the entry w further on. */
  ghost predicate Merging(s: seq<nat>, p: nat, w: nat)
    requires p > 0
  {
    && SortedAtStride(s, 2 * p)
    && (forall y: nat, z: nat :: y + p == z < |s| && !OddBlock(y, p) ==> s[y] <= s[z])
    && (forall y: nat, z: nat :: y + w == z < |s| && OddBlock(y, p) ==> s[y] <= s[z])
  }

  /** The first pass of a phase, d = p, on an array sorted at stride 2p. */
  lemma FirstPassMerging(s: seq<nat>, s': seq<nat>, p: nat, w: nat)
    requires p > 0 && SortedAtStride(s, 2 * p) && Passed(s, s', p, false, p)
    requires w + p >= |s|
    ensures Merging(s', p, w)
  {
    forall y: nat, z: nat | y + 2 * p == z < |s|
      ensures s'[y] <= s'[z]
    {
      assert OddBlock(z, p) == !OddBlock(z - p, p) == OddBlock(y, p);
      if OddBlock(y, p) {
        assert s[y - p] <= s[z - p];
      } else if z + p < |s| {
        assert s[y + p] <= s[z + p];
      }
    }
    forall y: nat, z: nat | y + p == z < |s| && !OddBlock(y, p)
      ensures s'[y] <= s'[z]
    {
      assert OddBlock(z, p);
    }
  }

  /** A later pass, d = q - p with q a multiple of 2p, halves the distance w. */
  lemma NextPassMerging(s: seq<nat>, s': seq<nat>, p: nat, m: nat, q: nat)
    requires p > 0 && m > 0 && q == Times(m, 2 * p)
    requires q >= p
    requires Merging(s, p, 2 * q - p) && Passed(s, s', p, true, q - p)
    ensures Merging(s', p, q - p)
  {
    FlipsShort(p, m, q);
    NextPassStride(s, s', p, q - p);
    forall y: nat, z: nat | y + q == z < |s|
      ensures s[y] <= s[z]
    {
      StrideClimb(s, p, y, m);
    }
    NextPassNeighbours(s, s', p, q);
  }

  lemma NextPassStride(s: seq<nat>, s': seq<nat>, p: nat, d: nat)
    requires p > 0 && SortedAtStride(s, 2 * p) && Passed(s, s', p, true, d)
    ensures SortedAtStride(s', 2 * p)
  {
    forall y: nat, z: nat | y + 2 * p == z < |s|
      ensures s'[y] <= s'[z]
    {
      assert OddBlock(z, p) == !OddBlock(z - p, p) == OddBlock(y, p);
      if OddBlock(y, p) {
        if z + d < |s| {
          assert s[y + d] <= s[z + d];
        }
      } else if y >= d {
        assert s[y - d] <= s[z - d];
      }
    }
  }

  lemma NextPassNeighbours(s: seq<nat>, s': seq<nat>, p: nat, q: nat)
    requires 0 < 2 * p <= q && Flips(q - p, p)
    requires Merging(s, p, 2 * q - p) && Passed(s, s', p, true, q - p)
    requires SortedAtStride(s, q)
    ensures forall y: nat, z: nat :: y + p == z < |s| && !OddBlock(y, p) ==> s'[y] <= s'[z]
    ensures forall y: nat, z: nat :: y + (q - p) == z < |s| && OddBlock(y, p) ==> s'[y] <= s'[z]
  {
    forall y: nat, z: nat | y + p == z < |s| && !OddBlock(y, p) ensures s'[y] <= s'[z] {
      EvenNeighbour(s, s', p, q, y, z);
    }
    forall y: nat, z: nat | y + (q - p) == z < |s| && OddBlock(y, p) ensures s'[y] <= s'[z] {
      hide Merging, SortedAtStride;
      Flip(y, p, q - p);
    }
  }

  /** s'[y] is max(s[y - d], s[y]) and s'[z] is min(s[z], s[z + d]). */
  lemma EvenNeighbour(s: seq<nat>, s': seq<nat>, p: nat, q: nat, y: nat, z: nat)
    requires 0 < 2 * p <= q && Flips(q - p, p)
    requires Merging(s, p, 2 * q - p) && Passed(s, s', p, true, q - p)
    requires SortedAtStride(s, q) && y + p == z < |s| && !OddBlock(y, p)
    ensures s'[y] <= s'[z]
  {
    hide Flips;
    var d := q - p;
    assert OddBlock(z, p);
    assert s'[y] == Exchanged(s, p, true, d, y) && s'[z] == Exchanged(s, p, true, d, z);
    hide OddBlock, Passed;
    if y >= d {
      assert s[y - d] <= s[z];
      Flip(y - d, p, d);
      if z + d < |s| {
        assert s[y - d] <= s[z + d];
      }
    }
    if z + d < |s| {
      assert s[y] <= s[z + d];
    }
  }

  lemma {:induction false} StrideClimb(s: seq<nat>, p: nat, y: nat, m: nat)
    requires p > 0 && SortedAtStride(s, 2 * p)
    requires y + Times(m, 2 * p) < |s|
    ensures s[y] <= s[y + Times(m, 2 * p)]
  {
    if m > 0 {
      StrideClimb(s, p, y, m - 1);
      assert s[y + Times(m - 1, 2 * p)] <= s[y + Times(m, 2 * p)];
    }
  }

  lemma {:induction false} SortedAtOne(s: seq<nat>, i: nat, j: nat)
    requires SortedAtStride(s, 1) && i <= j < |s|
    ensures s[i] <= s[j]
    decreases j
  {
    if i < j {
      SortedAtOne(s, i, j - 1);
      assert s[j - 1] <= s[j];
    }
  }

  // ----- The bit-spreading index -----

  /** The number whose blocks of p are the even blocks of the result: 0, 1, ..., p - 1, 2p, 2p + 1, ... */
  function Spread(u: nat, p: nat): (x: nat)
    requires p > 0
    ensures x >= u
  {
    if u < p then u else Spread(u - p, p) + 2 * p
  }

  /** Consecutive arguments skip exactly one odd block, or nothing. */
  lemma {:induction false} SpreadNext(u: nat, p: nat)
    requires p > 0
    ensures Spread(u, p) < Spread(u + 1, p)
    ensures !OddBlock(Spread(u, p), p)
    ensures forall z: nat :: Spread(u, p) < z < Spread(u + 1, p) ==> OddBlock(z, p)
  {
    if u + 1 < p {
    } else if u + 1 == p {
      assert Spread(p, p) == Spread(0, p) + 2 * p;
    } else {
      SpreadNext(u - p, p);
      forall z: nat | Spread(u, p) < z < Spread(u + 1, p)
        ensures OddBlock(z, p)
      {
        assert OddBlock(z - 2 * p, p);
        assert OddBlock(z, p) == !OddBlock(z - p, p);
      }
      var x := Spread(u, p);
      assert OddBlock(x, p) == !OddBlock(x - p, p) == OddBlock(x - 2 * p, p);
    }
  }

  /** The multiples of p below u are doubled, and the rest is kept. */
  lemma {:induction false} SpreadByParts(q: nat, p: nat, m: nat)
    requires m < p
    ensures Spread(Times(q, p) + m, p) == 2 * Times(q, p) + m
  {
    if q > 0 { SpreadByParts(q - 1, p, m); }
  }

  lemma {:induction false} SpreadByDivision(u: nat, p: nat)
    requires p > 0
    ensures Spread(u, p) == u % p + 2 * Times(u / p, p)
  {
    DivStep(u, p);
    if u >= p { SpreadByDivision(u - p, p); }
  }

  /** x & y */
  function And(x: nat, y: nat): nat {
    if x == 0 then 0 else (if x % 2 == 1 && y % 2 == 1 then 1 else 0) + 2 * And(x / 2, y / 2)
  }

  /** x | y */
  function Or(x: nat, y: nat): nat
    decreases x + y
  {
    if x == 0 && y == 0 then 0 else (if x % 2 == 1 || y % 2 == 1 then 1 else 0) + 2 * Or(x / 2, y / 2)
  }

  lemma {:induction false} AndMask(u: nat, k: nat)
    requires u < Pow2(k)
    ensures And(u, Pow2(k) - 1) == u
  {
    if k > 0 {
      hide And;
      AndMask(u / 2, k - 1);
      AndOdd(u, Pow2(k - 1) - 1);
    }
  }

  lemma {:induction false} AndZero(u: nat)
    ensures And(u, 0) == 0
  {
    if u > 0 { AndZero(u / 2); }
  }

  lemma {:induction false} OrZero(x: nat)
    ensures Or(0, x) == x
  {
    if x > 0 { OrZero(x / 2); }
  }

  /** The masks take u apart without a common bit, and the shift moves the upper part up by one. */
  lemma {:induction false} MaskedSpread(u: nat, log: nat, bits: nat)
    requires u < Pow2(bits + log)
    ensures Or(And(u, Pow2(log) - 1), 2 * And(u, Times(Pow2(log), Pow2(bits) - 1))) == 2 * u - LowBits(u, log)
  {
    hide And, Or, Times, Pow2;
    MaskParts(log, bits);
    if log == 0 {
      AndZero(u);
      AndMask(u, bits);
      OrZero(2 * u);
    } else {
      var mask1, mask2 := Pow2(log - 1) - 1, Times(Pow2(log - 1), Pow2(bits) - 1);
      MaskedSpread(u / 2, log - 1, bits);
      AndOdd(u, mask1);
      AndEven(u, mask2);
      OrStep(u % 2, And(u / 2, mask1), 2 * And(u / 2, mask2));
    }
  }

  lemma MaskParts(log: nat, bits: nat)
    ensures log == 0 ==> Pow2(log) == 1 && Times(Pow2(log), Pow2(bits) - 1) == Pow2(bits) - 1
    ensures log > 0 ==> Pow2(log) == 2 * Pow2(log - 1) && Pow2(bits + log) == 2 * Pow2(bits + log - 1)
    ensures log > 0 ==> Times(Pow2(log), Pow2(bits) - 1) == 2 * Times(Pow2(log - 1), Pow2(bits) - 1)
  {
    if log == 0 {
      assert Times(1, Pow2(bits) - 1) == Times(0, Pow2(bits) - 1) + (Pow2(bits) - 1);
    } else {
      TimesDouble(Pow2(log - 1), Pow2(bits) - 1);
    }
  }

  lemma AndOdd(u: nat, mask: nat)
    ensures And(u, 2 * mask + 1) == u % 2 + 2 * And(u / 2, mask)
  {
    assert (2 * mask + 1) / 2 == mask;
  }

  lemma AndEven(u: nat, mask: nat)
    ensures And(u, 2 * mask) == 2 * And(u / 2, mask)
  {
    assert 2 * mask / 2 == mask;
  }

  lemma OrStep(e: nat, x: nat, y: nat)
    requires e < 2
    ensures Or(e + 2 * x, 2 * y) == e + 2 * Or(x, y)
  {
    assert (e + 2 * x) / 2 == x && 2 * y / 2 == y;
  }

  /** The masked index of both inner loops, for mask1 == 2^log - 1 and mask2 == (2^bits - 1) << log. */
  method SpreadBits(u: nat, mask1: nat, mask2: nat, ghost log: nat, ghost bits: nat) returns (offset: nat)
    requires mask1 == Pow2(log) - 1 && mask2 == Times(Pow2(log), Pow2(bits) - 1) && u < Pow2(bits + log)
    ensures offset == Spread(u, Pow2(log))
  {
    hide *;
    offset := Or(And(u, mask1), 2 * And(u, mask2));
    MaskedSpread(u, log, bits);
    ghost var q := Quotient(u, log);
    SpreadByParts(q, Pow2(log), LowBits(u, log));
  }

  // ----- The loop nest -----

  ghost predicate Words(s: seq<nat>, modulus: nat) {
    forall k :: 0 <= k < |s| ==> s[k] < modulus
  }

  function Exchange(s: seq<nat>, i: nat, j: nat): (r: seq<nat>)
    requires i < j < |s|
    ensures |r| == |s|
  {
    s[i := Min(s[i], s[j])][j := Max(s[i], s[j])]
  }

  lemma ExchangeKeeps(s: seq<nat>, i: nat, j: nat)
    requires i < j < |s|
    ensures multiset(Exchange(s, i, j)) == multiset(s)
  {
    if s[i] <= s[j] {
      assert s[i := s[i]][j := s[j]] == s;
    } else {
      assert multiset(s[i := s[j]][j := s[i]]) == multiset(s);
    }
  }

  lemma ExchangeWords(s: seq<nat>, i: nat, j: nat, modulus: nat)
    requires i < j < |s| && Words(s, modulus)
    ensures Words(Exchange(s, i, j), modulus) && s[i] < modulus && s[j] < modulus
  {
  }

  /** One exchange.  The larger word is recovered from the wrapped sum of the two. */
  method CompareExchange(a: array<nat>, offset1: nat, offset2: nat, modulus: nat)
    requires offset1 < offset2 < a.Length && Words(a[..], modulus)
    modifies a
    ensures a[..] == Exchange(old(a[..]), offset1, offset2)
    ensures multiset(a[..]) == old(multiset(a[..]))
    ensures Words(a[..], modulus)
  {
    hide Words, Min, Max;
    ExchangeKeeps(a[..], offset1, offset2);
    ExchangeWords(a[..], offset1, offset2, modulus);
    var x, y := a[offset1], a[offset2];
    WrappedMax(x, y, modulus);
    var sum := (x + y) % modulus;
    var lo := Min(x, y);
    var hi := (sum - lo) % modulus;
    a[offset1] := lo;
    a[offset2] := hi;
  }

  lemma WrappedMax(x: nat, y: nat, modulus: nat)
    requires x < modulus && y < modulus
    ensures ((x + y) % modulus - Min(x, y)) % modulus == Max(x, y)
  {
    DivStep(x + y, modulus);
    if x + y < modulus {
      SmallModulo(Max(x, y), modulus);
    } else {
      SmallModulo(x + y - modulus, modulus);
      WrapNegative(Max(x, y), modulus);
    }
  }

  lemma WrapNegative(x: nat, m: nat)
    requires x < m
    ensures (x - m) % m == x
  {
    assert x - m == (-1) * m + x;
  }

  ghost predicate PassedAt(s: seq<nat>, c: seq<nat>, p: nat, odd: bool, d: nat, b: nat, y: nat)
    requires p > 0 && y < |s| == |c|
  {
    c[y] == if (if OddBlock(y, p) == odd then y else y - d) < b then Exchanged(s, p, odd, d, y) else s[y]
  }

  /** A pass under way: exactly the pairs whose lower index is below b have been exchanged. */
  ghost predicate PassedBelow(s: seq<nat>, c: seq<nat>, p: nat, odd: bool, d: nat, b: nat)
    requires p > 0
  {
    |c| == |s| && forall y: nat :: y < |s| ==> PassedAt(s, c, p, odd, d, b, y)
  }

  lemma PassStepAt(s: seq<nat>, c: seq<nat>, p: nat, odd: bool, d: nat, b: nat, b': nat, y: nat)
    requires p > 0 && Flips(d, p) && |c| == |s| && y < |s|
    requires 0 < d && b + d < |s| && OddBlock(b, p) == odd && b < b'
    requires PassedAt(s, c, p, odd, d, b, y) && c[b] == s[b] && c[b + d] == s[b + d]
    requires forall z: nat :: b < z < b' ==> OddBlock(z, p) == !odd
    ensures PassedAt(s, Exchange(c, b, b + d), p, odd, d, b', y)
  {
    hide OddBlock, Flips;
    Flip(b, p, d);
    if y != b && y != b + d && OddBlock(y, p) != odd && y >= d {
      Flip(y - d, p, d);
    }
  }

  lemma PassStep(s: seq<nat>, c: seq<nat>, p: nat, odd: bool, d: nat, b: nat, b': nat)
    requires p > 0 && Flips(d, p) && PassedBelow(s, c, p, odd, d, b)
    requires 0 < d && b + d < |s| && OddBlock(b, p) == odd && b < b'
    requires forall z: nat :: b < z < b' ==> OddBlock(z, p) == !odd
    ensures PassedBelow(s, Exchange(c, b, b + d), p, odd, d, b')
  {
    hide OddBlock, Flips, Exchanged, Exchange, PassedAt;
    Flip(b, p, d);
    assert PassedAt(s, c, p, odd, d, b, b) && PassedAt(s, c, p, odd, d, b, b + d);
    Unpassed(s, c, p, odd, d, b, b);
    Unpassed(s, c, p, odd, d, b, b + d);
    var c' := Exchange(c, b, b + d);
    forall y: nat | y < |s| ensures PassedAt(s, c', p, odd, d, b', y) {
      assert PassedAt(s, c, p, odd, d, b, y);
      PassStepAt(s, c, p, odd, d, b, b', y);
    }
  }

  lemma Unpassed(s: seq<nat>, c: seq<nat>, p: nat, odd: bool, d: nat, b: nat, y: nat)
    requires p > 0 && y < |s| == |c| && PassedAt(s, c, p, odd, d, b, y)
    requires (if OddBlock(y, p) == odd then y else y - d) >= b
    ensures c[y] == s[y]
  {
  }

  lemma PassEnd(s: seq<nat>, c: seq<nat>, p: nat, odd: bool, d: nat, b: nat)
    requires p > 0 && PassedBelow(s, c, p, odd, d, b) && b + d >= |s|
    ensures Passed(s, c, p, odd, d)
  {
    forall y: nat | y < |s| ensures c[y] == Exchanged(s, p, odd, d, y) {
      assert PassedAt(s, c, p, odd, d, b, y);
    }
  }

  /** Index bounds of the inner loops: u stays at or below half the padded length. */
  lemma LoopBounds(u: nat, lenLog2: nat, i: nat)
    requires 1 <= i <= lenLog2 && u <= Pow2(lenLog2 - 1)
    ensures u < Pow2(lenLog2)
    ensures u == Pow2(lenLog2 - 1) ==> Spread(u, Pow2(lenLog2 - i)) == Pow2(lenLog2)
  {
    Pow2Add(i - 1, lenLog2 - i);
    SpreadByParts(Pow2(i - 1), Pow2(lenLog2 - i), 0);
  }

  /** The first inner loop: exchange x with x + p for every x in an even block. */
  method FirstPass(a: array<nat>, modulus: nat, lenLog2: nat, i: nat)
    requires 1 <= i <= lenLog2 && a.Length <= Pow2(lenLog2)
    requires Words(a[..], modulus)
    modifies a
    ensures Passed(old(a[..]), a[..], Pow2(lenLog2 - i), false, Pow2(lenLog2 - i))
    ensures multiset(a[..]) == old(multiset(a[..])) && Words(a[..], modulus)
  {
    hide *;
    var p := Pow2(lenLog2 - i);
    var mask1, mask2 := p - 1, Times(p, Pow2(i) - 1);
    ghost var s: seq<nat> := a[..];
    FirstPassStart(s, p);
    var u := 0;
    while true
      invariant u <= Pow2(lenLog2 - 1)
      invariant Words(a[..], modulus) && multiset(a[..]) == multiset(s)
      invariant PassedBelow(s, a[..], p, false, p, Spread(u, p))
      decreases Pow2(lenLog2 - 1) - u
    {
      LoopBounds(u, lenLog2, i);
      var offset1 := SpreadBits(u, mask1, mask2, lenLog2 - i, i);
      var offset2 := offset1 + p;
      if offset2 >= a.Length { break; }
      FirstPassStep(s, a[..], p, u);
      CompareExchange(a, offset1, offset2, modulus);
      u := u + 1;
    }
    PassEnd(s, a[..], p, false, p, Spread(u, p));
  }

  lemma FirstPassStart(s: seq<nat>, p: nat)
    requires p > 0
    ensures PassedBelow(s, s, p, false, p, Spread(0, p))
  {
  }

  lemma FirstPassStep(s: seq<nat>, c: seq<nat>, p: nat, u: nat)
    requires p > 0 && PassedBelow(s, c, p, false, p, Spread(u, p))
    requires Spread(u, p) + p < |s|
    ensures PassedBelow(s, Exchange(c, Spread(u, p), Spread(u, p) + p), p, false, p, Spread(u + 1, p))
  {
    FlipsOnce(p);
    SpreadNext(u, p);
    PassStep(s, c, p, false, p, Spread(u, p), Spread(u + 1, p));
  }

  /** The second inner loop for one t: exchange x with x + d for every x in an odd block, where
      d = 2^(lenLog2 - t) - p.  The loop runs over the upper index of each pair. */
  method NextPass(a: array<nat>, modulus: nat, lenLog2: nat, i: nat, t: nat)
    requires 1 <= t < i <= lenLog2 && a.Length <= Pow2(lenLog2)
    requires Words(a[..], modulus)
    requires Pow2(lenLog2 - t) >= Pow2(lenLog2 - i)
    modifies a
    ensures Passed(old(a[..]), a[..], Pow2(lenLog2 - i), true, Pow2(lenLog2 - t) - Pow2(lenLog2 - i))
    ensures multiset(a[..]) == old(multiset(a[..])) && Words(a[..], modulus)
  {
    hide *;
    var p, q := Pow2(lenLog2 - i), Pow2(lenLog2 - t);
    var mask1, mask2 := p - 1, Times(p, Pow2(i) - 1);
    ghost var d := q - p;
    ghost var s: seq<nat> := a[..];
    NextPassParity(lenLog2, i, t);
    NextPassStart(s, lenLog2, i, t);
    var u := Pow2(lenLog2 - t - 1);
    while true
      invariant u <= Pow2(lenLog2 - 1) && q <= Spread(u, p)
      invariant Words(a[..], modulus) && multiset(a[..]) == multiset(s)
      invariant PassedBelow(s, a[..], p, true, d, Spread(u, p) - d)
      decreases Pow2(lenLog2 - 1) - u
    {
      LoopBounds(u, lenLog2, i);
      var offset2 := SpreadBits(u, mask1, mask2, lenLog2 - i, i);
      var offset1 := offset2 + p - q;
      if offset2 >= a.Length { break; }
      NextPassStep(s, a[..], p, d, u);
      CompareExchange(a, offset1, offset2, modulus);
      u := u + 1;
    }
    PassEnd(s, a[..], p, true, d, Spread(u, p) - d);
  }

  lemma NextPassStep(s: seq<nat>, c: seq<nat>, p: nat, d: nat, u: nat)
    requires p > 0 && Flips(d, p) && 0 < d <= Spread(u, p) < |s|
    requires PassedBelow(s, c, p, true, d, Spread(u, p) - d)
    ensures Spread(u, p) < Spread(u + 1, p)
    ensures PassedBelow(s, Exchange(c, Spread(u, p) - d, Spread(u, p)), p, true, d, Spread(u + 1, p) - d)
  {
    SpreadNext(u, p);
    var b, b' := Spread(u, p) - d, Spread(u + 1, p) - d;
    Flip(b, p, d);
    forall z: nat | b < z < b'
      ensures !OddBlock(z, p)
    {
      Flip(z, p, d);
      assert OddBlock(z + d, p);
    }
    PassStep(s, c, p, true, d, b, b');
  }

  lemma NextPassParity(lenLog2: nat, i: nat, t: nat)
    requires 1 <= t < i <= lenLog2
    ensures var p, q := Pow2(lenLog2 - i), Pow2(lenLog2 - t);
            && q == Times(Pow2(i - t - 1), 2 * p)
            && q >= 2 * p && Flips(q - p, p)
  {
    Pow2Add(i - t - 1, lenLog2 - i + 1);
    FlipsShort(Pow2(lenLog2 - i), Pow2(i - t - 1), Pow2(lenLog2 - t));
  }

  lemma NextPassStart(s: seq<nat>, lenLog2: nat, i: nat, t: nat)
    requires 1 <= t < i <= lenLog2
    ensures Pow2(lenLog2 - t - 1) <= Pow2(lenLog2 - 1)
    ensures Spread(Pow2(lenLog2 - t - 1), Pow2(lenLog2 - i)) == Pow2(lenLog2 - t)
    ensures var p, q := Pow2(lenLog2 - i), Pow2(lenLog2 - t); q >= p && PassedBelow(s, s, p, true, q - p, p)
  {
    hide PassedBelow, Spread, Times, OddBlock;
    var p, m := Pow2(lenLog2 - i), Pow2(i - t - 1);
    Pow2Monotone(lenLog2 - t - 1, lenLog2 - 1);
    Pow2Add(i - t - 1, lenLog2 - i);
    SpreadByParts(m, p, 0);
    NextPassParity(lenLog2, i, t);
    NothingPassed(s, p, m);
  }

  lemma NothingPassed(s: seq<nat>, p: nat, m: nat)
    requires p > 0 && m > 0
    ensures Times(m, 2 * p) >= p && PassedBelow(s, s, p, true, Times(m, 2 * p) - p, p)
  {
    var q := Times(m, 2 * p);
    var d := q - p;
    forall y: nat | y < |s| ensures PassedAt(s, s, p, true, d, p, y) {
      if !OddBlock(y, p) && y < q { EvenBelow(y, p, m); }
    }
  }

  lemma {:induction false} EvenBelow(y: nat, p: nat, m: nat)
    requires p > 0 && y < Times(m, 2 * p) && !OddBlock(y, p)
    ensures y < Times(m, 2 * p) - p
  {
    if y >= 2 * p {
      assert OddBlock(y, p) == !OddBlock(y - p, p) == OddBlock(y - 2 * p, p);
      EvenBelow(y - 2 * p, p, m - 1);
    } else {
      var r := if y >= p then y - p else y;
      assert !OddBlock(r, p);
      assert Times(m, 2 * p) >= 2 * p;
    }
  }

  /** What holds in phase i before the pass numbered t. */
  ghost predicate MergingBefore(s: seq<nat>, lenLog2: nat, i: nat, t: nat)
    requires 1 <= t <= i <= lenLog2
  {
    var p, w := Pow2(lenLog2 - i), Pow2(lenLog2 - t + 1);
    w >= p && Merging(s, p, w - p)
  }

  lemma PhaseStart(s: seq<nat>, s': seq<nat>, lenLog2: nat, i: nat)
    requires 1 <= i <= lenLog2 && |s| <= Pow2(lenLog2)
    requires SortedAtStride(s, Pow2(lenLog2 - i + 1))
    requires Passed(s, s', Pow2(lenLog2 - i), false, Pow2(lenLog2 - i))
    ensures MergingBefore(s', lenLog2, i, 1)
  {
    Pow2Monotone(lenLog2 - i, lenLog2);
    FirstPassMerging(s, s', Pow2(lenLog2 - i), Pow2(lenLog2) - Pow2(lenLog2 - i));
  }

  lemma NextPassKeepsMerging(s: seq<nat>, s': seq<nat>, lenLog2: nat, i: nat, t: nat)
    requires 1 <= t < i <= lenLog2 && MergingBefore(s, lenLog2, i, t)
    requires Pow2(lenLog2 - t) >= Pow2(lenLog2 - i)
    requires Passed(s, s', Pow2(lenLog2 - i), true, Pow2(lenLog2 - t) - Pow2(lenLog2 - i))
    ensures MergingBefore(s', lenLog2, i, t + 1)
  {
    hide Merging, Passed, Flips, Times;
    assert Pow2(lenLog2 - t + 1) == 2 * Pow2(lenLog2 - t);
    NextPassParity(lenLog2, i, t);
    NextPassMerging(s, s', Pow2(lenLog2 - i), Pow2(i - t - 1), Pow2(lenLog2 - t));
  }

  /** After the last pass the distance is p itself, and the array is sorted at stride p. */
  lemma PhaseDone(s: seq<nat>, lenLog2: nat, i: nat)
    requires 1 <= i <= lenLog2 && MergingBefore(s, lenLog2, i, i)
    ensures SortedAtStride(s, Pow2(lenLog2 - i))
  {
    assert Pow2(lenLog2 - i + 1) == 2 * Pow2(lenLog2 - i);
  }

  /** One phase turns an array sorted at stride 2p into one sorted at stride p. */
  method Phase(a: array<nat>, modulus: nat, lenLog2: nat, i: nat)
    requires 1 <= i <= lenLog2 && a.Length <= Pow2(lenLog2)
    requires Words(a[..], modulus)
    requires SortedAtStride(a[..], Pow2(lenLog2 - i + 1))
    modifies a
    ensures SortedAtStride(a[..], Pow2(lenLog2 - i))
    ensures multiset(a[..]) == old(multiset(a[..])) && Words(a[..], modulus)
  {
    hide *;
    ghost var s: seq<nat> := a[..];
    FirstPass(a, modulus, lenLog2, i);
    PhaseStart(s, a[..], lenLog2, i);
    var t := 1;
    while t < i
      invariant 1 <= t <= i
      invariant Words(a[..], modulus) && multiset(a[..]) == multiset(s)
      invariant MergingBefore(a[..], lenLog2, i, t)
    {
      ghost var c: seq<nat> := a[..];
      Pow2Monotone(lenLog2 - i, lenLog2 - t);
      NextPass(a, modulus, lenLog2, i, t);
      NextPassKeepsMerging(c, a[..], lenLog2, i, t);
      t := t + 1;
    }
    PhaseDone(a[..], lenLog2, i);
  }

  /** The whole routine: an ascending permutation of the input, for every length the callers may pass. */
  method SafeSort(a: array<nat>, modulus: nat)
    requires 1 < a.Length <= Pow2(63)
    requires Words(a[..], modulus)
    modifies a
    ensures forall i, j :: 0 <= i <= j < a.Length ==> a[i] <= a[j]
    ensures multiset(a[..]) == old(multiset(a[..]))
  {
    var lenLog2 := BitLength(a.Length - 1);
    LengthFits(a.Length, lenLog2);
    SortedWhenPadded(a[..], lenLog2);
    var i := 1;
    while i <= lenLog2
      invariant 1 <= i <= lenLog2 + 1
      invariant Words(a[..], modulus) && multiset(a[..]) == old(multiset(a[..]))
      invariant SortedAtStride(a[..], Pow2(lenLog2 + 1 - i))
    {
      Phase(a, modulus, lenLog2, i);
      i := i + 1;
    }
    forall i, j | 0 <= i <= j < a.Length
      ensures a[i] <= a[j]
    {
      SortedAtOne(a[..], i, j);
    }
  }

  lemma SortedWhenPadded(s: seq<nat>, lenLog2: nat)
    requires |s| <= Pow2(lenLog2)
    ensures SortedAtStride(s, Pow2(lenLog2))
  {
  }

  /** len_log2 is at most 63, so no index of the loops exceeds 64 bits. */
  lemma LengthFits(len: nat, lenLog2: nat)
    requires 1 < len <= Pow2(63) && lenLog2 == BitLength(len - 1)
    ensures 1 <= lenLog2 <= 63 && len <= Pow2(lenLog2)
  {
    BitLengthBounds(len - 1);
    if lenLog2 > 63 { Pow2Monotone(63, lenLog2 - 1); }
  }
}
