/** The bytewise padding of the sponge is the pad10*1 of FIPS 202, section 5.1, which is defined on bits.  The bits of a
    byte string are those of its bytes in turn, lowest bit first (section B.1). */
module SpongePadding {
  import opened Arith
  import opened Lists
  import opened Words
  import opened Sponge

  function ByteBits(b: Byte): (r: seq<bool>)
    ensures |r| == 8
  {
    [b & 0x01 != 0, b & 0x02 != 0, b & 0x04 != 0, b & 0x08 != 0, b & 0x10 != 0, b & 0x20 != 0, b & 0x40 != 0, b & 0x80 != 0]
  }

  function Bits(p: seq<Byte>): (r: seq<bool>)
    ensures |r| == 8 * |p|
  {
    if p == [] then [] else ByteBits(p[0]) + Bits(p[1..])
  }

  function NoBits(n: nat): seq<bool> {
    seq(n, _ => false)
  }

  /** pad10*1(x, m) */
  function Pad(x: nat, m: int): (p: seq<bool>)
    requires x > 0
    ensures |p| == (-m - 2) % x + 2
  {
    RemainderRange(-m - 2, x);
    [true] + NoBits((-m - 2) % x) + [true]
  }

  /** The final byte handed to the code carries the domain bits u and the first bit of the padding. */
  predicate Carries(last: Byte, u: seq<bool>) {
    |u| <= 7 && ByteBits(last) == u + [true] + NoBits(7 - |u|)
  }

  lemma {:induction false} BitsAppend(p: seq<Byte>, q: seq<Byte>)
    ensures Bits(p + q) == Bits(p) + Bits(q)
  {
    if p == [] {
      assert p + q == q;
    } else {
      assert (p + q)[1..] == p[1..] + q;
      BitsAppend(p[1..], q);
    }
  }

  lemma {:induction false} BitsOfZeros(n: nat)
    ensures Bits(Zeros(n)) == NoBits(8 * n)
  {
    if n > 0 {
      assert Zeros(n)[1..] == Zeros(n - 1);
      BitsOfZeros(n - 1);
    }
  }

  lemma BitsOfOne(b: Byte)
    ensures Bits([b]) == ByteBits(b)
  {
    assert Bits([b][1..]) == [];
  }

  lemma TopBitSet(b: Byte)
    ensures ByteBits(b | 0x80) == ByteBits(b)[7 := true] && ByteBits(0x80) == NoBits(7) + [true]
  {
  }

  lemma TailIsPad(n: nat, last: Byte, u: seq<bool>)
    requires n > 0 && Carries(last, u) && (|u| <= 6 || n > 1)
    ensures Bits(Tail(n, last)) == u + ([true] + NoBits(8 * n - 2 - |u|) + [true])
  {
    hide ByteBits;
    TopBitSet(last);
    if n == 1 {
      BitsOfOne(last | 0x80);
    } else {
      BitsAppend([last], Zeros(n - 2));
      BitsAppend([last] + Zeros(n - 2), [0x80]);
      BitsOfOne(last);
      BitsOfOne(0x80);
      BitsOfZeros(n - 2);
    }
  }

  lemma RemainderShift(a: int, x: nat)
    requires x > 0
    ensures (a + x) % x == a % x
  {
    RemainderRange(a, x);
    Distribute(a / x, x);
    RemainderUnique(a + x, x, a / x + 1, a % x);
  }

  lemma Cancel<T>(a: seq<T>, p: seq<T>, q: seq<T>)
    ensures a + p == a + q <==> p == q
  {
    assert (a + p)[|a|..] == p && (a + q)[|a|..] == q;
  }

  /** How many zeros pad10*1 takes when k domain bits follow r bytes in a block with n bytes left. */
  lemma ZerosLeft(r: nat, n: nat, k: nat)
    requires n > 0 && k <= 7
    ensures (-(8 * r + k) - 2) % (8 * (r + n)) == if k <= 6 || n > 1 then 8 * n - 2 - k else 8 * (r + n) - 1
  {
    var x: nat, v: int := 8 * (r + n), -(8 * r + k) - 2;
    if k <= 6 || n > 1 { RemainderUnique(v, x, -1, v + x); } else { RemainderUnique(v, x, -2, v + 2 * x); }
  }

  /** The padding of the last, incomplete block. */
  lemma LastBlock(m: seq<Byte>, last: Byte, u: seq<bool>, rate: nat)
    requires |m| < rate && Carries(last, u)
    ensures Bits(m + Tail(rate - |m|, last)) == Bits(m) + (u + Pad(8 * rate, 8 * |m| + |u|)) <==> |u| <= 6 || |m| != rate - 1
  {
    hide Carries, Bits, Tail;
    var n := rate - |m|;
    CarriesFew(last, u);
    BitsAppend(m, Tail(n, last));
    ZerosLeft(|m|, n, |u|);
    if |u| <= 6 || n > 1 { TailIsPad(n, last, u); }
  }

  lemma CarriesFew(last: Byte, u: seq<bool>)
    requires Carries(last, u)
    ensures |u| <= 7
  {
  }

  /** The code absorbs the message followed by the domain bits and pad10*1, unless seven domain bits meet a block with one
      byte left: that byte then has no room for the two bits of the padding. */
  lemma {:induction false} PaddedIsPad(m: seq<Byte>, last: Byte, u: seq<bool>, rate: nat)
    requires rate > 0 && Carries(last, u)
    ensures Bits(Padded(m, last, rate)) == Bits(m) + (u + Pad(8 * rate, 8 * |m| + |u|)) <==>
      |u| <= 6 || |m| % rate != rate - 1
    decreases |m|
  {
    hide Carries, Bits, Tail;
    DivStep(|m|, rate);
    if |m| < rate {
      LastBlock(m, last, u, rate);
    } else {
      var first, rest := m[..rate], m[rate..];
      PaddedIsPad(rest, last, u, rate);
      BitsAppend(first, rest);
      assert m == first + rest;
      BitsAppend(first, Padded(rest, last, rate));
      RemainderShift(-(8 * |m| + |u|) - 2, 8 * rate);
      assert Pad(8 * rate, 8 * |m| + |u|) == Pad(8 * rate, 8 * |rest| + |u|);
      Cancel(Bits(first), Bits(Padded(rest, last, rate)), Bits(rest) + (u + Pad(8 * rate, 8 * |rest| + |u|)));
      Associates(Bits(first), Bits(rest), u + Pad(8 * rate, 8 * |m| + |u|));
    }
  }

  /** The final bytes that callers pass: 01 for the SHA-3 functions, 1111 for SHAKE. */
  lemma FinalBytes()
    ensures Carries(0x06, [false, true]) && Carries(0x1F, [true, true, true, true])
  {
  }
}
