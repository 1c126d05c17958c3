/** The streaming sponge of include/crypto/hash/keccak/keccak_p.h.  The permutation is an arbitrary function f on states,
    and rate is the number of bytes that are absorbed or squeezed between two permutations. */
module Sponge {
  import opened Words

  const WIDTH := 200

  /** Keccak-p[1600] works on 200 bytes. */
  type State = s: seq<Byte> | |s| == WIDTH witness seq(WIDTH, _ => 0)

  function ZeroState(): State {
    seq(WIDTH, _ => 0)
  }

  /** The state after data was xored into it at offset. */
  function XorIn(s: State, offset: nat, data: seq<Byte>): State
    requires offset + |data| <= WIDTH
  {
    seq(WIDTH, i requires 0 <= i < WIDTH => if offset <= i < offset + |data| then s[i] ^ data[i - offset] else s[i])
  }

  /** A mask of one bit. */
  predicate OneBit(m: Byte) {
    m == 1 || m == 2 || m == 4 || m == 8 || m == 16 || m == 32 || m == 64 || m == 128
  }

  predicate HasBit(b: Byte, m: Byte) {
    b & m != 0
  }

  lemma BitOfXor(x: Byte, y: Byte, z: Byte, m: Byte)
    requires OneBit(m) && z == x ^ y
    ensures HasBit(z, m) <==> HasBit(x, m) != HasBit(y, m)
  {
  }

  /** Every bit in the range is flipped exactly where the data have a 1 bit, and the other bytes stay. */
  lemma XorInBits(s: State, offset: nat, data: seq<Byte>, i: nat, m: Byte)
    requires offset + |data| <= WIDTH && i < WIDTH && OneBit(m)
    ensures offset <= i < offset + |data| ==>
      (HasBit(XorIn(s, offset, data)[i], m) <==> HasBit(s[i], m) != HasBit(data[i - offset], m))
    ensures !(offset <= i < offset + |data|) ==> XorIn(s, offset, data)[i] == s[i]
  {
    hide OneBit, HasBit;
    if offset <= i < offset + |data| { BitOfXor(s[i], data[i - offset], XorIn(s, offset, data)[i], m); }
  }

  lemma XorBack(x: Byte, y: Byte)
    ensures (x ^ y) ^ y == x && 0 ^ y == y
  {
  }

  /** Doing it twice undoes it, and the zero state shows the data. */
  lemma XorInUndone(s: State, offset: nat, data: seq<Byte>)
    requires offset + |data| <= WIDTH
    ensures XorIn(XorIn(s, offset, data), offset, data) == s
    ensures XorIn(ZeroState(), offset, data)[offset..offset + |data|] == data
  {
    forall i | 0 <= i < WIDTH ensures XorIn(XorIn(s, offset, data), offset, data)[i] == s[i] {
      if offset <= i < offset + |data| { XorBack(s[i], data[i - offset]); }
    }
    forall i | 0 <= i < |data| ensures XorIn(ZeroState(), offset, data)[offset + i] == data[i] {
      XorBack(0, data[i]);
    }
  }

  // ----- The standard: SPONGE with pad10*1 (FIPS 202, sections 4 and 5.1) -----

  /** The state after the blocks of rate bytes in p. */
  function Blocks(f: State -> State, s: State, p: seq<Byte>, rate: nat): State
    requires 0 < rate <= WIDTH
    decreases |p|
  {
    if |p| < rate then s else Blocks(f, f(XorIn(s, 0, p[..rate])), p[rate..], rate)
  }

  /** The padding that completes a block with n bytes left, 0 < n: the byte last carries the domain bits and the first
      1 bit of the padding, and the final 1 bit is the top bit of the final byte. */
  function Tail(n: nat, last: Byte): (t: seq<Byte>)
    requires n > 0
    ensures |t| == n
  {
    if n == 1 then [last | 0x80] else [last] + Zeros(n - 2) + [0x80]
  }

  /** The message, padded to whole blocks. */
  function Padded(m: seq<Byte>, last: Byte, rate: nat): seq<Byte>
    requires rate > 0
  {
    if |m| < rate then m + Tail(rate - |m|, last) else m[..rate] + Padded(m[rate..], last, rate)
  }

  /** The first n bytes squeezed out, from state s on. */
  function Stream(f: State -> State, s: State, n: nat, rate: nat): seq<Byte>
    requires 0 < rate <= WIDTH
    decreases n
  {
    if n <= rate then s[..n] else s[..rate] + Stream(f, f(s), n - rate, rate)
  }

  // ----- Absorbing -----

  /** The state and offset after data was absorbed at offset. */
  function Absorbed(f: State -> State, s: State, offset: nat, data: seq<Byte>, rate: nat): (r: (State, nat))
    requires offset < rate <= WIDTH
    ensures r.1 < rate
    decreases |data|
  {
    var t := rate - offset;
    if |data| < t then (XorIn(s, offset, data), offset + |data|)
    else Absorbed(f, f(XorIn(s, offset, data[..t])), 0, data[t..], rate)
  }

  lemma XorTwice(s: State, offset: nat, a: seq<Byte>, b: seq<Byte>)
    requires offset + |a| + |b| <= WIDTH
    ensures XorIn(XorIn(s, offset, a), offset + |a|, b) == XorIn(s, offset, a + b)
  {
    assert |XorIn(s, offset, a + b)| == WIDTH;
  }

  /** Absorbing in two pieces is absorbing the whole. */
  lemma {:induction false} AbsorbSplit(f: State -> State, s: State, offset: nat, a: seq<Byte>, b: seq<Byte>, rate: nat)
    requires offset < rate <= WIDTH
    ensures var r := Absorbed(f, s, offset, a, rate);
      Absorbed(f, r.0, r.1, b, rate) == Absorbed(f, s, offset, a + b, rate)
    decreases |a|
  {
    hide XorIn;
    var t := rate - offset;
    if |a| < t {
      var u := t - |a|;
      if |b| < u {
        XorTwice(s, offset, a, b);
      } else {
        XorTwice(s, offset, a, b[..u]);
        assert (a + b)[..t] == a + b[..u];
        assert (a + b)[t..] == b[u..];
      }
    } else {
      assert (a + b)[..t] == a[..t];
      assert (a + b)[t..] == a[t..] + b;
      AbsorbSplit(f, f(XorIn(s, offset, a[..t])), 0, a[t..], b, rate);
    }
  }

  lemma XorZero(x: Byte)
    ensures x ^ 0 == x
  {
  }

  lemma XorNothing(s: State, offset: nat, n: nat)
    requires offset + n <= WIDTH
    ensures XorIn(s, offset, Zeros(n)) == s
  {
    forall i | 0 <= i < WIDTH ensures XorIn(s, offset, Zeros(n))[i] == s[i] { XorZero(s[i]); }
  }

  /** Two single bytes, or one in the last place, are the padding of the block. */
  lemma TailInSteps(s: State, offset: nat, last: Byte, rate: nat)
    requires offset < rate <= WIDTH
    ensures XorIn(s, offset, Tail(rate - offset, last)) ==
      if offset < rate - 1 then XorIn(XorIn(s, offset, [last]), rate - 1, [0x80]) else XorIn(s, rate - 1, [last | 0x80])
  {
    hide XorIn;
    var n := rate - offset;
    if n > 1 {
      XorTwice(s, offset, [last], Zeros(n - 2));
      XorNothing(XorIn(s, offset, [last]), offset + 1, n - 2);
      XorTwice(s, offset, [last] + Zeros(n - 2), [0x80]);
    }
  }

  /** Absorbing a message and finalizing is the absorbing phase of the standard on the padded message. */
  lemma {:induction false} AbsorbIsSponge(f: State -> State, s: State, m: seq<Byte>, last: Byte, rate: nat)
    requires 0 < rate <= WIDTH
    ensures var r := Absorbed(f, s, 0, m, rate);
      f(XorIn(r.0, r.1, Tail(rate - r.1, last))) == Blocks(f, s, Padded(m, last, rate), rate)
    decreases |m|
  {
    hide XorIn, Tail;
    var p := Padded(m, last, rate);
    if |m| < rate {
      var tail := Tail(rate - |m|, last);
      XorTwice(s, 0, m, tail);
      assert p[..rate] == p && p[rate..] == [];
    } else {
      assert p[..rate] == m[..rate] && p[rate..] == Padded(m[rate..], last, rate);
      AbsorbIsSponge(f, f(XorIn(s, 0, m[..rate])), m[rate..], last, rate);
    }
  }

  // ----- Squeezing -----

  /** The next n bytes when offset bytes of state s were squeezed already. */
  function Next(f: State -> State, s: State, offset: nat, n: nat, rate: nat): seq<Byte>
    requires offset <= rate <= WIDTH && rate > 0
  {
    if n <= rate - offset then s[offset..offset + n]
    else s[offset..rate] + Stream(f, f(s), n - (rate - offset), rate)
  }

  /** The state and offset that `sponge_keccak_1600_squeeze` leaves. */
  function Squeezed(f: State -> State, s: State, offset: nat, n: nat, rate: nat): (r: (State, nat))
    requires offset <= rate <= WIDTH && rate > 0
    ensures r.1 <= rate
    decreases n, if offset == rate then 1 else 0
  {
    if offset == rate then Squeezed(f, f(s), 0, n, rate)
    else if n <= rate - offset then (s, offset + n)
    else Squeezed(f, f(s), 0, n - (rate - offset), rate)
  }

  lemma NextAtEnd(f: State -> State, s: State, n: nat, rate: nat)
    requires 0 < rate <= WIDTH
    ensures Next(f, s, rate, n, rate) == Stream(f, f(s), n, rate)
    ensures Next(f, s, 0, n, rate) == Stream(f, s, n, rate)
  {
    if n == 0 {
      assert s[rate..rate] == [] == f(s)[..0];
    } else {
      assert s[rate..rate] + Stream(f, f(s), n, rate) == Stream(f, f(s), n, rate);
    }
  }

  lemma {:induction false} StreamSplit(f: State -> State, s: State, n: nat, k: nat, rate: nat)
    requires 0 < rate <= WIDTH
    ensures var r := Squeezed(f, s, 0, n, rate);
      Stream(f, s, n + k, rate) == Stream(f, s, n, rate) + Next(f, r.0, r.1, k, rate)
    decreases n
  {
    if n <= rate {
      NextSplit(f, s, 0, n, k, rate);
    } else {
      StreamSplit(f, f(s), n - rate, k, rate);
      assert s[..rate] + (Stream(f, f(s), n - rate, rate) + Next(f, Squeezed(f, s, 0, n, rate).0, Squeezed(f, s, 0, n, rate).1, k, rate))
        == (s[..rate] + Stream(f, f(s), n - rate, rate)) + Next(f, Squeezed(f, s, 0, n, rate).0, Squeezed(f, s, 0, n, rate).1, k, rate);
    }
  }

  lemma NextSplit(f: State -> State, s: State, offset: nat, n: nat, k: nat, rate: nat)
    requires offset < rate <= WIDTH && offset + n <= rate
    ensures Next(f, s, offset, n + k, rate) == Next(f, s, offset, n, rate) + Next(f, s, offset + n, k, rate)
  {
    if n + k <= rate - offset {
      assert s[offset..offset + n + k] == s[offset..offset + n] + s[offset + n..offset + n + k];
    } else {
      hide Stream;
      var more := Stream(f, f(s), n + k - (rate - offset), rate);
      assert k - (rate - (offset + n)) == n + k - (rate - offset);
      assert s[offset..rate] + more == s[offset..offset + n] + (s[offset + n..rate] + more);
    }
  }

  /** Squeezing in two pieces is squeezing the whole. */
  lemma SqueezeSplit(f: State -> State, s: State, offset: nat, n: nat, k: nat, rate: nat)
    requires offset <= rate <= WIDTH && rate > 0
    ensures var r := Squeezed(f, s, offset, n, rate);
      Next(f, s, offset, n + k, rate) == Next(f, s, offset, n, rate) + Next(f, r.0, r.1, k, rate)
  {
    var r := Squeezed(f, s, offset, n, rate);
    if offset == rate {
      NextAtEnd(f, s, n + k, rate);
      NextAtEnd(f, s, n, rate);
      StreamSplit(f, f(s), n, k, rate);
    } else if n <= rate - offset {
      NextSplit(f, s, offset, n, k, rate);
    } else {
      var t := rate - offset;
      StreamSplit(f, f(s), n - t, k, rate);
      assert n + k - t == (n - t) + k;
      assert s[offset..rate] + (Stream(f, f(s), n - t, rate) + Next(f, r.0, r.1, k, rate))
        == (s[offset..rate] + Stream(f, f(s), n - t, rate)) + Next(f, r.0, r.1, k, rate);
    }
  }

  // ----- The code -----

  function Concat<T>(parts: seq<seq<T>>): seq<T> {
    if parts == [] then [] else parts[0] + Concat(parts[1..])
  }

  function Sum(ns: seq<nat>): nat {
    if ns == [] then 0 else ns[0] + Sum(ns[1..])
  }

  lemma {:induction false} ConcatAppend<T>(parts: seq<seq<T>>, last: seq<T>)
    ensures Concat(parts + [last]) == Concat(parts) + last
  {
    if parts == [] {
      assert parts + [last] == [last] && [last][1..] == [];
    } else {
      assert (parts + [last])[1..] == parts[1..] + [last];
      ConcatAppend(parts[1..], last);
    }
  }

  lemma {:induction false} SumAppend(ns: seq<nat>, n: nat)
    ensures Sum(ns + [n]) == Sum(ns) + n
  {
    if ns == [] {
      assert [n][1..] == [];
    } else {
      assert (ns + [n])[1..] == ns[1..] + [n];
      SumAppend(ns[1..], n);
    }
  }

  /** The state buffer and curr_offset. */
  class Keccak {
    const f: State -> State
    const rate: nat
    const state: array<Byte>
    var offset: nat

    ghost predicate Valid()
      reads this, state
    {
      0 < rate <= WIDTH && state.Length == WIDTH && offset <= rate
    }

    constructor (f: State -> State, rate: nat)
      requires 0 < rate <= WIDTH
      ensures Valid() && this.f == f && this.rate == rate && fresh(state) && state[..] == ZeroState() && offset == 0
    {
      this.f := f;
      this.rate := rate;
      state := new Byte[WIDTH](_ => 0);
      offset := 0;
    }

    /** `keccak_p_1600_xor_bytes` */
    method XorBytes(data: seq<Byte>, at: nat)
      requires Valid() && at + |data| <= WIDTH
      modifies state
      ensures state[..] == XorIn(old(state[..]), at, data)
    {
      for i := 0 to |data|
        invariant forall j :: 0 <= j < WIDTH ==>
          state[j] == if at <= j < at + i then old(state[j]) ^ data[j - at] else old(state[j])
      {
        state[at + i] := state[at + i] ^ data[i];
      }
    }

    method Permute()
      requires Valid()
      modifies state
      ensures state[..] == f(old(state[..]))
    {
      var s := f(state[..]);
      forall i | 0 <= i < WIDTH { state[i] := s[i]; }
    }

    /** `sponge_keccak_1600_absorb` */
    method Absorb(data: seq<Byte>)
      requires Valid() && offset < rate
      modifies this, state
      ensures Valid() && offset < rate
      ensures (state[..], offset) == Absorbed(f, old(state[..]), old(offset), data, rate)
    {
      hide XorIn;
      ghost var want := Absorbed(f, state[..], offset, data, rate);
      var t := rate - offset;
      if |data| < t {
        XorBytes(data, offset);
        offset := offset + |data|;
        return;
      }
      XorBytes(data[..t], offset);
      Permute();
      var rest := data[t..];
      while |rest| >= rate
        invariant Valid() && want == Absorbed(f, state[..], 0, rest, rate)
      {
        XorBytes(rest[..rate], 0);
        Permute();
        rest := rest[rate..];
      }
      XorBytes(rest, 0);
      offset := |rest|;
    }

    /** `sponge_keccak_1600_finalize`: the padding that completes the block is absorbed; squeezing starts at offset 0. */
    method Finalize(last: Byte)
      requires Valid() && offset < rate
      modifies this, state
      ensures Valid() && offset == 0
      ensures state[..] == f(XorIn(old(state[..]), old(offset), Tail(rate - old(offset), last)))
    {
      hide XorIn, Tail;
      TailInSteps(state[..], offset, last, rate);
      if offset < rate - 1 {
        XorBytes([last], offset);
        XorBytes([0x80], rate - 1);
      } else {
        XorBytes([last | 0x80], rate - 1);
      }
      Permute();
      offset := 0;
    }

    /** The loop of `sponge_keccak_1600_squeeze` and what follows it: n bytes from a fresh state. */
    method SqueezeBlocks(n: nat) returns (out: seq<Byte>)
      requires Valid() && n > 0
      modifies this, state
      ensures Valid() && out == Stream(f, old(state[..]), n, rate)
      ensures (state[..], offset) == Squeezed(f, old(state[..]), 0, n, rate)
    {
      hide Stream, Squeezed, Next;
      ghost var want, left := Stream(f, state[..], n, rate), Squeezed(f, state[..], 0, n, rate);
      out := [];
      var k := n;
      assert [] + want == want;
      while k > rate
        invariant Valid() && 0 < k && want == out + Stream(f, state[..], k, rate)
        invariant left == Squeezed(f, state[..], 0, k, rate)
      {
        StreamStep(f, state[..], out, k, rate);
        out := out + state[..rate];
        Permute();
        k := k - rate;
      }
      SqueezeWithin(f, state[..], 0, k, rate);
      NextAtEnd(f, state[..], k, rate);
      out := out + state[..k];
      offset := k;
    }

    /** `sponge_keccak_1600_squeeze` */
    method Squeeze(n: nat) returns (out: seq<Byte>)
      requires Valid()
      modifies this, state
      ensures Valid() && out == Next(f, old(state[..]), old(offset), n, rate)
      ensures (state[..], offset) == Squeezed(f, old(state[..]), old(offset), n, rate)
    {
      hide Stream, Squeezed, Next;
      if offset == rate {
        SqueezeAtEnd(f, state[..], n, rate);
        Permute();
        offset := 0;
      }
      if n <= rate - offset {
        SqueezeWithin(f, state[..], offset, n, rate);
        out := state[offset..offset + n];
        offset := offset + n;
        return;
      }
      SqueezeBeyond(f, state[..], offset, n, rate);
      out := state[offset..rate];
      var k := n - (rate - offset);
      Permute();
      var rest := SqueezeBlocks(k);
      out := out + rest;
    }
  }

  lemma SqueezeAtEnd(f: State -> State, s: State, n: nat, rate: nat)
    requires 0 < rate <= WIDTH
    ensures Next(f, s, rate, n, rate) == Next(f, f(s), 0, n, rate)
    ensures Squeezed(f, s, rate, n, rate) == Squeezed(f, f(s), 0, n, rate)
  {
    NextAtEnd(f, s, n, rate);
    NextAtEnd(f, f(s), n, rate);
  }

  lemma SqueezeWithin(f: State -> State, s: State, offset: nat, n: nat, rate: nat)
    requires offset < rate <= WIDTH && n <= rate - offset
    ensures Next(f, s, offset, n, rate) == s[offset..offset + n] && Squeezed(f, s, offset, n, rate) == (s, offset + n)
  {
  }

  lemma SqueezeBeyond(f: State -> State, s: State, offset: nat, n: nat, rate: nat)
    requires offset < rate <= WIDTH && n > rate - offset
    ensures var k := n - (rate - offset);
      && Next(f, s, offset, n, rate) == s[offset..rate] + Stream(f, f(s), k, rate)
      && Squeezed(f, s, offset, n, rate) == Squeezed(f, f(s), 0, k, rate)
  {
  }

  lemma StreamStep(f: State -> State, s: State, out: seq<Byte>, k: nat, rate: nat)
    requires 0 < rate <= WIDTH && k > rate
    ensures out + Stream(f, s, k, rate) == (out + s[..rate]) + Stream(f, f(s), k - rate, rate)
    ensures Squeezed(f, s, 0, k, rate) == Squeezed(f, f(s), 0, k - rate, rate)
  {
    var rest := Stream(f, f(s), k - rate, rate);
    assert out + (s[..rate] + rest) == (out + s[..rate]) + rest;
  }

  /** A message absorbed in any pieces and squeezed in any pieces gives the bytes that the standard's SPONGE gives for
      the whole message. */
  method Hash(f: State -> State, rate: nat, message: seq<seq<Byte>>, last: Byte, lengths: seq<nat>) returns (out: seq<Byte>)
    requires 0 < rate <= WIDTH
    ensures out == Stream(f, Blocks(f, ZeroState(), Padded(Concat(message), last, rate), rate), Sum(lengths), rate)
  {
    hide XorIn, Absorbed, Tail, Squeezed, Next, Stream, Padded, Blocks;
    var k := new Keccak(f, rate);
    AbsorbNone(f, ZeroState(), rate);
    for i := 0 to |message|
      invariant k.Valid() && k.f == f && k.rate == rate && fresh(k) && fresh(k.state)
      invariant k.offset < rate && (k.state[..], k.offset) == Absorbed(f, ZeroState(), 0, Concat(message[..i]), rate)
    {
      AbsorbSplit(f, ZeroState(), 0, Concat(message[..i]), message[i], rate);
      ConcatAppend(message[..i], message[i]);
      assert message[..i] + [message[i]] == message[..i + 1];
      k.Absorb(message[i]);
    }
    assert message[..|message|] == message;
    AbsorbIsSponge(f, ZeroState(), Concat(message), last, rate);
    k.Finalize(last);
    ghost var s: State := k.state[..];
    StreamBegins(f, s, rate);
    out := [];
    for i := 0 to |lengths|
      invariant k.Valid() && k.f == f && k.rate == rate && fresh(k) && fresh(k.state)
      invariant Continues(f, s, rate, Sum(lengths[..i]), out, k.state[..], k.offset)
    {
      ghost var was, at := k.state[..], k.offset;
      var part := k.Squeeze(lengths[i]);
      ContinuesOn(f, s, rate, Sum(lengths[..i]), out, was, at, lengths[i]);
      SumAppend(lengths[..i], lengths[i]);
      assert lengths[..i] + [lengths[i]] == lengths[..i + 1];
      out := out + part;
    }
    assert lengths[..|lengths|] == lengths;
    AllSqueezed(f, s, rate, Sum(lengths), out, k.state[..], k.offset);
  }

  /** out are the first done bytes of the stream from s on, and the rest of it comes from state now at offset. */
  ghost predicate Continues(f: State -> State, s: State, rate: nat, done: nat, out: seq<Byte>, now: State, offset: nat)
    requires offset <= rate <= WIDTH && rate > 0
  {
    forall n: nat :: Stream(f, s, done + n, rate) == out + Next(f, now, offset, n, rate)
  }

  lemma ContinuesOn(f: State -> State, s: State, rate: nat, done: nat, out: seq<Byte>, now: State, offset: nat, n: nat)
    requires offset <= rate <= WIDTH && rate > 0 && Continues(f, s, rate, done, out, now, offset)
    ensures var r := Squeezed(f, now, offset, n, rate);
      Continues(f, s, rate, done + n, out + Next(f, now, offset, n, rate), r.0, r.1)
  {
    hide Next, Squeezed, Stream;
    var r := Squeezed(f, now, offset, n, rate);
    var part := Next(f, now, offset, n, rate);
    forall k: nat ensures Stream(f, s, done + n + k, rate) == (out + part) + Next(f, r.0, r.1, k, rate) {
      SqueezeSplit(f, now, offset, n, k, rate);
      assert Stream(f, s, done + (n + k), rate) == out + Next(f, now, offset, n + k, rate);
      assert done + n + k == done + (n + k);
      assert out + (part + Next(f, r.0, r.1, k, rate)) == (out + part) + Next(f, r.0, r.1, k, rate);
    }
  }

  lemma AllSqueezed(f: State -> State, s: State, rate: nat, done: nat, out: seq<Byte>, now: State, offset: nat)
    requires offset <= rate <= WIDTH && rate > 0 && Continues(f, s, rate, done, out, now, offset)
    ensures out == Stream(f, s, done, rate)
  {
    assert Next(f, now, offset, 0, rate) == [];
    assert Stream(f, s, done + 0, rate) == out + [];
  }

  lemma AbsorbNone(f: State -> State, s: State, rate: nat)
    requires 0 < rate <= WIDTH
    ensures Absorbed(f, s, 0, Concat([]), rate) == (s, 0)
  {
    XorNothing(s, 0, 0);
    assert Zeros(0) == Concat([]);
  }

  lemma StreamBegins(f: State -> State, s: State, rate: nat)
    requires 0 < rate <= WIDTH
    ensures Continues(f, s, rate, 0, [], s, 0)
  {
    forall n: nat ensures Stream(f, s, 0 + n, rate) == [] + Next(f, s, 0, n, rate) {
      NextAtEnd(f, s, n, rate);
    }
  }
}
