/** The word arithmetic by which mini_libcxx/include/hashmap.hpp looks at eight control bytes at once. */
module HashGroup {

  const LOW: bv64 := 0x0101_0101_0101_0101
  const HIGH: bv64 := 0x8080_8080_8080_8080

  /** Control byte i of a group. */
  function Byte(w: bv64, i: nat): bv64
    requires i < 8
  {
    match i
    case 0 => w & 0xFF
    case 1 => (w >> 8) & 0xFF
    case 2 => (w >> 16) & 0xFF
    case 3 => (w >> 24) & 0xFF
    case 4 => (w >> 32) & 0xFF
    case 5 => (w >> 40) & 0xFF
    case 6 => (w >> 48) & 0xFF
    case 7 => (w >> 56) & 0xFF
  }

  /** The mask bit of byte i. */
  function Bit(i: nat): bv64
    requires i < 8
  {
    match i
    case 0 => 0x80
    case 1 => 0x8000
    case 2 => 0x80_0000
    case 3 => 0x8000_0000
    case 4 => 0x80_0000_0000
    case 5 => 0x8000_0000_0000
    case 6 => 0x80_0000_0000_0000
    case 7 => 0x8000_0000_0000_0000
  }

  /** The eight copies of one byte. */
  function Spread(b: bv64): bv64 {
    LOW * b
  }

  /** The mask of the zero bytes of w, possibly with some more bits. */
  function Zeros(w: bv64): bv64 {
    (w - LOW) & !w & HIGH
  }

  /** The test for an empty slot is exact. */
  lemma ZerosFindsZero(w: bv64)
    ensures Zeros(w) != 0 <==> exists i: nat :: i < 8 && Byte(w, i) == 0
  {
    ZerosBytes(w);
    if Zeros(w) != 0 {
      assert Byte(w, 0) == 0 || Byte(w, 1) == 0 || Byte(w, 2) == 0 || Byte(w, 3) == 0
        || Byte(w, 4) == 0 || Byte(w, 5) == 0 || Byte(w, 6) == 0 || Byte(w, 7) == 0;
    }
  }

  lemma ZerosBytes(w: bv64)
    ensures Zeros(w) != 0 <==>
      || w & 0xFF == 0 || (w >> 8) & 0xFF == 0 || (w >> 16) & 0xFF == 0 || (w >> 24) & 0xFF == 0
      || (w >> 32) & 0xFF == 0 || (w >> 40) & 0xFF == 0 || (w >> 48) & 0xFF == 0 || (w >> 56) & 0xFF == 0
  {
  }

  lemma SpreadIsOr(b: bv64)
    requires b & !0xFF == 0
    ensures Spread(b) == b | (b << 8) | (b << 16) | (b << 24) | (b << 32) | (b << 40) | (b << 48) | (b << 56)
  {
  }

  lemma SpreadBytes(b: bv64, i: nat)
    requires i < 8 && b & !0xFF == 0
    ensures Byte(Spread(b), i) == b
  {
    hide Spread;
    SpreadIsOr(b);
    match i
    case 0 =>
    case 1 =>
    case 2 =>
    case 3 =>
    case 4 =>
    case 5 =>
    case 6 =>
    case 7 =>
  }

  /** The exclusive or of two words.  It has a name because proofs that only pass it on are then cheap. */
  function Xor(w: bv64, v: bv64): bv64 {
    w ^ v
  }

  lemma XorBytes(w: bv64, v: bv64, i: nat)
    requires i < 8
    ensures Byte(Xor(w, v), i) == Xor(Byte(w, i), Byte(v, i))
  {
    match i
    case 0 =>
    case 1 =>
    case 2 =>
    case 3 =>
    case 4 =>
    case 5 =>
    case 6 =>
    case 7 =>
  }

  lemma ZeroMarked(v: bv64, i: nat)
    requires i < 8 && Byte(v, i) == 0
    ensures Marked(Zeros(v), i)
  {
    match i
    case 0 =>
    case 1 =>
    case 2 =>
    case 3 =>
    case 4 =>
    case 5 =>
    case 6 =>
    case 7 =>
  }

  /** A borrow from below can only mark a byte that is one. */
  lemma MarkedIsSmall(v: bv64, i: nat)
    requires i < 8 && Marked(Zeros(v), i)
    ensures Byte(v, i) == 0 || Byte(v, i) == 1
  {
    match i
    case 0 =>
    case 1 =>
    case 2 =>
    case 3 =>
    case 4 =>
    case 5 =>
    case 6 =>
    case 7 =>
  }

  lemma XorSame(b: bv64)
    ensures Xor(b, b) == 0
  {
  }

  lemma XorZero(b: bv64, target: bv64)
    requires Xor(b, target) == 0
    ensures b == target
  {
  }

  lemma XorOne(b: bv64, target: bv64)
    requires Xor(b, target) == 1
    ensures b == Xor(target, 1)
  {
  }

  /** The control byte of a full slot has its top bit set. */
  predicate TopBit(b: bv64) {
    b & 0x80 != 0
  }

  lemma TopBitFlipped(target: bv64)
    requires TopBit(target)
    ensures TopBit(Xor(target, 1))
  {
  }

  predicate Marked(m: bv64, i: nat)
    requires i < 8
  {
    m & Bit(i) != 0
  }

  /** The mask of matches that the search computes. */
  function Matches(w: bv64, target: bv64): bv64 {
    Zeros(Xor(w, Spread(target)))
  }

  lemma DifferenceIs(w: bv64, target: bv64, i: nat)
    requires i < 8 && target & !0xFF == 0
    ensures Byte(Xor(w, Spread(target)), i) == Xor(Byte(w, i), target)
  {
    hide *;
    XorBytes(w, Spread(target), i);
    SpreadBytes(target, i);
  }

  lemma TargetMarked(w: bv64, target: bv64, i: nat)
    requires i < 8 && target & !0xFF == 0 && Byte(w, i) == target
    ensures Marked(Matches(w, target), i)
  {
    hide Byte, Bit, Zeros, Spread, Xor, Marked;
    DifferenceIs(w, target, i);
    XorSame(target);
    ZeroMarked(Xor(w, Spread(target)), i);
  }

  /** A byte that is marked is the target, or the target with its lowest bit flipped. */
  lemma MarkedIsNear(w: bv64, target: bv64, i: nat)
    requires i < 8 && target & !0xFF == 0 && Marked(Matches(w, target), i)
    ensures Byte(w, i) == target || Byte(w, i) == Xor(target, 1)
  {
    hide Byte, Bit, Zeros, Spread, Xor, Marked;
    DifferenceIs(w, target, i);
    MarkedIsSmall(Xor(w, Spread(target)), i);
    if Byte(Xor(w, Spread(target)), i) == 0 { XorZero(Byte(w, i), target); } else { XorOne(Byte(w, i), target); }
  }

  /** The mask of matches has the bit of every target byte; and since the target has its top bit set, each bit of the
      mask is that of a full slot. */
  lemma MatchesAreFull(w: bv64, target: bv64, i: nat)
    requires i < 8 && target & !0xFF == 0 && TopBit(target)
    ensures Byte(w, i) == target ==> Marked(Matches(w, target), i)
    ensures Marked(Matches(w, target), i) ==> Byte(w, i) == target || Byte(w, i) == Xor(target, 1)
    ensures Marked(Matches(w, target), i) ==> TopBit(Byte(w, i))
  {
    hide *;
    TopBitFlipped(target);
    if Byte(w, i) == target { TargetMarked(w, target, i); }
    if Marked(Matches(w, target), i) { MarkedIsNear(w, target, i); }
  }

  /** The mask of available slots is exact. */
  lemma AvailableBits(w: bv64, i: nat)
    requires i < 8
    ensures (!w & HIGH) & Bit(i) != 0 <==> Byte(w, i) & 0x80 == 0
  {
    match i
    case 0 =>
    case 1 =>
    case 2 =>
    case 3 =>
    case 4 =>
    case 5 =>
    case 6 =>
    case 7 =>
  }
}
