/** Machine words for the string routines: a 64-bit word is the sequence of its eight bytes, lowest address and lowest
    bits first.  All shifts in those routines are by whole bytes. */
module Words {

  type Byte = bv8

  type Word = w: seq<Byte> | |w| == 8 witness [0, 0, 0, 0, 0, 0, 0, 0]

  function Zeros(n: nat): (z: seq<Byte>)
    ensures |z| == n && forall i :: 0 <= i < n ==> z[i] == 0
  {
    seq(n, _ => 0)
  }

  /** w >> (8 * k) */
  function ShiftRight(w: Word, k: nat): Word
    requires k <= 8
  {
    w[k..] + Zeros(k)
  }

  /** w << (8 * k) */
  function ShiftLeft(w: Word, k: nat): Word
    requires k <= 8
  {
    Zeros(k) + w[..8 - k]
  }

  function Or(v: Word, w: Word): Word {
    seq(8, i requires 0 <= i < 8 => v[i] | w[i])
  }

  lemma OrZero(x: Byte)
    ensures x | 0 == x && 0 | x == x
  {
  }

  /** The two halves of an unaligned word: what is left of v, and what w adds to it. */
  lemma MergeIs(v: Word, w: Word, k: nat)
    requires k <= 8 && forall i :: k <= i < 8 ==> v[i] == 0
    ensures forall i :: 0 <= i < 8 ==> Or(v, ShiftLeft(w, k))[i] == if i < k then v[i] else w[i - k]
  {
    forall i | 0 <= i < 8 ensures Or(v, ShiftLeft(w, k))[i] == if i < k then v[i] else w[i - k] {
      OrZero(v[i]);
      if i >= k { OrZero(w[i - k]); }
    }
  }

  /** The same for the upper end, where bytes are taken from the top. */
  lemma MergeHighIs(v: Word, w: Word, k: nat)
    requires k <= 8 && forall i :: 0 <= i < k ==> v[i] == 0
    ensures var r := Or(v, ShiftRight(w, 8 - k));
      (forall i :: 0 <= i < k ==> r[i] == w[i + 8 - k]) && (forall i :: k <= i < 8 ==> r[i] == v[i])
  {
    var low := ShiftRight(w, 8 - k);
    forall i | 0 <= i < 8 ensures Or(v, low)[i] == if i < k then w[i + 8 - k] else v[i] {
      OrZero(v[i]);
      if i < k {
        assert low[i] == w[8 - k..][i] == w[i + 8 - k];
        OrZero(w[i + 8 - k]);
      }
    }
  }

  // ----- Addresses -----

  predicate Aligned(p: int) {
    p % 8 == 0
  }

  lemma AlignedNext(p: int)
    ensures Aligned(p) <==> Aligned(p + 8)
  {
  }
}
