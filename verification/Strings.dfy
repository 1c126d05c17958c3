/** The comparing routines of src/string/strcmp.c and src/string/strncmp.c over a memory of bytes, indexed by address. */
module Strings {
  import opened Words

  /** HASZERO; HashGroup.ZerosFindsZero shows that the word arithmetic computes this. */
  predicate HasZero(w: Word) {
    exists j :: 0 <= j < 8 && w[j] == 0
  }

  // ----- Strings -----

  /** Byte j of the string at p is not its terminator. */
  predicate Goes(m: seq<Byte>, p: nat, j: nat) {
    p + j < |m| && m[p + j] != 0
  }

  /** t is how much of the string at p may be read under limit n: up to n bytes, but none behind the terminator. */
  ghost predicate Extent(m: seq<Byte>, p: nat, n: nat, t: nat) {
    && t <= n && p + t <= |m|
    && (forall j: nat :: j + 1 < t ==> Goes(m, p, j))
    && (t == n || (t > 0 && !Goes(m, p, t - 1)))
  }

  /** Byte j is the same in both strings, and not the terminator. */
  predicate Same(m: seq<Byte>, l: nat, r: nat, j: nat) {
    l + j < |m| && r + j < |m| && m[l + j] == m[r + j] != 0
  }

  /** The first i bytes of both strings are equal and none is the terminator. */
  ghost predicate Agree(m: seq<Byte>, l: nat, r: nat, i: nat) {
    l + i <= |m| && r + i <= |m| && forall j: nat :: j < i ==> Same(m, l, r, j)
  }

  /** The comparison is decided by byte i. */
  ghost predicate Decided(m: seq<Byte>, l: nat, r: nat, i: nat) {
    l + i < |m| && r + i < |m| && (m[l + i] != m[r + i] || m[l + i] == 0)
  }

  /** What the standard asks of strncmp: the difference at the first byte, among the first n, at which the strings differ
      or end; zero if there is none. */
  ghost predicate Result(m: seq<Byte>, l: nat, r: nat, n: nat, v: int) {
    exists i: nat ::
      && i <= n && Agree(m, l, r, i)
      && (if i == n then v == 0 else Decided(m, l, r, i) && v == m[l + i] as int - m[r + i] as int)
  }

  /** There is one such difference. */
  lemma ResultUnique(m: seq<Byte>, l: nat, r: nat, n: nat, v: int, w: int)
    requires Result(m, l, r, n, v) && Result(m, l, r, n, w)
    ensures v == w
  {
    var i: nat :| i <= n && Agree(m, l, r, i)
      && (if i == n then v == 0 else Decided(m, l, r, i) && v == m[l + i] as int - m[r + i] as int);
    var j: nat :| j <= n && Agree(m, l, r, j)
      && (if j == n then w == 0 else Decided(m, l, r, j) && w == m[l + j] as int - m[r + j] as int);
    if i < j { AgreeStops(m, l, r, j, i); }
    if j < i { AgreeStops(m, l, r, i, j); }
  }

  lemma AgreeStops(m: seq<Byte>, l: nat, r: nat, i: nat, j: nat)
    requires Agree(m, l, r, i) && Decided(m, l, r, j)
    ensures i <= j
  {
    assert j < i ==> Same(m, l, r, j);
  }

  /** What is still to be compared may still be read. */
  lemma AgreeCovered(m: seq<Byte>, l: nat, r: nat, n: nat, i: nat, tl: nat, tr: nat)
    requires Extent(m, l, n, tl) && Extent(m, r, n, tr) && Agree(m, l, r, i) && i < n
    ensures i < tl && i < tr
  {
    assert 0 < tl <= i ==> Same(m, l, r, tl - 1);
    assert 0 < tr <= i ==> Same(m, l, r, tr - 1);
  }

  /** The first c bytes of buf are those at p, and the others are zero. */
  ghost predicate Buffered(buf: Word, m: seq<Byte>, p: nat, c: nat) {
    && c <= 8 && p + c <= |m|
    && (forall j :: 0 <= j < c ==> buf[j] == m[p + j])
    && (forall j :: c <= j < 8 ==> buf[j] == 0)
  }

  /** read_u64: an aligned word with at least one byte of the readable part of the string at p. */
  method ReadWord(m: seq<Byte>, q: nat, ghost p: nat, ghost t: nat) returns (w: Word)
    requires Aligned(q) && Aligned(|m|) && p < q + 8 && q < p + t && p + t <= |m|
    ensures Buffered(w, m, q, 8)
  {
    WordInMemory(q, |m|);
    w := m[q..q + 8];
  }

  lemma WordInMemory(q: nat, n: nat)
    requires Aligned(q) && Aligned(n) && q < n
    ensures q + 8 <= n
  {
  }

  lemma Shifted(buf: Word, m: seq<Byte>, p: nat, c: nat, k: nat)
    requires Buffered(buf, m, p, c) && k <= c
    ensures Buffered(ShiftRight(buf, k), m, p + k, c - k)
  {
  }

  lemma Merged(buf: Word, w: Word, m: seq<Byte>, p: nat, c: nat)
    requires Buffered(buf, m, p, c) && Buffered(w, m, p + c, 8)
    ensures Buffered(Or(buf, ShiftLeft(w, c)), m, p, 8)
  {
    MergeIs(buf, w, c);
  }

  /** The loop that compares the low bytes of two buffers and shifts them out, at most count times. */
  method ScanBuffers(m: seq<Byte>, l: nat, r: nat, i0: nat, bl0: Word, br0: Word, ghost cl: nat, ghost cr: nat, count: nat)
    returns (i: nat, bl: Word, br: Word)
    requires Agree(m, l, r, i0) && Buffered(bl0, m, l + i0, cl) && Buffered(br0, m, r + i0, cr)
    requires count <= cl && count <= cr
    ensures i0 <= i <= i0 + count && Agree(m, l, r, i) && (i < i0 + count ==> Decided(m, l, r, i))
    ensures Buffered(bl, m, l + i, cl - (i - i0)) && Buffered(br, m, r + i, cr - (i - i0))
  {
    hide Agree, Decided, Buffered, ShiftRight;
    i, bl, br := i0, bl0, br0;
    LowBytes(m, l, r, i, bl, br, cl, cr);
    while i < i0 + count && bl[0] != 0 && bl[0] == br[0]
      invariant i0 <= i <= i0 + count && Agree(m, l, r, i)
      invariant Buffered(bl, m, l + i, cl - (i - i0)) && Buffered(br, m, r + i, cr - (i - i0))
    {
      LowBytes(m, l, r, i, bl, br, cl - (i - i0), cr - (i - i0));
      Shifted(bl, m, l + i, cl - (i - i0), 1);
      Shifted(br, m, r + i, cr - (i - i0), 1);
      bl, br := ShiftRight(bl, 1), ShiftRight(br, 1);
      i := i + 1;
    }
    if i < i0 + count { LowBytes(m, l, r, i, bl, br, cl - (i - i0), cr - (i - i0)); }
  }

  lemma LowBytes(m: seq<Byte>, l: nat, r: nat, i: nat, bl: Word, br: Word, cl: nat, cr: nat)
    requires Agree(m, l, r, i) && Buffered(bl, m, l + i, cl) && Buffered(br, m, r + i, cr)
    ensures cl > 0 && cr > 0 ==>
      if bl[0] != 0 && bl[0] == br[0] then Agree(m, l, r, i + 1)
      else Decided(m, l, r, i) && bl[0] == m[l + i] && br[0] == m[r + i]
  {
    assert cl > 0 && cr > 0 && bl[0] != 0 && bl[0] == br[0] ==> Same(m, l, r, i);
  }

  /** The difference of the low bytes. */
  method Difference(m: seq<Byte>, l: nat, r: nat, n: nat, i: nat, bl: Word, br: Word, ghost cl: nat, ghost cr: nat)
    returns (v: int)
    requires Agree(m, l, r, i) && i < n && Decided(m, l, r, i) && cl > 0 && cr > 0
    requires Buffered(bl, m, l + i, cl) && Buffered(br, m, r + i, cr)
    ensures Result(m, l, r, n, v)
  {
    v := bl[0] as int - br[0] as int;
  }

  /** Step 1: single bytes until the first string is aligned. */
  method AlignLeft(m: seq<Byte>, l: nat, r: nat, n: nat, ghost tl: nat, ghost tr: nat) returns (i: nat)
    requires Extent(m, l, n, tl) && Extent(m, r, n, tr)
    ensures i <= n && Agree(m, l, r, i)
    ensures i < n ==> i < tl && i < tr && (Aligned(l + i) || Decided(m, l, r, i))
  {
    hide Aligned;
    i := 0;
    assert i < n ==> i < tl && i < tr by { if i < n { AgreeCovered(m, l, r, n, i, tl, tr); } }
    while i < n && !Aligned(l + i) && m[l + i] != 0 && m[l + i] == m[r + i]
      invariant i <= n && Agree(m, l, r, i) && (i < n ==> i < tl && i < tr)
    {
      assert Same(m, l, r, i);
      i := i + 1;
      if i < n { AgreeCovered(m, l, r, n, i, tl, tr); }
    }
  }

  // ----- Words of both strings -----

  lemma WordsAgree(m: seq<Byte>, l: nat, r: nat, i: nat, bl: Word, br: Word)
    requires Agree(m, l, r, i) && Buffered(bl, m, l + i, 8) && Buffered(br, m, r + i, 8)
    ensures Agree(m, l, r, i + 8) <==> !HasZero(bl) && bl == br
  {
    if !HasZero(bl) && bl == br {
      forall j: nat | j < i + 8 ensures Same(m, l, r, j) {
        if j >= i { assert bl[j - i] == m[l + j] && br[j - i] == m[r + j]; }
      }
    }
    if Agree(m, l, r, i + 8) {
      forall j: nat | j < 8 ensures bl[j] == br[j] != 0 {
        assert Same(m, l, r, i + j);
      }
    }
  }

  /** The first k bytes of a word without a terminator among them. */
  ghost predicate Whole(w: Word, k: nat) {
    k <= 8 && forall j :: 0 <= j < k ==> w[j] != 0
  }

  /** The bytes in the buffer are not the last of the string, so that the word behind them may be read. */
  lemma WholeCovered(m: seq<Byte>, l: nat, r: nat, n: nat, i: nat, bl: Word, c: nat, tl: nat)
    requires Extent(m, l, n, tl) && Agree(m, l, r, i) && Buffered(bl, m, l + i, c) && Whole(bl, c) && i + c < n
    ensures i + c < tl
  {
    forall x: nat | x < i + c ensures Goes(m, l, x) {
      if x < i { assert Same(m, l, r, x); } else { assert bl[x - i] == m[l + x]; }
    }
  }

  lemma ShiftedWhole(w: Word, k: nat)
    requires k <= 8 && Whole(w, 8)
    ensures Whole(ShiftRight(w, k), 8 - k)
  {
  }

  lemma MergedWhole(buf: Word, w: Word, c: nat)
    requires c <= 8 && Whole(buf, c) && Whole(w, 8) && forall i :: c <= i < 8 ==> buf[i] == 0
    ensures !HasZero(Or(buf, ShiftLeft(w, c)))
  {
    MergeIs(buf, w, c);
  }

  lemma NoZeroIsWhole(w: Word)
    ensures !HasZero(w) <==> Whole(w, 8)
  {
  }

  /** The remaining bytes of a buffer, among which the comparison is decided. */
  method Decide(m: seq<Byte>, l: nat, r: nat, n: nat, i0: nat, bl0: Word, br0: Word, ghost cl: nat, ghost cr: nat, count: nat)
    returns (v: int)
    requires Agree(m, l, r, i0) && Buffered(bl0, m, l + i0, cl) && Buffered(br0, m, r + i0, cr)
    requires count <= cl && count <= cr && i0 + count <= n
    requires !Agree(m, l, r, i0 + count)
    ensures Result(m, l, r, n, v)
  {
    hide Agree, Decided, Buffered, Result;
    var i, bl, br := ScanBuffers(m, l, r, i0, bl0, br0, cl, cr, count);
    v := Difference(m, l, r, n, i, bl, br, cl - (i - i0), cr - (i - i0));
  }

  // ----- strcmp -----

  /** Both strings end in the memory, so no limit below this one matters. */
  function NoLimit(m: seq<Byte>): nat {
    |m| + 8
  }

  /** Steps 1 and 2 leave the result or an undecided position. */
  method CompareAligned(m: seq<Byte>, l: nat, r: nat, i0: nat, ghost tl: nat, ghost tr: nat) returns (v: int)
    requires Aligned(|m|) && Extent(m, l, NoLimit(m), tl) && Extent(m, r, NoLimit(m), tr)
    requires Agree(m, l, r, i0) && Aligned(l + i0) && Aligned(r + i0)
    ensures Result(m, l, r, NoLimit(m), v)
  {
    hide Agree, Buffered, HasZero, Aligned, Extent, Result;
    var i := i0;
    AgreeBounds(m, l, r, i);
    while true
      invariant Agree(m, l, r, i) && Aligned(l + i) && Aligned(r + i) && i <= |m|
      decreases |m| - i
    {
      ExtentBounds(m, l, NoLimit(m), tl);
      ExtentBounds(m, r, NoLimit(m), tr);
      AgreeCovered(m, l, r, NoLimit(m), i, tl, tr);
      var bl := ReadWord(m, l + i, l, tl);
      var br := ReadWord(m, r + i, r, tr);
      WordsAgree(m, l, r, i, bl, br);
      if HasZero(bl) || bl != br {
        v := Decide(m, l, r, NoLimit(m), i, bl, br, 8, 8, 8);
        return;
      }
      AlignedNext(l + i);
      AlignedNext(r + i);
      i := i + 8;
      AgreeBounds(m, l, r, i);
    }
  }

  lemma AgreeBounds(m: seq<Byte>, l: nat, r: nat, i: nat)
    requires Agree(m, l, r, i)
    ensures l + i <= |m| && r + i <= |m|
  {
  }

  lemma ExtentBounds(m: seq<Byte>, p: nat, n: nat, t: nat)
    requires Extent(m, p, n, t)
    ensures p + t <= |m| && t <= n
  {
  }

  /** The second string's first word, without the bytes before the string. */
  method FirstRight(m: seq<Byte>, r: nat, i: nat, rOff: nat, ghost tr: nat) returns (br: Word)
    requires Aligned(|m|) && r + tr <= |m| && i < tr && rOff == (r + i) % 8
    ensures Buffered(br, m, r + i, 8 - rOff)
  {
    OffsetAligned(r + i);
    hide Aligned, Buffered;
    br := ReadWord(m, r + i - rOff, r, tr);
    Shifted(br, m, r + i - rOff, 8, rOff);
    br := ShiftRight(br, rOff);
  }

  lemma OffsetAligned(p: nat)
    ensures var c := p % 8; c <= p && Aligned(p - c) && Aligned(p + 8 - c) && (c == 0 <==> Aligned(p))
  {
  }

  /** When a word of the first string holds its terminator, the comparison is decided within that word. */
  lemma ZeroDecides(m: seq<Byte>, l: nat, r: nat, i: nat, w: Word)
    requires Buffered(w, m, l + i, 8) && HasZero(w)
    ensures !Agree(m, l, r, i + 8)
  {
    var j: nat :| j < 8 && w[j] == 0;
    assert !Same(m, l, r, i + j);
  }

  /** strcmp from the point where the first string is aligned and the second is not. */
  method CompareUnaligned(m: seq<Byte>, l: nat, r: nat, i0: nat, ghost tl: nat, ghost tr: nat) returns (v: int)
    requires Aligned(|m|) && Extent(m, l, NoLimit(m), tl) && Extent(m, r, NoLimit(m), tr)
    requires Agree(m, l, r, i0) && i0 < tl && i0 < tr && Aligned(l + i0) && !Aligned(r + i0)
    ensures Result(m, l, r, NoLimit(m), v)
  {
    OffsetAligned(r + i0);
    hide Agree, Buffered, HasZero, Aligned, Extent, Result, Decided, ShiftLeft, ShiftRight, Or, Whole;
    ExtentBounds(m, l, NoLimit(m), tl);
    ExtentBounds(m, r, NoLimit(m), tr);
    var rOff := (r + i0) % 8;
    var c := 8 - rOff;
    var word := ReadWord(m, l + i0, l, tl);
    var br := FirstRight(m, r, i0, rOff, tr);
    var endFlag := HasZero(word);
    var i, bl;
    i, bl, br := ScanBuffers(m, l, r, i0, word, br, 8, c, c);
    if i < i0 + c {
      v := Difference(m, l, r, NoLimit(m), i, bl, br, 8 - (i - i0), c - (i - i0));
      return;
    }
    AgreeBounds(m, l, r, i);
    AgreeCovered(m, l, r, NoLimit(m), i, tl, tr);
    if endFlag {
      ZeroDecides(m, l, r, i0, word);
      var right := ReadWord(m, r + i, r, tr);
      v := Decide(m, l, r, NoLimit(m), i, bl, right, rOff, 8, rOff);
      return;
    }
    RestWhole(m, l, i0, i, word, bl, rOff);
    AlignedNext(l + i0);
    v := CompareMerged(m, l, r, i, bl, rOff, tl, tr);
  }

  /** What is left of a word without terminator has none. */
  lemma RestWhole(m: seq<Byte>, l: nat, i0: nat, i: nat, word: Word, bl: Word, rOff: nat)
    requires Buffered(word, m, l + i0, 8) && !HasZero(word) && i == i0 + 8 - rOff && rOff <= 8
    requires Buffered(bl, m, l + i, rOff)
    ensures Whole(bl, rOff)
  {
    forall j | 0 <= j < rOff ensures bl[j] != 0 {
      assert bl[j] == m[l + i + j] == word[j + 8 - rOff];
    }
  }

  /** Step 4 of strcmp and what follows it: rOff bytes of the first string are in the buffer. */
  method CompareMerged(m: seq<Byte>, l: nat, r: nat, i0: nat, bl0: Word, rOff: nat, ghost tl: nat, ghost tr: nat) returns (v: int)
    requires Aligned(|m|) && Extent(m, l, NoLimit(m), tl) && Extent(m, r, NoLimit(m), tr)
    requires Agree(m, l, r, i0) && 0 < rOff < 8 && Buffered(bl0, m, l + i0, rOff) && Whole(bl0, rOff)
    requires Aligned(r + i0) && Aligned(l + i0 + rOff)
    ensures Result(m, l, r, NoLimit(m), v)
  {
    hide Agree, Buffered, HasZero, Aligned, Extent, Result, Decided, ShiftLeft, ShiftRight, Or, Whole;
    ExtentBounds(m, l, NoLimit(m), tl);
    ExtentBounds(m, r, NoLimit(m), tr);
    var i, bl := i0, bl0;
    AgreeBounds(m, l, r, i);
    while true
      invariant Agree(m, l, r, i) && i <= |m| && Buffered(bl, m, l + i, rOff) && Whole(bl, rOff)
      invariant Aligned(r + i) && Aligned(l + i + rOff)
      decreases |m| - i
    {
      AgreeCovered(m, l, r, NoLimit(m), i, tl, tr);
      WholeCovered(m, l, r, NoLimit(m), i, bl, rOff, tl);
      var bl2 := ReadWord(m, l + i + rOff, l, tl);
      var br := ReadWord(m, r + i, r, tr);
      var bl3 := Or(bl, ShiftLeft(bl2, rOff));
      Merged(bl, bl2, m, l + i, rOff);
      WordsAgree(m, l, r, i, bl3, br);
      if HasZero(bl2) {
        v := EndInWord(m, l, r, i, bl2, bl3, br, rOff, tl, tr);
        return;
      }
      if bl3 != br {
        v := Decide(m, l, r, NoLimit(m), i, bl3, br, 8, 8, 8);
        return;
      }
      NoZeroIsWhole(bl2);
      BufferedTail(bl, m, l + i, rOff);
      MergedWhole(bl, bl2, rOff);
      Shifted(bl2, m, l + i + rOff, 8, 8 - rOff);
      ShiftedWhole(bl2, 8 - rOff);
      AlignedNext(l + i + rOff);
      AlignedNext(r + i);
      bl := ShiftRight(bl2, 8 - rOff);
      i := i + 8;
      AgreeBounds(m, l, r, i);
    }
  }

  lemma BufferedTail(buf: Word, m: seq<Byte>, p: nat, c: nat)
    requires Buffered(buf, m, p, c)
    ensures forall j :: c <= j < 8 ==> buf[j] == 0
  {
  }

  /** The part at l_end_flag: the terminator of the first string is in bl2. */
  method EndInWord(m: seq<Byte>, l: nat, r: nat, i0: nat, bl2: Word, bl3: Word, br: Word, rOff: nat, ghost tl: nat, ghost tr: nat)
    returns (v: int)
    requires Aligned(|m|) && Extent(m, l, NoLimit(m), tl) && Extent(m, r, NoLimit(m), tr)
    requires Agree(m, l, r, i0) && 0 < rOff < 8 && Buffered(bl2, m, l + i0 + rOff, 8) && HasZero(bl2)
    requires Buffered(bl3, m, l + i0, 8) && Buffered(br, m, r + i0, 8) && Aligned(r + i0)
    ensures Result(m, l, r, NoLimit(m), v)
  {
    hide Agree, Buffered, HasZero, Aligned, Extent, Result, Decided, ShiftLeft, ShiftRight, Or, Whole;
    ExtentBounds(m, r, NoLimit(m), tr);
    AgreeBounds(m, l, r, i0);
    var i, bl, br' := ScanBuffers(m, l, r, i0, bl3, br, 8, 8, 8);
    if i < i0 + 8 {
      v := Difference(m, l, r, NoLimit(m), i, bl, br', 8 - (i - i0), 8 - (i - i0));
      return;
    }
    AgreeBounds(m, l, r, i);
    AgreeCovered(m, l, r, NoLimit(m), i, tl, tr);
    AlignedNext(r + i0);
    bl := ShiftRight(bl2, 8 - rOff);
    Shifted(bl2, m, l + i0 + rOff, 8, 8 - rOff);
    ZeroDecides(m, l, r, i0 + rOff, bl2);
    var right := ReadWord(m, r + i, r, tr);
    v := Decide(m, l, r, NoLimit(m), i, bl, right, rOff, 8, rOff);
  }

  /** `strcmp` of two strings that end in the memory: the difference of the first bytes that differ, or zero.  No word is
      read that lies behind the end of its string. */
  method Strcmp(m: seq<Byte>, l: nat, r: nat, ghost tl: nat, ghost tr: nat) returns (v: int)
    requires Aligned(|m|) && Extent(m, l, NoLimit(m), tl) && Extent(m, r, NoLimit(m), tr)
    ensures Result(m, l, r, NoLimit(m), v)
  {
    hide Aligned, Extent, Result;
    var n := NoLimit(m);
    ExtentBounds(m, l, n, tl);
    ExtentBounds(m, r, n, tr);
    var i := AlignLeft(m, l, r, n, tl, tr);
    if m[l + i] != m[r + i] || m[l + i] == 0 {
      v := m[l + i] as int - m[r + i] as int;
      ResultIs(m, l, r, n, i, v);
      return;
    }
    if Aligned(r + i) {
      v := CompareAligned(m, l, r, i, tl, tr);
    } else {
      v := CompareUnaligned(m, l, r, i, tl, tr);
    }
  }

  lemma ResultIs(m: seq<Byte>, l: nat, r: nat, n: nat, i: nat, v: int)
    requires i < n && Agree(m, l, r, i) && Decided(m, l, r, i) && v == m[l + i] as int - m[r + i] as int
    ensures Result(m, l, r, n, v)
  {
  }

  // ----- strncmp -----

  function Min(a: nat, b: nat): nat {
    if a < b then a else b
  }

  lemma LimitReached(m: seq<Byte>, l: nat, r: nat, n: nat)
    requires Agree(m, l, r, n)
    ensures Result(m, l, r, n, 0)
  {
  }

  /** The last loop of each branch: it ends at the limit or where the comparison is decided. */
  method Finish(m: seq<Byte>, l: nat, r: nat, n: nat, i0: nat, bl0: Word, br0: Word, ghost cl: nat, ghost cr: nat, count: nat)
    returns (v: int)
    requires Agree(m, l, r, i0) && Buffered(bl0, m, l + i0, cl) && Buffered(br0, m, r + i0, cr)
    requires count <= cl && count <= cr && i0 <= n
    requires n <= i0 + count || !Agree(m, l, r, i0 + count)
    ensures Result(m, l, r, n, v)
  {
    hide Agree, Decided, Buffered, Result;
    var i, bl, br := ScanBuffers(m, l, r, i0, bl0, br0, cl, cr, Min(count, n - i0));
    if i == n {
      LimitReached(m, l, r, n);
      return 0;
    }
    v := Difference(m, l, r, n, i, bl, br, cl - (i - i0), cr - (i - i0));
  }

  method CompareAlignedN(m: seq<Byte>, l: nat, r: nat, n: nat, i0: nat, ghost tl: nat, ghost tr: nat) returns (v: int)
    requires Aligned(|m|) && Extent(m, l, n, tl) && Extent(m, r, n, tr)
    requires i0 <= n && Agree(m, l, r, i0) && Aligned(l + i0) && Aligned(r + i0)
    ensures Result(m, l, r, n, v)
  {
    hide Agree, Buffered, HasZero, Aligned, Extent, Result;
    ExtentBounds(m, l, n, tl);
    ExtentBounds(m, r, n, tr);
    var i := i0;
    while n - i >= 8
      invariant i <= n && Agree(m, l, r, i) && Aligned(l + i) && Aligned(r + i)
    {
      AgreeCovered(m, l, r, n, i, tl, tr);
      var bl := ReadWord(m, l + i, l, tl);
      var br := ReadWord(m, r + i, r, tr);
      WordsAgree(m, l, r, i, bl, br);
      if HasZero(bl) || bl != br {
        v := Decide(m, l, r, n, i, bl, br, 8, 8, 8);
        return;
      }
      AlignedNext(l + i);
      AlignedNext(r + i);
      i := i + 8;
    }
    if i == n {
      LimitReached(m, l, r, n);
      return 0;
    }
    AgreeCovered(m, l, r, n, i, tl, tr);
    var bl := ReadWord(m, l + i, l, tl);
    var br := ReadWord(m, r + i, r, tr);
    v := Finish(m, l, r, n, i, bl, br, 8, 8, 8);
  }

  /** strncmp from the point where the first string is aligned and the second is not. */
  method CompareUnalignedN(m: seq<Byte>, l: nat, r: nat, n: nat, i0: nat, ghost tl: nat, ghost tr: nat) returns (v: int)
    requires Aligned(|m|) && Extent(m, l, n, tl) && Extent(m, r, n, tr) && i0 < n
    requires Agree(m, l, r, i0) && i0 < tl && i0 < tr && Aligned(l + i0) && !Aligned(r + i0)
    ensures Result(m, l, r, n, v)
  {
    OffsetAligned(r + i0);
    hide Agree, Buffered, HasZero, Aligned, Extent, Result, Decided, ShiftLeft, ShiftRight, Or, Whole;
    ExtentBounds(m, l, n, tl);
    ExtentBounds(m, r, n, tr);
    var rOff := (r + i0) % 8;
    var c := 8 - rOff;
    var word := ReadWord(m, l + i0, l, tl);
    var br := FirstRight(m, r, i0, rOff, tr);
    var i, bl;
    i, bl, br := ScanBuffers(m, l, r, i0, word, br, 8, c, Min(c, n - i0));
    if i == n {
      LimitReached(m, l, r, n);
      return 0;
    }
    if i < i0 + c {
      v := Difference(m, l, r, n, i, bl, br, 8 - (i - i0), c - (i - i0));
      return;
    }
    AgreeCovered(m, l, r, n, i, tl, tr);
    if HasZero(word) {
      ZeroDecides(m, l, r, i0, word);
      var right := ReadWord(m, r + i, r, tr);
      v := Finish(m, l, r, n, i, bl, right, rOff, 8, rOff);
      return;
    }
    RestWhole(m, l, i0, i, word, bl, rOff);
    AlignedNext(l + i0);
    v := CompareMergedN(m, l, r, n, i, bl, rOff, tl, tr);
  }

  /** Step 4 of strncmp and what follows it. */
  method CompareMergedN(m: seq<Byte>, l: nat, r: nat, n: nat, i0: nat, bl0: Word, rOff: nat, ghost tl: nat, ghost tr: nat)
    returns (v: int)
    requires Aligned(|m|) && Extent(m, l, n, tl) && Extent(m, r, n, tr) && i0 <= n
    requires Agree(m, l, r, i0) && 0 < rOff < 8 && Buffered(bl0, m, l + i0, rOff) && Whole(bl0, rOff)
    requires Aligned(r + i0) && Aligned(l + i0 + rOff)
    ensures Result(m, l, r, n, v)
  {
    hide Agree, Buffered, HasZero, Aligned, Extent, Result, Decided, ShiftLeft, ShiftRight, Or, Whole;
    ExtentBounds(m, l, n, tl);
    ExtentBounds(m, r, n, tr);
    var i, bl := i0, bl0;
    while n - i >= 8
      invariant i <= n && Agree(m, l, r, i) && Buffered(bl, m, l + i, rOff) && Whole(bl, rOff)
      invariant Aligned(r + i) && Aligned(l + i + rOff)
    {
      AgreeCovered(m, l, r, n, i, tl, tr);
      WholeCovered(m, l, r, n, i, bl, rOff, tl);
      var bl2 := ReadWord(m, l + i + rOff, l, tl);
      var br := ReadWord(m, r + i, r, tr);
      var bl3 := Or(bl, ShiftLeft(bl2, rOff));
      Merged(bl, bl2, m, l + i, rOff);
      WordsAgree(m, l, r, i, bl3, br);
      if HasZero(bl2) {
        v := EndInWordN(m, l, r, n, i, bl2, bl3, br, rOff, tl, tr);
        return;
      }
      if bl3 != br {
        v := Decide(m, l, r, n, i, bl3, br, 8, 8, 8);
        return;
      }
      NoZeroIsWhole(bl2);
      BufferedTail(bl, m, l + i, rOff);
      MergedWhole(bl, bl2, rOff);
      Shifted(bl2, m, l + i + rOff, 8, 8 - rOff);
      ShiftedWhole(bl2, 8 - rOff);
      AlignedNext(l + i + rOff);
      AlignedNext(r + i);
      bl := ShiftRight(bl2, 8 - rOff);
      i := i + 8;
    }
    v := LastBytes(m, l, r, n, i, bl, rOff, tl, tr);
  }

  /** Step 5 of strncmp: fewer than eight bytes are left, of which rOff are in the buffer. */
  method LastBytes(m: seq<Byte>, l: nat, r: nat, n: nat, i0: nat, bl0: Word, rOff: nat, ghost tl: nat, ghost tr: nat)
    returns (v: int)
    requires Aligned(|m|) && Extent(m, l, n, tl) && Extent(m, r, n, tr) && i0 <= n < i0 + 8
    requires Agree(m, l, r, i0) && 0 < rOff < 8 && Buffered(bl0, m, l + i0, rOff)
    requires Aligned(r + i0) && Aligned(l + i0 + rOff)
    ensures Result(m, l, r, n, v)
  {
    hide Agree, Buffered, HasZero, Aligned, Extent, Result, Decided, ShiftLeft, ShiftRight, Or, Whole;
    ExtentBounds(m, l, n, tl);
    ExtentBounds(m, r, n, tr);
    if i0 == n {
      LimitReached(m, l, r, n);
      return 0;
    }
    AgreeCovered(m, l, r, n, i0, tl, tr);
    var right := ReadWord(m, r + i0, r, tr);
    var i, bl, br := ScanBuffers(m, l, r, i0, bl0, right, rOff, 8, Min(rOff, n - i0));
    if i == n {
      LimitReached(m, l, r, n);
      return 0;
    }
    if i < i0 + rOff {
      v := Difference(m, l, r, n, i, bl, br, rOff - (i - i0), 8 - (i - i0));
      return;
    }
    AgreeCovered(m, l, r, n, i, tl, tr);
    var left := ReadWord(m, l + i, l, tl);
    v := Finish(m, l, r, n, i, left, br, 8, 8 - rOff, 8 - rOff);
  }

  /** The part at end_flag: the terminator of the first string is in bl2. */
  method EndInWordN(m: seq<Byte>, l: nat, r: nat, n: nat, i0: nat, bl2: Word, bl3: Word, br: Word, rOff: nat,
                    ghost tl: nat, ghost tr: nat) returns (v: int)
    requires Aligned(|m|) && Extent(m, l, n, tl) && Extent(m, r, n, tr) && i0 + 8 <= n
    requires Agree(m, l, r, i0) && 0 < rOff < 8 && Buffered(bl2, m, l + i0 + rOff, 8) && HasZero(bl2)
    requires Buffered(bl3, m, l + i0, 8) && Buffered(br, m, r + i0, 8) && Aligned(r + i0)
    ensures Result(m, l, r, n, v)
  {
    hide Agree, Buffered, HasZero, Aligned, Extent, Result, Decided, ShiftLeft, ShiftRight, Or, Whole;
    ExtentBounds(m, r, n, tr);
    var i, bl, br' := ScanBuffers(m, l, r, i0, bl3, br, 8, 8, 8);
    if i < i0 + 8 {
      v := Difference(m, l, r, n, i, bl, br', 8 - (i - i0), 8 - (i - i0));
      return;
    }
    if i == n {
      LimitReached(m, l, r, n);
      return 0;
    }
    AgreeCovered(m, l, r, n, i, tl, tr);
    AlignedNext(r + i0);
    bl := ShiftRight(bl2, 8 - rOff);
    Shifted(bl2, m, l + i0 + rOff, 8, 8 - rOff);
    ZeroDecides(m, l, r, i0 + rOff, bl2);
    var right := ReadWord(m, r + i, r, tr);
    v := Finish(m, l, r, n, i, bl, right, rOff, 8, rOff);
  }

  /** `strncmp`: the difference of the first bytes that differ among the first n, or zero.  No word is read that lies
      behind the end of its string or behind the limit. */
  method Strncmp(m: seq<Byte>, l: nat, r: nat, n: nat, ghost tl: nat, ghost tr: nat) returns (v: int)
    requires Aligned(|m|) && Extent(m, l, n, tl) && Extent(m, r, n, tr)
    ensures Result(m, l, r, n, v)
  {
    hide Aligned, Extent, Result;
    ExtentBounds(m, l, n, tl);
    ExtentBounds(m, r, n, tr);
    var i := AlignLeft(m, l, r, n, tl, tr);
    if i == n {
      LimitReached(m, l, r, n);
      return 0;
    }
    if m[l + i] != m[r + i] || m[l + i] == 0 {
      v := m[l + i] as int - m[r + i] as int;
      ResultIs(m, l, r, n, i, v);
      return;
    }
    if Aligned(r + i) {
      v := CompareAlignedN(m, l, r, n, i, tl, tr);
    } else {
      v := CompareUnalignedN(m, l, r, n, i, tl, tr);
    }
  }
}
