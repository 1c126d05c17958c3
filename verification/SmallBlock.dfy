/** One block of the small-class allocator (src/memory/small_class.c): 65536 bytes, a header of 304 bytes and then
    slots of one size. */
module SmallBlock {
  import opened Arith

  const HEADER := 304
  const BLOCK := 65536

  /** 32, 64, ..., 512, 1024, 2048 */
  predicate IsSmallClass(size: nat) {
    (32 <= size <= 512 && size % 32 == 0) || size == 1024 || size == 2048
  }

  /** x / p */
  function Quot(x: nat, p: nat): nat
    requires p > 0
  {
    if x < p then 0 else Quot(x - p, p) + 1
  }

  lemma {:induction false} QuotIs(x: nat, p: nat, q: nat)
    requires p > 0
    ensures Quot(x, p) == q <==> Times(q, p) <= x < Times(q, p) + p
    decreases x
  {
    if x >= p {
      if q > 0 { QuotIs(x - p, p, q - 1); }
    } else if q > 0 {
      assert Times(q, p) == Times(q - 1, p) + p;
    }
  }

  /** avail_num of a fresh block */
  function Slots(size: nat): nat
    requires size > 0
  {
    Quot(BLOCK - HEADER, size)
  }

  /** SMALL_CLASS_IDX_SLOT, relative to the block */
  function SlotOffset(idx: nat, size: nat): nat {
    HEADER + Times(idx, size)
  }

  /** SMALL_CLASS_SLOT_IDX, for an offset relative to the block */
  function SlotIdx(offset: nat, size: nat): nat
    requires size > 0 && offset >= HEADER
  {
    Quot(offset - HEADER, size)
  }

  /** Every address inside a slot leads back to its index. */
  lemma SlotIdxInside(idx: nat, size: nat, offset: nat)
    requires size > 0 && SlotOffset(idx, size) <= offset < SlotOffset(idx, size) + size
    ensures SlotIdx(offset, size) == idx
  {
    QuotIs(offset - HEADER, size, idx);
  }

  /** A slot lies behind the header and inside the block. */
  lemma SlotInBlock(idx: nat, size: nat)
    requires IsSmallClass(size) && idx < Slots(size)
    ensures HEADER <= SlotOffset(idx, size) && SlotOffset(idx, size) + size <= BLOCK
    ensures SlotOffset(idx, size) % 16 == 0
  {
    QuotIs(BLOCK - HEADER, size, Slots(size));
    TimesMonotone(idx, Slots(size), size);
    TimesSixteen(idx, size);
  }

  /** A block has as many slots as fit: behind the last one there is no room for another. */
  lemma SlotsAreMost(size: nat)
    requires IsSmallClass(size)
    ensures SlotOffset(Slots(size), size) <= BLOCK < SlotOffset(Slots(size), size) + size
  {
    QuotIs(BLOCK - HEADER, size, Slots(size));
  }

  lemma {:induction false} TimesSixteen(i: nat, size: nat)
    requires size % 16 == 0
    ensures Times(i, size) % 16 == 0
  {
    if i > 0 {
      TimesSixteen(i - 1, size);
      SixteenAdd(Times(i - 1, size), size);
    }
  }

  lemma SixteenAdd(a: nat, b: nat)
    requires a % 16 == 0 && b % 16 == 0
    ensures (a + b) % 16 == 0
  {
  }

  lemma SlotsDisjoint(i: nat, j: nat, size: nat)
    requires i < j
    ensures SlotOffset(i, size) + size <= SlotOffset(j, size)
  {
    TimesMonotone(i, j, size);
  }

  lemma SlotsBounds(size: nat)
    requires IsSmallClass(size)
    ensures 2 <= Slots(size) <= 2038
  {
    QuotIs(BLOCK - HEADER, size, Slots(size));
    assert Times(1, size) == size && Times(0, size) == 0;
    TimesIsProduct(2038, size);
    if Slots(size) > 2038 { TimesMonotone(2038, Slots(size), size); }
  }

  // ----- The bitmap: 32 words of which the last ones may hold anything -----

  /** Each word is the set of its one bits. */
  datatype ClassBlock = ClassBlock(size: nat, bitmap: seq<set<nat>>, availNum: nat)

  predicate Shaped(c: ClassBlock) {
    IsSmallClass(c.size) && |c.bitmap| == 32
  }

  lemma WordInBitmap(size: nat, idx: nat)
    requires IsSmallClass(size) && idx < Slots(size)
    ensures idx / 64 < 32
  {
    SlotsBounds(size);
  }

  predicate IsFree(c: ClassBlock, idx: nat)
    requires Shaped(c)
  {
    idx < Slots(c.size) && (WordInBitmap(c.size, idx); idx % 64 in c.bitmap[idx / 64])
  }

  function FreeSet(c: ClassBlock): set<nat>
    requires Shaped(c)
  {
    set idx | 0 <= idx < Slots(c.size) && IsFree(c, idx)
  }

  /** The words that are read hold no bits beyond the last slot. */
  predicate BlockInv(c: ClassBlock) {
    && Shaped(c)
    && (forall w, b :: 0 <= w < 32 && 64 * w < Slots(c.size) && b in c.bitmap[w] ==> b < 64 && 64 * w + b < Slots(c.size))
    && c.availNum == |FreeSet(c)|
  }

  /** The slot was handed out. */
  predicate SlotLive(c: ClassBlock, idx: nat)
    requires Shaped(c)
  {
    idx < Slots(c.size) && !IsFree(c, idx)
  }

  function SlotTaken(c: ClassBlock, idx: nat): (d: ClassBlock)
    requires Shaped(c) && IsFree(c, idx) && c.availNum > 0
    ensures Shaped(d) && d.size == c.size
  {
    WordInBitmap(c.size, idx);
    c.(bitmap := c.bitmap[idx / 64 := c.bitmap[idx / 64] - {idx % 64}], availNum := c.availNum - 1)
  }

  function SlotPut(c: ClassBlock, idx: nat): (d: ClassBlock)
    requires Shaped(c) && idx < Slots(c.size)
    ensures Shaped(d) && d.size == c.size
  {
    WordInBitmap(c.size, idx);
    c.(bitmap := c.bitmap[idx / 64 := c.bitmap[idx / 64] + {idx % 64}], availNum := c.availNum + 1)
  }

  lemma SamePlace(i: nat, j: nat)
    ensures i / 64 == j / 64 && i % 64 == j % 64 ==> i == j
  {
  }

  lemma TakenFree(c: ClassBlock, idx: nat, j: nat)
    requires Shaped(c) && IsFree(c, idx) && c.availNum > 0
    ensures IsFree(SlotTaken(c, idx), j) <==> IsFree(c, j) && j != idx
  {
    if j < Slots(c.size) {
      WordInBitmap(c.size, j);
      WordInBitmap(c.size, idx);
      SamePlace(j, idx);
    }
  }

  lemma PutFree(c: ClassBlock, idx: nat, j: nat)
    requires Shaped(c) && idx < Slots(c.size)
    ensures IsFree(SlotPut(c, idx), j) <==> IsFree(c, j) || j == idx
  {
    if j < Slots(c.size) {
      WordInBitmap(c.size, j);
      WordInBitmap(c.size, idx);
      SamePlace(j, idx);
    }
  }

  lemma SlotTakenInv(c: ClassBlock, idx: nat)
    requires BlockInv(c) && IsFree(c, idx) && c.availNum > 0
    ensures BlockInv(SlotTaken(c, idx))
    ensures forall j: nat :: SlotLive(SlotTaken(c, idx), j) <==> SlotLive(c, j) || j == idx
  {
    var d := SlotTaken(c, idx);
    assert idx < Slots(c.size);
    forall j: nat ensures IsFree(d, j) <==> IsFree(c, j) && j != idx { TakenFree(c, idx, j); }
    TakenWords(c, idx);
    hide IsFree, Slots;
    assert FreeSet(d) == FreeSet(c) - {idx};
  }

  lemma SlotPutInv(c: ClassBlock, idx: nat)
    requires BlockInv(c) && SlotLive(c, idx)
    ensures BlockInv(SlotPut(c, idx))
    ensures forall j: nat :: SlotLive(SlotPut(c, idx), j) <==> SlotLive(c, j) && j != idx
  {
    var d := SlotPut(c, idx);
    forall j: nat ensures IsFree(d, j) <==> IsFree(c, j) || j == idx { PutFree(c, idx, j); }
    PutWords(c, idx);
    hide IsFree, Slots;
    assert FreeSet(d) == FreeSet(c) + {idx};
  }

  lemma TakenWords(c: ClassBlock, idx: nat)
    requires BlockInv(c) && IsFree(c, idx) && c.availNum > 0
    ensures var d := SlotTaken(c, idx);
      forall w, b :: 0 <= w < 32 && 64 * w < Slots(c.size) && b in d.bitmap[w] ==> b < 64 && 64 * w + b < Slots(c.size)
  {
    hide FreeSet;
    WordInBitmap(c.size, idx);
  }

  lemma PutWords(c: ClassBlock, idx: nat)
    requires BlockInv(c) && idx < Slots(c.size)
    ensures var d := SlotPut(c, idx);
      forall w, b :: 0 <= w < 32 && 64 * w < Slots(c.size) && b in d.bitmap[w] ==> b < 64 && 64 * w + b < Slots(c.size)
  {
    hide IsFree, FreeSet;
    WordInBitmap(c.size, idx);
    assert idx == 64 * (idx / 64) + idx % 64;
  }

  /** Every slot was handed out. */
  ghost predicate AllLive(c: ClassBlock)
    requires Shaped(c)
  {
    forall j: nat :: j < Slots(c.size) ==> SlotLive(c, j)
  }

  lemma EmptyCount(c: ClassBlock)
    requires BlockInv(c)
    ensures c.availNum == 0 <==> AllLive(c)
  {
    if AllLive(c) {
      forall j: nat ensures j !in FreeSet(c) { assert j < Slots(c.size) ==> SlotLive(c, j); }
      assert FreeSet(c) == {};
    } else {
      var j: nat :| j < Slots(c.size) && !SlotLive(c, j);
      assert j in FreeSet(c);
    }
  }

  /** A block is fully free exactly when its counter says so. */
  lemma FullCount(c: ClassBlock)
    requires BlockInv(c)
    ensures c.availNum <= Slots(c.size)
    ensures c.availNum == Slots(c.size) <==> forall j: nat :: !SlotLive(c, j)
  {
    RangeCount(FreeSet(c), Slots(c.size));
    if c.availNum == Slots(c.size) {
      forall j: nat ensures !SlotLive(c, j) {
        if j < Slots(c.size) { assert j in FreeSet(c); }
      }
    }
    if forall j: nat :: !SlotLive(c, j) {
      forall j | 0 <= j < Slots(c.size) ensures j in FreeSet(c) {
        assert !SlotLive(c, j);
      }
    }
  }

  lemma {:induction false} RangeCount(s: set<nat>, n: nat)
    requires forall j :: j in s ==> j < n
    ensures |s| <= n
    ensures |s| == n <==> forall j :: 0 <= j < n ==> j in s
  {
    if n == 0 {
      assert s == {};
    } else {
      RangeCount(s - {n - 1}, n - 1);
      if n - 1 in s {
        assert s == (s - {n - 1}) + {n - 1};
      } else {
        assert s == s - {n - 1};
      }
    }
  }

  // ----- The loops over the words -----

  function AllOnes(n: nat): (s: set<nat>)
    ensures forall b :: b in s <==> 0 <= b < n
  {
    if n == 0 then {} else AllOnes(n - 1) + {n - 1}
  }

  /** Word w of a fresh bitmap for availNum slots, where memory held whatever was there before. */
  function FreshWord(memory: seq<set<nat>>, availNum: nat, w: nat): set<nat>
    requires w < |memory|
  {
    if 64 * (w + 1) <= availNum then AllOnes(64)
    else if 64 * w < availNum then AllOnes(availNum - 64 * w)
    else memory[w]
  }

  /** The bitmap of `allocate_class_block`: whole words of ones, then a partial word if the number of slots is not
      a multiple of 64.  The other words keep what was in the memory. */
  method FillBitmap(memory: seq<set<nat>>, availNum: nat) returns (bitmap: seq<set<nat>>)
    requires |memory| == 32 && availNum <= 2038
    ensures |bitmap| == 32 && forall w :: 0 <= w < 32 ==> bitmap[w] == FreshWord(memory, availNum, w)
  {
    bitmap := memory;
    for i := 0 to availNum / 64
      invariant |bitmap| == 32
      invariant forall w :: 0 <= w < 32 ==> bitmap[w] == if w < i then AllOnes(64) else memory[w]
    {
      bitmap := bitmap[i := AllOnes(64)];
    }
    var rem := availNum % 64;
    if rem != 0 {
      bitmap := bitmap[availNum / 64 := AllOnes(rem)];
    }
  }

  lemma FilledInv(c: ClassBlock, memory: seq<set<nat>>)
    requires Shaped(c) && |memory| == 32 && c.availNum == Slots(c.size)
    requires forall w :: 0 <= w < 32 ==> c.bitmap[w] == FreshWord(memory, c.availNum, w)
    ensures BlockInv(c) && forall j: nat :: !SlotLive(c, j)
  {
    SlotsBounds(c.size);
    forall j: nat | j < Slots(c.size) ensures IsFree(c, j) {
      WordInBitmap(c.size, j);
      assert j == 64 * (j / 64) + j % 64;
    }
    RangeCount(FreeSet(c), Slots(c.size));
  }

  /** The first word with a bit set, and the lowest bit of it: the lowest free slot. */
  method FindSlot(c: ClassBlock) returns (idx: nat)
    requires BlockInv(c) && c.availNum > 0
    ensures IsFree(c, idx) && forall j: nat :: IsFree(c, j) ==> idx <= j
  {
    hide Slots;
    SlotsBounds(c.size);
    var availNum := Slots(c.size);
    ghost var some: nat :| some in FreeSet(c);
    ghost var top := some / 64;
    WordInBitmap(c.size, some);
    var i := 0;
    while c.bitmap[i] == {}
      invariant i <= top <= (availNum - 1) / 64 < 32
      invariant forall w :: 0 <= w < i ==> c.bitmap[w] == {}
      decreases top - i
    {
      i := i + 1;
    }
    var b := 0;
    ghost var bit :| bit in c.bitmap[i];
    while b !in c.bitmap[i]
      invariant forall x :: x in c.bitmap[i] ==> b <= x
      decreases bit - b
    {
      b := b + 1;
    }
    idx := 64 * i + b;
    forall j: nat | IsFree(c, j) ensures idx <= j {
      WordInBitmap(c.size, j);
      assert j == 64 * (j / 64) + j % 64;
    }
  }
}
