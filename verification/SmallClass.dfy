/** The small-class allocator of src/memory/small_class.c on top of the buddy allocator. */
module SmallClass {
  import opened Arith
  import opened Lists
  import opened Options
  import opened BuddyChunk
  import opened BuddyTheory
  import opened Buddy
  import opened SmallBlock

  const CLASSES := 18

  /** The list of a class: small_class_avail_lists[0..15], class1024_avail_list, class2048_avail_list. */
  function ListIdx(size: nat): (l: nat)
    requires IsSmallClass(size)
    ensures l < CLASSES
  {
    if size <= 512 then size / 32 - 1 else if size == 1024 then 16 else 17
  }

  lemma ListIdxInjective(a: nat, b: nat)
    requires IsSmallClass(a) && IsSmallClass(b) && ListIdx(a) == ListIdx(b)
    ensures a == b
  {
  }

  predicate Full(c: ClassBlock)
    requires Shaped(c)
  {
    c.availNum == Slots(c.size)
  }

  ghost predicate AllShaped(blocks: map<Block, ClassBlock>) {
    forall p :: p in blocks ==> BlockInv(blocks[p])
  }

  /** A block is in the list of its class iff it has a free slot. */
  ghost predicate ClassList(blocks: map<Block, ClassBlock>, list: seq<Block>, l: nat)
    requires AllShaped(blocks)
  {
    && NoDup(list) && (forall p :: p in list ==> p in blocks)
    && forall p :: p in blocks ==> (p in list <==> ListIdx(blocks[p].size) == l && blocks[p].availNum > 0)
  }

  ghost predicate ClassLists(blocks: map<Block, ClassBlock>, lists: seq<seq<Block>>)
    requires AllShaped(blocks)
  {
    |lists| == CLASSES && forall l :: 0 <= l < CLASSES ==> ClassList(blocks, lists[l], l)
  }

  ghost predicate OneFull(blocks: map<Block, ClassBlock>)
    requires AllShaped(blocks)
  {
    forall p, q :: p in blocks && q in blocks && p != q && blocks[p].size == blocks[q].size ==>
      !Full(blocks[p]) || !Full(blocks[q])
  }

  ghost predicate SmallInv(blocks: map<Block, ClassBlock>, lists: seq<seq<Block>>) {
    AllShaped(blocks) && ClassLists(blocks, lists) && OneFull(blocks)
  }

  /** p is a live buddy block of order 4. */
  ghost predicate IsBuddyBlock(chunks: map<nat, Chunk>, p: Block) {
    var i := BlockIdx(p.offset, 4);
    p.st in chunks && ChunkInv(chunks[p.st]) && Live(chunks[p.st], 4, i) && p.offset == IdxBlock(i, 4)
  }

  ghost predicate Held(blocks: map<Block, ClassBlock>, chunks: map<nat, Chunk>) {
    forall p :: p in blocks ==> IsBuddyBlock(chunks, p)
  }

  // ----- The small allocator does not notice what the buddy allocator does with other blocks -----

  lemma HeldGave(blocks: map<Block, ClassBlock>, before: map<nat, Chunk>, after: map<nat, Chunk>, p: Block, i: nat)
    requires Held(blocks, before) && Gave(before, after, p.st, 4, i) && p.offset == IdxBlock(i, 4)
    ensures Held(blocks, after) && p !in blocks && IsBuddyBlock(after, p)
  {
    hide OrderInv, BlockIdx, IdxBlock, Pow2;
    BlockIdxInside(i, 4, p.offset);
  }

  lemma HeldTook(blocks: map<Block, ClassBlock>, before: map<nat, Chunk>, after: map<nat, Chunk>, p: Block)
    requires Held(blocks, before) && Took(before, after, p.st, 4, BlockIdx(p.offset, 4)) && p in blocks
    ensures Held(blocks - {p}, after)
  {
    hide OrderInv;
    forall q | q in blocks - {p} ensures IsBuddyBlock(after, q) {
      assert IsBuddyBlock(before, q) && IsBuddyBlock(before, p);
      if q.st == p.st { assert BlockIdx(q.offset, 4) != BlockIdx(p.offset, 4); }
    }
  }

  // ----- What an allocation and a free do to the slots -----

  /** Exactly slot idx of block p, of class size, was handed out; p may be a new block. */
  ghost predicate Handed(before: map<Block, ClassBlock>, after: map<Block, ClassBlock>, p: Block, size: nat, idx: nat) {
    && p in after && after == before[p := after[p]] && Shaped(after[p]) && after[p].size == size
    && (p in before ==> Shaped(before[p]) && before[p].size == size && !SlotLive(before[p], idx))
    && forall j: nat :: SlotLive(after[p], j) <==> (p in before && SlotLive(before[p], j)) || j == idx
  }

  /** Exactly the live slot idx of block p was taken back; p may go if no other slot of it is live. */
  ghost predicate Returned(before: map<Block, ClassBlock>, after: map<Block, ClassBlock>, p: Block, idx: nat) {
    && p in before && Shaped(before[p]) && SlotLive(before[p], idx)
    && if p in after then
         && after == before[p := after[p]] && Shaped(after[p]) && after[p].size == before[p].size
         && forall j: nat :: SlotLive(after[p], j) <==> SlotLive(before[p], j) && j != idx
       else
         after == before - {p} && forall j: nat :: SlotLive(before[p], j) <==> j == idx
  }

  lemma NewBlockStep(blocks: map<Block, ClassBlock>, lists: seq<seq<Block>>, p: Block, c: ClassBlock)
    requires SmallInv(blocks, lists) && p !in blocks && BlockInv(c) && Full(c) && lists[ListIdx(c.size)] == []
    ensures SmallInv(blocks[p := c], lists[ListIdx(c.size) := [p]])
  {
    hide FreeSet, IsFree, Slots;
    SlotsBounds(c.size);
    var l := ListIdx(c.size);
    var after, linked := blocks[p := c], lists[l := [p]];
    forall m | 0 <= m < CLASSES ensures ClassList(after, linked[m], m) {
      assert ClassList(blocks, lists[m], m);
    }
    forall q | q in blocks && blocks[q].size == c.size ensures !Full(blocks[q]) {
      assert ClassList(blocks, lists[l], l);
    }
  }

  lemma TakeSlotStep(blocks: map<Block, ClassBlock>, lists: seq<seq<Block>>, l: nat, idx: nat)
    requires SmallInv(blocks, lists) && l < CLASSES && lists[l] != []
    requires lists[l][0] in blocks && IsFree(blocks[lists[l][0]], idx) && blocks[lists[l][0]].availNum > 0
    ensures var p := lists[l][0];
      var c := SlotTaken(blocks[p], idx);
      && SmallInv(blocks[p := c], if c.availNum == 0 then lists[l := lists[l][1..]] else lists)
      && Handed(blocks, blocks[p := c], p, c.size, idx)
  {
    hide FreeSet, IsFree, Slots;
    var p := lists[l][0];
    assert ClassList(blocks, lists[l], l);
    SlotTakenInv(blocks[p], idx);
    var c := SlotTaken(blocks[p], idx);
    FullCount(blocks[p]);
    var after := blocks[p := c];
    var linked := if c.availNum == 0 then lists[l := lists[l][1..]] else lists;
    assert lists[l] == [p] + lists[l][1..];
    forall m | 0 <= m < CLASSES ensures ClassList(after, linked[m], m) {
      assert ClassList(blocks, lists[m], m);
    }
    TakenNotLive(blocks[p], idx);
  }

  lemma TakenNotLive(c: ClassBlock, idx: nat)
    requires Shaped(c) && IsFree(c, idx)
    ensures !SlotLive(c, idx)
  {
  }

  /** The slot is set free and the block stays: it is the first free slot of the block, the block is not fully
      free, or no other block of the class has a free slot. */
  lemma PutSlotStep(blocks: map<Block, ClassBlock>, lists: seq<seq<Block>>, p: Block, idx: nat)
    requires SmallInv(blocks, lists) && p in blocks && SlotLive(blocks[p], idx)
    requires var c := SlotPut(blocks[p], idx);
      Full(c) ==> lists[ListIdx(c.size)] == [p]
    ensures var c := SlotPut(blocks[p], idx);
      var l := ListIdx(c.size);
      && SmallInv(blocks[p := c], if c.availNum == 1 then lists[l := [p] + lists[l]] else lists)
      && Returned(blocks, blocks[p := c], p, idx)
  {
    hide FreeSet, IsFree, Slots;
    SlotPutInv(blocks[p], idx);
    var c := SlotPut(blocks[p], idx);
    SlotsBounds(c.size);
    var l := ListIdx(c.size);
    var after := blocks[p := c];
    var linked := if c.availNum == 1 then lists[l := [p] + lists[l]] else lists;
    forall m | 0 <= m < CLASSES ensures ClassList(after, linked[m], m) {
      assert ClassList(blocks, lists[m], m);
    }
    if Full(c) {
      forall q | q in blocks && q != p && blocks[q].size == c.size ensures !Full(blocks[q]) {
        assert ClassList(blocks, lists[l], l);
      }
    }
  }

  /** Unlinking a block from the list of its class. */
  lemma DropBlockStep(blocks: map<Block, ClassBlock>, lists: seq<seq<Block>>, p: Block, idx: nat)
    requires SmallInv(blocks, lists) && p in blocks && SlotLive(blocks[p], idx)
    requires Full(SlotPut(blocks[p], idx))
    ensures var l := ListIdx(blocks[p].size);
      SmallInv(blocks - {p}, lists[l := Without(lists[l], p)])
    ensures Returned(blocks, blocks - {p}, p, idx)
  {
    hide FreeSet, IsFree, Slots;
    SlotPutInv(blocks[p], idx);
    FullCount(SlotPut(blocks[p], idx));
    var l := ListIdx(blocks[p].size);
    assert ClassList(blocks, lists[l], l);
    WithoutIs(lists[l], p);
    var after, unlinked := blocks - {p}, lists[l := Without(lists[l], p)];
    forall m | 0 <= m < CLASSES ensures ClassList(after, unlinked[m], m) {
      assert ClassList(blocks, lists[m], m);
    }
    forall j: nat ensures SlotLive(blocks[p], j) <==> j == idx {
      assert !SlotLive(SlotPut(blocks[p], idx), j);
    }
  }

  /** Every slot of every block of the class was handed out. */
  ghost predicate NoSlotFree(blocks: map<Block, ClassBlock>, size: nat) {
    forall p :: p in blocks && Shaped(blocks[p]) && blocks[p].size == size ==> AllLive(blocks[p])
  }

  lemma ListEmptyIff(blocks: map<Block, ClassBlock>, lists: seq<seq<Block>>, size: nat)
    requires SmallInv(blocks, lists) && IsSmallClass(size)
    ensures |lists| == CLASSES && (lists[ListIdx(size)] == [] <==> NoSlotFree(blocks, size))
  {
    hide AllLive, IsFree, Slots, FreeSet;
    var list := lists[ListIdx(size)];
    assert ClassList(blocks, list, ListIdx(size));
    forall p | p in blocks ensures blocks[p].availNum == 0 <==> AllLive(blocks[p]) { EmptyCount(blocks[p]); }
    forall p | p in blocks && ListIdx(blocks[p].size) == ListIdx(size) ensures blocks[p].size == size {
      ListIdxInjective(blocks[p].size, size);
    }
    if list != [] { assert list[0] in list; }
  }

  lemma HeadHasSlot(blocks: map<Block, ClassBlock>, lists: seq<seq<Block>>, l: nat)
    requires SmallInv(blocks, lists) && l < CLASSES && lists[l] != []
    ensures var p := lists[l][0];
      p in blocks && BlockInv(blocks[p]) && blocks[p].availNum > 0 && ListIdx(blocks[p].size) == l
  {
    assert ClassList(blocks, lists[l], l) && lists[l][0] in lists[l];
  }

  lemma ListShape(blocks: map<Block, ClassBlock>, lists: seq<seq<Block>>)
    requires SmallInv(blocks, lists)
    ensures |lists| == CLASSES
  {
  }

  lemma Unfold(c: ClassBlock)
    requires BlockInv(c)
    ensures Shaped(c)
  {
  }

  lemma FullOf(c: ClassBlock)
    requires Shaped(c) && c.availNum == Slots(c.size)
    ensures Full(c)
  {
  }

  lemma FreeInRange(c: ClassBlock, idx: nat)
    requires Shaped(c) && IsFree(c, idx)
    ensures idx < Slots(c.size)
  {
  }

  lemma HeldNew(blocks: map<Block, ClassBlock>, chunks: map<nat, Chunk>, p: Block, c: ClassBlock)
    requires Held(blocks, chunks) && IsBuddyBlock(chunks, p)
    ensures Held(blocks[p := c], chunks)
  {
  }

  lemma HeldSame(blocks: map<Block, ClassBlock>, chunks: map<nat, Chunk>, p: Block, c: ClassBlock)
    requires Held(blocks, chunks) && p in blocks
    ensures Held(blocks[p := c], chunks)
  {
  }

  /** A slot of a block that was made on the way. */
  lemma HandedNew(before: map<Block, ClassBlock>, mid: map<Block, ClassBlock>, after: map<Block, ClassBlock>,
                  p: Block, len: nat, idx: nat)
    requires p !in before && p in mid && mid == before[p := mid[p]] && BlockInv(mid[p]) && Full(mid[p])
    requires Handed(mid, after, p, len, idx)
    ensures Handed(before, after, p, len, idx)
  {
    FullCount(mid[p]);
  }

  /** A slot as the caller sees it: the block that is its context, and its byte offset in the block's chunk. */
  datatype Slot = Slot(block: Block, offset: nat)

  class SmallArena {
    const buddy: BuddyArena
    var blocks: map<Block, ClassBlock>
    var lists: seq<seq<Block>>

    ghost predicate Valid()
      reads this, buddy
    {
      buddy.Valid() && SmallInv(blocks, lists) && Held(blocks, buddy.chunks)
    }

    constructor (buddy: BuddyArena)
      requires buddy.Valid()
      ensures Valid() && blocks == map[] && this.buddy == buddy
    {
      this.buddy := buddy;
      blocks := map[];
      lists := seq(CLASSES, _ => []);
    }

    /** `allocate_class_block`.  memory is what the bitmap words of the new block hold beforehand. */
    method AllocateClassBlock(size: nat, mmap: Option<nat>, memory: seq<set<nat>>)
      requires Valid() && IsSmallClass(size) && (mmap.Some? ==> mmap.value !in buddy.chunks) && |memory| == 32
      requires |lists| == CLASSES && lists[ListIdx(size)] == []
      modifies this, buddy
      ensures Valid()
      ensures if mmap == None && FirstOrder(old(buddy.lists), 4) == 7
        then blocks == old(blocks) && lists == old(lists) && buddy.chunks == old(buddy.chunks)
        else exists p, c :: p !in old(blocks) && blocks == old(blocks)[p := c] && lists == old(lists)[ListIdx(size) := [p]]
               && BlockInv(c) && c.size == size && Full(c)
               && Gave(old(buddy.chunks), buddy.chunks, p.st, 4, BlockIdx(p.offset, 4))
    {
      hide SmallInv, Held, ArenaInv, Gave, IdxBlock, BlockIdx, Slots, BlockInv, Full;
      var b := buddy.Alloc(4, mmap);
      if b == None { return; }
      var p := b.value;
      ghost var i :| p.offset == IdxBlock(i, 4) && Gave(old(buddy.chunks), buddy.chunks, p.st, 4, i);
      HeldGave(blocks, old(buddy.chunks), buddy.chunks, p, i);
      GaveAt(old(buddy.chunks), buddy.chunks, p.st, 4, i);
      SlotsBounds(size);
      var bitmap := FillBitmap(memory, Slots(size));
      var c := ClassBlock(size, bitmap, Slots(size));
      FilledInv(c, memory);
      assert Full(c) by { FullOf(c); }
      NewBlockStep(blocks, lists, p, c);
      HeldNew(blocks, buddy.chunks, p, c);
      blocks := blocks[p := c];
      lists := lists[ListIdx(size) := [p] + lists[ListIdx(size)]];
      assert [p] + [] == [p];
    }

    /** `small_alloc`: the lowest free slot of the first block in the list of the class, after making a new block if
        that list is empty. */
    method SmallAlloc(len: nat, mmap: Option<nat>, memory: seq<set<nat>>) returns (r: Option<Slot>)
      requires Valid() && IsSmallClass(len) && (mmap.Some? ==> mmap.value !in buddy.chunks) && |memory| == 32
      modifies this, buddy
      ensures Valid() && |old(lists)| == CLASSES
      ensures r == None <==> old(lists)[ListIdx(len)] == [] && mmap == None && FirstOrder(old(buddy.lists), 4) == 7
      ensures r == None ==> blocks == old(blocks) && lists == old(lists) && buddy.chunks == old(buddy.chunks)
      ensures r.Some? ==> exists idx: nat ::
                && idx < Slots(len) && r.value.offset == r.value.block.offset + SlotOffset(idx, len)
                && Handed(old(blocks), blocks, r.value.block, len, idx)
      ensures r.Some? && old(lists)[ListIdx(len)] != [] ==> r.value.block == old(lists)[ListIdx(len)][0]
      ensures r.Some? && r.value.block in old(blocks) ==> buddy.chunks == old(buddy.chunks)
      ensures r.Some? && r.value.block !in old(blocks) ==>
        Gave(old(buddy.chunks), buddy.chunks, r.value.block.st, 4, BlockIdx(r.value.block.offset, 4))
    {
      hide Gave, BlockIdx;
      hide SmallInv, Held, ArenaInv, Slots, BlockInv, Full, Handed, SlotOffset, IsFree;
      ListShape(blocks, lists);
      var l := ListIdx(len);
      if lists[l] == [] {
        AllocateClassBlock(len, mmap, memory);
      }
      ListShape(blocks, lists);
      if lists[l] == [] { return None; }
      HeadHasSlot(blocks, lists, l);
      var p := lists[l][0];
      ghost var mid := blocks;
      assert Shaped(blocks[p]) by { Unfold(blocks[p]); }
      ListIdxInjective(blocks[p].size, len);
      var idx := FindSlot(blocks[p]);
      TakeSlotStep(blocks, lists, l, idx);
      var c := SlotTaken(blocks[p], idx);
      HeldSame(blocks, buddy.chunks, p, c);
      blocks := blocks[p := c];
      if c.availNum == 0 {
        lists := lists[l := lists[l][1..]];
      }
      r := Some(Slot(p, p.offset + SlotOffset(idx, len)));
      FreeInRange(mid[p], idx);
      if mid != old(blocks) { HandedNew(old(blocks), mid, blocks, p, len, idx); }
    }

    /** `small_free`: s holds the context of a live slot of class len and any address inside that slot.  The slot alone
        is taken back.  Its block goes back to the buddy allocator exactly when it is fully free and another block of
        the class has a free slot. */
    method SmallFree(s: Slot, len: nat)
      requires Valid() && s.block in blocks && Shaped(blocks[s.block]) && blocks[s.block].size == len
      requires s.offset >= s.block.offset + HEADER
      requires SlotLive(blocks[s.block], SlotIdx(s.offset - s.block.offset, len))
      modifies this, buddy
      ensures Valid() && Returned(old(blocks), blocks, s.block, SlotIdx(s.offset - s.block.offset, len))
      ensures s.block in blocks ==> buddy.chunks == old(buddy.chunks)
      ensures s.block !in blocks ==>
        Took(old(buddy.chunks), buddy.chunks, s.block.st, 4, BlockIdx(s.block.offset, 4))
      ensures |old(lists)| == CLASSES && old(Shaped(blocks[s.block]))
      ensures s.block !in blocks <==>
        && (forall j: nat :: SlotLive(old(blocks)[s.block], j) ==> j == SlotIdx(s.offset - s.block.offset, len))
        && (exists q :: q in old(lists)[ListIdx(len)] && q != s.block)
    {
      hide SmallInv, Held, ArenaInv, Slots, BlockInv, Returned, SlotOffset, IsFree, Took, SlotIdx, BlockIdx, SlotLive, SlotPut;
      ListShape(blocks, lists);
      var p := s.block;
      var idx := SlotIdx(s.offset - p.offset, len);
      var l := ListIdx(len);
      LiveInRange(blocks[p], idx);
      var c := SlotPut(blocks[p], idx);
      PutCount(blocks, lists, p, idx);
      if c.availNum != 1 && c.availNum == Slots(len) && |lists[l]| > 1 {
        DropBlockStep(blocks, lists, p, idx);
        BuddyBlockLive(blocks, buddy.chunks, p);
        blocks := blocks - {p};
        lists := lists[l := Without(lists[l], p)];
        buddy.Free(4, p);
        HeldTook(old(blocks), old(buddy.chunks), buddy.chunks, p);
      } else {
        PutSlotStep(blocks, lists, p, idx);
        HeldSame(blocks, buddy.chunks, p, c);
        blocks := blocks[p := c];
        if c.availNum == 1 {
          lists := lists[l := [p] + lists[l]];
        }
      }
    }
  }

  lemma LiveInRange(c: ClassBlock, idx: nat)
    requires Shaped(c) && SlotLive(c, idx)
    ensures idx < Slots(c.size)
  {
  }

  lemma BuddyBlockLive(blocks: map<Block, ClassBlock>, chunks: map<nat, Chunk>, p: Block)
    requires Held(blocks, chunks) && p in blocks
    ensures p.st in chunks && ChunkInv(chunks[p.st]) && Live(chunks[p.st], 4, BlockIdx(p.offset, 4))
  {
    assert IsBuddyBlock(chunks, p);
  }

  /** When the counter reaches 1 the block is not in its list yet; when it reaches the number of slots, the freed slot
      was the only live one, and the block is in its list. */
  lemma PutCount(blocks: map<Block, ClassBlock>, lists: seq<seq<Block>>, p: Block, idx: nat)
    requires SmallInv(blocks, lists) && p in blocks && SlotLive(blocks[p], idx)
    ensures var c := SlotPut(blocks[p], idx);
      && 2 <= Slots(c.size) && |lists| == CLASSES
      && (Full(c) <==> forall j: nat :: SlotLive(blocks[p], j) ==> j == idx)
      && (Full(c) ==> p in lists[ListIdx(c.size)])
      && (|lists[ListIdx(c.size)]| > 1 && Full(c) <==>
            Full(c) && exists q :: q in lists[ListIdx(c.size)] && q != p)
      && (Full(c) && |lists[ListIdx(c.size)]| <= 1 ==> lists[ListIdx(c.size)] == [p])
  {
    hide FreeSet, IsFree, Slots;
    SlotPutInv(blocks[p], idx);
    var c := SlotPut(blocks[p], idx);
    SlotsBounds(c.size);
    FullCount(c);
    var l := lists[ListIdx(c.size)];
    assert ClassList(blocks, l, ListIdx(c.size));
    if Full(c) {
      if |l| > 1 { assert l[0] != l[1] && l[0] in l && l[1] in l; }
      assert forall q :: q in l && |l| == 1 ==> q == l[0];
    }
  }

  // ----- Regions -----

  lemma BlockPages()
    ensures Pow2(12 + 4) == BLOCK
  {
    assert Pow2(8) == 256;
    assert Pow2(12) == 4096;
  }

  lemma BlocksApart(chunks: map<nat, Chunk>, p: Block, q: Block, byte: nat)
    requires IsBuddyBlock(chunks, p) && IsBuddyBlock(chunks, q) && p.st == q.st
    requires p.offset <= byte < p.offset + BLOCK && q.offset <= byte < q.offset + BLOCK
    ensures p == q
  {
    hide Pow2, ChunkInv, Live, IdxBlock, BlockIdx;
    BlockPages();
    BlockIdxInside(BlockIdx(p.offset, 4), 4, byte);
    BlockIdxInside(BlockIdx(q.offset, 4), 4, byte);
  }

  /** Two slots that share a byte are one slot: blocks do not overlap, and neither do the slots of one block; and no
      slot overlaps the header of any block. */
  lemma SlotsApart(blocks: map<Block, ClassBlock>, lists: seq<seq<Block>>, chunks: map<nat, Chunk>,
                   p: Block, i: nat, q: Block, j: nat, byte: nat)
    requires SmallInv(blocks, lists) && Held(blocks, chunks) && p in blocks && q in blocks && p.st == q.st
    requires i < Slots(blocks[p].size) && j < Slots(blocks[q].size)
    requires var o := p.offset + SlotOffset(i, blocks[p].size); o <= byte < o + blocks[p].size
    requires var o := q.offset + SlotOffset(j, blocks[q].size);
      o <= byte < o + blocks[q].size || q.offset <= byte < q.offset + HEADER
    ensures p == q && i == j && byte >= q.offset + HEADER
  {
    hide FreeSet, IsFree, Slots, ClassLists, OneFull, SlotOffset, IsBuddyBlock, ChunkInv;
    SlotInBlock(i, blocks[p].size);
    SlotInBlock(j, blocks[q].size);
    BlocksApart(chunks, p, q, byte);
    if i < j { SlotsDisjoint(i, j, blocks[p].size); }
    if j < i { SlotsDisjoint(j, i, blocks[p].size); }
  }
}
