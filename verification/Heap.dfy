/** The three layers under malloc and free (src/memory/malloc.c): each region that was handed out owns exactly one slot,
    one buddy block or one mapping, and free, given only the address, gives exactly that back. */
module Heap {
  import opened Arith
  import opened Options
  import opened BuddyChunk
  import opened BuddyTheory
  import Buddy
  import opened SmallBlock
  import opened SmallClass
  import M = Malloc

  type Block = Buddy.Block

  /** An address: in a chunk of the buddy allocator, or in a mapping of its own. */
  datatype Ptr = InChunk(st: nat, offset: nat) | InMap(id: nat, offset: nat)

  /** The context pointer in the metadata: a class block, a chunk record, or a mapping record. */
  datatype Context = SmallContext(block: Block) | ChunkContext(st: nat) | MapContext(id: nat)

  /** The metadata words in front of a region, decoded. */
  datatype Meta = Meta(code: nat, context: Context, tagged: bool)

  /** What a region owns. */
  datatype Owner = OwnSlot(block: Block, idx: nat) | OwnBlock(st: nat, order: nat, i: nat) | OwnMap(id: nat)

  /** What the layers have handed out, apart from the buddy blocks that serve as class blocks. */
  ghost predicate Out(chunks: map<nat, Chunk>, blocks: map<Block, ClassBlock>, maps: map<nat, nat>, o: Owner) {
    match o
    case OwnSlot(b, idx) => b in blocks && Shaped(blocks[b]) && SlotLive(blocks[b], idx)
    case OwnBlock(st, k, i) =>
      && k <= TOP && st in chunks && ChunkInv(chunks[st]) && Live(chunks[st], k, i)
      && !(k == 4 && Buddy.Block(st, Buddy.IdxBlock(i, 4)) in blocks)
    case OwnMap(id) => id in maps
  }

  /** What free makes of an address and its metadata: the owner that it gives back, or None where it does nothing. */
  function Target(p: Ptr, m: Meta): Option<Owner> {
    match M.FreeLayer(m.code)
    case Some(Small(len)) =>
      if m.context.SmallContext? && p.InChunk? && len > 0 && p.offset >= m.context.block.offset + HEADER
        && p.st == m.context.block.st then
        Some(OwnSlot(m.context.block, SlotIdx(p.offset - m.context.block.offset, len)))
      else None
    case Some(Pages(k)) =>
      if m.context.ChunkContext? && p.InChunk? && p.st == m.context.st then
        Some(OwnBlock(p.st, k, Buddy.BlockIdx(p.offset, k)))
      else None
    case Some(Mapped) =>
      if m.context.MapContext? && p.InMap? && p.id == m.context.id then Some(OwnMap(p.id)) else None
    case None => None
  }

  /** The slot size in the metadata is that of the block. */
  ghost predicate RightSize(blocks: map<Block, ClassBlock>, m: Meta) {
    m.context.SmallContext? ==>
      m.context.block in blocks && M.FreeLayer(m.code) == Some(M.Small(blocks[m.context.block].size))
  }

  /** Regions and what the layers have handed out correspond one to one. */
  ghost predicate MetaInv(chunks: map<nat, Chunk>, blocks: map<Block, ClassBlock>, maps: map<nat, nat>,
                          meta: map<Ptr, Meta>) {
    && (forall p :: p in meta ==> Target(p, meta[p]).Some? && RightSize(blocks, meta[p]))
    && (forall p, q :: p in meta && q in meta && p != q ==> Target(p, meta[p]) != Target(q, meta[q]))
    && (forall o :: Out(chunks, blocks, maps, o) <==> Owned(meta, o))
  }

  ghost predicate Owned(meta: map<Ptr, Meta>, o: Owner) {
    exists p :: p in meta && Target(p, meta[p]) == Some(o)
  }

  // ----- The layers, seen from above -----

  lemma SmallOut(chunks: map<nat, Chunk>, chunks': map<nat, Chunk>, blocks: map<Block, ClassBlock>,
                 blocks': map<Block, ClassBlock>, maps: map<nat, nat>, b: Block, len: nat, idx: nat, o: Owner)
    requires Held(blocks, chunks) && Handed(blocks, blocks', b, len, idx)
    requires if b in blocks then chunks' == chunks
             else Buddy.Gave(chunks, chunks', b.st, 4, Buddy.BlockIdx(b.offset, 4)) && IsBuddyBlock(chunks', b)
    ensures Out(chunks', blocks', maps, o) <==> Out(chunks, blocks, maps, o) || o == OwnSlot(b, idx)
    ensures !Out(chunks, blocks, maps, OwnSlot(b, idx))
  {
    hide OrderInv, ChunkInv, IsFree, Slots;
    match o
    case OwnSlot(c, j) =>
    case OwnMap(_) =>
    case OwnBlock(st, k, i) =>
      if b !in blocks { Buddy.BlockIdxInside(i, 4, Buddy.IdxBlock(i, 4)); }
  }

  lemma ClassBlockNotOut(chunks: map<nat, Chunk>, chunks': map<nat, Chunk>, blocks: map<Block, ClassBlock>,
                         maps: map<nat, nat>, b: Block, st: nat, k: nat, i: nat)
    requires Held(blocks, chunks) && b in blocks && Buddy.Took(chunks, chunks', b.st, 4, Buddy.BlockIdx(b.offset, 4))
    ensures Out(chunks', blocks - {b}, maps, OwnBlock(st, k, i)) <==> Out(chunks, blocks, maps, OwnBlock(st, k, i))
  {
    hide OrderInv, ChunkInv, IsFree, Slots, Buddy.BlockIdx, Buddy.IdxBlock;
    assert IsBuddyBlock(chunks, b);
    Buddy.BlockIdxInside(i, 4, Buddy.IdxBlock(i, 4));
  }

  lemma SmallBack(chunks: map<nat, Chunk>, chunks': map<nat, Chunk>, blocks: map<Block, ClassBlock>,
                  blocks': map<Block, ClassBlock>, maps: map<nat, nat>, b: Block, idx: nat, o: Owner)
    requires Held(blocks, chunks) && Returned(blocks, blocks', b, idx)
    requires if b in blocks' then chunks' == chunks
             else Buddy.Took(chunks, chunks', b.st, 4, Buddy.BlockIdx(b.offset, 4))
    ensures Out(chunks', blocks', maps, o) <==> Out(chunks, blocks, maps, o) && o != OwnSlot(b, idx)
  {
    hide OrderInv, ChunkInv, IsFree, Slots, Held, Buddy.BlockIdx, Buddy.IdxBlock, Buddy.Took;
    match o
    case OwnSlot(c, j) =>
    case OwnMap(_) =>
    case OwnBlock(st, k, i) =>
      if b !in blocks' { ClassBlockNotOut(chunks, chunks', blocks, maps, b, st, k, i); }
  }

  lemma BlockOut(chunks: map<nat, Chunk>, chunks': map<nat, Chunk>, blocks: map<Block, ClassBlock>,
                 maps: map<nat, nat>, st: nat, k: nat, i: nat, o: Owner)
    requires Held(blocks, chunks) && Buddy.Gave(chunks, chunks', st, k, i)
    ensures Out(chunks', blocks, maps, o) <==> Out(chunks, blocks, maps, o) || o == OwnBlock(st, k, i)
    ensures !Out(chunks, blocks, maps, OwnBlock(st, k, i)) && Held(blocks, chunks')
  {
    hide OrderInv, ChunkInv, IsFree, Slots, Live, Shaped, Buddy.IdxBlock, Buddy.BlockIdx;
    Buddy.BlockIdxInside(i, k, Buddy.IdxBlock(i, k));
    if Buddy.Block(st, Buddy.IdxBlock(i, k)) in blocks { assert IsBuddyBlock(chunks, Buddy.Block(st, Buddy.IdxBlock(i, k))); }
  }

  lemma BlockBack(chunks: map<nat, Chunk>, chunks': map<nat, Chunk>, blocks: map<Block, ClassBlock>,
                  maps: map<nat, nat>, st: nat, k: nat, i: nat, o: Owner)
    requires Held(blocks, chunks) && Buddy.Took(chunks, chunks', st, k, i) && Out(chunks, blocks, maps, OwnBlock(st, k, i))
    ensures Out(chunks', blocks, maps, o) <==> Out(chunks, blocks, maps, o) && o != OwnBlock(st, k, i)
    ensures Held(blocks, chunks')
  {
    hide OrderInv, ChunkInv, IsFree, Slots;
    forall p | p in blocks ensures IsBuddyBlock(chunks', p) {
      assert IsBuddyBlock(chunks, p);
      if p.st == st { assert (4, Buddy.BlockIdx(p.offset, 4)) != (k, i); }
    }
  }

  // ----- What was handed out does not overlap -----

  /** Address p lies in what o stands for. */
  ghost predicate Within(blocks: map<Block, ClassBlock>, o: Owner, p: Ptr) {
    match o
    case OwnSlot(b, idx) =>
      && p.InChunk? && p.st == b.st && b in blocks && blocks[b].size > 0 && p.offset >= b.offset + HEADER
      && SlotIdx(p.offset - b.offset, blocks[b].size) == idx
    case OwnBlock(st, k, i) => p.InChunk? && p.st == st && Buddy.BlockIdx(p.offset, k) == i
    case OwnMap(id) => p.InMap? && p.id == id
  }

  lemma SameBlock(c: Chunk, offset: nat, k: nat, m: nat)
    requires ChunkInv(c) && k <= TOP && m <= TOP
    requires Live(c, k, Buddy.BlockIdx(offset, k)) && Live(c, m, Buddy.BlockIdx(offset, m))
    ensures k == m
  {
    UpAdd(offset, 12, k);
    UpAdd(offset, 12, m);
    var page := Up(offset, 12);
    if k <= m { CoverUnique(c, page, k, m); } else { CoverUnique(c, page, m, k); }
  }

  /** An address in a slot lies in the class block of the slot. */
  lemma SlotInClassBlock(chunks: map<nat, Chunk>, blocks: map<Block, ClassBlock>, lists: seq<seq<Block>>, b: Block, idx: nat, p: Ptr)
    requires Held(blocks, chunks) && SmallInv(blocks, lists) && b in blocks && idx < Slots(blocks[b].size)
    requires Within(blocks, OwnSlot(b, idx), p)
    ensures b.offset <= p.offset < b.offset + BLOCK && Buddy.BlockIdx(p.offset, 4) == Buddy.BlockIdx(b.offset, 4)
    ensures var o := b.offset + SlotOffset(idx, blocks[b].size); o <= p.offset < o + blocks[b].size
    ensures IsBuddyBlock(chunks, b)
  {
    hide Slots, FreeSet, IsFree, ClassLists, OneFull, ChunkInv, Live, Buddy.BlockIdx, Buddy.IdxBlock;
    SlotInBlock(idx, blocks[b].size);
    QuotIs(p.offset - b.offset - HEADER, blocks[b].size, idx);
    BlockPages();
    assert IsBuddyBlock(chunks, b);
    Buddy.BlockIdxInside(Buddy.BlockIdx(b.offset, 4), 4, p.offset);
  }

  lemma SlotAndBlock(chunks: map<nat, Chunk>, blocks: map<Block, ClassBlock>, lists: seq<seq<Block>>, maps: map<nat, nat>,
                     b: Block, idx: nat, st: nat, k: nat, i: nat, p: Ptr)
    requires Held(blocks, chunks) && SmallInv(blocks, lists)
    requires Out(chunks, blocks, maps, OwnSlot(b, idx)) && Out(chunks, blocks, maps, OwnBlock(st, k, i))
    ensures !Within(blocks, OwnSlot(b, idx), p) || !Within(blocks, OwnBlock(st, k, i), p)
  {
    if Within(blocks, OwnSlot(b, idx), p) && Within(blocks, OwnBlock(st, k, i), p) {
      hide Slots, FreeSet, IsFree, ClassLists, OneFull, OrderInv, Buddy.BlockIdx, Buddy.IdxBlock;
      SlotInClassBlock(chunks, blocks, lists, b, idx, p);
      SameBlock(chunks[st], p.offset, k, 4);
    }
  }

  /** No address belongs to two owners. */
  lemma OwnersApart(chunks: map<nat, Chunk>, blocks: map<Block, ClassBlock>, lists: seq<seq<Block>>, maps: map<nat, nat>,
                    o: Owner, w: Owner, p: Ptr)
    requires Held(blocks, chunks) && SmallInv(blocks, lists)
    requires Out(chunks, blocks, maps, o) && Out(chunks, blocks, maps, w) && Within(blocks, o, p) && Within(blocks, w, p)
    ensures o == w
  {
    hide Slots, FreeSet, IsFree, ClassLists, OneFull, OrderInv, ChunkInv, Buddy.BlockIdx, Buddy.IdxBlock;
    match (o, w)
    case (OwnSlot(b, i), OwnSlot(c, j)) =>
      SlotInClassBlock(chunks, blocks, lists, b, i, p);
      SlotInClassBlock(chunks, blocks, lists, c, j, p);
      BlocksApart(chunks, b, c, p.offset);
    case (OwnSlot(b, i), OwnBlock(st, k, j)) => SlotAndBlock(chunks, blocks, lists, maps, b, i, st, k, j, p);
    case (OwnBlock(st, k, j), OwnSlot(b, i)) => SlotAndBlock(chunks, blocks, lists, maps, b, i, st, k, j, p);
    case (OwnBlock(st, k, i), OwnBlock(_, m, j)) => SameBlock(chunks[st], p.offset, k, m);
    case _ =>
  }

  /** What free would give back for an address contains that address. */
  lemma TargetWithin(blocks: map<Block, ClassBlock>, p: Ptr, m: Meta, o: Owner)
    requires Target(p, m) == Some(o) && RightSize(blocks, m)
    ensures Within(blocks, o, p)
  {
  }

  // ----- The metadata follow -----

  lemma MetaGrows(chunks: map<nat, Chunk>, chunks': map<nat, Chunk>, blocks: map<Block, ClassBlock>,
                  blocks': map<Block, ClassBlock>, maps: map<nat, nat>, maps': map<nat, nat>,
                  meta: map<Ptr, Meta>, p: Ptr, m: Meta, o: Owner)
    requires MetaInv(chunks, blocks, maps, meta) && !Out(chunks, blocks, maps, o)
    requires forall w :: Out(chunks', blocks', maps', w) <==> Out(chunks, blocks, maps, w) || w == o
    requires Target(p, m) == Some(o) && RightSize(blocks', m) && p !in meta
    requires forall b :: b in blocks ==> b in blocks' && blocks'[b].size == blocks[b].size
    ensures MetaInv(chunks', blocks', maps', meta[p := m])
  {
    hide Out, Target;
    var meta' := meta[p := m];
    assert !Owned(meta, o);
    forall w ensures Owned(meta', w) <==> Owned(meta, w) || w == o {
      if Owned(meta, w) {
        var q :| q in meta && Target(q, meta[q]) == Some(w);
        assert meta'[q] == meta[q];
      }
      assert meta'[p] == m;
    }
  }

  lemma MetaShrinks(chunks: map<nat, Chunk>, chunks': map<nat, Chunk>, blocks: map<Block, ClassBlock>,
                    blocks': map<Block, ClassBlock>, maps: map<nat, nat>, maps': map<nat, nat>,
                    meta: map<Ptr, Meta>, p: Ptr, o: Owner)
    requires MetaInv(chunks, blocks, maps, meta) && p in meta && Target(p, meta[p]) == Some(o)
    requires forall w :: Out(chunks', blocks', maps', w) <==> Out(chunks, blocks, maps, w) && w != o
    requires forall q :: q in meta && q != p && meta[q].context.SmallContext? ==>
      meta[q].context.block in blocks' && meta[q].context.block in blocks
      && blocks'[meta[q].context.block].size == blocks[meta[q].context.block].size
    ensures MetaInv(chunks', blocks', maps', meta - {p})
  {
    hide Out, Target;
    var meta' := meta - {p};
    forall w ensures Owned(meta', w) <==> Owned(meta, w) && w != o {
      if Owned(meta, w) && w != o {
        var q :| q in meta && Target(q, meta[q]) == Some(w);
        assert q in meta' && meta'[q] == meta[q];
      }
    }
  }

  // ----- malloc and free -----

  /** Exactly o was handed out. */
  ghost predicate Gained(chunks: map<nat, Chunk>, chunks': map<nat, Chunk>, blocks: map<Block, ClassBlock>,
                         blocks': map<Block, ClassBlock>, maps: map<nat, nat>, maps': map<nat, nat>, o: Owner) {
    && !Out(chunks, blocks, maps, o)
    && (forall w :: Out(chunks', blocks', maps', w) <==> Out(chunks, blocks, maps, w) || w == o)
    && (forall b :: b in blocks ==> b in blocks' && blocks'[b].size == blocks[b].size)
    && (forall id :: id in maps ==> id in maps' && maps'[id] == maps[id])
  }

  /** The first byte of an owner of c bytes. */
  function StartOf(o: Owner, c: nat): Ptr {
    match o
    case OwnSlot(b, idx) => InChunk(b.st, b.offset + SlotOffset(idx, c))
    case OwnBlock(st, k, i) => InChunk(st, Buddy.IdxBlock(i, k))
    case OwnMap(id) => InMap(id, 0)
  }

  function ContextOf(o: Owner): Context {
    match o
    case OwnSlot(b, _) => SmallContext(b)
    case OwnBlock(st, _, _) => ChunkContext(st)
    case OwnMap(id) => MapContext(id)
  }

  /** o is of the layer, and of the size, that a class is served by. */
  ghost predicate Serves(blocks: map<Block, ClassBlock>, maps: map<nat, nat>, o: Owner, c: nat) {
    match M.AllocLayer(c)
    case Some(Small(len)) => o.OwnSlot? && len == c && o.block in blocks && blocks[o.block].size == c && c > 0
    case Some(Pages(k)) => o.OwnBlock? && o.order == k && c == Pow2(12 + k)
    case Some(Mapped) => o.OwnMap? && o.id in maps && maps[o.id] == c
    case None => false
  }

  /** The layer that serves class c has nothing to hand out: every slot of the class is live and no chunk has room for
      another class block, or no chunk has a free block that is large enough, and no chunk can be mapped; or the mapping
      itself fails. */
  ghost predicate Exhausted(chunks: map<nat, Chunk>, blocks: map<Block, ClassBlock>, c: nat, chunk: Option<nat>, map_: Option<nat>) {
    if c <= 2048 then chunk == None && Buddy.NoneFree(chunks, 4) && NoSlotFree(blocks, c)
    else if c <= 262144 then chunk == None && forall k: nat :: k <= TOP && Pow2(12 + k) == c ==> Buddy.NoneFree(chunks, k)
    else map_ == None
  }

  lemma SmallExhausted(chunks: map<nat, Chunk>, blocks: map<Block, ClassBlock>, lists: seq<seq<Block>>,
                       buddyLists: seq<seq<nat>>, n: nat, keep: nat, c: nat, chunk: Option<nat>, map_: Option<nat>)
    requires SmallInv(blocks, lists) && Buddy.ArenaInv(chunks, buddyLists, n, keep) && IsSmallClass(c)
    ensures |lists| == CLASSES && |buddyLists| == 7
    ensures Exhausted(chunks, blocks, c, chunk, map_) <==>
      lists[ListIdx(c)] == [] && chunk == None && Buddy.FirstOrder(buddyLists, 4) == 7
  {
    hide SmallInv, Buddy.ArenaInv, NoSlotFree, Buddy.NoneFree;
    ListEmptyIff(blocks, lists, c);
    Buddy.NoneFreeIff(chunks, buddyLists, n, keep, 4);
  }

  lemma PagesExhausted(chunks: map<nat, Chunk>, blocks: map<Block, ClassBlock>, buddyLists: seq<seq<nat>>,
                       n: nat, keep: nat, k: nat, chunk: Option<nat>, map_: Option<nat>)
    requires Buddy.ArenaInv(chunks, buddyLists, n, keep) && k <= TOP
    ensures |buddyLists| == 7 && Pow2(12 + k) > 2048
    ensures Exhausted(chunks, blocks, Pow2(12 + k), chunk, map_) <==> chunk == None && Buddy.FirstOrder(buddyLists, k) == 7
  {
    hide Pow2, Buddy.ArenaInv, Buddy.NoneFree;
    M.Powers();
    Buddy.NoneFreeIff(chunks, buddyLists, n, keep, k);
    Pow2Monotone(12, 12 + k);
    Pow2Monotone(12 + k, 18);
    forall j: nat | j <= TOP
      ensures Pow2(12 + j) == Pow2(12 + k) ==> (Buddy.NoneFree(chunks, j) <==> Buddy.NoneFree(chunks, k))
    {
      if Pow2(12 + j) == Pow2(12 + k) { PowersDiffer(12 + j, 12 + k); }
    }
  }

  lemma MapExhausted(chunks: map<nat, Chunk>, blocks: map<Block, ClassBlock>, c: nat, chunk: Option<nat>, map_: Option<nat>)
    requires M.AllocLayer(c) == Some(M.Mapped)
    ensures Exhausted(chunks, blocks, c, chunk, map_) <==> map_ == None
  {
  }

  lemma {:induction false} PowersDiffer(j: nat, k: nat)
    requires Pow2(j) == Pow2(k)
    ensures j == k
  {
    if j > 0 && k > 0 { PowersDiffer(j - 1, k - 1); }
  }

  function Beyond(p: Ptr, n: nat): Ptr {
    p.(offset := p.offset + n)
  }

  /** The metadata that malloc writes take free back to the owner, from any address inside it. */
  lemma TargetIsOwner(blocks: map<Block, ClassBlock>, maps: map<nat, nat>, o: Owner, c: nat, n: nat, tagged: bool)
    requires M.IsClass(c) && Serves(blocks, maps, o, c) && n < c
    ensures var m := Meta(M.Code(c), ContextOf(o), tagged);
      Target(Beyond(StartOf(o, c), n), m) == Some(o) && RightSize(blocks, m)
  {
    hide M.Code, M.IsClass, Pow2, Buddy.BlockIdx, Buddy.IdxBlock, SlotIdx;
    M.CodeRoundTrip(c);
    match o
    case OwnSlot(b, idx) => SlotIdxInside(idx, c, SlotOffset(idx, c) + n);
    case OwnBlock(st, k, i) => Buddy.BlockIdxInside(i, k, Buddy.IdxBlock(i, k) + n);
    case OwnMap(_) =>
  }

  /** A pointer that malloc is about to return is not in use. */
  lemma NewPointer(chunks: map<nat, Chunk>, chunks': map<nat, Chunk>, blocks: map<Block, ClassBlock>,
                   blocks': map<Block, ClassBlock>, lists': seq<seq<Block>>, maps: map<nat, nat>, maps': map<nat, nat>,
                   meta: map<Ptr, Meta>, p: Ptr, m: Meta, o: Owner)
    requires MetaInv(chunks, blocks, maps, meta) && Gained(chunks, chunks', blocks, blocks', maps, maps', o)
    requires Held(blocks', chunks') && SmallInv(blocks', lists')
    requires Target(p, m) == Some(o) && RightSize(blocks', m)
    ensures p !in meta
  {
    hide Out, Target, Within, Held, SmallInv;
    if p in meta {
      var w := Target(p, meta[p]).value;
      assert Owned(meta, w);
      assert Out(chunks, blocks, maps, w);
      TargetWithin(blocks', p, m, o);
      TargetWithin(blocks', p, meta[p], w);
      OwnersApart(chunks', blocks', lists', maps', o, w, p);
    }
  }

  /** Blocks start at multiples of 16, given that mappings start at multiples of the page size. */
  lemma StartAligned(chunks: map<nat, Chunk>, blocks: map<Block, ClassBlock>, maps: map<nat, nat>, o: Owner, c: nat)
    requires Held(blocks, chunks) && AllShaped(blocks) && Out(chunks, blocks, maps, o) && M.IsClass(c) && Serves(blocks, maps, o, c)
    ensures StartOf(o, c).offset % 16 == 0
  {
    hide M.IsClass, SlotIdx, Pow2, Buddy.BlockIdx, IsFree, Slots, SlotOffset, ChunkInv, Live;
    match o
    case OwnSlot(b, idx) =>
      assert IsBuddyBlock(chunks, b);
      BlockAligned(Buddy.BlockIdx(b.offset, 4), 4);
      SlotAligned(blocks[b], idx);
      SixteenAdd(b.offset, SlotOffset(idx, c));
    case OwnBlock(st, k, i) => BlockAligned(i, k);
    case OwnMap(_) =>
  }

  lemma SlotAligned(b: ClassBlock, idx: nat)
    requires Shaped(b) && SlotLive(b, idx)
    ensures SlotOffset(idx, b.size) % 16 == 0
  {
    SlotInBlock(idx, b.size);
  }

  lemma BlockAligned(i: nat, k: nat)
    ensures Buddy.IdxBlock(i, k) % 16 == 0
  {
    M.PowerSixteen(12 + k);
    TimesSixteen(i, Pow2(12 + k));
  }

  /** The regions of two pointers in use share no address. */
  lemma RegionsApart(chunks: map<nat, Chunk>, blocks: map<Block, ClassBlock>, lists: seq<seq<Block>>, maps: map<nat, nat>,
                     meta: map<Ptr, Meta>, p: Ptr, q: Ptr, a: Ptr)
    requires MetaInv(chunks, blocks, maps, meta) && Held(blocks, chunks) && SmallInv(blocks, lists)
    requires p in meta && q in meta && p != q
    ensures !(Within(blocks, Target(p, meta[p]).value, a) && Within(blocks, Target(q, meta[q]).value, a))
  {
    hide Out, Target, Within, Held, SmallInv;
    var o, w := Target(p, meta[p]).value, Target(q, meta[q]).value;
    assert Owned(meta, o) && Owned(meta, w);
    if Within(blocks, o, a) && Within(blocks, w, a) { OwnersApart(chunks, blocks, lists, maps, o, w, a); }
  }

  class MallocArena {
    const small: SmallArena
    /** Where the operating system put the chunks and the mappings. */
    const chunkBase: nat -> nat
    const mapBase: nat -> nat
    var maps: map<nat, nat>
    var meta: map<Ptr, Meta>

    ghost predicate Valid()
      reads this, small, small.buddy
    {
      && small.Valid() && MetaInv(small.buddy.chunks, small.blocks, maps, meta)
      && (forall st: nat :: chunkBase(st) % 4096 == 0) && (forall id: nat :: mapBase(id) % 4096 == 0)
    }

    /** `malloc_init` */
    constructor (small: SmallArena, chunkBase: nat -> nat, mapBase: nat -> nat)
      requires small.Valid() && small.blocks == map[] && small.buddy.chunks == map[]
      requires (forall st: nat :: chunkBase(st) % 4096 == 0) && (forall id: nat :: mapBase(id) % 4096 == 0)
      ensures Valid() && meta == map[] && this.small == small
    {
      this.small := small;
      this.chunkBase := chunkBase;
      this.mapBase := mapBase;
      maps := map[];
      meta := map[];
    }

    function Address(p: Ptr): nat {
      if p.InChunk? then chunkBase(p.st) + p.offset else mapBase(p.id) + p.offset
    }

    /** The call of the layer below.  chunk and map are what mmap provides if it is called. */
    method AllocateClass(c: nat, chunk: Option<nat>, map_: Option<nat>, memory: seq<set<nat>>)
      returns (r: Option<(Ptr, Context)>, ghost o: Owner)
      requires small.Valid() && M.IsClass(c) && |memory| == 32
      requires (chunk.Some? ==> chunk.value !in small.buddy.chunks) && (map_.Some? ==> map_.value !in maps)
      modifies `maps, small, small.buddy
      ensures small.Valid()
      ensures r == None <==> Exhausted(old(small.buddy.chunks), old(small.blocks), c, chunk, map_)
      ensures r == None ==>
        small.blocks == old(small.blocks) && small.buddy.chunks == old(small.buddy.chunks) && maps == old(maps)
      ensures r.Some? ==>
        && Gained(old(small.buddy.chunks), small.buddy.chunks, old(small.blocks), small.blocks, old(maps), maps, o)
        && Serves(small.blocks, maps, o, c) && r.value == (StartOf(o, c), ContextOf(o))
    {
      hide Out, Held, SmallInv, SmallBlock.Slots, Buddy.ArenaInv, Buddy.Gave, Handed, Buddy.IdxBlock, Buddy.BlockIdx, SlotOffset;
      hide NoSlotFree, Buddy.NoneFree, Exhausted, Gained, Pow2, M.IsClass, Buddy.FirstOrder, ListIdx, M.Code, M.FreeLayer;
      M.CodeRoundTrip(c);
      r, o := None, OwnMap(0);
      match M.AllocLayer(c)
      case Some(Small(len)) =>
        LayerClass(c);
        ghost var blocks, chunks := small.blocks, small.buddy.chunks;
        SmallExhausted(chunks, blocks, small.lists, small.buddy.lists, small.buddy.chunkNum, small.buddy.keep, c, chunk, map_);
        var s := small.SmallAlloc(len, chunk, memory);
        if s.Some? {
          ghost var idx: nat :| idx < SmallBlock.Slots(len) && s.value.offset == s.value.block.offset + SlotOffset(idx, len)
            && Handed(blocks, small.blocks, s.value.block, len, idx);
          o := OwnSlot(s.value.block, idx);
          SmallGained(chunks, small.buddy.chunks, blocks, small.blocks, maps, s.value.block, len, idx);
          r := Some((InChunk(s.value.block.st, s.value.offset), SmallContext(s.value.block)));
        }
      case Some(Pages(k)) =>
        LayerClass(c);
        ghost var chunks := small.buddy.chunks;
        PagesExhausted(chunks, small.blocks, small.buddy.lists, small.buddy.chunkNum, small.buddy.keep, k, chunk, map_);
        var b := small.buddy.Alloc(k, chunk);
        if b.Some? {
          ghost var i: nat :| b.value.offset == Buddy.IdxBlock(i, k) && Buddy.Gave(chunks, small.buddy.chunks, b.value.st, k, i);
          o := OwnBlock(b.value.st, k, i);
          BlockGained(chunks, small.buddy.chunks, small.blocks, maps, b.value.st, k, i);
          r := Some((InChunk(b.value.st, b.value.offset), ChunkContext(b.value.st)));
        }
      case Some(Mapped) =>
        MapExhausted(small.buddy.chunks, small.blocks, c, chunk, map_);
        if map_.Some? {
          o := OwnMap(map_.value);
          MapGained(small.buddy.chunks, small.blocks, maps, map_.value, c);
          maps := maps[map_.value := c];
          r := Some((InMap(map_.value, 0), MapContext(map_.value)));
        }
    }

    /** malloc, aligned_alloc and aligned_tagged_alloc.  The region lies inside one slot, block or mapping that was not
        handed out before, is placed as the request asks, and its address is not in use; nothing else changes hands. */
    method Allocate(r: M.Request, chunk: Option<nat>, map_: Option<nat>, memory: seq<set<nat>>)
      returns (p: Option<Ptr>, ghost o: Owner)
      requires Valid() && |memory| == 32
      requires (chunk.Some? ==> chunk.value !in small.buddy.chunks) && (map_.Some? ==> map_.value !in maps)
      modifies this, small, small.buddy
      ensures Valid()
      ensures M.RequestClass(r) == None ==> p == None
      ensures M.Refused(r) ==> p == None
      ensures !M.Refused(r) ==> forall c: nat :: M.LeastClass(c, M.Needed(r)) ==>
        (p == None <==> Exhausted(old(small.buddy.chunks), old(small.blocks), c, chunk, map_))
      ensures p == None ==>
        && small.blocks == old(small.blocks) && small.buddy.chunks == old(small.buddy.chunks)
        && maps == old(maps) && meta == old(meta)
      ensures p.Some? ==>
        var c := M.RequestClass(r).value;
        && M.LeastClass(c, M.Needed(r))
        && Gained(old(small.buddy.chunks), small.buddy.chunks, old(small.blocks), small.blocks, old(maps), maps, o)
        && Serves(small.blocks, maps, o, c) && M.Placed(r, Address(StartOf(o, c)), c, Address(p.value))
        && Within(small.blocks, o, p.value)
        && p.value !in old(meta) && meta.Keys == old(meta).Keys + {p.value}
        && meta == old(meta)[p.value := meta[p.value]] && Target(p.value, meta[p.value]) == Some(o)
        && meta[p.value].tagged == r.Tagged?
    {
      hide Out, Held, SmallInv, Buddy.ArenaInv, MetaInv, Gained, Serves, Target, Within, M.Placed, M.Shift, M.IsClass, Pow2;
      hide M.Code, M.RequestClass, RightSize;
      hide M.Refused, M.Needed, M.LeastClass, Exhausted;
      p, o := None, OwnMap(0);
      M.ClassOfRequest(r);
      var class_ := M.RequestClass(r);
      if class_ == None { return; }
      var c := class_.value;
      M.LeastUnique(c, M.Needed(r));
      M.RegionFits(r, 0);
      var got;
      got, o := AllocateClass(c, chunk, map_, memory);
      if got == None { return; }
      var start, context := got.value.0, got.value.1;
      GainedOut(old(small.buddy.chunks), small.buddy.chunks, old(small.blocks), small.blocks, old(maps), maps, o);
      AllShapedOf(small.blocks, small.lists);
      StartAligned(small.buddy.chunks, small.blocks, maps, o, c);
      PageSixteen(chunkBase, mapBase, start);
      var shift := M.Shift(r, Address(start));
      M.RegionFits(r, Address(start));
      PlacedInside(r, Address(start), c, shift);
      var q := Beyond(start, shift + 16);
      var m := Meta(M.Code(c), context, r.Tagged?);
      TargetIsOwner(small.blocks, maps, o, c, shift + 16, m.tagged);
      NewPointer(old(small.buddy.chunks), small.buddy.chunks, old(small.blocks), small.blocks, small.lists, old(maps), maps,
                 meta, q, m, o);
      Extend(old(small.buddy.chunks), small.buddy.chunks, old(small.blocks), small.blocks, old(maps), maps, meta, q, m, o);
      TargetWithin(small.blocks, q, m, o);
      meta := meta[q := m];
      p := Some(q);
    }

    /** free, given only the address and the metadata in front of it: exactly what that region owns is given back. */
    method Free(p: Ptr)
      requires Valid() && p in meta
      modifies this, small, small.buddy
      ensures Valid() && meta == old(meta) - {p}
      ensures old(Target(p, meta[p]).Some?)
      ensures forall w ::
                Out(small.buddy.chunks, small.blocks, maps, w) <==>
                old(Out(small.buddy.chunks, small.blocks, maps, w)) && w != old(Target(p, meta[p])).value
      ensures forall id :: id in maps ==> id in old(maps) && maps[id] == old(maps)[id]
    {
      hide Held, SmallInv, Buddy.ArenaInv, Returned, Buddy.Took, SlotIdx, Buddy.BlockIdx, SmallBlock.Slots, IsFree;
      var m := meta[p];
      ghost var o := Target(p, m).value;
      ghost var chunks, blocks, maps0 := small.buddy.chunks, small.blocks, maps;
      assert Owned(meta, o);
      assert Out(chunks, blocks, maps, o);
      match M.FreeLayer(m.code) {
      case Some(Small(len)) =>
        SlotLiveOf(chunks, blocks, maps, o);
        small.SmallFree(Slot(m.context.block, p.offset), len);
        forall w ensures Out(small.buddy.chunks, small.blocks, maps, w) <==> Out(chunks, blocks, maps, w) && w != o {
          SmallBack(chunks, small.buddy.chunks, blocks, small.blocks, maps, m.context.block, o.idx, w);
        }
        ReturnedSizes(blocks, small.blocks, m.context.block, o.idx);
      case Some(Pages(k)) =>
        small.buddy.Free(k, Buddy.Block(m.context.st, p.offset));
        BlocksBack(chunks, small.buddy.chunks, blocks, maps, p.st, k, o.i);
      case Some(Mapped) =>
        maps := maps - {m.context.id};
      }
      Sizes(chunks, small.buddy.chunks, blocks, small.blocks, maps0, maps, meta, p, o);
      MetaShrinks(chunks, small.buddy.chunks, blocks, small.blocks, maps0, maps, meta, p, o);
      meta := meta - {p};
    }
  }

  lemma SlotLiveOf(chunks: map<nat, Chunk>, blocks: map<Block, ClassBlock>, maps: map<nat, nat>, o: Owner)
    requires o.OwnSlot? && Out(chunks, blocks, maps, o)
    ensures o.block in blocks && Shaped(blocks[o.block]) && SlotLive(blocks[o.block], o.idx)
  {
  }

  ghost predicate SameSizes(blocks: map<Block, ClassBlock>, blocks': map<Block, ClassBlock>) {
    forall b :: b in blocks' ==> b in blocks && blocks'[b].size == blocks[b].size
  }

  lemma ReturnedSizes(blocks: map<Block, ClassBlock>, blocks': map<Block, ClassBlock>, b: Block, idx: nat)
    requires Returned(blocks, blocks', b, idx)
    ensures SameSizes(blocks, blocks')
  {
  }

  lemma BlocksBack(chunks: map<nat, Chunk>, chunks': map<nat, Chunk>, blocks: map<Block, ClassBlock>,
                   maps: map<nat, nat>, st: nat, k: nat, i: nat)
    requires Held(blocks, chunks) && Buddy.Took(chunks, chunks', st, k, i) && Out(chunks, blocks, maps, OwnBlock(st, k, i))
    ensures forall w :: Out(chunks', blocks, maps, w) <==> Out(chunks, blocks, maps, w) && w != OwnBlock(st, k, i)
    ensures Held(blocks, chunks')
  {
    hide Out, Held, Buddy.Took;
    forall w ensures Out(chunks', blocks, maps, w) <==> Out(chunks, blocks, maps, w) && w != OwnBlock(st, k, i) {
      BlockBack(chunks, chunks', blocks, maps, st, k, i, w);
    }
    BlockBack(chunks, chunks', blocks, maps, st, k, i, OwnBlock(st, k, i));
  }

  /** A class block with another live slot is still there. */
  lemma Sizes(chunks: map<nat, Chunk>, chunks': map<nat, Chunk>, blocks: map<Block, ClassBlock>,
              blocks': map<Block, ClassBlock>, maps: map<nat, nat>, maps': map<nat, nat>, meta: map<Ptr, Meta>, p: Ptr, o: Owner)
    requires MetaInv(chunks, blocks, maps, meta) && p in meta && Target(p, meta[p]) == Some(o) && SameSizes(blocks, blocks')
    requires forall w :: Out(chunks', blocks', maps', w) <==> Out(chunks, blocks, maps, w) && w != o
    ensures forall q :: q in meta && q != p && meta[q].context.SmallContext? ==>
      meta[q].context.block in blocks' && meta[q].context.block in blocks
      && blocks'[meta[q].context.block].size == blocks[meta[q].context.block].size
  {
    hide Out;
    forall q | q in meta && q != p && meta[q].context.SmallContext? ensures meta[q].context.block in blocks' {
      var w := Target(q, meta[q]).value;
      assert Owned(meta, w);
      SlotLiveOf(chunks', blocks', maps', w);
    }
  }

  lemma GainedOut(chunks: map<nat, Chunk>, chunks': map<nat, Chunk>, blocks: map<Block, ClassBlock>,
                  blocks': map<Block, ClassBlock>, maps: map<nat, nat>, maps': map<nat, nat>, o: Owner)
    requires Gained(chunks, chunks', blocks, blocks', maps, maps', o)
    ensures Out(chunks', blocks', maps', o)
  {
  }

  lemma AllShapedOf(blocks: map<Block, ClassBlock>, lists: seq<seq<Block>>)
    requires SmallInv(blocks, lists)
    ensures AllShaped(blocks)
  {
  }

  lemma PageSixteen(chunkBase: nat -> nat, mapBase: nat -> nat, p: Ptr)
    requires (forall st: nat :: chunkBase(st) % 4096 == 0) && (forall id: nat :: mapBase(id) % 4096 == 0)
    requires p.offset % 16 == 0
    ensures p.InChunk? ==> (chunkBase(p.st) + p.offset) % 16 == 0
    ensures p.InMap? ==> (mapBase(p.id) + p.offset) % 16 == 0
  {
    if p.InChunk? { PageAdd(chunkBase(p.st), p.offset); } else { PageAdd(mapBase(p.id), p.offset); }
  }

  lemma PageAdd(base: nat, n: nat)
    requires base % 4096 == 0 && n % 16 == 0
    ensures (base + n) % 16 == 0
  {
    SixteenAdd(base, n);
  }

  lemma PlacedInside(r: M.Request, ptr: nat, c: nat, shift: nat)
    requires M.Placed(r, ptr, c, ptr + shift + 16) && r.size > 0
    ensures shift + 16 < c
  {
  }

  lemma Extend(chunks: map<nat, Chunk>, chunks': map<nat, Chunk>, blocks: map<Block, ClassBlock>,
               blocks': map<Block, ClassBlock>, maps: map<nat, nat>, maps': map<nat, nat>,
               meta: map<Ptr, Meta>, p: Ptr, m: Meta, o: Owner)
    requires MetaInv(chunks, blocks, maps, meta) && Gained(chunks, chunks', blocks, blocks', maps, maps', o)
    requires Target(p, m) == Some(o) && RightSize(blocks', m) && p !in meta
    ensures MetaInv(chunks', blocks', maps', meta[p := m])
  {
    hide Out, Target, RightSize, MetaInv;
    MetaGrows(chunks, chunks', blocks, blocks', maps, maps', meta, p, m, o);
  }

  lemma LayerClass(c: nat)
    requires M.IsClass(c)
    ensures match M.AllocLayer(c)
      case Some(Small(len)) => len == c && IsSmallClass(c)
      case Some(Pages(k)) => k <= TOP && c == Pow2(12 + k)
      case _ => true
  {
    M.Powers();
  }

  lemma SmallGained(chunks: map<nat, Chunk>, chunks': map<nat, Chunk>, blocks: map<Block, ClassBlock>,
                    blocks': map<Block, ClassBlock>, maps: map<nat, nat>, b: Block, len: nat, idx: nat)
    requires Held(blocks, chunks) && Held(blocks', chunks') && Handed(blocks, blocks', b, len, idx)
    requires if b in blocks then chunks' == chunks else Buddy.Gave(chunks, chunks', b.st, 4, Buddy.BlockIdx(b.offset, 4))
    ensures Gained(chunks, chunks', blocks, blocks', maps, maps, OwnSlot(b, idx))
    ensures b in blocks' && blocks'[b].size == len
  {
    forall w ensures Out(chunks', blocks', maps, w) <==> Out(chunks, blocks, maps, w) || w == OwnSlot(b, idx) {
      SmallOut(chunks, chunks', blocks, blocks', maps, b, len, idx, w);
    }
    SmallOut(chunks, chunks', blocks, blocks', maps, b, len, idx, OwnSlot(b, idx));
  }

  lemma BlockGained(chunks: map<nat, Chunk>, chunks': map<nat, Chunk>, blocks: map<Block, ClassBlock>,
                    maps: map<nat, nat>, st: nat, k: nat, i: nat)
    requires Held(blocks, chunks) && Buddy.Gave(chunks, chunks', st, k, i)
    ensures Gained(chunks, chunks', blocks, blocks, maps, maps, OwnBlock(st, k, i)) && Held(blocks, chunks')
  {
    hide Out, Held, Buddy.Gave;
    forall w ensures Out(chunks', blocks, maps, w) <==> Out(chunks, blocks, maps, w) || w == OwnBlock(st, k, i) {
      BlockOut(chunks, chunks', blocks, maps, st, k, i, w);
    }
    BlockOut(chunks, chunks', blocks, maps, st, k, i, OwnBlock(st, k, i));
  }

  lemma MapGained(chunks: map<nat, Chunk>, blocks: map<Block, ClassBlock>, maps: map<nat, nat>, id: nat, c: nat)
    requires id !in maps
    ensures Gained(chunks, chunks, blocks, blocks, maps, maps[id := c], OwnMap(id))
  {
    forall w ensures Out(chunks, blocks, maps[id := c], w) <==> Out(chunks, blocks, maps, w) || w == OwnMap(id) {}
  }
}
