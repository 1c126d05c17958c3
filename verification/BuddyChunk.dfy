/** One chunk of the buddy allocator (src/memory/buddy.c): 128 pages, split into blocks of 2^k pages for the
    orders k = 0..6.  Block i of order k covers the pages p with p >> k == i.  A bitmap is the set of its one bits. */
module BuddyChunk {
  import opened Arith

  const TOP := 6

  /** avail[k] and split[k] are the bitmaps of order k, num[k] is avail_num[k].  Order 0 has no split bitmap. */
  datatype Chunk = Chunk(avail: seq<set<nat>>, split: seq<set<nat>>, num: seq<nat>)

  /** i ^ 1 */
  function Buddy(i: nat): (b: nat)
    ensures b != i && b / 2 == i / 2
  {
    if i % 2 == 0 then i + 1 else i - 1
  }

  /** Block i of order k is one of the blocks that the split bits carve out. */
  predicate Exists(c: Chunk, k: nat, i: nat)
    requires k <= TOP && |c.split| == 7
  {
    if k == TOP then i < 2 else i / 2 in c.split[k + 1]
  }

  /** A block that is neither free nor split was given out. */
  predicate Live(c: Chunk, k: nat, i: nat)
    requires k <= TOP && |c.split| == 7 && |c.avail| == 7
  {
    Exists(c, k, i) && i !in c.avail[k] && i !in c.split[k]
  }

  predicate OrderInv(c: Chunk, k: nat)
    requires k <= TOP && |c.split| == 7 && |c.avail| == 7 && |c.num| == 7
  {
    && (forall i :: i in c.avail[k] ==> Exists(c, k, i) && i !in c.split[k])
    && (forall i :: i in c.split[k] ==> Exists(c, k, i))
    && (k < TOP ==> forall i :: i in c.avail[k] ==> Buddy(i) !in c.avail[k])
    && c.num[k] == |c.avail[k]|
  }

  predicate ChunkInv(c: Chunk) {
    && |c.split| == 7 && |c.avail| == 7 && |c.num| == 7
    && c.split[0] == {}
    && forall k :: 0 <= k <= TOP ==> OrderInv(c, k)
  }

  /** The chunk of `allocate_chunk_and_block6`: block 0 of order 6 given out, block 1 free. */
  function FreshChunk(): Chunk {
    Chunk([{}, {}, {}, {}, {}, {}, {1}], [{}, {}, {}, {}, {}, {}, {}], [0, 0, 0, 0, 0, 0, 1])
  }

  lemma FreshChunkInv()
    ensures ChunkInv(FreshChunk())
    ensures forall k: nat, i: nat :: k <= TOP ==> (Live(FreshChunk(), k, i) <==> k == TOP && i == 0)
  {
  }

  // ----- The four changes to a chunk -----

  /** Free block i is given out. */
  function Taken(c: Chunk, k: nat, i: nat): Chunk
    requires ChunkInv(c) && k <= TOP && i in c.avail[k]
  {
    assert OrderInv(c, k) && c.avail[k] != {};
    c.(avail := c.avail[k := c.avail[k] - {i}], num := c.num[k := c.num[k] - 1])
  }

  /** Block i of order k is given back without merging. */
  function Put(c: Chunk, k: nat, i: nat): Chunk
    requires ChunkInv(c) && k <= TOP
  {
    c.(avail := c.avail[k := c.avail[k] + {i}], num := c.num[k := c.num[k] + 1])
  }

  /** Block i of order k + 1 is split: its lower half is given out, its upper half is free. */
  function Cut(c: Chunk, k: nat, i: nat): Chunk
    requires ChunkInv(c) && k < TOP
  {
    Put(c, k, 2 * i + 1).(split := c.split[k + 1 := c.split[k + 1] + {i}])
  }

  /** Block i of order k and its free buddy become one block of order k + 1. */
  function Joined(c: Chunk, k: nat, i: nat): Chunk
    requires ChunkInv(c) && k < TOP && Buddy(i) in c.avail[k]
  {
    Taken(c, k, Buddy(i)).(split := c.split[k + 1 := c.split[k + 1] - {i / 2}])
  }

  lemma TakenInv(c: Chunk, k: nat, i: nat)
    requires ChunkInv(c) && k <= TOP && i in c.avail[k]
    ensures ChunkInv(Taken(c, k, i))
    ensures forall m: nat, j: nat :: m <= TOP ==> (Live(Taken(c, k, i), m, j) <==> Live(c, m, j) || (m, j) == (k, i))
  {
    var d := Taken(c, k, i);
    assert OrderInv(c, k);
    forall m | 0 <= m <= TOP ensures OrderInv(d, m) { assert OrderInv(c, m); }
  }

  lemma PutOrder(c: Chunk, k: nat, i: nat, m: nat)
    requires ChunkInv(c) && k <= TOP && m <= TOP && Live(c, k, i) && (k < TOP ==> Buddy(i) !in c.avail[k])
    ensures OrderInv(Put(c, k, i), m)
  {
    assert OrderInv(c, m);
    BuddyTwice(i);
  }

  lemma BuddyTwice(i: nat)
    ensures forall j: nat :: Buddy(j) == i ==> j == Buddy(i)
  {
  }

  lemma SameParent(i: nat)
    ensures forall j: nat :: j / 2 == i / 2 <==> j == i || j == Buddy(i)
    ensures Buddy(Buddy(i)) == i
  {
  }

  lemma PutInv(c: Chunk, k: nat, i: nat)
    requires ChunkInv(c) && k <= TOP && Live(c, k, i) && (k < TOP ==> Buddy(i) !in c.avail[k])
    ensures ChunkInv(Put(c, k, i))
    ensures forall m: nat, j: nat :: m <= TOP ==> (Live(Put(c, k, i), m, j) <==> Live(c, m, j) && (m, j) != (k, i))
  {
    hide OrderInv, Buddy;
    forall m | 0 <= m <= TOP ensures OrderInv(Put(c, k, i), m) { PutOrder(c, k, i, m); }
  }

  /** Neither half of a live block is a block. */
  lemma HalvesUnused(c: Chunk, k: nat, i: nat)
    requires ChunkInv(c) && k < TOP && Live(c, k + 1, i)
    ensures !Exists(c, k, 2 * i + 1) && !Exists(c, k, 2 * i)
    ensures 2 * i !in c.avail[k] + c.split[k] && 2 * i + 1 !in c.avail[k] + c.split[k]
  {
    assert OrderInv(c, k);
  }

  lemma CutLower(c: Chunk, k: nat, i: nat)
    requires ChunkInv(c) && k < TOP && Live(c, k + 1, i)
    ensures OrderInv(Cut(c, k, i), k)
  {
    HalvesUnused(c, k, i);
    var d, j := Cut(c, k, i), 2 * i + 1;
    assert d.avail[k] == c.avail[k] + {j} && d.split[k + 1] == c.split[k + 1] + {i} && d.split[k] == c.split[k];
    assert |d.avail[k]| == |c.avail[k]| + 1 == d.num[k] by { assert OrderInv(c, k); }
    hide Cut;
    assert OrderInv(c, k);
    forall b | b in d.avail[k] ensures Buddy(b) !in d.avail[k] {
      assert Buddy(j) == 2 * i;
      assert b != j && Buddy(b) == j ==> b == 2 * i;
    }
  }

  lemma CutOthers(c: Chunk, k: nat, i: nat, m: nat)
    requires ChunkInv(c) && k < TOP && m <= TOP && m != k && Live(c, k + 1, i)
    ensures OrderInv(Cut(c, k, i), m)
  {
    assert OrderInv(c, m);
    hide Buddy, ChunkInv;
    assert Cut(c, k, i).avail[m] == c.avail[m] && Cut(c, k, i).num[m] == c.num[m];
  }

  lemma CutInv(c: Chunk, k: nat, i: nat)
    requires ChunkInv(c) && k < TOP && Live(c, k + 1, i)
    ensures ChunkInv(Cut(c, k, i))
    ensures forall m: nat, j: nat :: m <= TOP ==>
      (Live(Cut(c, k, i), m, j) <==> (Live(c, m, j) && (m, j) != (k + 1, i)) || (m, j) == (k, 2 * i))
  {
    hide OrderInv, Buddy;
    HalvesUnused(c, k, i);
    SameParent(2 * i + 1);
    forall m | 0 <= m <= TOP ensures OrderInv(Cut(c, k, i), m) {
      if m == k { CutLower(c, k, i); } else { CutOthers(c, k, i, m); }
    }
  }

  lemma JoinedOrder(c: Chunk, k: nat, i: nat, m: nat)
    requires ChunkInv(c) && k < TOP && m <= TOP && Live(c, k, i) && Buddy(i) in c.avail[k]
    ensures OrderInv(Joined(c, k, i), m)
  {
    var d := Joined(c, k, i);
    assert OrderInv(c, k) && OrderInv(c, k + 1) && OrderInv(c, m);
    assert d.avail[m] == if m == k then c.avail[k] - {Buddy(i)} else c.avail[m];
    assert d.split[m] == if m == k + 1 then c.split[m] - {i / 2} else c.split[m];
    hide Joined;
    SameParent(i);
  }

  lemma JoinedInv(c: Chunk, k: nat, i: nat)
    requires ChunkInv(c) && k < TOP && Live(c, k, i) && Buddy(i) in c.avail[k]
    ensures ChunkInv(Joined(c, k, i))
  {
    hide OrderInv, Buddy;
    forall m | 0 <= m <= TOP ensures OrderInv(Joined(c, k, i), m) { JoinedOrder(c, k, i, m); }
  }

  lemma JoinedLive(c: Chunk, k: nat, i: nat)
    requires ChunkInv(c) && k < TOP && Live(c, k, i) && Buddy(i) in c.avail[k]
    ensures forall m: nat, j: nat :: m <= TOP ==>
      (Live(Joined(c, k, i), m, j) <==> (Live(c, m, j) && (m, j) != (k, i)) || (m, j) == (k + 1, i / 2))
  {
    assert OrderInv(c, k) && OrderInv(c, k + 1);
  }
}
