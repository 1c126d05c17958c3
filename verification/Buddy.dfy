/** The buddy allocator of src/memory/buddy.c over its chunks.  The seven copies of each routine are one routine here,
    with the order k as a parameter.  A state record is named by its id, and chunks maps the records in use to their
    contents; lists[k] is the intrusive list of the records with free blocks of order k. */
module Buddy {
  import opened Arith
  import opened Lists
  import opened Options
  import opened BuddyChunk
  import opened BuddyTheory

  /** A block as the caller sees it: the record that is its context, and its byte offset in the chunk. */
  datatype Block = Block(st: nat, offset: nat)

  // ----- Addresses -----

  /** BUDDY_IDX_BLOCK, relative to the chunk. */
  function IdxBlock(i: nat, k: nat): nat {
    Times(i, Pow2(12 + k))
  }

  /** BUDDY_BLOCK_IDX: the block of order k that contains the byte at offset. */
  function BlockIdx(offset: nat, k: nat): nat {
    Up(offset, 12 + k)
  }

  /** Every address inside a block leads back to its index. */
  lemma BlockIdxInside(i: nat, k: nat, offset: nat)
    requires IdxBlock(i, k) <= offset < IdxBlock(i, k) + Pow2(12 + k)
    ensures BlockIdx(offset, k) == i
  {
    PagesOfBlock(offset, 12 + k, i);
  }

  /** A block and its lower half start at the same address. */
  lemma LowerHalfAddress(i: nat, k: nat)
    ensures IdxBlock(i, k + 1) == IdxBlock(2 * i, k)
  {
    TimesDouble(i, Pow2(12 + k));
  }

  // ----- Lists -----

  predicate Sized(chunks: map<nat, Chunk>) {
    forall r :: r in chunks ==> |chunks[r].num| == 7
  }

  /** Record r is in list k iff the chunk has a free block of order k. */
  ghost predicate ListOf(chunks: map<nat, Chunk>, l: seq<nat>, k: nat)
    requires k <= TOP && Sized(chunks)
  {
    NoDup(l) && (forall r :: r in l ==> r in chunks) && forall r :: r in chunks ==> (r in l <==> chunks[r].num[k] > 0)
  }

  ghost predicate ListsInv(chunks: map<nat, Chunk>, lists: seq<seq<nat>>)
    requires Sized(chunks)
  {
    |lists| == 7 && forall k :: 0 <= k <= TOP ==> ListOf(chunks, lists[k], k)
  }

  /** No block of the chunk is given out. */
  ghost predicate FullyFree(c: Chunk)
    requires ChunkInv(c)
  {
    forall k: nat, i: nat :: k <= TOP ==> !Live(c, k, i)
  }

  ghost predicate ArenaInv(chunks: map<nat, Chunk>, lists: seq<seq<nat>>, chunkNum: nat, keep: nat) {
    && (forall r :: r in chunks ==> ChunkInv(chunks[r]))
    && ListsInv(chunks, lists)
    && chunkNum == |chunks|
    && (forall r :: r in chunks && FullyFree(chunks[r]) ==> chunkNum <= keep)
  }

  /** What a list looks like after the count of order k of record r went down to, or up to, that of c. */
  function Dropped(lists: seq<seq<nat>>, k: nat, r: nat, c: Chunk): seq<seq<nat>>
    requires |lists| == 7 == |c.num| && k <= TOP
  {
    if c.num[k] == 0 then lists[k := Without(lists[k], r)] else lists
  }

  function Raised(lists: seq<seq<nat>>, k: nat, r: nat, c: Chunk): seq<seq<nat>>
    requires |lists| == 7 == |c.num| && k <= TOP
  {
    if c.num[k] == 1 then lists[k := [r] + lists[k]] else lists
  }

  lemma DroppedInv(chunks: map<nat, Chunk>, lists: seq<seq<nat>>, k: nat, r: nat, c: Chunk)
    requires Sized(chunks) && ListsInv(chunks, lists) && k <= TOP && r in chunks && |c.num| == 7
    requires chunks[r].num[k] > 0 && c.num == chunks[r].num[k := chunks[r].num[k] - 1]
    ensures ListsInv(chunks[r := c], Dropped(lists, k, r, c))
  {
    WithoutIs(lists[k], r);
    forall m | 0 <= m <= TOP ensures ListOf(chunks[r := c], Dropped(lists, k, r, c)[m], m) {
      assert ListOf(chunks, lists[m], m);
    }
  }

  lemma RaisedInv(chunks: map<nat, Chunk>, lists: seq<seq<nat>>, k: nat, r: nat, c: Chunk)
    requires Sized(chunks) && ListsInv(chunks, lists) && k <= TOP && r in chunks && |c.num| == 7
    requires c.num == chunks[r].num[k := chunks[r].num[k] + 1]
    ensures ListsInv(chunks[r := c], Raised(lists, k, r, c))
  {
    forall m | 0 <= m <= TOP ensures ListOf(chunks[r := c], Raised(lists, k, r, c)[m], m) {
      assert ListOf(chunks, lists[m], m);
    }
  }

  // ----- What an allocation and a free do to the live blocks -----

  /** Exactly one block, (r, k, i), was given out; no other chunk changed. */
  ghost predicate Gave(before: map<nat, Chunk>, after: map<nat, Chunk>, r: nat, k: nat, i: nat) {
    && k <= TOP && r in after && after == before[r := after[r]]
    && ChunkInv(after[r]) && (r in before ==> ChunkInv(before[r]))
    && (r in before ==> !Live(before[r], k, i))
    && forall m: nat, j: nat :: m <= TOP ==>
         (Live(after[r], m, j) <==> (r in before && Live(before[r], m, j)) || (m, j) == (k, i))
  }

  ghost predicate OnlyLive(c: Chunk, k: nat, i: nat)
    requires ChunkInv(c)
  {
    forall m: nat, j: nat :: m <= TOP ==> (Live(c, m, j) <==> (m, j) == (k, i))
  }

  /** Exactly the live block (r, k, i) was given back; no other chunk changed.  A chunk may be released when that was
      its only live block. */
  ghost predicate Took(before: map<nat, Chunk>, after: map<nat, Chunk>, r: nat, k: nat, i: nat) {
    && k <= TOP && r in before && ChunkInv(before[r]) && Live(before[r], k, i)
    && if r in after then
         && after == before[r := after[r]] && ChunkInv(after[r])
         && forall m: nat, j: nat :: m <= TOP ==>
              (Live(after[r], m, j) <==> Live(before[r], m, j) && (m, j) != (k, i))
       else
         after == before - {r} && OnlyLive(before[r], k, i)
  }

  lemma FullyFreeHasTop(c: Chunk)
    requires ChunkInv(c) && FullyFree(c)
    ensures c.num[TOP] > 0
  {
    assert !Live(c, TOP, 0);
    assert OrderInv(c, TOP);
    if 0 in c.split[TOP] {
      var m, j := SplitHasLive(c, TOP, 0);
    }
  }

  /** The buddy of the only live block is free. */
  lemma OnlyLiveBuddy(c: Chunk, k: nat, i: nat)
    requires ChunkInv(c) && k <= TOP && OnlyLive(c, k, i)
    ensures Buddy(i) in c.avail[k]
  {
    assert Live(c, k, i) && !Live(c, k, Buddy(i));
    assert Exists(c, k, Buddy(i));
    if Buddy(i) in c.split[k] {
      var m, j := SplitHasLive(c, k, Buddy(i));
    }
  }

  /** At order 6 nothing else is live when the buddy is free. */
  lemma TopBuddyFree(c: Chunk, i: nat)
    requires ChunkInv(c) && Live(c, TOP, i) && Buddy(i) in c.avail[TOP]
    ensures OnlyLive(c, TOP, i) && c.num[TOP] > 0
    ensures forall k :: 0 <= k < TOP ==> c.num[k] == 0
  {
    assert OrderInv(c, TOP);
    assert c.split[TOP] == {} by {
      assert forall x :: x in c.split[TOP] ==> Exists(c, TOP, x) && x != i && x != Buddy(i);
    }
    forall m: nat, j: nat | m <= TOP && Live(c, m, j) ensures (m, j) == (TOP, i) {
      if m < TOP { AncestorSplit(c, m, j, TOP); }
    }
    forall k: nat | k < TOP ensures c.num[k] == 0 {
      assert OrderInv(c, k);
      forall x | x in c.avail[k] ensures false { AncestorSplit(c, k, x, TOP); }
      assert c.avail[k] == {};
    }
  }

  lemma TakeStep(chunks: map<nat, Chunk>, lists: seq<seq<nat>>, n: nat, keep: nat, k: nat, i: nat)
    requires ArenaInv(chunks, lists, n, keep) && k <= TOP && lists[k] != []
    requires lists[k][0] in chunks && i in chunks[lists[k][0]].avail[k]
    ensures var r := lists[k][0];
      var c := Taken(chunks[r], k, i);
      && ArenaInv(chunks[r := c], if c.num[k] == 0 then lists[k := lists[k][1..]] else lists, n, keep)
      && Gave(chunks, chunks[r := c], r, k, i)
  {
    hide OrderInv, ListOf;
    var r := lists[k][0];
    TakenInv(chunks[r], k, i);
    CountPositive(chunks[r], k, i);
    var c := Taken(chunks[r], k, i);
    DroppedInv(chunks, lists, k, r, c);
    assert Live(c, k, i);
    KeysKept(chunks, r, c);
  }

  lemma KeysKept(chunks: map<nat, Chunk>, r: nat, c: Chunk)
    requires r in chunks
    ensures |chunks[r := c]| == |chunks|
  {
    assert chunks[r := c].Keys == chunks.Keys;
  }

  lemma CountPositive(c: Chunk, k: nat, i: nat)
    requires ChunkInv(c) && k <= TOP && i in c.avail[k]
    ensures c.num[k] > 0 && !Live(c, k, i)
  {
    assert OrderInv(c, k);
  }

  lemma NewLists(chunks: map<nat, Chunk>, lists: seq<seq<nat>>, r: nat)
    requires Sized(chunks) && ListsInv(chunks, lists) && lists[TOP] == [] && r !in chunks
    ensures ListsInv(chunks[r := FreshChunk()], lists[TOP := [r]])
    ensures forall q :: q in chunks ==> chunks[q].num[TOP] == 0
  {
    var after, linked := chunks[r := FreshChunk()], lists[TOP := [r]];
    forall m | 0 <= m <= TOP ensures ListOf(after, linked[m], m) {
      assert ListOf(chunks, lists[m], m);
    }
  }

  lemma NewStep(chunks: map<nat, Chunk>, lists: seq<seq<nat>>, n: nat, keep: nat, r: nat)
    requires ArenaInv(chunks, lists, n, keep) && lists[TOP] == [] && r !in chunks
    ensures var after := chunks[r := FreshChunk()];
      ArenaInv(after, lists[TOP := [r]], n + 1, keep) && Gave(chunks, after, r, TOP, 0)
  {
    hide OrderInv, ListOf, FreshChunk, Exists, Live, Buddy;
    FreshChunkInv();
    var after := chunks[r := FreshChunk()];
    assert after.Keys == chunks.Keys + {r};
    assert Live(FreshChunk(), TOP, 0);
    NewLists(chunks, lists, r);
    forall q | q in chunks ensures !FullyFree(chunks[q]) {
      if FullyFree(chunks[q]) { FullyFreeHasTop(chunks[q]); }
    }
  }

  lemma CutStep(chunks: map<nat, Chunk>, lists: seq<seq<nat>>, n: nat, keep: nat, k: nat, r: nat, i: nat)
    requires ArenaInv(chunks, lists, n, keep) && k < TOP && r in chunks && Live(chunks[r], k + 1, i)
    ensures var c := Cut(chunks[r], k, i);
      && ArenaInv(chunks[r := c], Raised(lists, k, r, c), n, keep)
  {
    hide OrderInv, ListOf;
    CutInv(chunks[r], k, i);
    var c := Cut(chunks[r], k, i);
    RaisedInv(chunks, lists, k, r, c);
    assert Live(c, k, 2 * i);
    KeysKept(chunks, r, c);
  }

  /** Giving out a block of order k + 1 and cutting it gives out its lower half. */
  lemma GaveHalf(before: map<nat, Chunk>, chunks: map<nat, Chunk>, k: nat, r: nat, i: nat)
    requires Gave(before, chunks, r, k + 1, i) && k < TOP
    ensures Gave(before, chunks[r := Cut(chunks[r], k, i)], r, k, 2 * i)
  {
    hide OrderInv;
    assert Live(chunks[r], k + 1, i);
    CutInv(chunks[r], k, i);
    HalfDead(chunks[r], k, i);
  }

  lemma HalfDead(c: Chunk, k: nat, i: nat)
    requires ChunkInv(c) && k < TOP && Live(c, k + 1, i)
    ensures !Live(c, k, 2 * i)
  {
  }

  lemma JoinStep(chunks: map<nat, Chunk>, lists: seq<seq<nat>>, n: nat, keep: nat, k: nat, r: nat, i: nat)
    requires ArenaInv(chunks, lists, n, keep) && k < TOP && r in chunks && Live(chunks[r], k, i)
    requires Buddy(i) in chunks[r].avail[k]
    ensures var c := Joined(chunks[r], k, i);
      && ArenaInv(chunks[r := c], Dropped(lists, k, r, c), n, keep)
      && ChunkInv(c) && Live(c, k + 1, i / 2)
      && (OnlyLive(c, k + 1, i / 2) <==> OnlyLive(chunks[r], k, i))
  {
    hide OrderInv, ListOf;
    JoinedInv(chunks[r], k, i);
    JoinedLive(chunks[r], k, i);
    CountPositive(chunks[r], k, Buddy(i));
    var c := Joined(chunks[r], k, i);
    DroppedInv(chunks, lists, k, r, c);
    assert Live(c, k + 1, i / 2);
    KeysKept(chunks, r, c);
    JoinedOnly(chunks[r], k, i);
  }

  lemma JoinedOnly(c: Chunk, k: nat, i: nat)
    requires ChunkInv(c) && k < TOP && Live(c, k, i) && Buddy(i) in c.avail[k] && ChunkInv(Joined(c, k, i))
    ensures OnlyLive(Joined(c, k, i), k + 1, i / 2) <==> OnlyLive(c, k, i)
  {
    hide OrderInv;
    JoinedLive(c, k, i);
    var d := Joined(c, k, i);
    ParentDead(c, k, i);
    if OnlyLive(d, k + 1, i / 2) {
      forall m: nat, j: nat | m <= TOP ensures Live(c, m, j) <==> (m, j) == (k, i) {
        assert Live(d, m, j) <==> (m, j) == (k + 1, i / 2);
      }
    }
    if OnlyLive(c, k, i) {
      forall m: nat, j: nat | m <= TOP ensures Live(d, m, j) <==> (m, j) == (k + 1, i / 2) {
        assert Live(c, m, j) <==> (m, j) == (k, i);
      }
    }
  }

  lemma ParentDead(c: Chunk, k: nat, i: nat)
    requires ChunkInv(c) && k < TOP && Live(c, k, i)
    ensures !Live(c, k + 1, i / 2)
  {
  }

  /** Taking back the joined block after a join takes back the block that was freed. */
  lemma TookHalf(before: map<nat, Chunk>, after: map<nat, Chunk>, k: nat, r: nat, i: nat)
    requires r in before && ChunkInv(before[r]) && k < TOP && Live(before[r], k, i) && Buddy(i) in before[r].avail[k]
    requires Took(before[r := Joined(before[r], k, i)], after, r, k + 1, i / 2)
    ensures Took(before, after, r, k, i)
  {
    hide OrderInv;
    JoinedLive(before[r], k, i);
    ParentDead(before[r], k, i);
    if r !in after {
      JoinedOnly(before[r], k, i);
      assert before[r := Joined(before[r], k, i)] - {r} == before - {r};
    }
  }

  lemma PutStep(chunks: map<nat, Chunk>, lists: seq<seq<nat>>, n: nat, keep: nat, k: nat, r: nat, i: nat)
    requires ArenaInv(chunks, lists, n, keep) && k <= TOP && r in chunks && Live(chunks[r], k, i)
    requires Buddy(i) in chunks[r].avail[k] ==> k == TOP && n <= keep
    ensures var c := Put(chunks[r], k, i);
      && ArenaInv(chunks[r := c], Raised(lists, k, r, c), n, keep)
      && Took(chunks, chunks[r := c], r, k, i)
      && (OnlyLive(chunks[r], k, i) ==> n <= keep)
  {
    hide OrderInv, ListOf;
    PutInv(chunks[r], k, i);
    var c := Put(chunks[r], k, i);
    RaisedInv(chunks, lists, k, r, c);
    KeysKept(chunks, r, c);
    if OnlyLive(chunks[r], k, i) { OnlyLiveBuddy(chunks[r], k, i); }
    if FullyFree(c) { PutOnly(chunks[r], k, i); }
  }

  lemma PutOnly(c: Chunk, k: nat, i: nat)
    requires ChunkInv(c) && k <= TOP && Live(c, k, i) && ChunkInv(Put(c, k, i)) && FullyFree(Put(c, k, i))
    requires forall m: nat, j: nat :: m <= TOP ==> (Live(Put(c, k, i), m, j) <==> Live(c, m, j) && (m, j) != (k, i))
    ensures OnlyLive(c, k, i)
  {
    hide OrderInv;
    forall m: nat, j: nat | m <= TOP ensures Live(c, m, j) <==> (m, j) == (k, i) {
      assert !Live(Put(c, k, i), m, j);
    }
  }

  lemma ReleasedLists(chunks: map<nat, Chunk>, lists: seq<seq<nat>>, r: nat)
    requires Sized(chunks) && ListsInv(chunks, lists) && r in chunks
    requires forall k :: 0 <= k < TOP ==> chunks[r].num[k] == 0
    ensures ListsInv(chunks - {r}, lists[TOP := Without(lists[TOP], r)])
    ensures forall k :: 0 <= k < TOP ==> r !in lists[k]
  {
    assert ListOf(chunks, lists[TOP], TOP);
    WithoutIs(lists[TOP], r);
    var after, unlinked := chunks - {r}, lists[TOP := Without(lists[TOP], r)];
    forall m | 0 <= m <= TOP ensures ListOf(after, unlinked[m], m) {
      assert ListOf(chunks, lists[m], m);
    }
  }

  /** A chunk that is released is in no list of an order below 6. */
  lemma ReleaseStep(chunks: map<nat, Chunk>, lists: seq<seq<nat>>, n: nat, keep: nat, r: nat, i: nat)
    requires ArenaInv(chunks, lists, n, keep) && r in chunks && Live(chunks[r], TOP, i)
    requires Buddy(i) in chunks[r].avail[TOP] && n > keep
    ensures n > 0 && ArenaInv(chunks - {r}, lists[TOP := Without(lists[TOP], r)], n - 1, keep)
    ensures Took(chunks, chunks - {r}, r, TOP, i)
    ensures forall k :: 0 <= k < TOP ==> r !in lists[k]
  {
    hide OrderInv, ListOf;
    TopBuddyFree(chunks[r], i);
    ReleasedLists(chunks, lists, r);
    assert (chunks - {r}).Keys == chunks.Keys - {r};
  }

  // ----- Consequences for whole runs -----

  /** Freeing what was just allocated from an existing chunk restores every bitmap, whatever happened to the lists. */
  lemma FreeUndoesAlloc(before: map<nat, Chunk>, mid: map<nat, Chunk>, after: map<nat, Chunk>, r: nat, k: nat, i: nat)
    requires Gave(before, mid, r, k, i) && Took(mid, after, r, k, i) && r in before && r in after
    ensures after == before
  {
    hide OrderInv;
    forall m: nat, j: nat | m <= TOP ensures Live(after[r], m, j) <==> Live(before[r], m, j) {
      assert Live(mid[r], m, j) <==> Live(before[r], m, j) || (m, j) == (k, i);
      assert Live(after[r], m, j) <==> Live(mid[r], m, j) && (m, j) != (k, i);
    }
    LiveDetermines(after[r], before[r]);
  }

  /** The live pages of the chunks listed in rs. */
  function LivePages(chunks: map<nat, Chunk>, rs: seq<nat>): nat
    requires forall r :: r in rs ==> r in chunks && ChunkInv(chunks[r])
  {
    if rs == [] then 0 else Pages(LiveCounts(chunks[rs[0]])) + LivePages(chunks, rs[1..])
  }

  /** The free pages of the chunks listed in rs, by their avail_num counters. */
  function FreePages(chunks: map<nat, Chunk>, rs: seq<nat>): nat
    requires forall r :: r in rs ==> r in chunks && ChunkInv(chunks[r])
  {
    if rs == [] then 0 else
      assert ChunkInv(chunks[rs[0]]);
      Pages(chunks[rs[0]].num) + FreePages(chunks, rs[1..])
  }

  lemma {:induction false} PagesOf(chunks: map<nat, Chunk>, rs: seq<nat>)
    requires forall r :: r in rs ==> r in chunks && ChunkInv(chunks[r])
    ensures FreePages(chunks, rs) + LivePages(chunks, rs) == 128 * |rs|
  {
    hide OrderInv, LiveCounts, Pages;
    if rs != [] {
      assert rs[0] in rs && forall r :: r in rs[1..] ==> r in rs;
      PagesConserved(chunks[rs[0]]);
      PagesOf(chunks, rs[1..]);
    }
  }

  /** Free pages and live pages together are 128 times chunk_num, however the records in use are enumerated. */
  lemma ArenaPagesConserved(chunks: map<nat, Chunk>, lists: seq<seq<nat>>, n: nat, keep: nat, rs: seq<nat>)
    requires ArenaInv(chunks, lists, n, keep) && NoDup(rs) && SetOf(rs) == chunks.Keys
    ensures (forall r :: r in rs ==> r in chunks && ChunkInv(chunks[r]))
    ensures FreePages(chunks, rs) + LivePages(chunks, rs) == 128 * n
  {
    hide OrderInv, ListsInv, FreePages, LivePages;
    assert forall r :: r in rs ==> r in SetOf(rs);
    NoDupLength(rs);
    PagesOf(chunks, rs);
    assert |chunks| == |chunks.Keys|;
  }

  // ----- The allocator -----

  lemma HeadHasBlock(chunks: map<nat, Chunk>, lists: seq<seq<nat>>, n: nat, keep: nat, k: nat)
    requires ArenaInv(chunks, lists, n, keep) && k <= TOP && lists[k] != []
    ensures lists[k][0] in chunks && ChunkInv(chunks[lists[k][0]]) && chunks[lists[k][0]].avail[k] != {}
  {
    assert ListOf(chunks, lists[k], k) && lists[k][0] in lists[k];
    assert OrderInv(chunks[lists[k][0]], k);
  }

  /** The block that was given out, by its address. */
  lemma GaveAt(before: map<nat, Chunk>, after: map<nat, Chunk>, r: nat, k: nat, i: nat)
    requires Gave(before, after, r, k, i)
    ensures r in after && ChunkInv(after[r]) && k <= TOP && Live(after[r], k, i)
    ensures BlockIdx(IdxBlock(i, k), k) == i
    ensures IdxBlock(0, k) == 0
  {
    hide OrderInv;
    BlockIdxInside(i, k, IdxBlock(i, k));
  }

  /** The smallest order from k on with a free block in some chunk, or 7. */
  function FirstOrder(lists: seq<seq<nat>>, k: nat): (m: nat)
    requires |lists| == 7 && k <= 7
    ensures k <= m <= 7 && (m < 7 ==> lists[m] != []) && forall j :: k <= j < m ==> lists[j] == []
    decreases 7 - k
  {
    if k == 7 || lists[k] != [] then k else FirstOrder(lists, k + 1)
  }

  /** No chunk has a free block of order k or more. */
  ghost predicate NoneFree(chunks: map<nat, Chunk>, k: nat) {
    forall r, m: nat :: r in chunks && k <= m <= TOP && m < |chunks[r].avail| ==> chunks[r].avail[m] == {}
  }

  /** The lists tell where free blocks are: a chunk is mapped for order k only when none has a free block of order k or more. */
  lemma NoneFreeIff(chunks: map<nat, Chunk>, lists: seq<seq<nat>>, n: nat, keep: nat, k: nat)
    requires ArenaInv(chunks, lists, n, keep) && k <= TOP
    ensures |lists| == 7 && (FirstOrder(lists, k) == 7 <==> NoneFree(chunks, k))
  {
    if FirstOrder(lists, k) == 7 {
      forall r, m: nat | r in chunks && k <= m <= TOP && m < |chunks[r].avail| ensures chunks[r].avail[m] == {} {
        assert ListOf(chunks, lists[m], m) && lists[m] == [];
        assert OrderInv(chunks[r], m);
      }
    } else {
      var m := FirstOrder(lists, k);
      HeadHasBlock(chunks, lists, n, keep, m);
      hide OrderInv, ListOf;
      assert chunks[lists[m][0]].avail[m] != {};
    }
  }

  ghost predicate IsLeast(s: set<nat>, i: nat) {
    i in s && forall j :: j in s ==> i <= j
  }

  lemma UpperAddress(i: nat, k: nat)
    ensures BlockIdx(IdxBlock(i / 2, k + 1), k + 1) == i / 2
  {
    BlockIdxInside(i / 2, k + 1, IdxBlock(i / 2, k + 1));
  }

  lemma LeastIn(s: set<nat>, i: nat)
    requires IsLeast(s, i)
    ensures i in s
  {
  }

  lemma Shape(chunks: map<nat, Chunk>, lists: seq<seq<nat>>, n: nat, keep: nat)
    requires ArenaInv(chunks, lists, n, keep)
    ensures |lists| == 7
  {
  }

  class BuddyArena {
    var chunks: map<nat, Chunk>
    var lists: seq<seq<nat>>
    var chunkNum: nat
    const keep: nat

    ghost predicate Valid()
      reads this
    {
      ArenaInv(chunks, lists, chunkNum, keep)
    }

    constructor (keep: nat)
      ensures Valid() && chunks == map[] && this.keep == keep
    {
      chunks := map[];
      lists := [[], [], [], [], [], [], []];
      chunkNum := 0;
      this.keep := keep;
    }

    /** Count trailing zeros. */
    static method TrailingZeros(bits: set<nat>) returns (i: nat)
      requires bits != {}
      ensures IsLeast(bits, i)
    {
      ghost var top :| top in bits;
      i := 0;
      while i !in bits
        invariant forall j :: j in bits ==> i <= j
        decreases top - i
      {
        i := i + 1;
      }
    }

    /** The branch of `buddy_alloc_k` that finds a free block of order k. */
    method TakeFree(k: nat) returns (b: Block)
      requires Valid() && k <= TOP && lists[k] != []
      modifies `chunks, `lists
      ensures Valid() && b.st == old(lists)[k][0] && b.st in old(chunks)
      ensures |old(chunks)[b.st].avail| == 7
      ensures exists i ::
                && IsLeast(old(chunks)[b.st].avail[k], i)
                && b.offset == IdxBlock(i, k) && Gave(old(chunks), chunks, b.st, k, i)
    {
      hide ListOf, OrderInv, Gave, IdxBlock, IsLeast;
      var st := lists[k][0];
      HeadHasBlock(chunks, lists, chunkNum, keep, k);
      var i := TrailingZeros(chunks[st].avail[k]);
      assert i in chunks[st].avail[k] by { LeastIn(chunks[st].avail[k], i); }
      TakeStep(chunks, lists, chunkNum, keep, k, i);
      chunks := chunks[st := Taken(chunks[st], k, i)];
      if chunks[st].num[k] == 0 {
        lists := lists[k := lists[k][1..]];
      }
      b := Block(st, IdxBlock(i, k));
    }

    /** `allocate_chunk_and_block6` with a record and a mapping at hand. */
    method NewChunk(st: nat)
      requires Valid() && st !in chunks && lists[TOP] == []
      modifies this
      ensures Valid() && Gave(old(chunks), chunks, st, TOP, 0) && chunkNum == old(chunkNum) + 1
    {
      hide ListOf, OrderInv, Gave, FreshChunk;
      NewStep(chunks, lists, chunkNum, keep, st);
      chunks := chunks[st := FreshChunk()];
      lists := lists[TOP := [st] + lists[TOP]];
      chunkNum := chunkNum + 1;
      assert [st] + [] == [st];
    }

    /** Splitting a block of order k + 1 that was given out: its lower half stays given out. */
    method Split(k: nat, b: Block)
      requires Valid() && k < TOP && b.st in chunks && Live(chunks[b.st], k + 1, BlockIdx(b.offset, k + 1))
      modifies `chunks, `lists
      ensures Valid() && old(|chunks[b.st].split| == 7 && ChunkInv(chunks[b.st]))
      ensures chunks == old(chunks)[b.st := Cut(old(chunks)[b.st], k, BlockIdx(b.offset, k + 1))]
    {
      hide ListOf, OrderInv, BlockIdx;
      var st := b.st;
      var i := BlockIdx(b.offset, k + 1);
      CutStep(chunks, lists, chunkNum, keep, k, st, i);
      var c := Cut(chunks[st], k, i);
      chunks := chunks[st := c];
      if c.num[k] == 1 {
        lists := lists[k := [st] + lists[k]];
      }
    }

    /** `buddy_alloc_k`.  mmap is the record of the chunk that `allocate_chunk_and_block6` gets if it is called, or None
        if that fails.  The block comes from the first list from k on that is not empty, from its first chunk, and
        from the lowest free block of that chunk; a new chunk is made only when all those lists are empty. */
    method Alloc(k: nat, mmap: Option<nat>) returns (b: Option<Block>)
      requires Valid() && k <= TOP && (mmap.Some? ==> mmap.value !in chunks)
      modifies this
      ensures Valid()
      ensures b == None <==> mmap == None && FirstOrder(old(lists), k) == 7
      ensures b == None ==> chunks == old(chunks) && lists == old(lists) && chunkNum == old(chunkNum)
      ensures b.Some? ==> exists i :: b.value.offset == IdxBlock(i, k) && Gave(old(chunks), chunks, b.value.st, k, i)
      ensures b.Some? && FirstOrder(old(lists), k) == 7 ==>
        b.value == Block(mmap.value, 0) && b.value.st !in old(chunks) && chunkNum == old(chunkNum) + 1
      ensures var m := FirstOrder(old(lists), k); b.Some? && m < 7 ==>
        && b.value.st == old(lists)[m][0] && b.value.st in old(chunks) && |old(chunks)[b.value.st].avail| == 7
        && chunkNum == old(chunkNum)
        && exists i :: IsLeast(old(chunks)[b.value.st].avail[m], i) && b.value.offset == IdxBlock(i, m)
      decreases TOP - k
    {
      hide ListsInv, OrderInv, ChunkInv, Gave, IdxBlock, IsLeast, Live, Cut;
      assert |lists| == 7 by { Shape(chunks, lists, chunkNum, keep); }
      if lists[k] != [] {
        var taken := TakeFree(k);
        b := Some(taken);
      } else if k == TOP {
        if mmap == None { return None; }
        NewChunk(mmap.value);
        b := Some(Block(mmap.value, 0));
        GaveAt(old(chunks), chunks, mmap.value, TOP, 0);
      } else {
        b := Alloc(k + 1, mmap);
        if b == None { return; }
        ghost var i :| b.value.offset == IdxBlock(i, k + 1) && Gave(old(chunks), chunks, b.value.st, k + 1, i);
        GaveAt(old(chunks), chunks, b.value.st, k + 1, i);
        GaveHalf(old(chunks), chunks, k, b.value.st, i);
        LowerHalfAddress(i, k);
        Split(k, b.value);
      }
    }

    /** `buddy_free_k`: b is the context of a live block of order k and any address inside it.  The block alone
        is taken back, and its chunk is released exactly when nothing else in it is live and more chunks than
        keep are in use. */
    method Free(k: nat, b: Block)
      requires Valid() && k <= TOP && b.st in chunks && ChunkInv(chunks[b.st])
      requires Live(chunks[b.st], k, BlockIdx(b.offset, k))
      modifies this
      ensures Valid() && Took(old(chunks), chunks, b.st, k, BlockIdx(b.offset, k))
      ensures old(b.st in chunks && ChunkInv(chunks[b.st]))
      ensures b.st !in chunks <==> OnlyLive(old(chunks)[b.st], k, BlockIdx(b.offset, k)) && old(chunkNum) > keep
      ensures chunkNum == old(chunkNum) - if b.st in chunks then 0 else 1
      decreases TOP - k
    {
      hide ListsInv, OrderInv, Took, OnlyLive, BlockIdx, Live;
      var st := b.st;
      var i := BlockIdx(b.offset, k);
      if k == TOP {
        if Buddy(i) in chunks[st].avail[TOP] && chunkNum > keep {
          assert |lists| == 7 by { Shape(chunks, lists, chunkNum, keep); }
          ReleaseStep(chunks, lists, chunkNum, keep, st, i);
          TopBuddyFree(chunks[st], i);
          lists := lists[TOP := Without(lists[TOP], st)];
          chunks := chunks - {st};
          chunkNum := chunkNum - 1;
        } else {
          PutBack(k, st, i);
        }
      } else if Buddy(i) in chunks[st].avail[k] {
        Merge(k, st, i);
        UpperAddress(i, k);
        Free(k + 1, Block(st, IdxBlock(i / 2, k + 1)));
        TookHalf(old(chunks), chunks, k, st, i);
      } else {
        PutBack(k, st, i);
      }
    }

    /** The bit is set, and the record linked if it is the first. */
    method PutBack(k: nat, st: nat, i: nat)
      requires Valid() && k <= TOP && st in chunks && ChunkInv(chunks[st]) && Live(chunks[st], k, i)
      requires Buddy(i) in chunks[st].avail[k] ==> k == TOP && chunkNum <= keep
      modifies `chunks, `lists
      ensures Valid() && Took(old(chunks), chunks, st, k, i) && st in chunks
      ensures old(ChunkInv(chunks[st])) && (OnlyLive(old(chunks)[st], k, i) ==> chunkNum <= keep)
    {
      hide ListOf, OrderInv, Took, OnlyLive;
      PutStep(chunks, lists, chunkNum, keep, k, st, i);
      var c := Put(chunks[st], k, i);
      chunks := chunks[st := c];
      if c.num[k] == 1 {
        lists := lists[k := [st] + lists[k]];
      }
    }

    /** The free buddy is taken out and the split bit of the parent cleared. */
    method Merge(k: nat, st: nat, i: nat)
      requires Valid() && k < TOP && st in chunks && ChunkInv(chunks[st]) && Live(chunks[st], k, i)
      requires Buddy(i) in chunks[st].avail[k]
      modifies `chunks, `lists
      ensures Valid() && old(ChunkInv(chunks[st]) && Buddy(i) in chunks[st].avail[k])
      ensures chunks == old(chunks)[st := Joined(old(chunks)[st], k, i)]
      ensures ChunkInv(chunks[st]) && Live(chunks[st], k + 1, i / 2)
      ensures OnlyLive(chunks[st], k + 1, i / 2) <==> OnlyLive(old(chunks)[st], k, i)
    {
      hide ListOf, OrderInv, OnlyLive;
      JoinStep(chunks, lists, chunkNum, keep, k, st, i);
      var c := Joined(chunks[st], k, i);
      chunks := chunks[st := c];
      if c.num[k] == 0 {
        lists := lists[k := Without(lists[k], st)];
      }
    }
  }
}
