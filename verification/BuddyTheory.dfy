/** What the bitmaps of a chunk mean: its blocks tile the chunk, its pages are conserved, and its live blocks
    determine everything else. */
module BuddyTheory {
  import opened Arith
  import opened BuddyChunk

  /** i >> n: the block n orders up that covers block i. */
  function Up(i: nat, n: nat): nat {
    if n == 0 then i else Up(i / 2, n - 1)
  }

  lemma {:induction false} UpAdd(i: nat, a: nat, b: nat)
    ensures Up(Up(i, a), b) == Up(i, a + b)
  {
    if a > 0 { UpAdd(i / 2, a - 1, b); }
  }

  lemma UpHalf(i: nat, n: nat)
    requires n > 0
    ensures Up(i, n) == Up(i, n - 1) / 2
  {
    UpAdd(i, n - 1, 1);
    assert Up(Up(i, n - 1), 1) == Up(Up(i, n - 1) / 2, 0);
  }

  /** Block i of order k is the range of 2^k pages that starts at i * 2^k. */
  lemma {:induction false} PagesOfBlock(p: nat, k: nat, i: nat)
    ensures Up(p, k) == i <==> Times(i, Pow2(k)) <= p < Times(i, Pow2(k)) + Pow2(k)
  {
    if k == 0 {
      TimesIsProduct(i, 1);
    } else {
      PagesOfBlock(p / 2, k - 1, i);
      TimesDouble(i, Pow2(k - 1));
    }
  }

  // ----- Ancestors -----

  lemma {:induction false} AncestorSplit(c: Chunk, k: nat, i: nat, m: nat)
    requires ChunkInv(c) && k < m <= TOP && Exists(c, k, i)
    ensures Up(i, m - k) in c.split[m]
    decreases m - k
  {
    if m > k + 1 {
      assert OrderInv(c, k + 1);
      AncestorSplit(c, k + 1, i / 2, m);
    } else {
      assert Up(i, 1) == Up(i / 2, 0);
    }
  }

  lemma AncestorExists(c: Chunk, k: nat, i: nat, m: nat)
    requires ChunkInv(c) && k <= m <= TOP && Exists(c, k, i)
    ensures Exists(c, m, Up(i, m - k))
  {
    if k < m {
      AncestorSplit(c, k, i, m);
      assert OrderInv(c, m);
    }
  }

  lemma {:induction false} UpZero(i: nat, n: nat)
    ensures Up(i, n) < 2 ==> i < 2 * Pow2(n)
  {
    if n > 0 { UpZero(i / 2, n - 1); }
  }

  /** The block lies in the chunk: its pages are below 128. */
  lemma BlockInChunk(c: Chunk, k: nat, i: nat)
    requires ChunkInv(c) && k <= TOP && Exists(c, k, i)
    ensures Times(i, Pow2(k)) + Pow2(k) <= 128
  {
    AncestorExists(c, k, i, TOP);
    var last := Times(i, Pow2(k)) + Pow2(k) - 1;
    PagesOfBlock(last, k, i);
    UpAdd(last, k, TOP - k);
    UpZero(last, TOP);
    assert Pow2(6) == 64;
  }

  // ----- The unsplit blocks tile the chunk -----

  /** Page p lies in an unsplit block of order k. */
  predicate Covers(c: Chunk, k: nat, p: nat)
    requires ChunkInv(c) && k <= TOP
  {
    Exists(c, k, Up(p, k)) && Up(p, k) !in c.split[k]
  }

  lemma {:induction false} DescendToCover(c: Chunk, p: nat, k: nat) returns (m: nat)
    requires ChunkInv(c) && k <= TOP && Exists(c, k, Up(p, k))
    ensures m <= k && Covers(c, m, p)
  {
    if Up(p, k) !in c.split[k] {
      m := k;
    } else {
      UpHalf(p, k);
      m := DescendToCover(c, p, k - 1);
    }
  }

  lemma CoverUnique(c: Chunk, p: nat, k: nat, m: nat)
    requires ChunkInv(c) && k <= m <= TOP && Covers(c, k, p) && Covers(c, m, p)
    ensures k == m
  {
    if k < m {
      AncestorSplit(c, k, Up(p, k), m);
      UpAdd(p, k, m - k);
    }
  }

  /** Every page of the chunk lies in exactly one block that is free or live. */
  lemma PageHasOneBlock(c: Chunk, p: nat) returns (k: nat)
    requires ChunkInv(c) && p < 128
    ensures k <= TOP && (Up(p, k) in c.avail[k] <==> !Live(c, k, Up(p, k)))
    ensures forall m: nat :: m <= TOP && (Up(p, m) in c.avail[m] || Live(c, m, Up(p, m))) ==> m == k
  {
    PagesOfBlock(p, TOP, 0);
    PagesOfBlock(p, TOP, 1);
    assert Pow2(6) == 64 && Times(0, 64) == 0 && Times(1, 64) == 64;
    k := DescendToCover(c, p, TOP);
    forall m: nat | m <= TOP && (Up(p, m) in c.avail[m] || Live(c, m, Up(p, m))) ensures m == k {
      assert OrderInv(c, m);
      if m < k { CoverUnique(c, p, m, k); } else { CoverUnique(c, p, k, m); }
    }
  }

  /** Two live blocks that share a page are one block. */
  lemma LiveDisjoint(c: Chunk, k: nat, i: nat, m: nat, j: nat, p: nat)
    requires ChunkInv(c) && k <= TOP && m <= TOP && Live(c, k, i) && Live(c, m, j)
    requires Times(i, Pow2(k)) <= p < Times(i, Pow2(k)) + Pow2(k)
    requires Times(j, Pow2(m)) <= p < Times(j, Pow2(m)) + Pow2(m)
    ensures (k, i) == (m, j)
  {
    PagesOfBlock(p, k, i);
    PagesOfBlock(p, m, j);
    if k <= m { CoverUnique(c, p, k, m); } else { CoverUnique(c, p, m, k); }
  }

  // ----- Pages are conserved -----

  function Kids(s: set<nat>): set<nat> {
    (set i | i in s :: 2 * i) + (set i | i in s :: 2 * i + 1)
  }

  lemma KidsAre(s: set<nat>, j: nat)
    ensures j in Kids(s) <==> j / 2 in s
  {
    assert j == 2 * (j / 2) || j == 2 * (j / 2) + 1;
  }

  lemma KidsAdd(s: set<nat>, i: nat)
    requires i !in s
    ensures Kids(s + {i}) == Kids(s) + {2 * i, 2 * i + 1}
    ensures 2 * i !in Kids(s) && 2 * i + 1 !in Kids(s)
  {
    hide Kids;
    KidsAre(s, 2 * i);
    KidsAre(s, 2 * i + 1);
    forall j: nat ensures j in Kids(s + {i}) <==> j in Kids(s) + {2 * i, 2 * i + 1} {
      KidsAre(s, j);
      KidsAre(s + {i}, j);
    }
  }

  lemma {:induction false} KidsCount(s: set<nat>)
    ensures |Kids(s)| == 2 * |s|
    decreases |s|
  {
    if s == {} {
      assert Kids(s) == {};
    } else {
      hide Kids;
      var i :| i in s;
      KidsCount(s - {i});
      KidsAdd(s - {i}, i);
      assert s - {i} + {i} == s;
    }
  }

  function Existing(c: Chunk, k: nat): set<nat>
    requires ChunkInv(c) && k <= TOP
  {
    if k == TOP then {0, 1} else Kids(c.split[k + 1])
  }

  function LiveSet(c: Chunk, k: nat): set<nat>
    requires ChunkInv(c) && k <= TOP
  {
    Existing(c, k) - c.avail[k] - c.split[k]
  }

  lemma LiveSetIsLive(c: Chunk, k: nat, i: nat)
    requires ChunkInv(c) && k <= TOP
    ensures i in Existing(c, k) <==> Exists(c, k, i)
    ensures i in LiveSet(c, k) <==> Live(c, k, i)
  {
    if k < TOP { KidsAre(c.split[k + 1], i); }
  }

  lemma CountParts(whole: set<nat>, a: set<nat>, b: set<nat>)
    requires a <= whole && b <= whole && a !! b
    ensures |whole - a - b| + |a| + |b| == |whole|
  {
    assert whole == (whole - a - b) + a + b;
  }

  lemma BlocksOfOrder(c: Chunk, k: nat)
    requires ChunkInv(c) && k <= TOP
    ensures c.num[k] + |c.split[k]| + |LiveSet(c, k)| == if k == TOP then 2 else 2 * |c.split[k + 1]|
  {
    hide Kids;
    if k < TOP { KidsCount(c.split[k + 1]); }
    assert OrderInv(c, k);
    forall i: nat | i in c.avail[k] || i in c.split[k] ensures i in Existing(c, k) { LiveSetIsLive(c, k, i); }
    CountParts(Existing(c, k), c.avail[k], c.split[k]);
  }

  /** The pages in n[k] blocks of each order k. */
  function Pages(n: seq<nat>): nat
    requires |n| == 7
  {
    n[0] + 2 * n[1] + 4 * n[2] + 8 * n[3] + 16 * n[4] + 32 * n[5] + 64 * n[6]
  }

  function LiveCounts(c: Chunk): seq<nat>
    requires ChunkInv(c)
  {
    seq(7, k requires 0 <= k < 7 => |LiveSet(c, k)|)
  }

  /** The pages of the blocks of order k in s. */
  function PagesOf(s: set<nat>, k: nat): set<nat>
    decreases k
  {
    if k == 0 then s else PagesOf(Kids(s), k - 1)
  }

  lemma {:induction false} PagesOfAre(s: set<nat>, k: nat, p: nat)
    ensures p in PagesOf(s, k) <==> Up(p, k) in s
    decreases k
  {
    if k > 0 {
      hide Kids;
      PagesOfAre(Kids(s), k - 1, p);
      KidsAre(s, Up(p, k - 1));
      UpHalf(p, k);
    }
  }

  lemma {:induction false} PagesOfCount(s: set<nat>, k: nat)
    ensures |PagesOf(s, k)| == |s| * Pow2(k)
    decreases k
  {
    if k > 0 {
      hide Kids;
      PagesOfCount(Kids(s), k - 1);
      KidsCount(s);
      Doubled(|s|, Pow2(k - 1));
    }
  }

  lemma Doubled(a: nat, b: nat)
    ensures 2 * a * b == a * (2 * b)
  {
  }

  /** Page p lies in a block of s[k]. */
  ghost predicate InOrder(s: seq<set<nat>>, k: nat, p: nat) {
    k < |s| && Up(p, k) in s[k]
  }

  ghost predicate InSome(s: seq<set<nat>>, p: nat) {
    exists k: nat :: InOrder(s, k, p)
  }

  ghost predicate Apart(s: seq<set<nat>>) {
    forall p: nat, k: nat, m: nat :: InOrder(s, k, p) && InOrder(s, m, p) ==> k == m
  }

  /** The pages of the first n orders. */
  ghost function PagesBelow(s: seq<set<nat>>, n: nat): set<nat>
    requires n <= |s|
  {
    if n == 0 then {} else PagesBelow(s, n - 1) + PagesOf(s[n - 1], n - 1)
  }

  ghost function WeightBelow(s: seq<set<nat>>, n: nat): nat
    requires n <= |s|
  {
    if n == 0 then 0 else WeightBelow(s, n - 1) + |s[n - 1]| * Pow2(n - 1)
  }

  lemma {:induction false} BelowAre(s: seq<set<nat>>, n: nat, p: nat)
    requires n <= |s|
    ensures p in PagesBelow(s, n) <==> exists k: nat :: k < n && InOrder(s, k, p)
  {
    if n > 0 {
      BelowAre(s, n - 1, p);
      PagesOfAre(s[n - 1], n - 1, p);
      assert p in PagesOf(s[n - 1], n - 1) <==> InOrder(s, n - 1, p);
    }
  }

  lemma {:induction false} BelowCount(s: seq<set<nat>>, n: nat)
    requires n <= |s| && Apart(s)
    ensures |PagesBelow(s, n)| == WeightBelow(s, n)
  {
    if n > 0 {
      hide PagesOf, Pow2, InOrder;
      BelowCount(s, n - 1);
      PagesOfCount(s[n - 1], n - 1);
      var below, here := PagesBelow(s, n - 1), PagesOf(s[n - 1], n - 1);
      forall p: nat | p in below ensures p !in here { PageOnce(s, n - 1, p); }
      assert below !! here;
    }
  }

  lemma PageOnce(s: seq<set<nat>>, n: nat, p: nat)
    requires n < |s| && Apart(s) && p in PagesBelow(s, n)
    ensures p !in PagesOf(s[n], n)
  {
    BelowAre(s, n, p);
    PagesOfAre(s[n], n, p);
    var k: nat :| k < n && InOrder(s, k, p);
    assert p in PagesOf(s[n], n) ==> InOrder(s, n, p);
  }

  lemma WeightIsPages(s: seq<set<nat>>)
    requires |s| == 7
    ensures WeightBelow(s, 7) == |s[0]| + 2 * |s[1]| + 4 * |s[2]| + 8 * |s[3]| + 16 * |s[4]| + 32 * |s[5]| + 64 * |s[6]|
  {
    assert Pow2(0) == 1 && Pow2(1) == 2 && Pow2(2) == 4 && Pow2(3) == 8 && Pow2(4) == 16 && Pow2(5) == 32 && Pow2(6) == 64;
    hide Pow2;
    assert WeightBelow(s, 1) == WeightBelow(s, 0) + |s[0]| * 1;
    assert WeightBelow(s, 2) == WeightBelow(s, 1) + |s[1]| * 2;
    assert WeightBelow(s, 3) == WeightBelow(s, 2) + |s[2]| * 4;
    assert WeightBelow(s, 4) == WeightBelow(s, 3) + |s[3]| * 8;
    assert WeightBelow(s, 5) == WeightBelow(s, 4) + |s[4]| * 16;
    assert WeightBelow(s, 6) == WeightBelow(s, 5) + |s[5]| * 32;
    assert WeightBelow(s, 7) == WeightBelow(s, 6) + |s[6]| * 64;
  }

  /** The number of pages in some block of s, below 128 as all of them are. */
  lemma PagesCounted(s: seq<set<nat>>, n: seq<nat>)
    requires |s| == |n| == 7 && Apart(s) && (forall k :: 0 <= k < 7 ==> n[k] == |s[k]|)
    requires forall p: nat :: InSome(s, p) ==> p < 128
    ensures Pages(n) == |set p: nat | p < 128 && InSome(s, p)|
  {
    hide PagesBelow, InOrder, Apart, WeightBelow;
    BelowCount(s, 7);
    WeightIsPages(s);
    forall p: nat ensures p in PagesBelow(s, 7) <==> p < 128 && InSome(s, p) { BelowAre(s, 7, p); OrdersBelow(s, p); }
    assert PagesBelow(s, 7) == set p: nat | p < 128 && InSome(s, p);
  }

  lemma OrdersBelow(s: seq<set<nat>>, p: nat)
    ensures InSome(s, p) <==> exists k: nat :: k < |s| && InOrder(s, k, p)
  {
  }

  ghost function LiveSets(c: Chunk): (s: seq<set<nat>>)
    requires ChunkInv(c)
    ensures |s| == 7
  {
    seq(7, k requires 0 <= k < 7 => LiveSet(c, k))
  }

  /** The weighted counters are numbers of pages: of those in a free block, and of those in a live one. */
  lemma PagesAreCounted(c: Chunk)
    requires ChunkInv(c)
    ensures Pages(c.num) == |set p: nat | p < 128 && InSome(c.avail, p)|
    ensures Pages(LiveCounts(c)) == |set p: nat | p < 128 && InSome(LiveSets(c), p)|
    ensures forall p: nat, k: nat :: InOrder(LiveSets(c), k, p) <==> k <= TOP && Live(c, k, Up(p, k))
  {
    forall p: nat, k: nat ensures InOrder(LiveSets(c), k, p) <==> k <= TOP && Live(c, k, Up(p, k)) {
      if k <= TOP { LiveSetIsLive(c, k, Up(p, k)); }
    }
    forall p: nat, k: nat | InOrder(c.avail, k, p) ensures k <= TOP && Covers(c, k, p) { assert OrderInv(c, k); }
    forall k | 0 <= k < 7 ensures c.num[k] == |c.avail[k]| { assert OrderInv(c, k); }
    UnsplitPages(c, c.avail);
    UnsplitPages(c, LiveSets(c));
    hide ChunkInv, OrderInv, InOrder, Apart, LiveSet;
    PagesCounted(c.avail, c.num);
    PagesCounted(LiveSets(c), LiveCounts(c));
  }

  lemma CoversInChunk(c: Chunk, k: nat, p: nat)
    requires ChunkInv(c) && k <= TOP && Covers(c, k, p)
    ensures p < 128
  {
    BlockInChunk(c, k, Up(p, k));
    PagesOfBlock(p, k, Up(p, k));
  }

  lemma UnsplitPages(c: Chunk, s: seq<set<nat>>)
    requires ChunkInv(c) && |s| == 7
    requires forall p: nat, k: nat :: InOrder(s, k, p) ==> k <= TOP && Covers(c, k, p)
    ensures Apart(s) && forall p: nat :: InSome(s, p) ==> p < 128
  {
    hide ChunkInv, InOrder, Covers;
    forall p: nat, k: nat, m: nat | InOrder(s, k, p) && InOrder(s, m, p) ensures k == m {
      if k <= m { CoverUnique(c, p, k, m); } else { CoverUnique(c, p, m, k); }
    }
    forall p: nat | InSome(s, p) ensures p < 128 {
      var k: nat :| InOrder(s, k, p);
      CoversInChunk(c, k, p);
    }
  }

  /** The free pages, as counted by avail_num, and the live pages together are the 128 pages of the chunk. */
  lemma PagesConserved(c: Chunk)
    requires ChunkInv(c)
    ensures Pages(c.num) + Pages(LiveCounts(c)) == 128
  {
    hide LiveSet, OrderInv;
    BlocksOfOrder(c, 0);
    BlocksOfOrder(c, 1);
    BlocksOfOrder(c, 2);
    BlocksOfOrder(c, 3);
    BlocksOfOrder(c, 4);
    BlocksOfOrder(c, 5);
    BlocksOfOrder(c, 6);
  }

  // ----- The live blocks determine the chunk -----

  /** Below a split block there is a live one, because two free buddies would have been merged. */
  lemma {:induction false} SplitHasLive(c: Chunk, k: nat, i: nat) returns (m: nat, j: nat)
    requires ChunkInv(c) && k <= TOP && i in c.split[k]
    ensures m < k && Live(c, m, j) && Up(j, k - m) == i
  {
    assert OrderInv(c, k - 1);
    assert Buddy(2 * i) == 2 * i + 1;
    var kid := if 2 * i in c.avail[k - 1] then 2 * i + 1 else 2 * i;
    if kid in c.split[k - 1] {
      m, j := SplitHasLive(c, k - 1, kid);
      UpHalf(j, k - m);
    } else {
      m, j := k - 1, kid;
      assert Up(kid, 1) == Up(kid / 2, 0);
    }
  }

  ghost predicate SameLive(c: Chunk, d: Chunk)
    requires ChunkInv(c) && ChunkInv(d)
  {
    forall k: nat, i: nat :: k <= TOP ==> (Live(c, k, i) <==> Live(d, k, i))
  }

  lemma SplitFollows(c: Chunk, d: Chunk, k: nat, i: nat)
    requires ChunkInv(c) && ChunkInv(d) && SameLive(c, d) && k <= TOP && i in c.split[k]
    ensures i in d.split[k]
  {
    var m, j := SplitHasLive(c, k, i);
    assert Live(d, m, j);
    AncestorSplit(d, m, j, k);
  }

  /** History does not matter: two chunks with the same live blocks have the same bitmaps and counters. */
  lemma LiveDetermines(c: Chunk, d: Chunk)
    requires ChunkInv(c) && ChunkInv(d) && SameLive(c, d)
    ensures c == d
  {
    forall k | 0 <= k <= TOP ensures c.split[k] == d.split[k] {
      forall i: nat ensures i in c.split[k] <==> i in d.split[k] {
        if i in c.split[k] { SplitFollows(c, d, k, i); }
        if i in d.split[k] { SplitFollows(d, c, k, i); }
      }
    }
    assert c.split == d.split;
    forall k: nat | k <= TOP ensures c.avail[k] == d.avail[k] && c.num[k] == d.num[k] {
      assert OrderInv(c, k) && OrderInv(d, k);
      forall i: nat ensures i in c.avail[k] <==> i in d.avail[k] {
        assert Live(c, k, i) <==> Live(d, k, i);
      }
    }
  }

  // ----- The walk of the heap inspector -----

  function Walk(c: Chunk, k: nat, i: nat): seq<(nat, nat)>
    requires ChunkInv(c) && k <= TOP
  {
    if i in c.avail[k] then []
    else if i in c.split[k] then
      assert k > 0;
      Walk(c, k - 1, 2 * i) + Walk(c, k - 1, 2 * i + 1)
    else [(k, i)]
  }

  ghost predicate Distinct<T(!new)>(s: seq<T>) {
    forall a, b :: 0 <= a < b < |s| ==> s[a] != s[b]
  }

  ghost predicate Under(c: Chunk, k: nat, i: nat, m: nat, j: nat)
    requires ChunkInv(c)
  {
    m <= k <= TOP && Up(j, k - m) == i && Live(c, m, j)
  }

  lemma UnderKids(c: Chunk, k: nat, i: nat, m: nat, j: nat)
    requires ChunkInv(c) && k <= TOP && i in c.split[k]
    ensures Under(c, k, i, m, j) <==> Under(c, k - 1, 2 * i, m, j) || Under(c, k - 1, 2 * i + 1, m, j)
  {
    if m < k {
      UpHalf(j, k - m);
    }
  }

  lemma UnderLeaf(c: Chunk, k: nat, i: nat, m: nat, j: nat)
    requires ChunkInv(c) && k <= TOP && i !in c.split[k] && Exists(c, k, i)
    ensures Under(c, k, i, m, j) <==> (m, j) == (k, i) && i !in c.avail[k]
  {
    if Under(c, k, i, m, j) && m < k {
      AncestorSplit(c, m, j, k);
    }
  }

  lemma {:induction false} WalkListsLive(c: Chunk, k: nat, i: nat)
    requires ChunkInv(c) && k <= TOP && Exists(c, k, i)
    ensures forall m: nat, j: nat :: (m, j) in Walk(c, k, i) <==> Under(c, k, i, m, j)
    ensures Distinct(Walk(c, k, i))
  {
    hide Under;
    if i in c.split[k] {
      assert OrderInv(c, k);
      WalkListsLive(c, k - 1, 2 * i);
      WalkListsLive(c, k - 1, 2 * i + 1);
      forall m: nat, j: nat ensures Under(c, k, i, m, j)
        <==> Under(c, k - 1, 2 * i, m, j) || Under(c, k - 1, 2 * i + 1, m, j) { UnderKids(c, k, i, m, j); }
      DistinctWalks(c, k - 1, 2 * i, 2 * i + 1);
    } else {
      forall m: nat, j: nat ensures Under(c, k, i, m, j) <==> (m, j) == (k, i) && i !in c.avail[k] {
        UnderLeaf(c, k, i, m, j);
      }
    }
  }

  lemma DistinctWalks(c: Chunk, k: nat, i: nat, j: nat)
    requires ChunkInv(c) && k <= TOP && i != j
    requires Distinct(Walk(c, k, i)) && Distinct(Walk(c, k, j))
    requires forall m: nat, b: nat :: (m, b) in Walk(c, k, i) <==> Under(c, k, i, m, b)
    requires forall m: nat, b: nat :: (m, b) in Walk(c, k, j) <==> Under(c, k, j, m, b)
    ensures Distinct(Walk(c, k, i) + Walk(c, k, j))
  {
    var v, w := Walk(c, k, i), Walk(c, k, j);
    forall a, b | 0 <= a < |v| && 0 <= b < |w| ensures v[a] != w[b] {
      assert (v[a].0, v[a].1) in v && (w[b].0, w[b].1) in w;
    }
  }

  /** The walk from the two blocks of order 6 lists each live block of the chunk exactly once. */
  lemma WalkIsLive(c: Chunk)
    requires ChunkInv(c)
    ensures var w := Walk(c, TOP, 0) + Walk(c, TOP, 1);
      Distinct(w) && forall m: nat, j: nat :: (m, j) in w <==> m <= TOP && Live(c, m, j)
  {
    WalkListsLive(c, TOP, 0);
    WalkListsLive(c, TOP, 1);
    DistinctWalks(c, TOP, 0, 1);
    forall m: nat, j: nat ensures Under(c, TOP, 0, m, j) || Under(c, TOP, 1, m, j) <==> m <= TOP && Live(c, m, j) {
      if m <= TOP && Live(c, m, j) { AncestorExists(c, m, j, TOP); }
    }
  }
}
