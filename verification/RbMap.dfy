/** The ordered map of map.hpp over the pointer tree; set.hpp searches, inserts and iterates the same way.
    Values play no part in the tree and are left to the caller's handles. */
module RbMap {
  import opened Arith
  import opened RbSpec
  import opened RbTheory
  import opened RbLoops
  import opened RbHeap
  import opened RbRebalance
  import opened RbPointer

  ghost predicate Ascending(s: seq<RbNode>) {
    forall i, j :: 0 <= i < j < |s| ==> s[i].key < s[j].key
  }

  ghost predicate AllBelow(s: seq<RbNode>, k: int) { forall i :: 0 <= i < |s| ==> s[i].key < k }

  ghost predicate AllAbove(s: seq<RbNode>, k: int) { forall i :: 0 <= i < |s| ==> k < s[i].key }

  /** The keys in the tree, in order. */
  ghost function Keys(s: seq<RbNode>): seq<int> {
    seq(|s|, i requires 0 <= i < |s| => s[i].key)
  }

  lemma KeysAbove(a: seq<RbNode>, x: RbNode, b: seq<RbNode>, k: int)
    requires Ascending(a + ([x] + b)) && k < x.key
    ensures AllAbove([x] + b, k)
  {
    var s := a + ([x] + b);
    forall i | 0 <= i < |b| ensures k < b[i].key { assert s[|a|].key < s[|a| + 1 + i].key; }
  }

  lemma KeysBelow(a: seq<RbNode>, x: RbNode, b: seq<RbNode>, k: int)
    requires Ascending(a + ([x] + b)) && x.key < k
    ensures AllBelow(a + [x], k)
  {
    var s := a + ([x] + b);
    forall i | 0 <= i < |a| ensures a[i].key < k { assert s[i].key < s[|a|].key; }
  }

  /** A descent keeps every key below k before the hole and every key above k after it. */
  lemma DescendSplit(c: HeapCtx, t: HeapTree, k: int)
    requires t.Node? && Ascending(Inorder(Plug(c, t)))
    requires AllBelow(Before(c), k) && AllAbove(After(c), k)
    ensures k < t.x.key ==> AllAbove(After(InLeft(c, t.x, t.r, t.red)), k)
    ensures k > t.x.key ==> AllBelow(Before(InRight(c, t.l, t.x, t.red)), k)
  {
    hide Ascending, AllAbove, AllBelow, Plug, Inorder;
    SplitAtRoot(c, t);
    var a, b := Before(c) + Inorder(t.l), Inorder(t.r) + After(c);
    ListedAppends(t.r, After(c));
    if k < t.x.key { KeysAbove(a, t.x, b, k); }
    if k > t.x.key { KeysBelow(a, t.x, b, k); }
  }

  lemma AbsentAtHole(c: HeapCtx, k: int)
    requires AllBelow(Before(c), k) && AllAbove(After(c), k)
    ensures forall i :: 0 <= i < |Inorder(Plug(c, Nil))| ==> Inorder(Plug(c, Nil))[i].key != k
  {
    PlugOrder(c, Nil);
  }

  lemma {:induction false} LeftmostFirst(t: HeapTree, tail: seq<RbNode>)
    requires t.Node?
    ensures Listed(t, tail) != [] && Listed(t, tail)[0] == Leftmost(t).x
    decreases t
  {
    if t.l.Node? { LeftmostFirst(t.l, [t.x] + Listed(t.r, tail)); }
  }

  /** n comes directly after x in s; null stands for "past the end". */
  ghost predicate Follows(s: seq<RbNode>, x: RbNode, n: RbNode?) {
    exists i :: FollowsIndex(s, i, x, n)
  }

  ghost predicate FollowsIndex(s: seq<RbNode>, i: int, x: RbNode, n: RbNode?) {
    0 <= i < |s| && s[i] == x && if n == null then i + 1 == |s| else i + 1 < |s| && s[i + 1] == n
  }

  /** n comes directly before x in s; null stands for "before the start". */
  ghost predicate Precedes(s: seq<RbNode>, x: RbNode, n: RbNode?) {
    exists i :: PrecedesIndex(s, i, x, n)
  }

  ghost predicate PrecedesIndex(s: seq<RbNode>, i: int, x: RbNode, n: RbNode?) {
    0 <= i < |s| && s[i] == x && if n == null then i == 0 else i > 0 && s[i - 1] == n
  }

  class Map {
    const t: RbTree
    var size: nat

    ghost predicate Valid()
      reads this, t, Nodes(t.tree)
    {
      t.Valid() && Ascending(Inorder(t.tree)) && size == |Inorder(t.tree)|
    }

    constructor ()
      ensures Valid() && t.tree == Nil
    {
      t := new RbTree();
      size := 0;
    }

    /** The node with key k, or null if there is none, after at most 2 * log2(size + 1) + 1 comparisons. */
    method Search(k: int) returns (n: RbNode?, ghost steps: nat)
      requires Valid()
      ensures Valid()
      ensures n != null ==> n in Nodes(t.tree) && n.key == k
      ensures n != null <==> k in Keys(Inorder(t.tree))
      ensures Pow2(steps / 2) <= size + 1
    {
      hide At, Ascending, AllBelow, AllAbove, Keys;
      n, steps := t.root, 0;
      ghost var c, sub := Top, t.tree;
      EmptyBounds(k);
      while n != null
        invariant Valid() && At(c, sub) && Plug(c, sub) == t.tree && n == RootOf(sub)
        invariant AllBelow(Before(c), k) && AllAbove(After(c), k)
        invariant steps + Height(sub) <= Height(t.tree)
        decreases sub
      {
        steps := steps + 1;
        if k == n.key {
          RootIsNode(c, sub);
          PresentKey(c, sub);
          DepthBound(t.tree, steps);
          return;
        }
        DescendSplit(c, sub, k);
        Unzip(c, sub);
        if k < n.key {
          n := n.left;
          c, sub := InLeft(c, sub.x, sub.r, sub.red), sub.l;
        } else {
          n := n.right;
          c, sub := InRight(c, sub.l, sub.x, sub.red), sub.r;
        }
      }
      AbsentAtHole(c, k);
      KeysOf(Inorder(t.tree), k);
      DepthBound(t.tree, steps);
    }

    /** `emplace_null`: find the key, or add it where the descent ends. */
    method Emplace(k: int) returns (inserted: bool, n: RbNode)
      requires Valid()
      modifies this, t, Nodes(t.tree)
      ensures Valid() && n in Nodes(t.tree) && n.key == k
      ensures inserted <==> k !in old(Keys(Inorder(t.tree)))
      ensures !inserted ==> t.tree == old(t.tree) && size == old(size)
      ensures inserted ==> fresh(n) && size == old(size) + 1
      ensures inserted ==> exists i :: InsertedAt(old(Inorder(t.tree)), Inorder(t.tree), i, n)
    {
      hide At, Ascending, AllBelow, AllAbove, Nodes, Keys;
      ghost var s := Inorder(t.tree);
      EmptyBounds(k);
      if t.root == null {
        AbsentAtHole(Top, k);
        KeysOf(s, k);
        var r := t.EmplaceRoot(k);
        OneNode(r);
        n := r;
        size := 1;
        return true, n;
      }
      n := t.root;
      ghost var c, sub := Top, t.tree;
      while true
        invariant At(c, sub) && Plug(c, sub) == t.tree && sub.Node? && n == sub.x
        invariant AllBelow(Before(c), k) && AllAbove(After(c), k)
        invariant Valid() && t.tree == old(t.tree) && size == old(size) && Nodes(t.tree) == old(Nodes(t.tree))
        decreases sub
      {
        RootIsNode(c, sub);
        if k == n.key {
          PresentKey(c, sub);
          return false, n;
        }
        DescendSplit(c, sub, k);
        Unzip(c, sub);
        if k < n.key {
          c := InLeft(c, sub.x, sub.r, sub.red);
          if n.left != null {
            n := n.left;
            sub := sub.l;
          } else {
            AbsentAtHole(c, k);
            KeysOf(s, k);
            var r := t.EmplaceLeft(n, k);
            EmplacedBefore(c, s, Inorder(t.tree), r);
            size := size + 1;
            return true, r;
          }
        } else {
          c := InRight(c, sub.l, sub.x, sub.red);
          if n.right != null {
            n := n.right;
            sub := sub.r;
          } else {
            AbsentAtHole(c, k);
            KeysOf(s, k);
            var r := t.EmplaceRight(n, k);
            EmplacedAfter(c, s, Inorder(t.tree), r);
            size := size + 1;
            return true, r;
          }
        }
      }
    }

    /** Remove the key, if it is there.  derefsNull as for RbTree.Remove. */
    method RemoveKey(k: int) returns (removed: bool, derefsNull: bool)
      requires Valid()
      modifies this, t, Nodes(t.tree)
      ensures Valid()
      ensures removed <==> k in old(Keys(Inorder(t.tree)))
      ensures !removed ==> t.tree == old(t.tree) && size == old(size)
      ensures removed ==> size == old(size) - 1
      ensures removed ==> exists i, x: RbNode :: InsertedAt(Inorder(t.tree), old(Inorder(t.tree)), i, x) && x.key == k
      ensures removed ==> exists x: RbNode :: x in old(Nodes(t.tree)) && x.key == k && (derefsNull <==> EscapesAt(old(t.tree), x))
      ensures !removed ==> !derefsNull
    {
      hide At, Ascending, Nodes, Keys;
      ghost var s := Inorder(t.tree);
      KeysOf(s, k);
      var n, _ := Search(k);
      if n == null { return false, false; }
      derefsNull := t.Remove(n);
      ghost var i :| InsertedAt(Inorder(t.tree), s, i, n);
      StillAscending(Inorder(t.tree), s, i, n);
      size := size - 1;
      removed := true;
    }

    method Min() returns (n: RbNode?)
      requires Valid()
      ensures Valid()
      ensures n == if |Inorder(t.tree)| == 0 then null else Inorder(t.tree)[0]
    {
      n := t.root;
      if n == null { return; }
      LeftmostFirst(t.tree, []);
      n := LeftEnd(n, Top, t.tree);
    }

    method LeftEnd(r: RbNode, ghost c: HeapCtx, ghost sub: HeapTree) returns (n: RbNode)
      requires Valid()
      requires At(c, sub) && sub.Node? && r == sub.x
      ensures Valid()
      ensures n == Leftmost(sub).x
    {
      hide At;
      n := r;
      ghost var d, u := c, sub;
      Unzip(d, u);
      while n.left != null
        invariant Valid() && At(d, u) && u.Node? && n == u.x && Leftmost(u) == Leftmost(sub)
        invariant n.left == RootOf(u.l)
        decreases u
      {
        Unzip(d, u);
        d, u := InLeft(d, u.x, u.r, u.red), u.l;
        n := n.left;
        Unzip(d, u);
      }
    }

    /** The in-order successor, by parent links. */
    method Next(h: RbNode) returns (n: RbNode?)
      requires Valid() && h in Nodes(t.tree)
      ensures Valid()
      ensures Follows(Inorder(t.tree), h, n)
    {
      hide At, Ascending, Nodes;
      ghost var place := Focus(Top, t.tree, h);
      ghost var c, sub := place.0, place.1;
      ZipAll(c, sub);
      Unzip(c, sub);
      SplitAtRoot(c, sub);
      ghost var a := Before(c) + Inorder(sub.l);
      if h.right != null {
        ListedAppends(sub.r, After(c));
        LeftmostFirst(sub.r, After(c));
        n := LeftEnd(h.right, InRight(c, sub.l, sub.x, sub.red), sub.r);
        FollowsAt(a, h, Inorder(sub.r) + After(c), n);
        return;
      }
      ghost var last := After(c);
      assert Inorder(sub.r) + last == last;
      var curr := h;
      n := curr.parent;
      while n != null && curr == n.right
        invariant Valid() && At(c, sub) && Plug(c, sub) == t.tree && sub.Node? && curr == sub.x && n == ParentOf(c)
        invariant After(c) == last
        decreases c
      {
        StepOut(c, sub);
        curr := n;
        n := n.parent;
        c, sub := c.up, Around(c, sub);
      }
      if n != null { StepOut(c, sub); }
      FollowsAt(a, h, last, n);
    }

    method Max() returns (n: RbNode?)
      requires Valid()
      ensures Valid()
      ensures n == if |Inorder(t.tree)| == 0 then null else Inorder(t.tree)[|Inorder(t.tree)| - 1]
    {
      n := t.root;
      if n == null { return; }
      RightmostLast(t.tree);
      n := RightEnd(n, Top, t.tree);
    }

    method RightEnd(r: RbNode, ghost c: HeapCtx, ghost sub: HeapTree) returns (n: RbNode)
      requires Valid()
      requires At(c, sub) && sub.Node? && r == sub.x
      ensures Valid()
      ensures n == Rightmost(sub).x
    {
      hide At;
      n := r;
      ghost var d, u := c, sub;
      Unzip(d, u);
      while n.right != null
        invariant Valid() && At(d, u) && u.Node? && n == u.x && Rightmost(u) == Rightmost(sub)
        invariant n.right == RootOf(u.r)
        decreases u
      {
        Unzip(d, u);
        d, u := InRight(d, u.l, u.x, u.red), u.r;
        n := n.right;
        Unzip(d, u);
      }
    }

    /** The in-order predecessor, by parent links. */
    method Prev(h: RbNode) returns (n: RbNode?)
      requires Valid() && h in Nodes(t.tree)
      ensures Valid()
      ensures Precedes(Inorder(t.tree), h, n)
    {
      hide At, Ascending, Nodes;
      ghost var place := Focus(Top, t.tree, h);
      ghost var c, sub := place.0, place.1;
      ZipAll(c, sub);
      Unzip(c, sub);
      SplitAtRoot(c, sub);
      ghost var b := Inorder(sub.r) + After(c);
      if h.left != null {
        RightmostLast(sub.l);
        n := RightEnd(h.left, InLeft(c, sub.x, sub.r, sub.red), sub.l);
        PrecedesAt(Before(c) + Inorder(sub.l), h, b, n);
        return;
      }
      ghost var first := Before(c);
      assert first + Inorder(sub.l) == first;
      var curr := h;
      n := curr.parent;
      while n != null && curr == n.left
        invariant Valid() && At(c, sub) && Plug(c, sub) == t.tree && sub.Node? && curr == sub.x && n == ParentOf(c)
        invariant Before(c) == first
        decreases c
      {
        StepOut(c, sub);
        curr := n;
        n := n.parent;
        c, sub := c.up, Around(c, sub);
      }
      if n != null { StepOut(c, sub); }
      PrecedesAt(first, h, b, n);
    }

    /** Going from Min by Next meets every node once, in ascending order. */
    method Traverse() returns (s: seq<RbNode>)
      requires Valid()
      ensures Valid()
      ensures s == Inorder(t.tree)
    {
      hide At, Ascending, Nodes, Follows, FollowsIndex;
      s := [];
      var n := Min();
      ghost var all := Inorder(t.tree);
      while n != null
        invariant Valid() && all == Inorder(t.tree) && |s| <= |all| && s == all[..|s|]
        invariant if n == null then |s| == |all| else |s| < |all| && all[|s|] == n
        decreases |all| - |s|
      {
        InorderNode(t.tree, |s|);
        ghost var x := n;
        s := s + [n];
        n := Next(n);
        FollowsWhere(all, |s| - 1, x, n);
      }
    }

    /** Going from Max by Prev meets every node once, in descending order. */
    method TraverseBack() returns (s: seq<RbNode>)
      requires Valid()
      ensures Valid()
      ensures |s| == |Inorder(t.tree)| && forall i :: 0 <= i < |s| ==> s[i] == Inorder(t.tree)[|s| - 1 - i]
    {
      hide At, Ascending, Nodes, Precedes, PrecedesIndex;
      s := [];
      var n := Max();
      ghost var all := Inorder(t.tree);
      while n != null
        invariant Valid() && all == Inorder(t.tree) && |s| <= |all|
        invariant forall i :: 0 <= i < |s| ==> s[i] == all[|all| - 1 - i]
        invariant if n == null then |s| == |all| else |s| < |all| && all[|all| - 1 - |s|] == n
        decreases |all| - |s|
      {
        InorderNode(t.tree, |all| - 1 - |s|);
        ghost var x := n;
        s := s + [n];
        n := Prev(n);
        PrecedesWhere(all, |all| - |s|, x, n);
      }
    }
  }

  lemma {:induction false} InorderNode(t: HeapTree, i: nat)
    requires i < |Inorder(t)|
    ensures Inorder(t)[i] in Nodes(t)
  {
    ListedAppends(t.l, [t.x] + Inorder(t.r));
    var l := Inorder(t.l);
    if i < |l| { InorderNode(t.l, i); } else if i > |l| { InorderNode(t.r, i - |l| - 1); }
  }

  lemma FollowsWhere(s: seq<RbNode>, i: nat, x: RbNode, n: RbNode?)
    requires Ascending(s) && i < |s| && s[i] == x && Follows(s, x, n)
    ensures FollowsIndex(s, i, x, n)
  {
    var j :| FollowsIndex(s, j, x, n);
    IndexUnique(s, i, j);
  }

  lemma PrecedesWhere(s: seq<RbNode>, i: nat, x: RbNode, n: RbNode?)
    requires Ascending(s) && i < |s| && s[i] == x && Precedes(s, x, n)
    ensures n == if i == 0 then null else s[i - 1]
  {
    var j :| PrecedesIndex(s, j, x, n);
    IndexUnique(s, i, j);
  }

  lemma FollowsAt(a: seq<RbNode>, x: RbNode, b: seq<RbNode>, n: RbNode?)
    requires (b == [] ==> n == null) && (b != [] ==> n == b[0])
    ensures Follows(a + ([x] + b), x, n)
  {
    assert FollowsIndex(a + ([x] + b), |a|, x, n);
  }

  lemma {:induction false} SizeIsLength(t: HeapTree)
    ensures |Inorder(t)| == Size(t)
  {
    if t.Node? {
      SizeIsLength(t.l);
      SizeIsLength(t.r);
      ListedAppends(t.l, [t.x] + Inorder(t.r));
    }
  }

  lemma DepthBound(t: HeapTree, steps: nat)
    requires Ok(t) && steps <= Height(t)
    ensures Pow2(steps / 2) <= |Inorder(t)| + 1
  {
    HeightBound(t);
    SizeIsLength(t);
    Pow2Monotone(steps / 2, Bh(t));
  }

  function Rightmost(t: HeapTree): (m: HeapTree)
    requires t.Node?
    ensures m.Node?
  {
    if t.r.Nil? then t else Rightmost(t.r)
  }

  lemma {:induction false} RightmostLast(t: HeapTree)
    requires t.Node?
    ensures Inorder(t) != [] && Inorder(t)[|Inorder(t)| - 1] == Rightmost(t).x
    decreases t
  {
    ListedAppends(t.l, [t.x] + Inorder(t.r));
    if t.r.Node? { RightmostLast(t.r); }
  }

  lemma PrecedesAt(a: seq<RbNode>, x: RbNode, b: seq<RbNode>, n: RbNode?)
    requires (a == [] ==> n == null) && (a != [] ==> n == a[|a| - 1])
    ensures Precedes(a + ([x] + b), x, n)
  {
    assert PrecedesIndex(a + ([x] + b), |a|, x, n);
  }

  lemma KeysOf(s: seq<RbNode>, k: int)
    ensures k in Keys(s) <==> exists i :: 0 <= i < |s| && s[i].key == k
  {
    if k in Keys(s) {
      var i :| 0 <= i < |Keys(s)| && Keys(s)[i] == k;
      assert s[i].key == k;
    }
    if i :| 0 <= i < |s| && s[i].key == k {
      assert Keys(s)[i] == k;
    }
  }

  lemma OneNode(n: RbNode)
    ensures Inorder(Leaf(n, false)) == [n] && Ascending([n]) && n in Nodes(Leaf(n, false))
    ensures InsertedAt([], [n], 0, n)
  {
    var none: seq<RbNode> := [];
    assert Listed(Nil, none) == none && [n] + none == [n];
    assert Inorder(Leaf(n, false)) == Listed(Nil, [n] + Listed(Nil, none));
  }

  lemma PresentKey(c: HeapCtx, t: HeapTree)
    requires t.Node?
    ensures t.x.key in Keys(Inorder(Plug(c, t)))
  {
    SplitAtRoot(c, t);
    var s := Inorder(Plug(c, t));
    assert s[|Before(c) + Inorder(t.l)|] == t.x;
    assert Keys(s)[|Before(c) + Inorder(t.l)|] == t.x.key;
  }

  lemma AscendingInsert(a: seq<RbNode>, b: seq<RbNode>, n: RbNode)
    requires Ascending(a + b) && AllBelow(a, n.key) && AllAbove(b, n.key)
    ensures Ascending(a + [n] + b)
  {
    var s, s' := a + b, a + [n] + b;
    forall i, j | 0 <= i < j < |s'|
      ensures s'[i].key < s'[j].key
    {
      if i != |a| && j != |a| {
        var p, q := if i < |a| then i else i - 1, if j < |a| then j else j - 1;
        assert s[p] == s'[i] && s[q] == s'[j] && s[p].key < s[q].key;
      }
    }
  }

  lemma IndexUnique(s: seq<RbNode>, i: int, j: int)
    requires Ascending(s) && 0 <= i < |s| && 0 <= j < |s| && s[i] == s[j]
    ensures i == j
  {
  }

  lemma EmplacedBefore(c: HeapCtx, s: seq<RbNode>, s': seq<RbNode>, n: RbNode)
    requires c.InLeft? && s == Inorder(Plug(c, Nil)) && Ascending(s)
    requires AllBelow(Before(c), n.key) && AllAbove(After(c), n.key)
    requires exists i :: InsertedAt(s, s', i, n) && i < |s| && s[i] == c.x
    ensures Ascending(s') && |s'| == |s| + 1
  {
    var i :| InsertedAt(s, s', i, n) && i < |s| && s[i] == c.x;
    PlugOrder(c, Nil);
    IndexUnique(s, i, |Before(c)|);
    AscendingInsert(Before(c), After(c), n);
  }

  lemma EmplacedAfter(c: HeapCtx, s: seq<RbNode>, s': seq<RbNode>, n: RbNode)
    requires c.InRight? && s == Inorder(Plug(c, Nil)) && Ascending(s)
    requires AllBelow(Before(c), n.key) && AllAbove(After(c), n.key)
    requires exists i :: InsertedAt(s, s', i + 1, n) && 0 <= i && s[i] == c.x
    ensures Ascending(s') && |s'| == |s| + 1
  {
    var i :| InsertedAt(s, s', i + 1, n) && 0 <= i && s[i] == c.x;
    PlugOrder(c, Nil);
    IndexUnique(s, i, |Before(c)| - 1);
    AscendingInsert(Before(c), After(c), n);
  }

  lemma StillAscending(s: seq<RbNode>, s': seq<RbNode>, i: int, n: RbNode)
    requires InsertedAt(s, s', i, n) && Ascending(s')
    ensures Ascending(s) && |s'| == |s| + 1
  {
    forall p, q | 0 <= p < q < |s|
      ensures s[p].key < s[q].key
    {
      assert s[p] == s'[if p < i then p else p + 1] && s[q] == s'[if q < i then q else q + 1];
    }
  }

  /** From the hole of c to the parent, as the heap has it. */
  lemma StepOut(c: HeapCtx, t: HeapTree)
    requires At(c, t) && t.Node? && !c.Top?
    ensures At(c.up, Around(c, t)) && Plug(c.up, Around(c, t)) == Plug(c, t)
    ensures c.x.right == t.x <==> c.InRight?
    ensures c.x.left == t.x <==> c.InLeft?
    ensures c.x.parent == ParentOf(c.up)
    ensures c.InRight? ==> After(c) == After(c.up)
    ensures c.InRight? ==> Before(c) != [] && Before(c)[|Before(c)| - 1] == c.x
    ensures c.InLeft? ==> Before(c) == Before(c.up) && After(c) != [] && After(c)[0] == c.x
  {
    ZipAround(c, t);
    OpenCtx(c, RootOf(t));
  }

  lemma EmptyBounds(k: int)
    ensures AllBelow(Before(Top), k) && AllAbove(After(Top), k)
  {
  }

  lemma RootIsNode(c: HeapCtx, t: HeapTree)
    requires t.Node?
    ensures t.x in Nodes(Plug(c, t))
  {
    ZipAll(c, t);
  }

  lemma Unzip(c: HeapCtx, t: HeapTree)
    requires At(c, t) && t.Node?
    ensures t.x.left == RootOf(t.l) && At(InLeft(c, t.x, t.r, t.red), t.l)
    ensures t.x.right == RootOf(t.r) && At(InRight(c, t.l, t.x, t.red), t.r)
    ensures t.x.parent == ParentOf(c) && t.x.isLeft == c.InLeft?
  {
    ZipLeft(c, t.x, t.l, t.r, t.red);
    ZipRight(c, t.x, t.l, t.r, t.red);
  }
}
