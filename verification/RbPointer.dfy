/** The tree object of rbtree.hpp: insertion and removal on the pointer tree, proved against
    the value-level functions of RbSpec. */
module RbPointer {
  import opened RbSpec
  import opened RbTheory
  import opened RbLoops
  import opened RbHeap
  import opened RbRebalance

  type HeapCtx = Ctx<RbNode>

  ghost function CtxNodes(c: HeapCtx): (s: set<RbNode>)
    ensures !c.Top? ==> c.x in s
  {
    match c
    case Top => {}
    case InLeft(up, x, r, _) => CtxNodes(up) + {x} + Nodes(r)
    case InRight(up, l, x, _) => CtxNodes(up) + {x} + Nodes(l)
  }

  function ParentOf(c: HeapCtx): (p: RbNode?)
    ensures p == null <==> c.Top?
  {
    if c.Top? then null else c.x
  }

  /** The heap holds the context c, with h as the child pointer at its hole. */
  ghost predicate CtxHolds(c: HeapCtx, h: RbNode?)
    reads CtxNodes(c)
  {
    match c
    case Top => true
    case InLeft(up, x, r, red) =>
      && x.left == h && x.right == RootOf(r) && (r.Node? ==> r.x.parent == x && !r.x.isLeft)
      && x.red == red && x.parent == ParentOf(up) && x.isLeft == up.InLeft?
      && Holds(r) && x !in Nodes(r) && x !in CtxNodes(up) && Nodes(r) !! CtxNodes(up)
      && CtxHolds(up, x)
    case InRight(up, l, x, red) =>
      && x.right == h && x.left == RootOf(l) && (l.Node? ==> l.x.parent == x && l.x.isLeft)
      && x.red == red && x.parent == ParentOf(up) && x.isLeft == up.InLeft?
      && Holds(l) && x !in Nodes(l) && x !in CtxNodes(up) && Nodes(l) !! CtxNodes(up)
      && CtxHolds(up, x)
  }

  /** The heap holds the tree t at the hole of c. */
  ghost predicate At(c: HeapCtx, t: HeapTree)
    reads CtxNodes(c), Nodes(t)
  {
    && Holds(t) && CtxHolds(c, RootOf(t)) && Nodes(t) !! CtxNodes(c)
    && (t.Node? ==> t.x.parent == ParentOf(c) && t.x.isLeft == c.InLeft?)
  }

  /** Stepping out of a left child, or into it. */
  lemma ZipLeft(up: HeapCtx, x: RbNode, t: HeapTree, r: HeapTree, red: bool)
    ensures At(InLeft(up, x, r, red), t) <==> At(up, Node(x, t, r, red))
    ensures CtxNodes(InLeft(up, x, r, red)) + Nodes(t) == CtxNodes(up) + Nodes(Node(x, t, r, red))
  {
  }

  lemma ZipRight(up: HeapCtx, x: RbNode, l: HeapTree, t: HeapTree, red: bool)
    ensures At(InRight(up, l, x, red), t) <==> At(up, Node(x, l, t, red))
    ensures CtxNodes(InRight(up, l, x, red)) + Nodes(t) == CtxNodes(up) + Nodes(Node(x, l, t, red))
  {
  }

  /** The topmost pointer of c when its hole holds h. */
  function TopRoot(c: HeapCtx, h: RbNode?): RbNode? {
    match c
    case Top => h
    case InLeft(up, x, _, _) => TopRoot(up, x)
    case InRight(up, _, x, _) => TopRoot(up, x)
  }

  twostate lemma StaysHolding(t: HeapTree)
    requires old(Holds(t))
    requires forall n :: n in Nodes(t) && old(allocated(n)) ==>
               n.left == old(n.left) && n.right == old(n.right) && n.red == old(n.red)
    requires forall n :: n in Nodes(t) && old(allocated(n)) && n != RootOf(t) ==>
               n.parent == old(n.parent) && n.isLeft == old(n.isLeft)
    ensures Holds(t)
  {
    StaysLinked(t);
    StaysColoured(t);
  }

  /** The parts of a context below which a new subtree is to hang. */
  lemma OpenCtx(c: HeapCtx, h: RbNode?)
    requires !c.Top? && CtxHolds(c, h)
    ensures CtxHolds(c.up, c.x) && c.x !in CtxNodes(c.up)
    ensures c.x.parent == ParentOf(c.up) && c.x.isLeft == c.up.InLeft?
    ensures c.x.red == c.red
    ensures var s := if c.InLeft? then c.r else c.l;
            && Holds(s) && c.x !in Nodes(s) && Nodes(s) !! CtxNodes(c.up)
            && CtxNodes(c) == CtxNodes(c.up) + {c.x} + Nodes(s)
            && (if c.InLeft? then c.x.left else c.x.right) == h
            && (if c.InLeft? then c.x.right else c.x.left) == RootOf(s)
            && (s.Node? ==> s.x.parent == c.x && s.x.isLeft == !c.InLeft?)
  {
  }

  lemma TopHolds(h: RbNode?)
    ensures CtxHolds(Top, h) && CtxNodes(Top) == {}
  {
  }

  lemma CloseCtx(c: HeapCtx, h: RbNode?)
    requires !c.Top? && CtxHolds(c.up, c.x) && c.x !in CtxNodes(c.up)
    requires c.x.parent == ParentOf(c.up) && c.x.isLeft == c.up.InLeft?
    requires c.x.red == c.red
    requires var s := if c.InLeft? then c.r else c.l;
            && Holds(s) && c.x !in Nodes(s) && Nodes(s) !! CtxNodes(c.up)
            && (if c.InLeft? then c.x.left else c.x.right) == h
            && (if c.InLeft? then c.x.right else c.x.left) == RootOf(s)
            && (s.Node? ==> s.x.parent == c.x && s.x.isLeft == !c.InLeft?)
    ensures CtxHolds(c, h)
  {
  }

  /** Stepping all the way out. */
  lemma {:induction false} ZipAll(c: HeapCtx, t: HeapTree)
    ensures At(Top, Plug(c, t)) <==> At(c, t)
    ensures Nodes(Plug(c, t)) == Nodes(t) + CtxNodes(c)
    ensures RootOf(Plug(c, t)) == TopRoot(c, RootOf(t))
  {
    match c
    case Top =>
    case InLeft(up, x, r, red) =>
      ZipLeft(up, x, t, r, red);
      ZipAll(up, Node(x, t, r, red));
    case InRight(up, l, x, red) =>
      ZipRight(up, x, l, t, red);
      ZipAll(up, Node(x, l, t, red));
  }

  lemma ZipAround(c: HeapCtx, t: HeapTree)
    requires !c.Top?
    ensures At(c, t) <==> At(c.up, Around(c, t))
    ensures CtxNodes(c) + Nodes(t) == CtxNodes(c.up) + Nodes(Around(c, t))
    ensures At(c, t) ==> Holds(Around(c, t)) && CtxHolds(c.up, c.x) && Nodes(Around(c, t)) !! CtxNodes(c.up)
  {
    match c
    case InLeft(up, x, r, red) => ZipLeft(up, x, t, r, red);
    case InRight(up, l, x, red) => ZipRight(up, x, l, t, red);
  }

  function DeleteStepResult(c: HeapCtx, t: HeapTree): (HeapTree, bool)
    requires !c.Top?
  {
    if c.InLeft? then DeleteRebalanceLeft(c.x, t, c.r, c.red, false)
    else DeleteRebalanceRight(c.x, c.l, t, c.red, false)
  }

  /** Between two iterations of the removal loop: t' has replaced t in c and is one black node short. */
  predicate DeficitState(c: HeapCtx, t: HeapTree, t': HeapTree) {
    Ok(Plug(c, t)) && Ok(t') && DeleteRel(t, t', false) && !Red(t')
  }

  lemma DeficitLoopStep(c: HeapCtx, t: HeapTree, t': HeapTree)
    requires DeficitState(c, t, t') && !c.Top?
    ensures !Red(t') && if c.InLeft? then DeletableLeft(t', c.r, c.red, false) else DeletableRight(c.l, t', c.red, false)
    ensures var (t2, b2) := DeleteStepResult(c, t');
            && t2.Node?
            && if b2 then DeficitLoop(c, t') == (Plug(c.up, t2), true)
               else DeficitState(c.up, Around(c, t), t2) && DeficitLoop(c, t') == DeficitLoop(c.up, t2)
  {
    OkInside(c.up, Around(c, t));
    match c
    case InLeft(up, x, r, red) =>
      DeleteLeftStep(x, t, t', r, red, false);
      Unfold2(Node(x, t, r, red));
      Unfold2(r);
    case InRight(up, l, x, red) =>
      DeleteRightStep(x, l, t, t', red, false);
      Unfold2(Node(x, l, t, red));
      Unfold2(l);
  }

  /** t with its leftmost node replaced by the tree h. */
  function WithLeftmost(t: HeapTree, h: HeapTree): HeapTree
    requires t.Node?
  {
    if t.l.Nil? then h else Node(t.x, WithLeftmost(t.l, h), t.r, t.red)
  }

  lemma {:induction false} SpineUnwind(t: HeapTree, c: HeapCtx, h: HeapTree)
    requires t.Node?
    ensures At(LeftSpine(t, c), h) <==> At(c, WithLeftmost(t, h))
    ensures CtxNodes(LeftSpine(t, c)) + Nodes(h) == CtxNodes(c) + Nodes(WithLeftmost(t, h))
    ensures WithLeftmost(t, Leftmost(t)) == t
    ensures TopRoot(LeftSpine(t, c), RootOf(h)) == TopRoot(c, RootOf(WithLeftmost(t, h)))
    decreases t
  {
    if t.l.Node? {
      var d := InLeft(c, t.x, t.r, t.red);
      SpineUnwind(t.l, d, h);
      ZipLeft(c, t.x, WithLeftmost(t.l, h), t.r, t.red);
    }
  }

  /** The innermost node of a left spine does not depend on the context it starts from. */
  lemma {:induction false} SpineEnd(t: HeapTree, c: HeapCtx, d: HeapCtx)
    requires t.Node? && t.l.Node?
    ensures LeftSpine(t, c).InLeft? && LeftSpine(t, d).InLeft? && LeftSpine(t, c).x == LeftSpine(t, d).x
    decreases t
  {
    if t.l.l.Node? { SpineEnd(t.l, InLeft(c, t.x, t.r, t.red), InLeft(d, t.x, t.r, t.red)); }
  }

  lemma UnzipLeft(c: HeapCtx, t: HeapTree)
    requires At(c, t) && t.Node?
    ensures t.x.left == RootOf(t.l)
    ensures At(InLeft(c, t.x, t.r, t.red), t.l)
    ensures t.l.Node? ==> t.l.x.left == RootOf(t.l.l)
  {
    ZipLeft(c, t.x, t.l, t.r, t.red);
  }

  /** The position of the node n, which occurs in t, in the tree Plug(c, t). */
  ghost function Focus(c: HeapCtx, t: HeapTree, n: RbNode): (r: (HeapCtx, HeapTree))
    requires n in Nodes(t)
    ensures r.1.Node? && r.1.x == n && Plug(r.0, r.1) == Plug(c, t)
    decreases t
  {
    if n == t.x then (c, t)
    else if n in Nodes(t.l) then Focus(InLeft(c, t.x, t.r, t.red), t.l, n)
    else Focus(InRight(c, t.l, t.x, t.red), t.r, n)
  }

  /** The loop that follows the removal of n from t would run past the root. */
  ghost predicate EscapesAt(t: HeapTree, n: RbNode) {
    n in Nodes(t) && var (c, sub) := Focus(Top, t, n); DeficitEscapes(c, sub)
  }

  /** The root of t gives way to y in front of the right subtree r. */
  lemma SupplantOk(c: HeapCtx, t: HeapTree, y: HeapTree)
    requires t.Node? && t.l.Node? && t.r.Node? && Ok(Plug(c, t)) && y == Leftmost(t.r)
    ensures var hole := LeftSpine(t.r, InRight(c, t.l, y.x, t.red));
            && !hole.Top? && Ok(Plug(hole, y))
            && Removed(c, t) == Vacate(hole, y.r, y.red)
  {
    var c1 := InRight(c, t.l, y.x, t.red);
    LeftmostUp(c1, t.r);
    OkInside(c, t);
    OkReplace(c, t, Node(y.x, t.l, t.r, t.red));
  }

  lemma SwapNode(all: set<RbNode>, rest: set<RbNode>, x: RbNode, y: RbNode)
    requires all == rest + {x} + {y} && x !in rest && x != y
    ensures all - {x} == rest + {y}
  {
  }

  lemma DropAt(a: seq<RbNode>, x: RbNode, b: seq<RbNode>, s: seq<RbNode>)
    requires s == a + b
    ensures InsertedAt(s, a + ([x] + b), |a|, x)
  {
    assert a + ([x] + b) == s[..|a|] + [x] + s[|a|..];
  }

  function Leaf(n: RbNode, red: bool): HeapTree { Node(n, Nil, Nil, red) }

  lemma SingleNode(n: RbNode)
    requires n.left == null && n.right == null && n.red
    ensures var leaf := Leaf(n, true);
            Holds(leaf) && Nodes(leaf) == {n} && Bh(leaf) == 0 && Ok(leaf)
  {
  }

  /** s' is s with n put in at position i. */
  ghost predicate InsertedAt(s: seq<RbNode>, s': seq<RbNode>, i: int, n: RbNode) {
    0 <= i <= |s| && s' == s[..i] + [n] + s[i..]
  }

  /** After y has taken the place of the root of t, whose leftmost node on the right it was. */
  lemma FarPlace(c: HeapCtx, t: HeapTree, y: RbNode, c1: HeapCtx)
    requires t.Node? && t.l.Node? && t.r.Node? && t.r.l.Node? && y == Leftmost(t.r).x && Ok(Plug(c, t))
    requires At(c, Node(y, t.l, WithLeftmost(t.r, Leftmost(t.r).r), t.red)) && c1 == InRight(c, t.l, t.x, t.red)
    ensures var yt, hole := Leftmost(t.r), LeftSpine(t.r, InRight(c, t.l, y, t.red));
      && At(hole, yt.r) && hole.InLeft? && LeftSpine(t.r, c1).InLeft? && hole.x == LeftSpine(t.r, c1).x
      && Ok(Plug(hole, yt)) && Removed(c, t) == Vacate(hole, yt.r, yt.red)
      && CtxNodes(hole) + Nodes(yt.r) == CtxNodes(c) + Nodes(Node(y, t.l, WithLeftmost(t.r, yt.r), t.red))
      && TopRoot(hole, RootOf(yt.r)) == TopRoot(c, y)
  {
    hide At, Nodes, CtxNodes, Holds, Removed, Vacate;
    var yt, c2 := Leftmost(t.r), InRight(c, t.l, y, t.red);
    ZipRight(c, y, t.l, WithLeftmost(t.r, yt.r), t.red);
    SpineUnwind(t.r, c2, yt.r);
    SpineEnd(t.r, c1, c2);
    SupplantOk(c, t, yt);
  }

  class RbTree {
    var root: RbNode?
    ghost var tree: HeapTree

    ghost predicate Valid()
      reads this, Nodes(tree)
    {
      At(Top, tree) && root == RootOf(tree) && Ok(tree)
    }

    constructor ()
      ensures Valid() && tree == Nil
    {
      root := null;
      tree := Nil;
    }

    /** Hang top where h was: below parent, or as the root. */
    method Replace(parent: RbNode?, wasLeft: bool, top: RbNode?, ghost c: HeapCtx, ghost h: RbNode?, ghost t: HeapTree)
      requires parent == ParentOf(c) && (parent != null ==> wasLeft == c.InLeft?)
      requires CtxHolds(c, h) && Holds(t) && RootOf(t) == top && Nodes(t) !! CtxNodes(c)
      requires root == TopRoot(c, h)
      modifies this`root, Opt(parent)`left, Opt(parent)`right, Opt(top)`parent, Opt(top)`isLeft
      ensures At(c, t) && root == TopRoot(c, top)
    {
      hide CtxHolds, Holds, Nodes, CtxNodes;
      if parent != null {
        OpenCtx(c, h);
        assert allocated(CtxNodes(c.up));
        if wasLeft { SetLeft(parent, top); } else { SetRight(parent, top); }
        StaysHolding(if c.InLeft? then c.r else c.l);
        CloseCtx(c, top);
      } else {
        root := top;
        if top != null {
          top.parent := null;
          top.isLeft := false;
        }
        TopHolds(top);
      }
      StaysHolding(t);
    }

    /** One iteration of `insert_rebalance`. */
    method InsertStep(curr: RbNode, isLeft: bool, bhEqual: bool, ghost c: HeapCtx, ghost t: HeapTree)
      returns (parent: RbNode?, wasLeft: bool, equal: bool, stop: bool)
      requires !c.Top? && c.x == curr && isLeft == c.InLeft?
      requires At(c, t) && PrunedInsert(t, c.red, bhEqual) && InsertStepResult(c, t, bhEqual).0.Node?
      requires root == TopRoot(c, RootOf(t))
      modifies this`root, Nodes(t), CtxNodes(c)
      ensures var (t', b) := InsertStepResult(c, t, bhEqual);
              && At(c.up, t') && root == TopRoot(c.up, RootOf(t'))
              && Nodes(t') + CtxNodes(c.up) == Nodes(t) + CtxNodes(c)
              && equal == b && stop == (b && (c.red || !Red(t')))
      ensures parent == ParentOf(c.up) && (parent != null ==> wasLeft == c.up.InLeft?)
    {
      hide Holds, CtxHolds, Nodes, CtxNodes;
      ZipAround(c, t);
      OpenCtx(c, RootOf(t));
      assert allocated(CtxNodes(c.up));
      parent := curr.parent;
      wasLeft := curr.isLeft;
      var top;
      if isLeft {
        top, equal, stop := DoInsertRebalanceLeft(curr, bhEqual, Around(c, t));
      } else {
        top, equal, stop := DoInsertRebalanceRight(curr, bhEqual, Around(c, t));
      }
      Replace(parent, wasLeft, top, c.up, curr, InsertStepResult(c, t, bhEqual).0);
    }

    method InsertRebalance(x: RbNode, left: bool, ghost c0: HeapCtx, ghost old0: HeapTree, ghost new0: HeapTree)
      requires !c0.Top? && c0.x == x && left == c0.InLeft?
      requires At(c0, new0) && InsertState(c0, old0, new0, true)
      requires root == TopRoot(c0, RootOf(new0))
      modifies this`root, Nodes(new0), CtxNodes(c0)
      ensures At(Top, InsertLoop(c0, new0, true)) && root == RootOf(InsertLoop(c0, new0, true))
      ensures Nodes(InsertLoop(c0, new0, true)) == Nodes(new0) + CtxNodes(c0)
    {
      hide At, InsertState, Nodes, CtxNodes;
      var curr, bhEqual, isLeft := x, true, left;
      ghost var c, t, t' := c0, old0, new0;
      while true
        invariant !c.Top? && c.x == curr && isLeft == c.InLeft?
        invariant At(c, t') && InsertState(c, t, t', bhEqual)
        invariant root == TopRoot(c, RootOf(t'))
        invariant Nodes(t') + CtxNodes(c) == Nodes(new0) + CtxNodes(c0)
        invariant InsertLoop(c, t', bhEqual) == InsertLoop(c0, new0, true)
        decreases c
      {
        InsertLoopStep(c, t, t', bhEqual);
        var parent, wasLeft, equal, stop := InsertStep(curr, isLeft, bhEqual, c, t');
        ghost var t2 := InsertStepResult(c, t', bhEqual).0;
        ZipAll(c.up, t2);
        if parent == null || stop {
          return;
        }
        c, t, t' := c.up, Around(c, t), t2;
        curr := parent;
        isLeft := wasLeft;
        bhEqual := equal;
      }
    }

    /** One iteration of the loop of `remove_node`. */
    method DeleteStep(curr: RbNode, isLeft: bool, ghost c: HeapCtx, ghost t: HeapTree)
      returns (grandparent: RbNode?, wasLeft: bool, equal: bool)
      requires !c.Top? && c.x == curr && isLeft == c.InLeft?
      requires At(c, t) && !Red(t)
      requires if c.InLeft? then DeletableLeft(t, c.r, c.red, false) else DeletableRight(c.l, t, c.red, false)
      requires root == TopRoot(c, RootOf(t)) && DeleteStepResult(c, t).0.Node?
      modifies this`root, Nodes(t), CtxNodes(c)
      ensures var (t', b) := DeleteStepResult(c, t);
              && At(c.up, t') && root == TopRoot(c.up, RootOf(t'))
              && Nodes(t') + CtxNodes(c.up) == Nodes(t) + CtxNodes(c) && equal == b
      ensures !equal ==> LinksKept(Nodes(t) + CtxNodes(c))
      ensures grandparent == ParentOf(c.up) && (grandparent != null ==> wasLeft == c.up.InLeft?)
    {
      hide Holds, CtxHolds, Nodes, CtxNodes;
      ZipAround(c, t);
      OpenCtx(c, RootOf(t));
      assert allocated(CtxNodes(c.up));
      grandparent := curr.parent;
      wasLeft := curr.isLeft;
      var top;
      if isLeft {
        top, equal := DoDeleteRebalanceLeft(curr, Around(c, t));
      } else {
        top, equal := DoDeleteRebalanceRight(curr, Around(c, t));
      }
      if equal {
        Replace(grandparent, wasLeft, top, c.up, curr, DeleteStepResult(c, t).0);
      }
    }

    /** The loop of `remove_node`.  The source has no exit for the case that the result is "not equal" at the root;
        its next iteration then reads through the null parent of the root, which derefsNull reports.
        restructured counts the iterations that change a link of any node. */
    method DeficitFix(p: RbNode, left: bool, ghost c0: HeapCtx, ghost old0: HeapTree, ghost new0: HeapTree)
      returns (derefsNull: bool, ghost restructured: nat)
      requires !c0.Top? && c0.x == p && left == c0.InLeft?
      requires At(c0, new0) && DeficitState(c0, old0, new0)
      requires root == TopRoot(c0, RootOf(new0))
      modifies this`root, Nodes(new0), CtxNodes(c0)
      ensures var (u, b) := DeficitLoop(c0, new0);
              && At(Top, u) && root == RootOf(u) && Nodes(u) == Nodes(new0) + CtxNodes(c0) && derefsNull == !b
      ensures restructured <= 1 && (restructured == 0 ==> LinksKept(Nodes(new0) + CtxNodes(c0)))
      ensures derefsNull ==> restructured == 0
    {
      hide At, DeficitState, Nodes, CtxNodes;
      restructured := 0;
      ghost var all := Nodes(new0) + CtxNodes(c0);
      var pParent, pIsLeft := p, left;
      ghost var c, t, t' := c0, old0, new0;
      while true
        invariant !c.Top? && c.x == pParent && pIsLeft == c.InLeft?
        invariant At(c, t') && DeficitState(c, t, t')
        invariant root == TopRoot(c, RootOf(t'))
        invariant Nodes(t') + CtxNodes(c) == Nodes(new0) + CtxNodes(c0)
        invariant DeficitLoop(c, t') == DeficitLoop(c0, new0)
        invariant restructured == 0 && LinksKept(all)
        decreases c
      {
        label Round:
        DeficitLoopStep(c, t, t');
        var grandparent, wasLeft, equal := DeleteStep(pParent, pIsLeft, c, t');
        ghost var t2 := DeleteStepResult(c, t').0;
        ZipAll(c.up, t2);
        if !LinksKept@Round(all) { restructured := restructured + 1; }
        if equal { return false, restructured; }
        if grandparent == null { return true, restructured; }
        c, t, t' := c.up, Around(c, t), t2;
        pParent := grandparent;
        pIsLeft := wasLeft;
      }
    }

    /** The end of a removal: the node t has been unlinked from c, and its only subtree p put in its place. */
    method Settle(p: RbNode?, wasRed: bool, parent: RbNode, isLeft: bool, ghost c: HeapCtx, ghost t: HeapTree, ghost t': HeapTree)
      returns (derefsNull: bool)
      requires !c.Top? && c.x == parent && isLeft == c.InLeft?
      requires At(c, t') && p == RootOf(t') && root == TopRoot(c, p)
      requires Ok(Plug(c, t)) && t.Node? && t.red == wasRed && ((t.l == Nil && t.r == t') || (t.r == Nil && t.l == t'))
      modifies this`root, Nodes(t'), CtxNodes(c)
      ensures var (u, b) := Vacate(c, t', wasRed);
              && At(Top, u) && root == RootOf(u) && Nodes(u) == Nodes(t') + CtxNodes(c) && derefsNull == !b
    {
      hide Nodes, CtxNodes, CtxHolds, Linked, Coloured, Distinct;
      OkInside(c, t);
      if wasRed {
        ZipAll(c, t');
        return false;
      }
      if t'.Node? { Open(t'); }
      if IsRed(p) {
        assert allocated(CtxNodes(c));
        assert allocated(Nodes(t'.l)) && allocated(Nodes(t'.r));
        p.red := false;
        Close(Blacken(t'));
        ZipAll(c, Blacken(t'));
        return false;
      }
      ghost var restructured;
      derefsNull, restructured := DeficitFix(parent, isLeft, c, t, t');
    }

    /** y takes the place of x: its left subtree becomes l, and r' hangs to its right already. */
    method Supplant(y: RbNode, parent: RbNode?, wasLeft: bool, wasRed: bool, left: RbNode,
                    ghost x: RbNode, ghost c: HeapCtx, ghost l: HeapTree, ghost r': HeapTree)
      requires CtxHolds(c, x) && Holds(l) && Holds(r') && l.Node? && left == l.x
      requires y !in Nodes(l) && y !in Nodes(r') && y !in CtxNodes(c)
      requires Nodes(l) !! Nodes(r') && Nodes(l) !! CtxNodes(c) && Nodes(r') !! CtxNodes(c)
      requires y.right == RootOf(r') && (r'.Node? ==> r'.x.parent == y && !r'.x.isLeft)
      requires parent == ParentOf(c) && (parent != null ==> wasLeft == c.InLeft?)
      requires root == TopRoot(c, x)
      modifies this`root, y, left`parent, left`isLeft, Opt(parent)`left, Opt(parent)`right
      ensures At(c, Node(y, l, r', wasRed)) && root == TopRoot(c, y)
      ensures Nodes(Node(y, l, r', wasRed)) == {y} + Nodes(l) + Nodes(r')
    {
      hide Nodes, CtxNodes, CtxHolds, Linked, Coloured, Distinct;
      assert allocated(CtxNodes(c)) && allocated(Nodes(r'));
      SetLeft(y, left);
      y.red := wasRed;
      StaysHolding(l);
      Close(Node(y, l, r', wasRed));
      Replace(parent, wasLeft, y, c, x, Node(y, l, r', wasRed));
    }

    /** x has at most one child. */
    method RemoveShallow(x: RbNode, ghost c: HeapCtx, ghost t: HeapTree) returns (derefsNull: bool)
      requires At(c, t) && t.Node? && t.x == x && Ok(Plug(c, t)) && root == TopRoot(c, x)
      requires t.l.Nil? || t.r.Nil?
      modifies this`root, Nodes(t), CtxNodes(c)
      ensures var (u, b) := Removed(c, t);
              && At(Top, u) && root == RootOf(u) && Nodes(u) == Nodes(t) + CtxNodes(c) - {x} && derefsNull == !b
    {
      hide Nodes, CtxNodes, CtxHolds, Linked, Coloured, Distinct;
      Open(t);
      NoNodes();
      var parent, wasLeft, wasRed := x.parent, x.isLeft, x.red;
      var p := if x.left != null then x.left else x.right;
      ghost var t' := if t.l.Node? then t.l else t.r;
      Replace(parent, wasLeft, p, c, x, t');
      if parent == null {
        TopHolds(p);
        return false;
      }
      derefsNull := Settle(p, wasRed, parent, wasLeft, c, t, t');
    }

    /** x has two children, and its right child has no left child. */
    method RemoveNear(x: RbNode, ghost c: HeapCtx, ghost t: HeapTree) returns (derefsNull: bool)
      requires At(c, t) && t.Node? && t.x == x && Ok(Plug(c, t)) && root == TopRoot(c, x)
      requires t.l.Node? && t.r.Node? && t.r.l.Nil?
      modifies this`root, Nodes(t), CtxNodes(c)
      ensures var (u, b) := Removed(c, t);
              && At(Top, u) && root == RootOf(u) && Nodes(u) == Nodes(t) + CtxNodes(c) - {x} && derefsNull == !b
    {
      hide Nodes, CtxNodes, CtxHolds, Linked, Coloured, Distinct;
      Open(t);
      Open(t.r);
      SupplantOk(c, t, t.r);
      var parent, left, wasLeft, wasRed := x.parent, x.left, x.isLeft, x.red;
      var r := x.right;
      var rRight, b := r.right, r.red;
      Supplant(r, parent, wasLeft, wasRed, left, x, c, t.l, t.r.r);
      ZipRight(c, r, t.l, t.r.r, t.red);
      derefsNull := Settle(rRight, b, r, false, InRight(c, t.l, r, t.red), t.r, t.r.r);
    }

    /** Down the left edge below the node r. */
    method FindLeftmost(r: RbNode, ghost base: HeapCtx, ghost t: HeapTree) returns (currParent: RbNode, y: RbNode)
      requires At(base, t) && t.Node? && t.x == r && t.l.Node?
      ensures At(LeftSpine(t, base), Leftmost(t))
      ensures LeftSpine(t, base).InLeft? && currParent == LeftSpine(t, base).x && y == Leftmost(t).x
    {
      hide At, Holds;
      UnzipLeft(base, t);
      currParent, y := r, r.left;
      ghost var d, sub := InLeft(base, t.x, t.r, t.red), t.l;
      while y.left != null
        invariant At(d, sub) && sub.Node? && sub.x == y && d.InLeft? && d.x == currParent
        invariant y.left == RootOf(sub.l)
        invariant LeftSpine(sub, d) == LeftSpine(t, base) && Leftmost(sub) == Leftmost(t)
        decreases sub
      {
        UnzipLeft(d, sub);
        currParent := y;
        y := y.left;
        d, sub := InLeft(d, sub.x, sub.r, sub.red), sub.l;
      }
    }

    /** Take the leftmost node y of the right subtree of t out of the tree. */
    method UnlinkLeftmost(y: RbNode, currParent: RbNode, ghost c: HeapCtx, ghost t: HeapTree) returns (yRight: RbNode?, yRed: bool)
      requires t.Node? && t.r.Node? && t.r.l.Node? && y == Leftmost(t.r).x
      requires At(LeftSpine(t.r, InRight(c, t.l, t.x, t.red)), Leftmost(t.r))
      requires LeftSpine(t.r, InRight(c, t.l, t.x, t.red)).InLeft? && currParent == LeftSpine(t.r, InRight(c, t.l, t.x, t.red)).x
      requires root == TopRoot(c, t.x)
      modifies this`root, Nodes(t), CtxNodes(c)
      ensures var yt := Leftmost(t.r); var t1 := Node(t.x, t.l, WithLeftmost(t.r, yt.r), t.red);
              && At(c, t1) && yRight == RootOf(yt.r) && yRed == yt.red
              && y !in Nodes(t1) + CtxNodes(c) && Nodes(t) + CtxNodes(c) == Nodes(t1) + CtxNodes(c) + {y}
      ensures root == TopRoot(c, t.x)
    {
      hide Nodes, CtxNodes, CtxHolds, Linked, Coloured, Distinct;
      ghost var yt := Leftmost(t.r);
      ghost var c1 := InRight(c, t.l, t.x, t.red);
      SpineUnwind(t.r, c1, yt);
      ZipRight(c, t.x, t.l, t.r, t.red);
      Open(yt);
      yRight, yRed := y.right, y.red;
      Replace(currParent, true, yRight, LeftSpine(t.r, c1), y, yt.r);
      SpineUnwind(t.r, c1, yt.r);
      ZipRight(c, t.x, t.l, WithLeftmost(t.r, yt.r), t.red);
    }

    /** y takes the place of x between its parent and its two subtrees. */
    method TakePlace(y: RbNode, r: RbNode, parent: RbNode?, left: RbNode, wasLeft: bool, wasRed: bool,
                     ghost x: RbNode, ghost c: HeapCtx, ghost l: HeapTree, ghost r': HeapTree)
      requires At(c, Node(x, l, r', wasRed)) && l.Node? && r'.Node? && root == TopRoot(c, x)
      requires y !in Nodes(Node(x, l, r', wasRed)) + CtxNodes(c)
      requires left == l.x && r == r'.x && parent == ParentOf(c) && (parent != null ==> wasLeft == c.InLeft?)
      modifies this`root, y, left`parent, left`isLeft, r`parent, r`isLeft, Opt(parent)`left, Opt(parent)`right
      ensures At(c, Node(y, l, r', wasRed)) && root == TopRoot(c, y)
      ensures Nodes(Node(y, l, r', wasRed)) == {y} + Nodes(l) + Nodes(r')
    {
      hide Nodes, CtxNodes, CtxHolds, Linked, Coloured, Distinct;
      Open(Node(x, l, r', wasRed));
      assert allocated(CtxNodes(c)) && allocated(Nodes(l)) && allocated(Nodes(r'));
      SetRight(y, r);
      StaysHolding(r');
      Supplant(y, parent, wasLeft, wasRed, left, x, c, l, r');
    }

    /** x has two children, and the right one has a left child. */
    method RemoveFar(x: RbNode, ghost c: HeapCtx, ghost t: HeapTree) returns (derefsNull: bool)
      requires At(c, t) && t.Node? && t.x == x && Ok(Plug(c, t)) && root == TopRoot(c, x)
      requires t.l.Node? && t.r.Node? && t.r.l.Node?
      modifies this`root, Nodes(t), CtxNodes(c)
      ensures var (u, b) := Removed(c, t);
              && At(Top, u) && root == RootOf(u) && Nodes(u) == Nodes(t) + CtxNodes(c) - {x} && derefsNull == !b
    {
      hide Nodes, CtxNodes, CtxHolds, Linked, Coloured, Distinct;
      var parent, left, wasLeft, wasRed := x.parent, x.left, x.isLeft, x.red;
      var r := x.right;
      Open(t);
      ghost var yt := Leftmost(t.r);
      ghost var c1 := InRight(c, t.l, x, t.red);
      ZipRight(c, x, t.l, t.r, t.red);
      var currParent, y := FindLeftmost(r, c1, t.r);
      var yRight, b := UnlinkLeftmost(y, currParent, c, t);
      ghost var r' := WithLeftmost(t.r, yt.r);
      Open(Node(x, t.l, r', t.red));
      SwapNode(Nodes(t) + CtxNodes(c), CtxNodes(c) + Nodes(t.l) + Nodes(r'), x, y);
      TakePlace(y, r, parent, left, wasLeft, wasRed, x, c, t.l, r');
      ghost var c2 := InRight(c, t.l, y, t.red);
      FarPlace(c, t, y, c1);
      derefsNull := Settle(yRight, b, currParent, true, LeftSpine(t.r, c2), yt, yt.r);
    }

    method RemoveNode(x: RbNode, ghost c: HeapCtx, ghost t: HeapTree) returns (derefsNull: bool)
      requires At(c, t) && t.Node? && t.x == x && Ok(Plug(c, t)) && root == TopRoot(c, x)
      modifies this`root, Nodes(t), CtxNodes(c)
      ensures var (u, b) := Removed(c, t);
              && At(Top, u) && root == RootOf(u) && Nodes(u) == Nodes(t) + CtxNodes(c) - {x} && derefsNull == !b
    {
      hide Nodes, CtxNodes, CtxHolds, Linked, Coloured, Distinct;
      Open(t);
      if t.r.Node? { Open(t.r); }
      if x.left == null || x.right == null {
        derefsNull := RemoveShallow(x, c, t);
      } else if x.right.left == null {
        derefsNull := RemoveNear(x, c, t);
      } else {
        derefsNull := RemoveFar(x, c, t);
      }
    }

    /** A red leaf n is linked below x, on the side where x has no child. */
    method HangLeaf(x: RbNode, n: RbNode, isLeft: bool, ghost c: HeapCtx)
      requires !c.Top? && c.x == x && isLeft == c.InLeft? && n !in CtxNodes(c) && CtxHolds(c, null)
      requires n.left == null && n.right == null && n.red && n.isLeft == isLeft
      modifies x`left, x`right, n`parent
      ensures At(c, Node(n, Nil, Nil, true)) && Nodes(Node(n, Nil, Nil, true)) == {n}
    {
      hide Nodes, CtxNodes, CtxHolds, Linked, Coloured, Distinct;
      OpenCtx(c, null);
      assert allocated(CtxNodes(c.up)) && allocated(Nodes(if c.InLeft? then c.r else c.l));
      if isLeft { x.left := n; } else { x.right := n; }
      n.parent := x;
      CloseCtx(c, n);
      SingleNode(n);
    }

    /** ... and the tree rebalanced if x is red. */
    method Attach(x: RbNode, n: RbNode, isLeft: bool, ghost c: HeapCtx)
      requires !c.Top? && c.x == x && isLeft == c.InLeft? && n !in CtxNodes(c)
      requires CtxHolds(c, null) && Ok(Plug(c, Nil)) && root == TopRoot(c, null)
      requires n.left == null && n.right == null && n.red && n.isLeft == isLeft
      modifies this, n, CtxNodes(c)
      ensures Valid() && tree == Attached(c, n) && Nodes(tree) == CtxNodes(c) + {n}
    {
      hide Nodes, CtxNodes, CtxHolds, Holds, Before, After;
      ghost var leaf := Node(n, Nil, Nil, true);
      OpenCtx(c, null);
      SingleNode(n);
      HangLeaf(x, n, isLeft, c);
      AttachedCorrect(c, n);
      if x.red {
        InsertRebalance(x, isLeft, c, Nil, leaf);
      } else {
        ZipAll(c, leaf);
      }
      tree := Attached(c, n);
    }

    method EmplaceRoot(key: int) returns (n: RbNode?)
      requires Valid()
      modifies this
      ensures Valid() && (n == null <==> old(tree).Node?)
      ensures n == null ==> tree == old(tree)
      ensures n != null ==> fresh(n) && n.key == key && tree == Leaf(n, false)
    {
      if root != null { return null; }
      n := new RbNode(key, false, false);
      root := n;
      tree := Node(n, Nil, Nil, false);
    }

    /** A new element directly before x, or null where the source terminates. */
    method EmplaceLeft(x: RbNode, key: int) returns (n: RbNode?)
      requires Valid() && x in Nodes(tree)
      modifies this, Nodes(tree)
      ensures Valid() && (n == null <==> old(x.left) != null)
      ensures n == null ==> tree == old(tree)
      ensures n != null ==> fresh(n) && n.key == key && Nodes(tree) == old(Nodes(tree)) + Opt(n)
      ensures n != null ==> exists i :: InsertedAt(old(Inorder(tree)), Inorder(tree), i, n) && i < |old(Inorder(tree))| && old(Inorder(tree))[i] == x
    {
      hide Nodes, CtxNodes, Linked, Coloured, Distinct;
      if x.left != null { return null; }
      ghost var (c, t) := Focus(Top, tree, x);
      ZipAll(c, t);
      Open(t);
      ghost var c' := InLeft(c, x, t.r, t.red);
      ZipLeft(c, x, Nil, t.r, t.red);
      NoNodes();
      assert t == Node(x, Nil, t.r, t.red);
      assert allocated(CtxNodes(c'));
      n := new RbNode(key, true, true);
      ghost var s := Inorder(tree);
      PlugOrder(c', Nil);
      Attach(x, n, true, c');
      AttachedCorrect(c', n);
      assert InsertedAt(s, Inorder(tree), |Before(c)|, n);
    }

    /** A new element directly after x, or null where the source terminates. */
    method EmplaceRight(x: RbNode, key: int) returns (n: RbNode?)
      requires Valid() && x in Nodes(tree)
      modifies this, Nodes(tree)
      ensures Valid() && (n == null <==> old(x.right) != null)
      ensures n == null ==> tree == old(tree)
      ensures n != null ==> fresh(n) && n.key == key && Nodes(tree) == old(Nodes(tree)) + Opt(n)
      ensures n != null ==> exists i :: InsertedAt(old(Inorder(tree)), Inorder(tree), i + 1, n) && 0 <= i && old(Inorder(tree))[i] == x
    {
      hide Nodes, CtxNodes, Linked, Coloured, Distinct;
      if x.right != null { return null; }
      ghost var (c, t) := Focus(Top, tree, x);
      ZipAll(c, t);
      Open(t);
      ghost var c' := InRight(c, t.l, x, t.red);
      ZipRight(c, x, t.l, Nil, t.red);
      NoNodes();
      assert t == Node(x, t.l, Nil, t.red);
      assert allocated(CtxNodes(c'));
      n := new RbNode(key, false, true);
      ghost var s := Inorder(tree);
      PlugOrder(c', Nil);
      Attach(x, n, false, c');
      AttachedCorrect(c', n);
      assert InsertedAt(s, Inorder(tree), |Before(c)| + |Inorder(t.l)| + 1, n);
      assert s[|Before(c)| + |Inorder(t.l)|] == x;
    }

    /** The element x is taken out and nothing else changes.  The code as written goes on to read through a null
        pointer exactly when EscapesAt holds of the tree before the call. */
    method Remove(x: RbNode) returns (derefsNull: bool)
      requires Valid() && x in Nodes(tree)
      modifies this, Nodes(tree)
      ensures Valid() && Nodes(tree) == old(Nodes(tree)) - {x}
      ensures exists i :: InsertedAt(Inorder(tree), old(Inorder(tree)), i, x)
      ensures derefsNull <==> EscapesAt(old(tree), x)
    {
      hide Nodes, CtxNodes, Linked, Coloured, Distinct;
      ghost var (c, t) := Focus(Top, tree, x);
      ZipAll(c, t);
      ghost var s := Inorder(tree);
      SplitAtRoot(c, t);
      RemovedCorrect(c, t);
      RemovedEscapesIff(c, t);
      derefsNull := RemoveNode(x, c, t);
      tree := Removed(c, t).0;
      DropAt(Before(c) + Inorder(t.l), x, Inorder(t.r) + After(c), Inorder(tree));
    }
  }
}
