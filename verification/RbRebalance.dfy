/** The four pruned rebalancing functions of rbtree.hpp on the pointer tree.  Each returns exactly
    the tree of the matching specification function. */
module RbRebalance {
  import opened RbSpec
  import opened RbTheory
  import opened RbLoops
  import opened RbHeap

  /** The heap holds the tree t. */
  ghost predicate Holds(t: HeapTree)
    reads Nodes(t)
  {
    Linked(t) && Coloured(t) && Distinct(t)
  }

  /** A tree taken apart into its root and its two subtrees. */
  lemma Open(t: HeapTree)
    requires t.Node? && Holds(t)
    ensures Hangs(t.x, t.l, t.r) && t.x.red == t.red
    ensures Holds(t.l) && Holds(t.r) && t.x !in Nodes(t.l) && t.x !in Nodes(t.r) && Nodes(t.l) !! Nodes(t.r)
    ensures Nodes(t) == {t.x} + Nodes(t.l) + Nodes(t.r)
    ensures IsRed(RootOf(t.l)) == Red(t.l) && IsRed(RootOf(t.r)) == Red(t.r)
    ensures Nodes(Nil) == {} && Distinct(Nil)
  {
  }

  twostate lemma StaysColoured(t: HeapTree)
    requires old(Coloured(t))
    requires forall n :: n in Nodes(t) && old(allocated(n)) ==> n.red == old(n.red)
    ensures Coloured(t)
  {
    if t.Node? {
      StaysColoured(t.l);
      StaysColoured(t.r);
    }
  }

  /** A tree put together from its root and its two subtrees. */
  lemma Close(t: HeapTree)
    requires t.Node? && Hangs(t.x, t.l, t.r) && t.x.red == t.red
    requires Holds(t.l) && Holds(t.r) && t.x !in Nodes(t.l) && t.x !in Nodes(t.r) && Nodes(t.l) !! Nodes(t.r)
    ensures Holds(t) && Nodes(t) == {t.x} + Nodes(t.l) + Nodes(t.r)
  {
  }

  lemma OpenLinks(t: HeapTree)
    requires t.Node? && Linked(t)
    ensures Hangs(t.x, t.l, t.r) && Linked(t.l) && Linked(t.r)
  {
  }

  lemma CloseLinks(t: HeapTree)
    requires t.Node? && Hangs(t.x, t.l, t.r) && Linked(t.l) && Linked(t.r)
    ensures Linked(t)
  {
  }

  lemma OpenColours(t: HeapTree)
    requires t.Node? && Coloured(t)
    ensures t.x.red == t.red && Coloured(t.l) && Coloured(t.r)
  {
  }

  lemma CloseColours(t: HeapTree)
    requires t.Node? && t.x.red == t.red && Coloured(t.l) && Coloured(t.r)
    ensures Coloured(t)
  {
  }

  lemma Separate(t: HeapTree)
    requires t.Node? && Distinct(t)
    ensures t.x !in Nodes(t.l) && t.x !in Nodes(t.r) && Nodes(t.l) !! Nodes(t.r) && Distinct(t.l) && Distinct(t.r)
    ensures Nodes(t) == Nodes(t.l) + {t.x} + Nodes(t.r)
  {
  }

  lemma Join(t: HeapTree)
    requires t.Node? && t.x !in Nodes(t.l) && t.x !in Nodes(t.r) && Nodes(t.l) !! Nodes(t.r) && Distinct(t.l) && Distinct(t.r)
    ensures Distinct(t) && Nodes(t) == Nodes(t.l) + {t.x} + Nodes(t.r)
  {
  }

  lemma SplitApart(ns: set<RbNode>, t: HeapTree, p: HeapTree, q: HeapTree, r: HeapTree)
    requires t.Node? && t.x !in Nodes(t.l) && t.x !in Nodes(t.r) && Nodes(t.l) !! Nodes(t.r) && Distinct(t.l) && Distinct(t.r)
    requires Nodes(t) == Nodes(t.l) + {t.x} + Nodes(t.r)
    requires Apart(ns, t, p, q, r, Nil)
    ensures t.x !in ns && Apart(ns + {t.x}, t.l, t.r, p, q, r)
  {
    hide Nodes, Distinct;
  }

  lemma NoNodes()
    ensures Distinct(Nil) && Nodes(Nil) == {}
  {
  }

  // ----- Relinking and recolouring -----
  // The colours are those of the result; where the source leaves a colour as it is, the old value is passed.

  lemma TurnRightPieces(x: RbNode, l: RbNode, t: HeapTree)
    requires Distinct(t) && t.Node? && t.x == x && t.l.Node? && t.l.x == l
    ensures x != l && Apart({x, l}, t.l.l, t.l.r, t.r, Nil, Nil)
    ensures Nodes(t) == {x, l} + Nodes(t.l.l) + Nodes(t.l.r) + Nodes(t.r)
  {
    hide Nodes, Distinct;
    Separate(t);
    Separate(t.l);
    NoNodes();
  }

  lemma TurnRightJoined(x: RbNode, l: RbNode, xRed: bool, lRed: bool, t: HeapTree)
    requires t.Node? && t.x == x && t.l.Node? && t.l.x == l
    requires x != l && Apart({x, l}, t.l.l, t.l.r, t.r, Nil, Nil)
    ensures var t' := Node(l, t.l.l, Node(x, t.l.r, t.r, xRed), lRed);
            Distinct(t') && Nodes(t') == {x, l} + Nodes(t.l.l) + Nodes(t.l.r) + Nodes(t.r)
  {
    hide Nodes, Distinct;
    Join(Node(x, t.l.r, t.r, xRed));
    Join(Node(l, t.l.l, Node(x, t.l.r, t.r, xRed), lRed));
  }

  method ReTurnRight(x: RbNode, l: RbNode, ghost xRed: bool, ghost lRed: bool, ghost t: HeapTree)
    requires Linked(t) && Distinct(t) && t.Node? && t.x == x && t.l.Node? && t.l.x == l
    modifies Nodes(t)`left, Nodes(t)`right, Nodes(t)`parent, Nodes(t)`isLeft
    ensures Linked(Node(l, t.l.l, Node(x, t.l.r, t.r, xRed), lRed))
  {
    hide Nodes, Linked, Distinct;
    TurnRightPieces(x, l, t);
    OpenLinks(t);
    OpenLinks(t.l);
    ghost var a, b, c := t.l.l, t.l.r, t.r;
    RotateRight(x, l, a, b, c);
    CloseLinks(Node(x, b, c, xRed));
    CloseLinks(Node(l, a, Node(x, b, c, xRed), lRed));
  }

  /** x(l(a, b), c) becomes l(a, x(b, c)). */
  method TurnRight(x: RbNode, l: RbNode, xRed: bool, lRed: bool, ghost t: HeapTree)
    requires Holds(t) && t.Node? && t.x == x && t.l.Node? && t.l.x == l
    modifies Nodes(t)
    ensures var t' := Node(l, t.l.l, Node(x, t.l.r, t.r, xRed), lRed);
            Holds(t') && Nodes(t') == Nodes(t)
  {
    hide Nodes, Linked, Coloured, Distinct, Hangs;
    TurnRightPieces(x, l, t);
    TurnRightJoined(x, l, xRed, lRed, t);
    OpenColours(t);
    OpenColours(t.l);
    ReTurnRight(x, l, xRed, lRed, t);
    x.red, l.red := xRed, lRed;
    StaysColoured(t.l.l);
    StaysColoured(t.l.r);
    StaysColoured(t.r);
    CloseColours(Node(x, t.l.r, t.r, xRed));
    CloseColours(Node(l, t.l.l, Node(x, t.l.r, t.r, xRed), lRed));
  }

  lemma TurnLeftPieces(x: RbNode, r: RbNode, t: HeapTree)
    requires Distinct(t) && t.Node? && t.x == x && t.r.Node? && t.r.x == r
    ensures x != r && Apart({x, r}, t.l, t.r.l, t.r.r, Nil, Nil)
    ensures Nodes(t) == {x, r} + Nodes(t.l) + Nodes(t.r.l) + Nodes(t.r.r)
  {
    hide Nodes, Distinct;
    Separate(t);
    Separate(t.r);
    NoNodes();
  }

  lemma TurnLeftJoined(x: RbNode, r: RbNode, xRed: bool, rRed: bool, t: HeapTree)
    requires t.Node? && t.x == x && t.r.Node? && t.r.x == r
    requires x != r && Apart({x, r}, t.l, t.r.l, t.r.r, Nil, Nil)
    ensures var t' := Node(r, Node(x, t.l, t.r.l, xRed), t.r.r, rRed);
            Distinct(t') && Nodes(t') == {x, r} + Nodes(t.l) + Nodes(t.r.l) + Nodes(t.r.r)
  {
    hide Nodes, Distinct;
    Join(Node(x, t.l, t.r.l, xRed));
    Join(Node(r, Node(x, t.l, t.r.l, xRed), t.r.r, rRed));
  }

  method ReTurnLeft(x: RbNode, r: RbNode, ghost xRed: bool, ghost rRed: bool, ghost t: HeapTree)
    requires Linked(t) && Distinct(t) && t.Node? && t.x == x && t.r.Node? && t.r.x == r
    modifies Nodes(t)`left, Nodes(t)`right, Nodes(t)`parent, Nodes(t)`isLeft
    ensures Linked(Node(r, Node(x, t.l, t.r.l, xRed), t.r.r, rRed))
  {
    hide Nodes, Linked, Distinct;
    TurnLeftPieces(x, r, t);
    OpenLinks(t);
    OpenLinks(t.r);
    ghost var a, b, c := t.l, t.r.l, t.r.r;
    RotateLeft(x, r, a, b, c);
    CloseLinks(Node(x, a, b, xRed));
    CloseLinks(Node(r, Node(x, a, b, xRed), c, rRed));
  }

  /** x(a, r(b, c)) becomes r(x(a, b), c). */
  method TurnLeft(x: RbNode, r: RbNode, xRed: bool, rRed: bool, ghost t: HeapTree)
    requires Holds(t) && t.Node? && t.x == x && t.r.Node? && t.r.x == r
    modifies Nodes(t)
    ensures var t' := Node(r, Node(x, t.l, t.r.l, xRed), t.r.r, rRed);
            Holds(t') && Nodes(t') == Nodes(t)
  {
    hide Nodes, Linked, Coloured, Distinct, Hangs;
    TurnLeftPieces(x, r, t);
    TurnLeftJoined(x, r, xRed, rRed, t);
    OpenColours(t);
    OpenColours(t.r);
    ReTurnLeft(x, r, xRed, rRed, t);
    x.red, r.red := xRed, rRed;
    StaysColoured(t.l);
    StaysColoured(t.r.l);
    StaysColoured(t.r.r);
    CloseColours(Node(x, t.l, t.r.l, xRed));
    CloseColours(Node(r, Node(x, t.l, t.r.l, xRed), t.r.r, rRed));
  }

  lemma TurnLeftRightPieces(x: RbNode, l: RbNode, m: RbNode, t: HeapTree)
    requires Distinct(t) && t.Node? && t.x == x && t.l.Node? && t.l.x == l && t.l.r.Node? && t.l.r.x == m
    ensures x != l && x != m && l != m && Apart({x, l, m}, t.l.l, t.l.r.l, t.l.r.r, t.r, Nil)
    ensures Nodes(t) == {x, l, m} + Nodes(t.l.l) + Nodes(t.l.r.l) + Nodes(t.l.r.r) + Nodes(t.r)
  {
    hide Nodes, Distinct;
    Separate(t);
    Separate(t.l);
    Separate(t.l.r);
    NoNodes();
  }

  lemma TurnLeftRightJoined(x: RbNode, l: RbNode, m: RbNode, xRed: bool, lRed: bool, mRed: bool, t: HeapTree)
    requires t.Node? && t.x == x && t.l.Node? && t.l.x == l && t.l.r.Node? && t.l.r.x == m
    requires x != l && x != m && l != m && Apart({x, l, m}, t.l.l, t.l.r.l, t.l.r.r, t.r, Nil)
    ensures var t' := Node(m, Node(l, t.l.l, t.l.r.l, lRed), Node(x, t.l.r.r, t.r, xRed), mRed);
            Distinct(t') && Nodes(t') == {x, l, m} + Nodes(t.l.l) + Nodes(t.l.r.l) + Nodes(t.l.r.r) + Nodes(t.r)
  {
    hide Nodes, Distinct;
    Join(Node(l, t.l.l, t.l.r.l, lRed));
    Join(Node(x, t.l.r.r, t.r, xRed));
    Join(Node(m, Node(l, t.l.l, t.l.r.l, lRed), Node(x, t.l.r.r, t.r, xRed), mRed));
  }

  method ReTurnLeftRight(x: RbNode, l: RbNode, m: RbNode, ghost xRed: bool, ghost lRed: bool, ghost mRed: bool, ghost t: HeapTree)
    requires Linked(t) && Distinct(t) && t.Node? && t.x == x && t.l.Node? && t.l.x == l && t.l.r.Node? && t.l.r.x == m
    modifies Nodes(t)`left, Nodes(t)`right, Nodes(t)`parent, Nodes(t)`isLeft
    ensures Linked(Node(m, Node(l, t.l.l, t.l.r.l, lRed), Node(x, t.l.r.r, t.r, xRed), mRed))
  {
    hide Nodes, Linked, Distinct;
    TurnLeftRightPieces(x, l, m, t);
    OpenLinks(t);
    OpenLinks(t.l);
    OpenLinks(t.l.r);
    ghost var a, b, c, d := t.l.l, t.l.r.l, t.l.r.r, t.r;
    RotateLeftRight(x, l, m, a, b, c, d);
    CloseLinks(Node(l, a, b, lRed));
    CloseLinks(Node(x, c, d, xRed));
    CloseLinks(Node(m, Node(l, a, b, lRed), Node(x, c, d, xRed), mRed));
  }

  /** x(l(a, m(b, c)), d) becomes m(l(a, b), x(c, d)). */
  method TurnLeftRight(x: RbNode, l: RbNode, m: RbNode, xRed: bool, lRed: bool, mRed: bool, ghost t: HeapTree)
    requires Holds(t) && t.Node? && t.x == x && t.l.Node? && t.l.x == l && t.l.r.Node? && t.l.r.x == m
    modifies Nodes(t)
    ensures var t' := Node(m, Node(l, t.l.l, t.l.r.l, lRed), Node(x, t.l.r.r, t.r, xRed), mRed);
            Holds(t') && Nodes(t') == Nodes(t)
  {
    hide Nodes, Linked, Coloured, Distinct, Hangs;
    TurnLeftRightPieces(x, l, m, t);
    TurnLeftRightJoined(x, l, m, xRed, lRed, mRed, t);
    OpenColours(t);
    OpenColours(t.l);
    OpenColours(t.l.r);
    ReTurnLeftRight(x, l, m, xRed, lRed, mRed, t);
    x.red, l.red, m.red := xRed, lRed, mRed;
    StaysColoured(t.l.l);
    StaysColoured(t.l.r.l);
    StaysColoured(t.l.r.r);
    StaysColoured(t.r);
    CloseColours(Node(l, t.l.l, t.l.r.l, lRed));
    CloseColours(Node(x, t.l.r.r, t.r, xRed));
    CloseColours(Node(m, Node(l, t.l.l, t.l.r.l, lRed), Node(x, t.l.r.r, t.r, xRed), mRed));
  }

  lemma TurnRightLeftPieces(x: RbNode, r: RbNode, m: RbNode, t: HeapTree)
    requires Distinct(t) && t.Node? && t.x == x && t.r.Node? && t.r.x == r && t.r.l.Node? && t.r.l.x == m
    ensures x != r && x != m && r != m && Apart({x, r, m}, t.l, t.r.l.l, t.r.l.r, t.r.r, Nil)
    ensures Nodes(t) == {x, r, m} + Nodes(t.l) + Nodes(t.r.l.l) + Nodes(t.r.l.r) + Nodes(t.r.r)
  {
    hide Nodes, Distinct;
    Separate(t);
    Separate(t.r);
    Separate(t.r.l);
    NoNodes();
  }

  lemma TurnRightLeftJoined(x: RbNode, r: RbNode, m: RbNode, xRed: bool, rRed: bool, mRed: bool, t: HeapTree)
    requires t.Node? && t.x == x && t.r.Node? && t.r.x == r && t.r.l.Node? && t.r.l.x == m
    requires x != r && x != m && r != m && Apart({x, r, m}, t.l, t.r.l.l, t.r.l.r, t.r.r, Nil)
    ensures var t' := Node(m, Node(x, t.l, t.r.l.l, xRed), Node(r, t.r.l.r, t.r.r, rRed), mRed);
            Distinct(t') && Nodes(t') == {x, r, m} + Nodes(t.l) + Nodes(t.r.l.l) + Nodes(t.r.l.r) + Nodes(t.r.r)
  {
    hide Nodes, Distinct;
    Join(Node(x, t.l, t.r.l.l, xRed));
    Join(Node(r, t.r.l.r, t.r.r, rRed));
    Join(Node(m, Node(x, t.l, t.r.l.l, xRed), Node(r, t.r.l.r, t.r.r, rRed), mRed));
  }

  method ReTurnRightLeft(x: RbNode, r: RbNode, m: RbNode, ghost xRed: bool, ghost rRed: bool, ghost mRed: bool, ghost t: HeapTree)
    requires Linked(t) && Distinct(t) && t.Node? && t.x == x && t.r.Node? && t.r.x == r && t.r.l.Node? && t.r.l.x == m
    modifies Nodes(t)`left, Nodes(t)`right, Nodes(t)`parent, Nodes(t)`isLeft
    ensures Linked(Node(m, Node(x, t.l, t.r.l.l, xRed), Node(r, t.r.l.r, t.r.r, rRed), mRed))
  {
    hide Nodes, Linked, Distinct;
    TurnRightLeftPieces(x, r, m, t);
    OpenLinks(t);
    OpenLinks(t.r);
    OpenLinks(t.r.l);
    ghost var a, b, c, d := t.l, t.r.l.l, t.r.l.r, t.r.r;
    RotateRightLeft(x, r, m, a, b, c, d);
    CloseLinks(Node(x, a, b, xRed));
    CloseLinks(Node(r, c, d, rRed));
    CloseLinks(Node(m, Node(x, a, b, xRed), Node(r, c, d, rRed), mRed));
  }

  /** x(a, r(m(b, c), d)) becomes m(x(a, b), r(c, d)). */
  method TurnRightLeft(x: RbNode, r: RbNode, m: RbNode, xRed: bool, rRed: bool, mRed: bool, ghost t: HeapTree)
    requires Holds(t) && t.Node? && t.x == x && t.r.Node? && t.r.x == r && t.r.l.Node? && t.r.l.x == m
    modifies Nodes(t)
    ensures var t' := Node(m, Node(x, t.l, t.r.l.l, xRed), Node(r, t.r.l.r, t.r.r, rRed), mRed);
            Holds(t') && Nodes(t') == Nodes(t)
  {
    hide Nodes, Linked, Coloured, Distinct, Hangs;
    TurnRightLeftPieces(x, r, m, t);
    TurnRightLeftJoined(x, r, m, xRed, rRed, mRed, t);
    OpenColours(t);
    OpenColours(t.r);
    OpenColours(t.r.l);
    ReTurnRightLeft(x, r, m, xRed, rRed, mRed, t);
    x.red, r.red, m.red := xRed, rRed, mRed;
    StaysColoured(t.l);
    StaysColoured(t.r.l.l);
    StaysColoured(t.r.l.r);
    StaysColoured(t.r.r);
    CloseColours(Node(x, t.l, t.r.l.l, xRed));
    CloseColours(Node(r, t.r.l.r, t.r.r, rRed));
    CloseColours(Node(m, Node(x, t.l, t.r.l.l, xRed), Node(r, t.r.l.r, t.r.r, rRed), mRed));
  }

  lemma LowerLeftJoined(x: RbNode, r: RbNode, m: RbNode, xRed: bool, rRed: bool, mRed: bool, t: HeapTree)
    requires t.Node? && t.x == x && t.r.Node? && t.r.x == r && t.r.l.Node? && t.r.l.x == m
    requires x != r && x != m && r != m && Apart({x, r, m}, t.l, t.r.l.l, t.r.l.r, t.r.r, Nil)
    ensures var t' := Node(r, Node(m, Node(x, t.l, t.r.l.l, xRed), t.r.l.r, mRed), t.r.r, rRed);
            Distinct(t') && Nodes(t') == {x, r, m} + Nodes(t.l) + Nodes(t.r.l.l) + Nodes(t.r.l.r) + Nodes(t.r.r)
  {
    hide Nodes, Distinct;
    Join(Node(x, t.l, t.r.l.l, xRed));
    Join(Node(m, Node(x, t.l, t.r.l.l, xRed), t.r.l.r, mRed));
    Join(Node(r, Node(m, Node(x, t.l, t.r.l.l, xRed), t.r.l.r, mRed), t.r.r, rRed));
  }

  method ReLowerLeft(x: RbNode, r: RbNode, m: RbNode, ghost xRed: bool, ghost rRed: bool, ghost mRed: bool, ghost t: HeapTree)
    requires Linked(t) && Distinct(t) && t.Node? && t.x == x && t.r.Node? && t.r.x == r && t.r.l.Node? && t.r.l.x == m
    modifies Nodes(t)`left, Nodes(t)`right, Nodes(t)`parent, Nodes(t)`isLeft
    ensures Linked(Node(r, Node(m, Node(x, t.l, t.r.l.l, xRed), t.r.l.r, mRed), t.r.r, rRed))
  {
    hide Nodes, Linked, Distinct;
    TurnRightLeftPieces(x, r, m, t);
    OpenLinks(t);
    OpenLinks(t.r);
    OpenLinks(t.r.l);
    ghost var a, b, c, d := t.l, t.r.l.l, t.r.l.r, t.r.r;
    SinkLeft(x, r, m, a, b, c, d);
    CloseLinks(Node(x, a, b, xRed));
    CloseLinks(Node(m, Node(x, a, b, xRed), c, mRed));
    CloseLinks(Node(r, Node(m, Node(x, a, b, xRed), c, mRed), d, rRed));
  }

  /** x(a, r(m(b, c), d)) becomes r(m(x(a, b), c), d). */
  method LowerLeft(x: RbNode, r: RbNode, m: RbNode, xRed: bool, rRed: bool, mRed: bool, ghost t: HeapTree)
    requires Holds(t) && t.Node? && t.x == x && t.r.Node? && t.r.x == r && t.r.l.Node? && t.r.l.x == m
    modifies Nodes(t)
    ensures var t' := Node(r, Node(m, Node(x, t.l, t.r.l.l, xRed), t.r.l.r, mRed), t.r.r, rRed);
            Holds(t') && Nodes(t') == Nodes(t)
  {
    hide Nodes, Linked, Coloured, Distinct, Hangs;
    TurnRightLeftPieces(x, r, m, t);
    LowerLeftJoined(x, r, m, xRed, rRed, mRed, t);
    OpenColours(t);
    OpenColours(t.r);
    OpenColours(t.r.l);
    ReLowerLeft(x, r, m, xRed, rRed, mRed, t);
    x.red, r.red, m.red := xRed, rRed, mRed;
    StaysColoured(t.l);
    StaysColoured(t.r.l.l);
    StaysColoured(t.r.l.r);
    StaysColoured(t.r.r);
    CloseColours(Node(x, t.l, t.r.l.l, xRed));
    CloseColours(Node(m, Node(x, t.l, t.r.l.l, xRed), t.r.l.r, mRed));
    CloseColours(Node(r, Node(m, Node(x, t.l, t.r.l.l, xRed), t.r.l.r, mRed), t.r.r, rRed));
  }

  lemma LowerRightJoined(x: RbNode, l: RbNode, m: RbNode, xRed: bool, lRed: bool, mRed: bool, t: HeapTree)
    requires t.Node? && t.x == x && t.l.Node? && t.l.x == l && t.l.r.Node? && t.l.r.x == m
    requires x != l && x != m && l != m && Apart({x, l, m}, t.l.l, t.l.r.l, t.l.r.r, t.r, Nil)
    ensures var t' := Node(l, t.l.l, Node(m, t.l.r.l, Node(x, t.l.r.r, t.r, xRed), mRed), lRed);
            Distinct(t') && Nodes(t') == {x, l, m} + Nodes(t.l.l) + Nodes(t.l.r.l) + Nodes(t.l.r.r) + Nodes(t.r)
  {
    hide Nodes, Distinct;
    Join(Node(x, t.l.r.r, t.r, xRed));
    Join(Node(m, t.l.r.l, Node(x, t.l.r.r, t.r, xRed), mRed));
    Join(Node(l, t.l.l, Node(m, t.l.r.l, Node(x, t.l.r.r, t.r, xRed), mRed), lRed));
  }

  method ReLowerRight(x: RbNode, l: RbNode, m: RbNode, ghost xRed: bool, ghost lRed: bool, ghost mRed: bool, ghost t: HeapTree)
    requires Linked(t) && Distinct(t) && t.Node? && t.x == x && t.l.Node? && t.l.x == l && t.l.r.Node? && t.l.r.x == m
    modifies Nodes(t)`left, Nodes(t)`right, Nodes(t)`parent, Nodes(t)`isLeft
    ensures Linked(Node(l, t.l.l, Node(m, t.l.r.l, Node(x, t.l.r.r, t.r, xRed), mRed), lRed))
  {
    hide Nodes, Linked, Distinct;
    TurnLeftRightPieces(x, l, m, t);
    OpenLinks(t);
    OpenLinks(t.l);
    OpenLinks(t.l.r);
    ghost var a, b, c, d := t.l.l, t.l.r.l, t.l.r.r, t.r;
    SinkRight(x, l, m, a, b, c, d);
    CloseLinks(Node(x, c, d, xRed));
    CloseLinks(Node(m, b, Node(x, c, d, xRed), mRed));
    CloseLinks(Node(l, a, Node(m, b, Node(x, c, d, xRed), mRed), lRed));
  }

  /** x(l(a, m(b, c)), d) becomes l(a, m(b, x(c, d))). */
  method LowerRight(x: RbNode, l: RbNode, m: RbNode, xRed: bool, lRed: bool, mRed: bool, ghost t: HeapTree)
    requires Holds(t) && t.Node? && t.x == x && t.l.Node? && t.l.x == l && t.l.r.Node? && t.l.r.x == m
    modifies Nodes(t)
    ensures var t' := Node(l, t.l.l, Node(m, t.l.r.l, Node(x, t.l.r.r, t.r, xRed), mRed), lRed);
            Holds(t') && Nodes(t') == Nodes(t)
  {
    hide Nodes, Linked, Coloured, Distinct, Hangs;
    TurnLeftRightPieces(x, l, m, t);
    LowerRightJoined(x, l, m, xRed, lRed, mRed, t);
    OpenColours(t);
    OpenColours(t.l);
    OpenColours(t.l.r);
    ReLowerRight(x, l, m, xRed, lRed, mRed, t);
    x.red, l.red, m.red := xRed, lRed, mRed;
    StaysColoured(t.l.l);
    StaysColoured(t.l.r.l);
    StaysColoured(t.l.r.r);
    StaysColoured(t.r);
    CloseColours(Node(x, t.l.r.r, t.r, xRed));
    CloseColours(Node(m, t.l.r.l, Node(x, t.l.r.r, t.r, xRed), mRed));
    CloseColours(Node(l, t.l.l, Node(m, t.l.r.l, Node(x, t.l.r.r, t.r, xRed), mRed), lRed));
  }

  lemma LowerLeftDeepPieces(x: RbNode, r: RbNode, m: RbNode, k: RbNode, t: HeapTree)
    requires Distinct(t) && t.Node? && t.x == x && t.r.Node? && t.r.x == r && t.r.l.Node? && t.r.l.x == m && t.r.l.l.Node? && t.r.l.l.x == k
    ensures x != r && x != m && x != k && r != m && r != k && m != k && Apart({x, r, m, k}, t.l, t.r.l.l.l, t.r.l.l.r, t.r.l.r, t.r.r)
    ensures Nodes(t) == {x, r, m, k} + Nodes(t.l) + Nodes(t.r.l.l.l) + Nodes(t.r.l.l.r) + Nodes(t.r.l.r) + Nodes(t.r.r)
  {
    hide Nodes, Distinct;
    TurnRightLeftPieces(x, r, m, t);
    Separate(t.r.l.l);
    SplitApart({x, r, m}, t.r.l.l, t.l, t.r.l.r, t.r.r);
  }

  lemma LowerLeftDeepJoined(x: RbNode, r: RbNode, m: RbNode, k: RbNode, xRed: bool, rRed: bool, mRed: bool, kRed: bool, t: HeapTree)
    requires t.Node? && t.x == x && t.r.Node? && t.r.x == r && t.r.l.Node? && t.r.l.x == m && t.r.l.l.Node? && t.r.l.l.x == k
    requires x != r && x != m && x != k && r != m && r != k && m != k && Apart({x, r, m, k}, t.l, t.r.l.l.l, t.r.l.l.r, t.r.l.r, t.r.r)
    ensures var t' := Node(r, Node(k, Node(x, t.l, t.r.l.l.l, xRed), Node(m, t.r.l.l.r, t.r.l.r, mRed), kRed), t.r.r, rRed);
            Distinct(t') && Nodes(t') == {x, r, m, k} + Nodes(t.l) + Nodes(t.r.l.l.l) + Nodes(t.r.l.l.r) + Nodes(t.r.l.r) + Nodes(t.r.r)
  {
    hide Nodes, Distinct;
    Join(Node(x, t.l, t.r.l.l.l, xRed));
    Join(Node(m, t.r.l.l.r, t.r.l.r, mRed));
    Join(Node(k, Node(x, t.l, t.r.l.l.l, xRed), Node(m, t.r.l.l.r, t.r.l.r, mRed), kRed));
    Join(Node(r, Node(k, Node(x, t.l, t.r.l.l.l, xRed), Node(m, t.r.l.l.r, t.r.l.r, mRed), kRed), t.r.r, rRed));
  }

  method ReLowerLeftDeep(x: RbNode, r: RbNode, m: RbNode, k: RbNode, ghost xRed: bool, ghost rRed: bool, ghost mRed: bool, ghost kRed: bool, ghost t: HeapTree)
    requires Linked(t) && Distinct(t) && t.Node? && t.x == x && t.r.Node? && t.r.x == r && t.r.l.Node? && t.r.l.x == m && t.r.l.l.Node? && t.r.l.l.x == k
    modifies Nodes(t)`left, Nodes(t)`right, Nodes(t)`parent, Nodes(t)`isLeft
    ensures Linked(Node(r, Node(k, Node(x, t.l, t.r.l.l.l, xRed), Node(m, t.r.l.l.r, t.r.l.r, mRed), kRed), t.r.r, rRed))
  {
    hide Nodes, Linked, Distinct;
    LowerLeftDeepPieces(x, r, m, k, t);
    OpenLinks(t);
    OpenLinks(t.r);
    OpenLinks(t.r.l);
    OpenLinks(t.r.l.l);
    ghost var a, b, c, d, e := t.l, t.r.l.l.l, t.r.l.l.r, t.r.l.r, t.r.r;
    SinkLeftDeep(x, r, m, k, a, b, c, d, e);
    CloseLinks(Node(x, a, b, xRed));
    CloseLinks(Node(m, c, d, mRed));
    CloseLinks(Node(k, Node(x, a, b, xRed), Node(m, c, d, mRed), kRed));
    CloseLinks(Node(r, Node(k, Node(x, a, b, xRed), Node(m, c, d, mRed), kRed), e, rRed));
  }

  method RecolourLeftDeep(x: RbNode, r: RbNode, m: RbNode, k: RbNode, xRed: bool, rRed: bool, mRed: bool, kRed: bool, ghost t: HeapTree)
    requires Coloured(t) && Distinct(t) && t.Node? && t.x == x && t.r.Node? && t.r.x == r && t.r.l.Node? && t.r.l.x == m && t.r.l.l.Node? && t.r.l.l.x == k
    modifies {x, r, m, k}`red
    ensures Coloured(Node(r, Node(k, Node(x, t.l, t.r.l.l.l, xRed), Node(m, t.r.l.l.r, t.r.l.r, mRed), kRed), t.r.r, rRed))
  {
    hide Nodes, Coloured, Distinct;
    LowerLeftDeepPieces(x, r, m, k, t);
    OpenColours(t);
    OpenColours(t.r);
    OpenColours(t.r.l);
    OpenColours(t.r.l.l);
    x.red, r.red, m.red, k.red := xRed, rRed, mRed, kRed;
    StaysColoured(t.l);
    StaysColoured(t.r.l.l.l);
    StaysColoured(t.r.l.l.r);
    StaysColoured(t.r.l.r);
    StaysColoured(t.r.r);
    CloseColours(Node(x, t.l, t.r.l.l.l, xRed));
    CloseColours(Node(m, t.r.l.l.r, t.r.l.r, mRed));
    CloseColours(Node(k, Node(x, t.l, t.r.l.l.l, xRed), Node(m, t.r.l.l.r, t.r.l.r, mRed), kRed));
    CloseColours(Node(r, Node(k, Node(x, t.l, t.r.l.l.l, xRed), Node(m, t.r.l.l.r, t.r.l.r, mRed), kRed), t.r.r, rRed));
  }

  /** x(a, r(m(k(b, c), d), e)) becomes r(k(x(a, b), m(c, d)), e). */
  method LowerLeftDeep(x: RbNode, r: RbNode, m: RbNode, k: RbNode, xRed: bool, rRed: bool, mRed: bool, kRed: bool, ghost t: HeapTree)
    requires Holds(t) && t.Node? && t.x == x && t.r.Node? && t.r.x == r && t.r.l.Node? && t.r.l.x == m && t.r.l.l.Node? && t.r.l.l.x == k
    modifies Nodes(t)
    ensures var t' := Node(r, Node(k, Node(x, t.l, t.r.l.l.l, xRed), Node(m, t.r.l.l.r, t.r.l.r, mRed), kRed), t.r.r, rRed);
            Holds(t') && Nodes(t') == Nodes(t)
  {
    hide Nodes, Linked, Coloured, Distinct, Hangs;
    LowerLeftDeepPieces(x, r, m, k, t);
    LowerLeftDeepJoined(x, r, m, k, xRed, rRed, mRed, kRed, t);
    assert allocated(Nodes(t));
    RecolourLeftDeep(x, r, m, k, xRed, rRed, mRed, kRed, t);
    StaysLinked(t);
    label Recoloured:
    ReLowerLeftDeep(x, r, m, k, xRed, rRed, mRed, kRed, t);
    StaysColoured@Recoloured(Node(r, Node(k, Node(x, t.l, t.r.l.l.l, xRed), Node(m, t.r.l.l.r, t.r.l.r, mRed), kRed), t.r.r, rRed));
  }

  lemma LowerRightDeepPieces(x: RbNode, l: RbNode, m: RbNode, k: RbNode, t: HeapTree)
    requires Distinct(t) && t.Node? && t.x == x && t.l.Node? && t.l.x == l && t.l.r.Node? && t.l.r.x == m && t.l.r.r.Node? && t.l.r.r.x == k
    ensures x != l && x != m && x != k && l != m && l != k && m != k && Apart({x, l, m, k}, t.l.l, t.l.r.l, t.l.r.r.l, t.l.r.r.r, t.r)
    ensures Nodes(t) == {x, l, m, k} + Nodes(t.l.l) + Nodes(t.l.r.l) + Nodes(t.l.r.r.l) + Nodes(t.l.r.r.r) + Nodes(t.r)
  {
    hide Nodes, Distinct;
    TurnLeftRightPieces(x, l, m, t);
    Separate(t.l.r.r);
    SplitApart({x, l, m}, t.l.r.r, t.l.l, t.l.r.l, t.r);
  }

  lemma LowerRightDeepJoined(x: RbNode, l: RbNode, m: RbNode, k: RbNode, xRed: bool, lRed: bool, mRed: bool, kRed: bool, t: HeapTree)
    requires t.Node? && t.x == x && t.l.Node? && t.l.x == l && t.l.r.Node? && t.l.r.x == m && t.l.r.r.Node? && t.l.r.r.x == k
    requires x != l && x != m && x != k && l != m && l != k && m != k && Apart({x, l, m, k}, t.l.l, t.l.r.l, t.l.r.r.l, t.l.r.r.r, t.r)
    ensures var t' := Node(l, t.l.l, Node(k, Node(m, t.l.r.l, t.l.r.r.l, mRed), Node(x, t.l.r.r.r, t.r, xRed), kRed), lRed);
            Distinct(t') && Nodes(t') == {x, l, m, k} + Nodes(t.l.l) + Nodes(t.l.r.l) + Nodes(t.l.r.r.l) + Nodes(t.l.r.r.r) + Nodes(t.r)
  {
    hide Nodes, Distinct;
    Join(Node(m, t.l.r.l, t.l.r.r.l, mRed));
    Join(Node(x, t.l.r.r.r, t.r, xRed));
    Join(Node(k, Node(m, t.l.r.l, t.l.r.r.l, mRed), Node(x, t.l.r.r.r, t.r, xRed), kRed));
    Join(Node(l, t.l.l, Node(k, Node(m, t.l.r.l, t.l.r.r.l, mRed), Node(x, t.l.r.r.r, t.r, xRed), kRed), lRed));
  }

  method ReLowerRightDeep(x: RbNode, l: RbNode, m: RbNode, k: RbNode, ghost xRed: bool, ghost lRed: bool, ghost mRed: bool, ghost kRed: bool, ghost t: HeapTree)
    requires Linked(t) && Distinct(t) && t.Node? && t.x == x && t.l.Node? && t.l.x == l && t.l.r.Node? && t.l.r.x == m && t.l.r.r.Node? && t.l.r.r.x == k
    modifies Nodes(t)`left, Nodes(t)`right, Nodes(t)`parent, Nodes(t)`isLeft
    ensures Linked(Node(l, t.l.l, Node(k, Node(m, t.l.r.l, t.l.r.r.l, mRed), Node(x, t.l.r.r.r, t.r, xRed), kRed), lRed))
  {
    hide Nodes, Linked, Distinct;
    LowerRightDeepPieces(x, l, m, k, t);
    OpenLinks(t);
    OpenLinks(t.l);
    OpenLinks(t.l.r);
    OpenLinks(t.l.r.r);
    ghost var a, b, c, d, e := t.l.l, t.l.r.l, t.l.r.r.l, t.l.r.r.r, t.r;
    SinkRightDeep(x, l, m, k, a, b, c, d, e);
    CloseLinks(Node(m, b, c, mRed));
    CloseLinks(Node(x, d, e, xRed));
    CloseLinks(Node(k, Node(m, b, c, mRed), Node(x, d, e, xRed), kRed));
    CloseLinks(Node(l, a, Node(k, Node(m, b, c, mRed), Node(x, d, e, xRed), kRed), lRed));
  }

  method RecolourRightDeep(x: RbNode, l: RbNode, m: RbNode, k: RbNode, xRed: bool, lRed: bool, mRed: bool, kRed: bool, ghost t: HeapTree)
    requires Coloured(t) && Distinct(t) && t.Node? && t.x == x && t.l.Node? && t.l.x == l && t.l.r.Node? && t.l.r.x == m && t.l.r.r.Node? && t.l.r.r.x == k
    modifies {x, l, m, k}`red
    ensures Coloured(Node(l, t.l.l, Node(k, Node(m, t.l.r.l, t.l.r.r.l, mRed), Node(x, t.l.r.r.r, t.r, xRed), kRed), lRed))
  {
    hide Nodes, Coloured, Distinct;
    LowerRightDeepPieces(x, l, m, k, t);
    OpenColours(t);
    OpenColours(t.l);
    OpenColours(t.l.r);
    OpenColours(t.l.r.r);
    x.red, l.red, m.red, k.red := xRed, lRed, mRed, kRed;
    StaysColoured(t.l.l);
    StaysColoured(t.l.r.l);
    StaysColoured(t.l.r.r.l);
    StaysColoured(t.l.r.r.r);
    StaysColoured(t.r);
    CloseColours(Node(m, t.l.r.l, t.l.r.r.l, mRed));
    CloseColours(Node(x, t.l.r.r.r, t.r, xRed));
    CloseColours(Node(k, Node(m, t.l.r.l, t.l.r.r.l, mRed), Node(x, t.l.r.r.r, t.r, xRed), kRed));
    CloseColours(Node(l, t.l.l, Node(k, Node(m, t.l.r.l, t.l.r.r.l, mRed), Node(x, t.l.r.r.r, t.r, xRed), kRed), lRed));
  }

  /** x(l(a, m(b, k(c, d))), e) becomes l(a, k(m(b, c), x(d, e))). */
  method LowerRightDeep(x: RbNode, l: RbNode, m: RbNode, k: RbNode, xRed: bool, lRed: bool, mRed: bool, kRed: bool, ghost t: HeapTree)
    requires Holds(t) && t.Node? && t.x == x && t.l.Node? && t.l.x == l && t.l.r.Node? && t.l.r.x == m && t.l.r.r.Node? && t.l.r.r.x == k
    modifies Nodes(t)
    ensures var t' := Node(l, t.l.l, Node(k, Node(m, t.l.r.l, t.l.r.r.l, mRed), Node(x, t.l.r.r.r, t.r, xRed), kRed), lRed);
            Holds(t') && Nodes(t') == Nodes(t)
  {
    hide Nodes, Linked, Coloured, Distinct, Hangs;
    LowerRightDeepPieces(x, l, m, k, t);
    LowerRightDeepJoined(x, l, m, k, xRed, lRed, mRed, kRed, t);
    assert allocated(Nodes(t));
    RecolourRightDeep(x, l, m, k, xRed, lRed, mRed, kRed, t);
    StaysLinked(t);
    label Recoloured:
    ReLowerRightDeep(x, l, m, k, xRed, lRed, mRed, kRed, t);
    StaysColoured@Recoloured(Node(l, t.l.l, Node(k, Node(m, t.l.r.l, t.l.r.r.l, mRed), Node(x, t.l.r.r.r, t.r, xRed), kRed), lRed));
  }

  // ----- The rebalancing functions -----

  method DoInsertRebalanceLeft(x: RbNode, bhEqual: bool, ghost t: HeapTree) returns (top: RbNode, equal: bool, stop: bool)
    requires t.Node? && t.x == x && Holds(t) && PrunedInsert(t.l, t.red, bhEqual)
    modifies Nodes(t)
    ensures var (t', b) := InsertRebalanceLeft(x, t.l, t.r, t.red, bhEqual);
            && Holds(t') && Nodes(t') == Nodes(t) && RootOf(t') == top
            && equal == b && stop == (b && (t.red || !Red(t')))
  {
    hide Nodes, Linked, Coloured, Distinct;
    Open(t);
    if x.red {
      x.red := false;
      Close(Node(x, t.l, t.r, false));
      return x, false, false;
    }
    if bhEqual { return x, true, true; }
    var r := x.right;
    if IsRed(r) {
      Open(t.r);
      r.red := false;
      x.red := true;
      Close(Blacken(t.r));
      Close(Node(x, t.l, Blacken(t.r), true));
      return x, true, false;
    }
    var l := x.left;
    Open(t.l);
    var ll, lr := l.left, l.right;
    if IsRed(ll) {
      TurnRight(x, l, true, false, t);
      return l, true, true;
    } else {
      TurnLeftRight(x, l, lr, true, true, false, t);
      return lr, true, true;
    }
  }

  method DoInsertRebalanceRight(x: RbNode, bhEqual: bool, ghost t: HeapTree) returns (top: RbNode, equal: bool, stop: bool)
    requires t.Node? && t.x == x && Holds(t) && PrunedInsert(t.r, t.red, bhEqual)
    modifies Nodes(t)
    ensures var (t', b) := InsertRebalanceRight(x, t.l, t.r, t.red, bhEqual);
            && Holds(t') && Nodes(t') == Nodes(t) && RootOf(t') == top
            && equal == b && stop == (b && (t.red || !Red(t')))
  {
    hide Nodes, Linked, Coloured, Distinct;
    Open(t);
    if x.red {
      x.red := false;
      Close(Node(x, t.l, t.r, false));
      return x, false, false;
    }
    if bhEqual { return x, true, true; }
    var l := x.left;
    if IsRed(l) {
      Open(t.l);
      l.red := false;
      x.red := true;
      Close(Blacken(t.l));
      Close(Node(x, Blacken(t.l), t.r, true));
      return x, true, false;
    }
    var r := x.right;
    Open(t.r);
    var rl, rr := r.left, r.right;
    if IsRed(rr) {
      TurnLeft(x, r, true, false, t);
      return r, true, true;
    } else {
      TurnRightLeft(x, r, rl, true, true, false, t);
      return rl, true, true;
    }
  }

  /** Called when the left subtree is black and one black node short. */
  method DoDeleteRebalanceLeft(x: RbNode, ghost t: HeapTree) returns (top: RbNode, equal: bool)
    requires t.Node? && t.x == x && Holds(t) && !Red(t.l) && DeletableLeft(t.l, t.r, t.red, false)
    modifies Nodes(t)
    ensures var (t', b) := DeleteRebalanceLeft(x, t.l, t.r, t.red, false);
            Holds(t') && Nodes(t') == Nodes(t) && RootOf(t') == top && equal == b
    ensures !equal ==> top == x && LinksKept(Nodes(t))
  {
    hide Nodes, Linked, Coloured, Distinct;
    Open(t);
    Open(t.r);
    var r := x.right;
    var rl, rr := r.left, r.right;
    if !x.red {
      if !r.red {
        if !IsRed(rl) {
          if !IsRed(rr) {
            r.red := true;
            Close(Node(r, t.r.l, t.r.r, true));
            Close(Node(x, t.l, Node(r, t.r.l, t.r.r, true), false));
            return x, false;
          } else {
            Open(t.r.r);
            rr.red := false;
            Close(Blacken(t.r.r));
            Close(Node(r, t.r.l, Blacken(t.r.r), false));
            Close(Node(x, t.l, Node(r, t.r.l, Blacken(t.r.r), false), false));
            TurnLeft(x, r, false, false, Node(x, t.l, Node(r, t.r.l, Blacken(t.r.r), false), false));
            return r, true;
          }
        } else {
          TurnRightLeft(x, r, rl, false, false, false, t);
          return rl, true;
        }
      } else {
        Open(t.r.l);
        var rll := rl.left;
        if !IsRed(rll) {
          LowerLeft(x, r, rl, true, false, false, t);
          return r, true;
        } else {
          LowerLeftDeep(x, r, rl, rll, false, false, false, true, t);
          return r, true;
        }
      }
    } else {
      if !IsRed(rl) {
        TurnLeft(x, r, true, false, t);
        return r, true;
      } else {
        TurnRightLeft(x, r, rl, false, false, true, t);
        return rl, true;
      }
    }
  }

  /** Called when the right subtree is black and one black node short. */
  method DoDeleteRebalanceRight(x: RbNode, ghost t: HeapTree) returns (top: RbNode, equal: bool)
    requires t.Node? && t.x == x && Holds(t) && !Red(t.r) && DeletableRight(t.l, t.r, t.red, false)
    modifies Nodes(t)
    ensures var (t', b) := DeleteRebalanceRight(x, t.l, t.r, t.red, false);
            Holds(t') && Nodes(t') == Nodes(t) && RootOf(t') == top && equal == b
    ensures !equal ==> top == x && LinksKept(Nodes(t))
  {
    hide Nodes, Linked, Coloured, Distinct;
    Open(t);
    Open(t.l);
    var l := x.left;
    var ll, lr := l.left, l.right;
    if !x.red {
      if !l.red {
        if !IsRed(lr) {
          if !IsRed(ll) {
            l.red := true;
            Close(Node(l, t.l.l, t.l.r, true));
            Close(Node(x, Node(l, t.l.l, t.l.r, true), t.r, false));
            return x, false;
          } else {
            Open(t.l.l);
            ll.red := false;
            Close(Blacken(t.l.l));
            Close(Node(l, Blacken(t.l.l), t.l.r, false));
            Close(Node(x, Node(l, Blacken(t.l.l), t.l.r, false), t.r, false));
            TurnRight(x, l, false, false, Node(x, Node(l, Blacken(t.l.l), t.l.r, false), t.r, false));
            return l, true;
          }
        } else {
          TurnLeftRight(x, l, lr, false, false, false, t);
          return lr, true;
        }
      } else {
        Open(t.l.r);
        var lrr := lr.right;
        if !IsRed(lrr) {
          LowerRight(x, l, lr, true, false, false, t);
          return l, true;
        } else {
          LowerRightDeep(x, l, lr, lrr, false, false, false, true, t);
          return l, true;
        }
      }
    } else {
      if !IsRed(lr) {
        TurnRight(x, l, true, false, t);
        return l, true;
      } else {
        TurnLeftRight(x, l, lr, false, false, true, t);
        return lr, true;
      }
    }
  }
}
