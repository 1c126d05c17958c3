/** The pointer tree of rbtree.hpp: nodes with child and parent links and two flags, and the
    relinking steps of its rebalancing functions. */
module RbHeap {
  import opened RbSpec

  class RbNode {
    var left: RbNode?
    var right: RbNode?
    var parent: RbNode?
    var isLeft: bool
    var red: bool
    const key: int

    constructor (key: int, isLeft: bool, red: bool)
      ensures left == null && right == null && parent == null
      ensures this.key == key && this.isLeft == isLeft && this.red == red
    {
      left, right, parent := null, null, null;
      this.key, this.isLeft, this.red := key, isLeft, red;
    }
  }

  type HeapTree = Tree<RbNode>

  function RootOf(t: HeapTree): RbNode? {
    if t.Nil? then null else t.x
  }

  ghost function Nodes(t: HeapTree): (s: set<RbNode>)
    ensures t.Node? ==> t.x in s
  {
    if t.Nil? then {} else Nodes(t.l) + {t.x} + Nodes(t.r)
  }

  /** No node occurs twice in t. */
  ghost predicate Distinct(t: HeapTree) {
    t.Node? ==> t.x !in Nodes(t.l) && t.x !in Nodes(t.r) && Nodes(t.l) !! Nodes(t.r) && Distinct(t.l) && Distinct(t.r)
  }

  /** The subtrees l and r hang below the node n. */
  ghost predicate Hangs(n: RbNode, l: HeapTree, r: HeapTree)
    reads {n}`left, {n}`right
    reads Opt(RootOf(l))`parent, Opt(RootOf(l))`isLeft, Opt(RootOf(r))`parent, Opt(RootOf(r))`isLeft
  {
    && n.left == RootOf(l) && n.right == RootOf(r)
    && (l.Node? ==> l.x.parent == n && l.x.isLeft)
    && (r.Node? ==> r.x.parent == n && !r.x.isLeft)
  }

  /** The links of the nodes of t agree with its shape.  The parent link and side flag of the
      root of t are not covered. */
  ghost predicate Linked(t: HeapTree)
    reads Nodes(t)`left, Nodes(t)`right, Nodes(t)`parent, Nodes(t)`isLeft
  {
    t.Node? ==> Hangs(t.x, t.l, t.r) && Linked(t.l) && Linked(t.r)
  }

  /** The red flags agree with the colours of t. */
  ghost predicate Coloured(t: HeapTree)
    reads Nodes(t)`red
  {
    t.Node? ==> t.x.red == t.red && Coloured(t.l) && Coloured(t.r)
  }

  /** Linked survives a change of the root's parent link and side flag alone. */
  twostate lemma StaysLinked(t: HeapTree)
    requires old(Linked(t)) && Distinct(t)
    requires forall n :: n in Nodes(t) && old(allocated(n)) ==> n.left == old(n.left) && n.right == old(n.right)
    requires forall n :: n in Nodes(t) && old(allocated(n)) && n != RootOf(t) ==> n.parent == old(n.parent) && n.isLeft == old(n.isLeft)
    ensures Linked(t)
  {
    if t.Node? {
      StaysLinked(t.l);
      StaysLinked(t.r);
    }
  }

  /** No link of a node of ns has changed; colours may have. */
  twostate predicate LinksKept(new ns: set<RbNode>)
    reads ns
  {
    forall n :: n in ns && old(allocated(n)) ==>
      n.left == old(n.left) && n.right == old(n.right) && n.parent == old(n.parent) && n.isLeft == old(n.isLeft)
  }

  ghost function Opt(p: RbNode?): set<RbNode> {
    if p == null then {} else {p}
  }

  method SetLeft(p: RbNode, c: RbNode?)
    modifies p`left, Opt(c)`parent, Opt(c)`isLeft
    ensures p.left == c && (c != null ==> c.parent == p && c.isLeft)
  {
    p.left := c;
    if c != null {
      c.parent := p;
      c.isLeft := true;
    }
  }

  method SetRight(p: RbNode, c: RbNode?)
    modifies p`right, Opt(c)`parent, Opt(c)`isLeft
    ensures p.right == c && (c != null ==> c.parent == p && !c.isLeft)
  {
    p.right := c;
    if c != null {
      c.parent := p;
      c.isLeft := false;
    }
  }

  predicate IsRed(p: RbNode?)
    reads p
  {
    p != null && p.red
  }

  // ----- Relinking -----

  /** The nodes ns and the trees a to e have nothing in common. */
  ghost predicate Apart(ns: set<RbNode>, a: HeapTree, b: HeapTree, c: HeapTree, d: HeapTree, e: HeapTree) {
    && Distinct(a) && Distinct(b) && Distinct(c) && Distinct(d) && Distinct(e)
    && Nodes(a) !! Nodes(b) && Nodes(a) !! Nodes(c) && Nodes(a) !! Nodes(d) && Nodes(a) !! Nodes(e)
    && Nodes(b) !! Nodes(c) && Nodes(b) !! Nodes(d) && Nodes(b) !! Nodes(e)
    && Nodes(c) !! Nodes(d) && Nodes(c) !! Nodes(e) && Nodes(d) !! Nodes(e)
    && ns !! Nodes(a) && ns !! Nodes(b) && ns !! Nodes(c) && ns !! Nodes(d) && ns !! Nodes(e)
  }

  /** x(l(a, b), c) becomes l(a, x(b, c)). */
  method RotateRight(x: RbNode, l: RbNode, ghost a: HeapTree, ghost b: HeapTree, ghost c: HeapTree)
    requires Hangs(x, Node(l, a, b, false), c) && Hangs(l, a, b)
    requires Linked(a) && Linked(b) && Linked(c)
    requires x != l && Apart({x, l}, a, b, c, Nil, Nil)
    modifies {x, l}`left, {x, l}`right, {x, l}`parent, {x, l}`isLeft
    modifies Opt(RootOf(b))`parent, Opt(RootOf(b))`isLeft
    ensures Hangs(l, a, Node(x, b, c, false)) && Hangs(x, b, c)
    ensures Linked(a) && Linked(b) && Linked(c)
  {
    hide Nodes, Linked, Distinct;
    SetLeft(x, l.right);
    SetRight(l, x);
    StaysLinked(a);
    StaysLinked(b);
    StaysLinked(c);
  }

  /** x(a, r(b, c)) becomes r(x(a, b), c). */
  method RotateLeft(x: RbNode, r: RbNode, ghost a: HeapTree, ghost b: HeapTree, ghost c: HeapTree)
    requires Hangs(x, a, Node(r, b, c, false)) && Hangs(r, b, c)
    requires Linked(a) && Linked(b) && Linked(c)
    requires x != r && Apart({x, r}, a, b, c, Nil, Nil)
    modifies {x, r}`left, {x, r}`right, {x, r}`parent, {x, r}`isLeft
    modifies Opt(RootOf(b))`parent, Opt(RootOf(b))`isLeft
    ensures Hangs(r, Node(x, a, b, false), c) && Hangs(x, a, b)
    ensures Linked(a) && Linked(b) && Linked(c)
  {
    hide Nodes, Linked, Distinct;
    SetRight(x, r.left);
    SetLeft(r, x);
    StaysLinked(a);
    StaysLinked(b);
    StaysLinked(c);
  }

  /** The children of m, which hangs below l on the right, are handed to l and to x. */
  method PartLeft(x: RbNode, l: RbNode, m: RbNode, ghost a: HeapTree, ghost b: HeapTree, ghost c: HeapTree, ghost d: HeapTree)
    requires Hangs(x, Node(l, a, Node(m, b, c, false), false), d) && Hangs(l, a, Node(m, b, c, false)) && Hangs(m, b, c)
    requires Linked(a) && Linked(b) && Linked(c) && Linked(d)
    requires x != l && x != m && l != m && Apart({x, l, m}, a, b, c, d, Nil)
    modifies x`left, l`right
    modifies Opt(RootOf(b))`parent, Opt(RootOf(b))`isLeft, Opt(RootOf(c))`parent, Opt(RootOf(c))`isLeft
    ensures Hangs(l, a, b) && Hangs(x, c, d)
    ensures Linked(a) && Linked(b) && Linked(c) && Linked(d)
  {
    hide Nodes, Linked, Distinct;
    SetLeft(x, m.right);
    SetRight(l, m.left);
    StaysLinked(a);
    StaysLinked(b);
    StaysLinked(c);
    StaysLinked(d);
  }

  /** The children of m, which hangs below r on the left, are handed to x and to r. */
  method PartRight(x: RbNode, r: RbNode, m: RbNode, ghost a: HeapTree, ghost b: HeapTree, ghost c: HeapTree, ghost d: HeapTree)
    requires Hangs(x, a, Node(r, Node(m, b, c, false), d, false)) && Hangs(r, Node(m, b, c, false), d) && Hangs(m, b, c)
    requires Linked(a) && Linked(b) && Linked(c) && Linked(d)
    requires x != r && x != m && r != m && Apart({x, r, m}, a, b, c, d, Nil)
    modifies x`right, r`left
    modifies Opt(RootOf(b))`parent, Opt(RootOf(b))`isLeft, Opt(RootOf(c))`parent, Opt(RootOf(c))`isLeft
    ensures Hangs(x, a, b) && Hangs(r, c, d)
    ensures Linked(a) && Linked(b) && Linked(c) && Linked(d)
  {
    hide Nodes, Linked, Distinct;
    SetRight(x, m.left);
    SetLeft(r, m.right);
    StaysLinked(a);
    StaysLinked(b);
    StaysLinked(c);
    StaysLinked(d);
  }

  /** The node m becomes the parent of l and r, whose subtrees keep their links. */
  method Crown(m: RbNode, l: RbNode, r: RbNode, ghost a: HeapTree, ghost b: HeapTree, ghost c: HeapTree, ghost d: HeapTree)
    requires Hangs(l, a, b) && Hangs(r, c, d)
    requires Linked(a) && Linked(b) && Linked(c) && Linked(d)
    requires m != l && m != r && l != r && Apart({l, r, m}, a, b, c, d, Nil)
    modifies m`left, m`right, {l, r}`parent, {l, r}`isLeft
    ensures Hangs(m, Node(l, a, b, false), Node(r, c, d, false)) && Hangs(l, a, b) && Hangs(r, c, d)
    ensures Linked(a) && Linked(b) && Linked(c) && Linked(d)
  {
    hide Nodes, Linked, Distinct;
    SetLeft(m, l);
    SetRight(m, r);
    StaysLinked(a);
    StaysLinked(b);
    StaysLinked(c);
    StaysLinked(d);
  }

  /** x(l(a, m(b, c)), d) becomes m(l(a, b), x(c, d)). */
  method RotateLeftRight(x: RbNode, l: RbNode, m: RbNode, ghost a: HeapTree, ghost b: HeapTree, ghost c: HeapTree, ghost d: HeapTree)
    requires Hangs(x, Node(l, a, Node(m, b, c, false), false), d) && Hangs(l, a, Node(m, b, c, false)) && Hangs(m, b, c)
    requires Linked(a) && Linked(b) && Linked(c) && Linked(d)
    requires x != l && x != m && l != m && Apart({x, l, m}, a, b, c, d, Nil)
    modifies {x, l, m}`left, {x, l, m}`right, {x, l, m}`parent, {x, l, m}`isLeft
    modifies Opt(RootOf(b))`parent, Opt(RootOf(b))`isLeft, Opt(RootOf(c))`parent, Opt(RootOf(c))`isLeft
    ensures Hangs(m, Node(l, a, b, false), Node(x, c, d, false)) && Hangs(l, a, b) && Hangs(x, c, d)
    ensures Linked(a) && Linked(b) && Linked(c) && Linked(d)
  {
    hide *;
    assert {l, x, m} == {x, l, m};
    PartLeft(x, l, m, a, b, c, d);
    Crown(m, l, x, a, b, c, d);
  }

  /** x(a, r(m(b, c), d)) becomes m(x(a, b), r(c, d)). */
  method RotateRightLeft(x: RbNode, r: RbNode, m: RbNode, ghost a: HeapTree, ghost b: HeapTree, ghost c: HeapTree, ghost d: HeapTree)
    requires Hangs(x, a, Node(r, Node(m, b, c, false), d, false)) && Hangs(r, Node(m, b, c, false), d) && Hangs(m, b, c)
    requires Linked(a) && Linked(b) && Linked(c) && Linked(d)
    requires x != r && x != m && r != m && Apart({x, r, m}, a, b, c, d, Nil)
    modifies {x, r, m}`left, {x, r, m}`right, {x, r, m}`parent, {x, r, m}`isLeft
    modifies Opt(RootOf(b))`parent, Opt(RootOf(b))`isLeft, Opt(RootOf(c))`parent, Opt(RootOf(c))`isLeft
    ensures Hangs(m, Node(x, a, b, false), Node(r, c, d, false)) && Hangs(x, a, b) && Hangs(r, c, d)
    ensures Linked(a) && Linked(b) && Linked(c) && Linked(d)
  {
    hide *;
    PartRight(x, r, m, a, b, c, d);
    Crown(m, x, r, a, b, c, d);
  }

  /** x(a, r(m(b, c), d)) becomes r(m(x(a, b), c), d). */
  method SinkLeft(x: RbNode, r: RbNode, m: RbNode, ghost a: HeapTree, ghost b: HeapTree, ghost c: HeapTree, ghost d: HeapTree)
    requires Hangs(x, a, Node(r, Node(m, b, c, false), d, false)) && Hangs(r, Node(m, b, c, false), d) && Hangs(m, b, c)
    requires Linked(a) && Linked(b) && Linked(c) && Linked(d)
    requires x != r && x != m && r != m && Apart({x, r, m}, a, b, c, d, Nil)
    modifies {x, r, m}`left, {x, r, m}`right, {x, r, m}`parent, {x, r, m}`isLeft
    modifies Opt(RootOf(b))`parent, Opt(RootOf(b))`isLeft
    ensures Hangs(r, Node(m, Node(x, a, b, false), c, false), d) && Hangs(m, Node(x, a, b, false), c) && Hangs(x, a, b)
    ensures Linked(a) && Linked(b) && Linked(c) && Linked(d)
  {
    hide Nodes, Linked, Distinct;
    SetRight(x, m.left);
    SetLeft(m, x);
    StaysLinked(a);
    StaysLinked(b);
    StaysLinked(c);
    StaysLinked(d);
  }

  /** x(l(a, m(b, c)), d) becomes l(a, m(b, x(c, d))). */
  method SinkRight(x: RbNode, l: RbNode, m: RbNode, ghost a: HeapTree, ghost b: HeapTree, ghost c: HeapTree, ghost d: HeapTree)
    requires Hangs(x, Node(l, a, Node(m, b, c, false), false), d) && Hangs(l, a, Node(m, b, c, false)) && Hangs(m, b, c)
    requires Linked(a) && Linked(b) && Linked(c) && Linked(d)
    requires x != l && x != m && l != m && Apart({x, l, m}, a, b, c, d, Nil)
    modifies {x, l, m}`left, {x, l, m}`right, {x, l, m}`parent, {x, l, m}`isLeft
    modifies Opt(RootOf(c))`parent, Opt(RootOf(c))`isLeft
    ensures Hangs(l, a, Node(m, b, Node(x, c, d, false), false)) && Hangs(m, b, Node(x, c, d, false)) && Hangs(x, c, d)
    ensures Linked(a) && Linked(b) && Linked(c) && Linked(d)
  {
    hide Nodes, Linked, Distinct;
    SetLeft(x, m.right);
    SetRight(m, x);
    StaysLinked(a);
    StaysLinked(b);
    StaysLinked(c);
    StaysLinked(d);
  }

  /** r(m(k(b, c), d), e) becomes r(k(b, m(c, d)), e). */
  method LiftLeft(r: RbNode, m: RbNode, k: RbNode, ghost b: HeapTree, ghost c: HeapTree, ghost d: HeapTree, ghost e: HeapTree)
    requires Hangs(r, Node(m, Node(k, b, c, false), d, false), e) && Hangs(m, Node(k, b, c, false), d) && Hangs(k, b, c)
    requires Linked(b) && Linked(c) && Linked(d) && Linked(e)
    requires r != m && r != k && m != k && Apart({r, m, k}, b, c, d, e, Nil)
    modifies {r, m, k}`left, {m, k}`right, {m, k}`parent, {m, k}`isLeft
    modifies Opt(RootOf(c))`parent, Opt(RootOf(c))`isLeft
    ensures Hangs(r, Node(k, b, Node(m, c, d, false), false), e) && Hangs(k, b, Node(m, c, d, false)) && Hangs(m, c, d)
    ensures Linked(b) && Linked(c) && Linked(d) && Linked(e)
  {
    hide Nodes, Linked, Distinct;
    SetLeft(m, k.right);
    SetRight(k, m);
    SetLeft(r, k);
    StaysLinked(b);
    StaysLinked(c);
    StaysLinked(d);
    StaysLinked(e);
  }

  /** l(a, m(b, k(c, d))) becomes l(a, k(m(b, c), d)). */
  method LiftRight(l: RbNode, m: RbNode, k: RbNode, ghost a: HeapTree, ghost b: HeapTree, ghost c: HeapTree, ghost d: HeapTree)
    requires Hangs(l, a, Node(m, b, Node(k, c, d, false), false)) && Hangs(m, b, Node(k, c, d, false)) && Hangs(k, c, d)
    requires Linked(a) && Linked(b) && Linked(c) && Linked(d)
    requires l != m && l != k && m != k && Apart({l, m, k}, a, b, c, d, Nil)
    modifies {l, m, k}`right, {m, k}`left, {m, k}`parent, {m, k}`isLeft
    modifies Opt(RootOf(c))`parent, Opt(RootOf(c))`isLeft
    ensures Hangs(l, a, Node(k, Node(m, b, c, false), d, false)) && Hangs(k, Node(m, b, c, false), d) && Hangs(m, b, c)
    ensures Linked(a) && Linked(b) && Linked(c) && Linked(d)
  {
    hide Nodes, Linked, Distinct;
    SetRight(m, k.left);
    SetLeft(k, m);
    SetRight(l, k);
    StaysLinked(a);
    StaysLinked(b);
    StaysLinked(c);
    StaysLinked(d);
  }

  lemma ApartRegrouped(ns: set<RbNode>, m: RbNode, a: HeapTree, b: HeapTree, c: HeapTree, d: HeapTree, e: HeapTree)
    requires m in ns && Apart(ns, a, b, c, d, e)
    ensures Apart(ns - {m}, a, b, Node(m, c, d, false), e, Nil)
    ensures Nodes(Nil) == {} && Distinct(Nil)
  {
  }

  lemma LinkedNode(n: RbNode, l: HeapTree, r: HeapTree)
    requires Hangs(n, l, r) && Linked(l) && Linked(r)
    ensures Linked(Node(n, l, r, false))
  {
  }

  lemma UnlinkedNode(n: RbNode, l: HeapTree, r: HeapTree)
    requires Linked(Node(n, l, r, false))
    ensures Hangs(n, l, r) && Linked(l) && Linked(r)
  {
  }

  /** x(a, r(m(k(b, c), d), e)) becomes r(k(x(a, b), m(c, d)), e); the source's five link updates,
      grouped by the node they turn around. */
  method SinkLeftDeep(x: RbNode, r: RbNode, m: RbNode, k: RbNode,
                      ghost a: HeapTree, ghost b: HeapTree, ghost c: HeapTree, ghost d: HeapTree, ghost e: HeapTree)
    requires Hangs(x, a, Node(r, Node(m, Node(k, b, c, false), d, false), e, false))
    requires Hangs(r, Node(m, Node(k, b, c, false), d, false), e) && Hangs(m, Node(k, b, c, false), d) && Hangs(k, b, c)
    requires Linked(a) && Linked(b) && Linked(c) && Linked(d) && Linked(e)
    requires x != r && x != m && x != k && r != m && r != k && m != k && Apart({x, r, m, k}, a, b, c, d, e)
    modifies {x, r, m, k}`left, {x, r, m, k}`right, {x, r, m, k}`parent, {x, r, m, k}`isLeft
    modifies Opt(RootOf(b))`parent, Opt(RootOf(b))`isLeft, Opt(RootOf(c))`parent, Opt(RootOf(c))`isLeft
    ensures Hangs(r, Node(k, Node(x, a, b, false), Node(m, c, d, false), false), e)
    ensures Hangs(k, Node(x, a, b, false), Node(m, c, d, false)) && Hangs(x, a, b)
    ensures Linked(a) && Linked(b) && Linked(c) && Linked(d) && Linked(e) && Hangs(m, c, d)
  {
    hide Nodes, Linked, Distinct;
    ApartRegrouped({x, r, m, k}, m, a, b, c, d, e);
    LiftLeft(r, m, k, b, c, d, e);
    StaysLinked(a);
    LinkedNode(m, c, d);
    SinkLeft(x, r, k, a, b, Node(m, c, d, false), e);
    UnlinkedNode(m, c, d);
  }

  /** x(l(a, m(b, k(c, d))), e) becomes l(a, k(m(b, c), x(d, e))). */
  method SinkRightDeep(x: RbNode, l: RbNode, m: RbNode, k: RbNode,
                       ghost a: HeapTree, ghost b: HeapTree, ghost c: HeapTree, ghost d: HeapTree, ghost e: HeapTree)
    requires Hangs(x, Node(l, a, Node(m, b, Node(k, c, d, false), false), false), e)
    requires Hangs(l, a, Node(m, b, Node(k, c, d, false), false)) && Hangs(m, b, Node(k, c, d, false)) && Hangs(k, c, d)
    requires Linked(a) && Linked(b) && Linked(c) && Linked(d) && Linked(e)
    requires x != l && x != m && x != k && l != m && l != k && m != k && Apart({x, l, m, k}, a, b, c, d, e)
    modifies {x, l, m, k}`left, {x, l, m, k}`right, {x, l, m, k}`parent, {x, l, m, k}`isLeft
    modifies Opt(RootOf(c))`parent, Opt(RootOf(c))`isLeft, Opt(RootOf(d))`parent, Opt(RootOf(d))`isLeft
    ensures Hangs(l, a, Node(k, Node(m, b, c, false), Node(x, d, e, false), false))
    ensures Hangs(k, Node(m, b, c, false), Node(x, d, e, false)) && Hangs(x, d, e)
    ensures Linked(a) && Linked(b) && Linked(c) && Linked(d) && Linked(e) && Hangs(m, b, c)
  {
    hide Nodes, Linked, Distinct;
    ApartRegrouped({x, l, m, k}, m, a, d, b, c, e);
    LiftRight(l, m, k, a, b, c, d);
    StaysLinked(e);
    LinkedNode(m, b, c);
    SinkRight(x, l, k, a, Node(m, b, c, false), d, e);
    UnlinkedNode(m, b, c);
  }
}
