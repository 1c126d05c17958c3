/** Copy assignment of mini_libcxx/include/rbtree.hpp with reuse of the old nodes.  The trees are values here, and a
    pair of a context and a subtree stands for a node with its parent pointers. */
module RbCopy {
  import opened RbSpec
  import opened Options

  // ----- The order in which old nodes are taken: always the leaf found by going left where possible -----

  function Post<N>(t: Tree<N>): seq<N> {
    if t.Nil? then [] else Post(t.l) + Post(t.r) + [t.x]
  }

  /** The nodes around the hole, in the order in which they will be taken after the subtree in it. */
  function PostAround<N>(c: Ctx<N>): seq<N> {
    match c
    case Top => []
    case InLeft(up, x, r, _) => Post(r) + [x] + PostAround(up)
    case InRight(up, _, x, _) => [x] + PostAround(up)
  }

  /** A right child on the path has no left sibling any more. */
  predicate LeftFirst<N>(c: Ctx<N>) {
    match c
    case Top => true
    case InLeft(up, _, _, _) => LeftFirst(up)
    case InRight(up, l, _, _) => l.Nil? && LeftFirst(up)
  }

  /** The leaf that is to be taken next, below the context. */
  datatype Leaf = Leaf(c: Ctx<nat>, id: nat)

  /** What is left of the old tree, in the order of taking. */
  function Rest(leaf: Option<Leaf>): seq<nat> {
    if leaf.None? then [] else [leaf.value.id] + PostAround(leaf.value.c)
  }

  ghost predicate LeafInv(leaf: Option<Leaf>) {
    leaf.Some? ==> LeftFirst(leaf.value.c)
  }

  /** The descent to a leaf: left if possible, else right. */
  method DescendToLeaf(c0: Ctx<nat>, t0: Tree<nat>) returns (leaf: Leaf)
    requires t0.Node? && LeftFirst(c0)
    ensures LeftFirst(leaf.c) && [leaf.id] + PostAround(leaf.c) == Post(t0) + PostAround(c0)
  {
    hide Post, PostAround;
    var c, t := c0, t0;
    while t.l.Node? || t.r.Node?
      invariant t.Node? && LeftFirst(c) && Post(t) + PostAround(c) == Post(t0) + PostAround(c0)
      decreases t
    {
      PostDown(c, t);
      if t.l.Node? {
        c, t := InLeft(c, t.x, t.r, t.red), t.l;
      } else {
        c, t := InRight(c, t.l, t.x, t.red), t.r;
      }
    }
    PostDown(c, t);
    leaf := Leaf(c, t.x);
  }

  lemma {:induction false} PostDown<N>(c: Ctx<N>, t: Tree<N>)
    requires t.Node?
    ensures Post(t.l) + PostAround(InLeft(c, t.x, t.r, t.red)) == Post(t) + PostAround(c)
    ensures t.l.Nil? ==> Post(t.r) + PostAround(InRight(c, t.l, t.x, t.red)) == Post(t) + PostAround(c)
    ensures t.l.Nil? && t.r.Nil? ==> Post(t) == [t.x]
  {
    assert Post(t.l) + (Post(t.r) + [t.x] + PostAround(c)) == (Post(t.l) + Post(t.r) + [t.x]) + PostAround(c);
  }

  /** The leaf is detached from its parent, and `find_leaf` finds the next one below that parent. */
  method Detach(leaf: Leaf) returns (next: Option<Leaf>)
    requires LeftFirst(leaf.c)
    ensures LeafInv(next) && Rest(next) == PostAround(leaf.c)
  {
    match leaf.c
    case Top => next := None;
    case InLeft(up, x, r, red) =>
      if r.Node? {
        var found := DescendToLeaf(InRight(up, Nil, x, red), r);
        assert Post(r) + ([x] + PostAround(up)) == Post(r) + [x] + PostAround(up);
        next := Some(found);
      } else {
        assert Post(r) + [x] + PostAround(up) == [x] + PostAround(up);
        next := Some(Leaf(up, x));
      }
    case InRight(up, l, x, red) => next := Some(Leaf(up, x));
  }

  /** A node for the copy: the next old leaf, or a fresh one when the old tree is used up. */
  method TakeNode(leaf: Option<Leaf>, supply: nat) returns (id: nat, next: Option<Leaf>, supply': nat)
    requires LeafInv(leaf)
    ensures LeafInv(next)
    ensures if leaf.Some? then Rest(leaf) == [id] + Rest(next) && supply' == supply
            else id == supply && next.None? && supply' == supply + 1
  {
    if leaf.Some? {
      id, supply' := leaf.value.id, supply;
      next := Detach(leaf.value);
    } else {
      id, next, supply' := supply, None, supply + 1;
    }
  }

  // ----- The copy -----

  /** A node of the copy: its storage, and the data copied into it. */
  datatype Cell = Cell(id: nat, data: int)

  function Data(t: Tree<Cell>): Tree<int> {
    if t.Nil? then Nil else Node(t.x.data, Data(t.l), Data(t.r), t.red)
  }

  /** The storage of a tree, in the order in which the copy is made. */
  function Ids(t: Tree<Cell>): seq<nat> {
    if t.Nil? then [] else [t.x.id] + Ids(t.l) + Ids(t.r)
  }

  function IdsAround(c: Ctx<Cell>): seq<nat> {
    match c
    case Top => []
    case InLeft(up, x, _, _) => IdsAround(up) + [x.id]
    case InRight(up, l, x, _) => IdsAround(up) + [x.id] + Ids(l)
  }

  /** The path of the copy follows that of the source; left siblings are copied, right siblings are not there yet. */
  ghost predicate Follows(s: Ctx<int>, d: Ctx<Cell>) {
    match s
    case Top => d.Top?
    case InLeft(up, x, _, red) => d.InLeft? && d.x.data == x && d.red == red && d.r.Nil? && Follows(up, d.up)
    case InRight(up, l, x, red) => d.InRight? && d.x.data == x && d.red == red && Data(d.l) == l && Follows(up, d.up)
  }

  function Size<N>(t: Tree<N>): nat {
    if t.Nil? then 0 else 1 + Size(t.l) + Size(t.r)
  }

  /** The source nodes that are not copied yet when everything left of and in the hole is. */
  function Ahead(s: Ctx<int>): nat {
    match s
    case Top => 0
    case InLeft(up, _, r, _) => Size(r) + Ahead(up)
    case InRight(up, _, _, _) => Ahead(up)
  }

  function Depth<N>(c: Ctx<N>): nat {
    if c.Top? then 0 else 1 + Depth(c.up)
  }

  /** The nodes taken so far, out of the old tree and then fresh ones from `first` on. */
  ghost predicate Taken(used: seq<nat>, previous: seq<nat>, first: nat, leaf: Option<Leaf>, supply: nat) {
    && LeafInv(leaf)
    && if leaf.Some? then supply == first && previous == used + Rest(leaf)
       else
         && first <= supply && |used| == |previous| + (supply - first) && used[..|previous|] == previous
         && forall i :: |previous| <= i < |used| ==> used[i] == first + i - |previous|
  }

  lemma TakenStep(used: seq<nat>, previous: seq<nat>, first: nat, leaf: Option<Leaf>, supply: nat, id: nat,
                  next: Option<Leaf>, supply': nat)
    requires Taken(used, previous, first, leaf, supply) && LeafInv(next)
    requires if leaf.Some? then Rest(leaf) == [id] + Rest(next) && supply' == supply
             else id == supply && next.None? && supply' == supply + 1
    ensures Taken(used + [id], previous, first, next, supply')
  {
    if leaf.Some? {
      assert used + ([id] + Rest(next)) == (used + [id]) + Rest(next);
      if next.None? { assert (used + [id]) + [] == used + [id]; }
    }
  }

  /** The climb from a finished subtree to the next right sibling that has to be copied: found is false at the root. */
  method Climb(s0: Ctx<int>, t0: Tree<int>, d0: Ctx<Cell>, u0: Tree<Cell>)
    returns (found: bool, s: Ctx<int>, t: Tree<int>, d: Ctx<Cell>, u: Tree<Cell>)
    requires Follows(s0, d0) && Data(u0) == t0
    ensures Plug(s0, t0) == (if found then Plug(s, t) else t)
    ensures if found then
        Follows(s, d) && t.Node? && Size(t) + Ahead(s) == Ahead(s0) && IdsAround(d) == IdsAround(d0) + Ids(u0)
      else
        Ahead(s0) == 0 && Data(u) == t && Ids(u) == IdsAround(d0) + Ids(u0)
  {
    hide Plug, IdsAround, Ids, Data, Ahead, Size;
    s, t, d, u := s0, t0, d0, u0;
    while !s.Top?
      invariant Follows(s, d) && Data(u) == t && Plug(s, t) == Plug(s0, t0)
      invariant Ahead(s) == Ahead(s0) && IdsAround(d) + Ids(u) == IdsAround(d0) + Ids(u0)
      decreases s
    {
      Up(s, t, d, u);
      if s.InLeft? && s.r.Node? {
        found := true;
        s, d, t := InRight(s.up, t, s.x, s.red), InRight(d.up, u, d.x, d.red), s.r;
        return;
      }
      if s.InLeft? {
        t, u := Node(s.x, t, s.r, s.red), Node(d.x, u, Nil, d.red);
      } else {
        t, u := Node(s.x, s.l, t, s.red), Node(d.x, d.l, u, d.red);
      }
      s, d := s.up, d.up;
    }
    found := false;
    AtTop(t, d, u);
  }

  lemma {:induction false} AtTop(t: Tree<int>, d: Ctx<Cell>, u: Tree<Cell>)
    requires d.Top?
    ensures Plug(Top, t) == t && Ahead(Top) == 0 && IdsAround(d) + Ids(u) == Ids(u)
  {
  }

  /** One step of the climb: into the right sibling, or to the parent. */
  lemma {:induction false} Up(s: Ctx<int>, t: Tree<int>, d: Ctx<Cell>, u: Tree<Cell>)
    requires !s.Top? && Follows(s, d) && Data(u) == t
    ensures s.InLeft? && s.r.Node? ==>
      var s', d' := InRight(s.up, t, s.x, s.red), InRight(d.up, u, d.x, d.red);
      && Plug(s', s.r) == Plug(s, t) && Follows(s', d') && Size(s.r) + Ahead(s') == Ahead(s)
      && IdsAround(d') == IdsAround(d) + Ids(u)
    ensures s.InLeft? && s.r.Nil? ==>
      var t', u' := Node(s.x, t, s.r, s.red), Node(d.x, u, Nil, d.red);
      && Plug(s.up, t') == Plug(s, t) && Data(u') == t' && Ahead(s.up) == Ahead(s)
      && IdsAround(d.up) + Ids(u') == IdsAround(d) + Ids(u)
    ensures s.InRight? ==>
      var t', u' := Node(s.x, s.l, t, s.red), Node(d.x, d.l, u, d.red);
      && Plug(s.up, t') == Plug(s, t) && Data(u') == t' && Ahead(s.up) == Ahead(s)
      && IdsAround(d.up) + Ids(u') == IdsAround(d) + Ids(u)
  {
    if s.InLeft? {
      assert IdsAround(d.up) + ([d.x.id] + Ids(u) + []) == IdsAround(d.up) + [d.x.id] + Ids(u);
    } else {
      assert IdsAround(d.up) + ([d.x.id] + Ids(d.l) + Ids(u)) == IdsAround(d.up) + [d.x.id] + Ids(d.l) + Ids(u);
    }
  }

  /** The copy at the point where source node t has just got its cell. */
  ghost predicate Arrived(src: Tree<int>, s: Ctx<int>, t: Tree<int>, d: Ctx<Cell>, u: Tree<Cell>, used: seq<nat>) {
    && t.Node? && Plug(s, t) == src && Follows(s, d)
    && u.Node? && u.x.data == t.x && u.red == t.red && u.l.Nil? && u.r.Nil?
    && used == IdsAround(d) + [u.x.id] && |used| + Size(t) - 1 + Ahead(s) == Size(src)
  }

  lemma {:induction false} Open(src: Tree<int>, s: Ctx<int>, t: Tree<int>, d: Ctx<Cell>, u: Tree<Cell>, used: seq<nat>)
    requires Arrived(src, s, t, d, u, used)
    ensures t.Node? && Plug(s, t) == src && Follows(s, d) && u.Node? && u.x.data == t.x && u.red == t.red && u.l.Nil? && u.r.Nil?
    ensures used == IdsAround(d) + [u.x.id]
    ensures t.l.Nil? && t.r.Nil? ==> |used| + Ahead(s) == Size(src)
    ensures |used| <= Size(src)
  {
    hide Plug, Follows, IdsAround, Ahead;
    OneNode(t);
  }

  lemma {:induction false} OneNode(t: Tree<int>)
    ensures t.Node? ==> Size(t) >= 1
    ensures t.Node? && t.l.Nil? && t.r.Nil? ==> Size(t) == 1
    ensures t.Node? && t.l.Nil? ==> Size(t) == 1 + Size(t.r)
  {
  }

  lemma {:induction false} WentLeft(src: Tree<int>, s: Ctx<int>, t: Tree<int>, d: Ctx<Cell>, u: Tree<Cell>, used: seq<nat>, v: Tree<Cell>)
    requires Arrived(src, s, t, d, u, used) && t.l.Node? && v.Node? && v == Node(Cell(v.x.id, t.l.x), Nil, Nil, t.l.red)
    ensures var used' := used + [v.x.id];
      && Arrived(src, InLeft(s, t.x, t.r, t.red), t.l, InLeft(d, u.x, Nil, u.red), v, used')
      && |used'| <= Size(src)
  {
  }

  lemma {:induction false} WentRight(src: Tree<int>, s: Ctx<int>, t: Tree<int>, d: Ctx<Cell>, u: Tree<Cell>, used: seq<nat>, v: Tree<Cell>)
    requires Arrived(src, s, t, d, u, used) && t.l.Nil? && t.r.Node?
    requires v.Node? && v == Node(Cell(v.x.id, t.r.x), Nil, Nil, t.r.red)
    ensures var used' := used + [v.x.id];
      && Arrived(src, InRight(s, t.l, t.x, t.red), t.r, InRight(d, Nil, u.x, u.red), v, used')
      && |used'| <= Size(src)
  {
    assert IdsAround(d) + [u.x.id] + [] == IdsAround(d) + [u.x.id];
    OneNode(t);
    OneNode(t.r);
    hide Size;
  }

  lemma {:induction false} WentOn(src: Tree<int>, s: Ctx<int>, t: Tree<int>, d: Ctx<Cell>, u: Tree<Cell>, used: seq<nat>,
               s': Ctx<int>, t': Tree<int>, d': Ctx<Cell>, v: Tree<Cell>)
    requires Arrived(src, s, t, d, u, used) && t.l.Nil? && t.r.Nil?
    requires Plug(s', t') == Plug(s, t) && Follows(s', d') && t'.Node? && Size(t') + Ahead(s') == Ahead(s)
    requires IdsAround(d') == IdsAround(d) + [u.x.id]
    requires v.Node? && v == Node(Cell(v.x.id, t'.x), Nil, Nil, t'.red)
    ensures var used' := used + [v.x.id]; Arrived(src, s', t', d', v, used') && |used'| <= Size(src)
  {
    hide Plug, Follows, IdsAround, Ahead;
    OneNode(t);
    OneNode(t');
    hide Size;
  }

  lemma LeafDone(t: Tree<int>, u: Tree<Cell>)
    requires t.Node? && t.l.Nil? && t.r.Nil? && u.Node? && u.l.Nil? && u.r.Nil? && u.x.data == t.x && u.red == t.red
    ensures Data(u) == t && Ids(u) == [u.x.id]
  {
  }

  /** `operator=` and `copy_tree_from`: the copy has the data, shape and colours of the source.  Its cells, in the order
      of their making, are the nodes of the old tree in the order of taking and then fresh ones; what is left of the old
      tree is destroyed. */
  method CopyAssign(previous: Tree<nat>, src: Tree<int>, supply0: nat)
    returns (copy: Tree<Cell>, destroyed: seq<nat>, supply: nat)
    ensures Data(copy) == src
    ensures |Ids(copy)| == Size(src)
    ensures if Size(src) <= |Post(previous)| then supply == supply0 && Ids(copy) + destroyed == Post(previous)
            else
              && destroyed == [] && supply == supply0 + Size(src) - |Post(previous)|
              && Ids(copy)[..|Post(previous)|] == Post(previous)
              && forall i :: |Post(previous)| <= i < Size(src) ==> Ids(copy)[i] == supply0 + i - |Post(previous)|
  {
    var leaf: Option<Leaf> := None;
    supply := supply0;
    if previous.Node? {
      var first := DescendToLeaf(Top, previous);
      leaf := Some(first);
      assert Post(previous) + [] == Post(previous) && [] + Rest(leaf) == Rest(leaf);
    }
    ghost var used: seq<nat> := [];
    if src.Nil? {
      destroyed := ClearRest(leaf);
      return Nil, destroyed, supply;
    }
    var s: Ctx<int>, t, d: Ctx<Cell> := Top, src, Top;
    var u: Tree<Cell>;
    leaf, supply, u, used := Fill(leaf, supply, t, used, Post(previous), supply0);
    assert IdsAround(Top) + [u.x.id] == [u.x.id];
    var found := true;
    while true
      invariant Arrived(src, s, t, d, u, used) && Taken(used, Post(previous), supply0, leaf, supply)
      decreases Size(src) - |used|
    {
      hide Arrived, Taken, Plug, Follows, IdsAround, Ahead, Size, Post, Rest, LeafInv, Ids, Data;
      Open(src, s, t, d, u, used);
      ghost var t1, u1, used1 := t, u, used;
      if t.l.Node? {
        ghost var s1, d1 := s, d;
        s, d := InLeft(s, t.x, t.r, t.red), InLeft(d, u.x, Nil, u.red);
        t := t.l;
        leaf, supply, u, used := Fill(leaf, supply, t, used, Post(previous), supply0);
        WentLeft(src, s1, t1, d1, u1, used1, u);
        continue;
      }
      if t.r.Node? {
        ghost var s1, d1 := s, d;
        s, d := InRight(s, t.l, t.x, t.red), InRight(d, Nil, u.x, u.red);
        t := t.r;
        leaf, supply, u, used := Fill(leaf, supply, t, used, Post(previous), supply0);
        WentRight(src, s1, t1, d1, u1, used1, u);
        continue;
      }
      ghost var s1, d1 := s, d;
      LeafDone(t, u);
      found, s, t, d, u := Climb(s, t, d, u);
      if !found {
        assert used == Ids(u) && |used| == Size(src);
        break;
      }
      leaf, supply, u, used := Fill(leaf, supply, t, used, Post(previous), supply0);
      WentOn(src, s1, t1, d1, u1, used1, s, t, d, u);
    }
    destroyed := ClearRest(leaf);
    copy := u;
  }

  /** A node is taken and gets the data and the colour of source node t. */
  method Fill(leaf: Option<Leaf>, supply: nat, t: Tree<int>, ghost used: seq<nat>, ghost previous: seq<nat>, ghost first: nat)
    returns (next: Option<Leaf>, supply': nat, u: Tree<Cell>, ghost used': seq<nat>)
    requires t.Node? && Taken(used, previous, first, leaf, supply)
    ensures u.Node? && u == Node(Cell(u.x.id, t.x), Nil, Nil, t.red) && used' == used + [u.x.id]
    ensures Taken(used', previous, first, next, supply')
  {
    var id;
    id, next, supply' := TakeNode(leaf, supply);
    TakenStep(used, previous, first, leaf, supply, id, next, supply');
    u := Node(Cell(id, t.x), Nil, Nil, t.red);
    used' := used + [id];
  }

  lemma {:induction false} PostPlug(c: Ctx<nat>, t: Tree<nat>)
    requires LeftFirst(c)
    ensures Post(Plug(c, t)) == Post(t) + PostAround(c)
  {
    match c
    case Top =>
    case InLeft(up, x, r, red) =>
      PostPlug(up, Node(x, t, r, red));
      assert (Post(t) + Post(r) + [x]) + PostAround(up) == Post(t) + (Post(r) + [x] + PostAround(up));
    case InRight(up, l, x, red) =>
      PostPlug(up, Node(x, l, t, red));
      assert (Post(l) + Post(t) + [x]) + PostAround(up) == Post(t) + ([x] + PostAround(up));
  }

  /** What is left of the old tree is destroyed, if anything. */
  method ClearRest(leaf: Option<Leaf>) returns (destroyed: seq<nat>)
    requires LeafInv(leaf)
    ensures destroyed == Rest(leaf)
  {
    if leaf.None? { return []; }
    var rest := Plug(leaf.value.c, Node(leaf.value.id, Nil, Nil, false));
    PostPlug(leaf.value.c, Node(leaf.value.id, Nil, Nil, false));
    destroyed := ClearSubtree(rest);
  }

  /** `clear_subtree`: each node is destroyed once, after its children. */
  method ClearSubtree(t: Tree<nat>) returns (destroyed: seq<nat>)
    requires t.Node?
    ensures destroyed == Post(t)
  {
    var leaf := DescendToLeaf(Top, t);
    destroyed := [];
    assert Post(t) + [] == Post(t);
    while true
      invariant LeftFirst(leaf.c) && destroyed + ([leaf.id] + PostAround(leaf.c)) == Post(t)
      decreases |PostAround(leaf.c)|
    {
      destroyed := destroyed + [leaf.id];
      var next := Detach(leaf);
      if next.None? { return; }
      leaf := next.value;
    }
  }
}
