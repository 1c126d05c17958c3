/** Red-black trees as values, after the formal specification in the header comment of
    mini_libcxx/include/rbtree.hpp.  `Node(x, l, r, red)` is its `node x l r c`; the boolean of each
    result is its is_bh_equal.  Branches the specification calls impossible return `(Nil, true)` as there. */
module RbSpec {

  datatype Tree<N> = Nil | Node(x: N, l: Tree<N>, r: Tree<N>, red: bool)

  predicate Red<N>(t: Tree<N>) { t.Node? && t.red }

  function Blacken<N>(t: Tree<N>): Tree<N> {
    if t.Nil? then Nil else Node(t.x, t.l, t.r, false)
  }

  function InsertRebalanceLeft<N>(x: N, l: Tree<N>, r: Tree<N>, red: bool, bhEqual: bool): (Tree<N>, bool) {
    if bhEqual then (Node(x, l, r, false), !red)
    else if l.Nil? then (Nil, true)
    else if !red then
      if !Red(l.l) then
        if !Red(l.r) then (Node(x, Node(l.x, l.l, l.r, true), r, false), true)
        else if Red(r) then (Node(x, l, Blacken(r), true), true)
        else (Node(l.r.x, Node(l.x, l.l, l.r.l, true), Node(x, l.r.r, r, true), false), true)
      else if !Red(l.r) then
        if Red(r) then (Node(x, l, Blacken(r), true), true)
        else (Node(l.x, l.l, Node(x, l.r, r, true), false), true)
      else (Node(l.x, Blacken(l.l), Node(x, l.r, r, false), true), true)
    else
      if !Red(l.l) then
        if !Red(l.r) then (Node(x, Node(l.x, l.l, l.r, true), r, false), false)
        else (Node(l.r.x, Node(l.x, l.l, l.r.l, true), Node(x, l.r.r, r, true), false), false)
      else if !Red(l.r) then
        (Node(l.x, Node(l.l.x, l.l.l, l.l.r, true), Node(x, l.r, r, true), false), false)
      else (Nil, true)
  }

  function InsertRebalanceRight<N>(x: N, l: Tree<N>, r: Tree<N>, red: bool, bhEqual: bool): (Tree<N>, bool) {
    if bhEqual then (Node(x, l, r, false), !red)
    else if r.Nil? then (Nil, true)
    else if !red then
      if !Red(r.l) then
        if !Red(r.r) then (Node(x, l, Node(r.x, r.l, r.r, true), false), true)
        else if Red(l) then (Node(x, Blacken(l), r, true), true)
        else (Node(r.x, Node(x, l, r.l, true), r.r, false), true)
      else if !Red(r.r) then
        if Red(l) then (Node(x, Blacken(l), r, true), true)
        else (Node(r.l.x, Node(x, l, r.l.l, true), Node(r.x, r.l.r, r.r, true), false), true)
      else (Node(r.l.x, Node(x, l, r.l.l, false), Node(r.x, r.l.r, r.r, false), true), true)
    else
      if !Red(r.l) then
        if !Red(r.r) then (Node(x, l, Node(r.x, r.l, r.r, true), false), false)
        else (Node(r.x, Node(x, l, r.l, true), Node(r.r.x, r.r.l, r.r.r, true), false), false)
      else if !Red(r.r) then
        (Node(r.l.x, Node(x, l, r.l.l, true), Node(r.x, r.l.r, r.r, true), false), false)
      else (Nil, true)
  }

  function DeleteRebalanceLeft<N>(x: N, l: Tree<N>, r: Tree<N>, red: bool, bhEqual: bool): (Tree<N>, bool) {
    if bhEqual then
      if red && Red(l) then (Nil, true) else (Node(x, l, r, red), true)
    else if Red(l) then (Node(x, Blacken(l), r, red), true)
    else if r.Nil? then (Nil, true)
    else if !red then
      if !r.red then
        if !Red(r.l) then
          if !Red(r.r) then (Node(x, l, Node(r.x, r.l, r.r, true), false), false)
          else (Node(r.x, Node(x, l, r.l, false), Blacken(r.r), false), true)
        else (Node(r.l.x, Node(x, l, r.l.l, false), Node(r.x, r.l.r, r.r, false), false), true)
      else if r.l.Nil? then (Nil, true)
      else if !Red(r.l.l) then
        (Node(r.x, Node(r.l.x, Node(x, l, r.l.l, true), r.l.r, false), r.r, false), true)
      else
        (Node(r.x, Node(r.l.l.x, Node(x, l, r.l.l.l, false), Node(r.l.x, r.l.l.r, r.l.r, false), true), r.r, false), true)
    else
      if !Red(r.l) then (Node(r.x, Node(x, l, r.l, true), r.r, false), true)
      else (Node(r.l.x, Node(x, l, r.l.l, false), Node(r.x, r.l.r, r.r, false), true), true)
  }

  function DeleteRebalanceRight<N>(x: N, l: Tree<N>, r: Tree<N>, red: bool, bhEqual: bool): (Tree<N>, bool) {
    if bhEqual then
      if red && Red(r) then (Nil, true) else (Node(x, l, r, red), true)
    else if Red(r) then (Node(x, l, Blacken(r), red), true)
    else if l.Nil? then (Nil, true)
    else if !red then
      if !l.red then
        if !Red(l.r) then
          if !Red(l.l) then (Node(x, Node(l.x, l.l, l.r, true), r, false), false)
          else (Node(l.x, Blacken(l.l), Node(x, l.r, r, false), false), true)
        else (Node(l.r.x, Node(l.x, l.l, l.r.l, false), Node(x, l.r.r, r, false), false), true)
      else if l.r.Nil? then (Nil, true)
      else if !Red(l.r.r) then
        (Node(l.x, l.l, Node(l.r.x, l.r.l, Node(x, l.r.r, r, true), false), false), true)
      else
        (Node(l.x, l.l, Node(l.r.r.x, Node(l.r.x, l.r.l, l.r.r.l, false), Node(x, l.r.r.r, r, false), true), false), true)
    else
      if !Red(l.r) then (Node(l.x, l.l, Node(x, l.r, r, true), false), true)
      else (Node(l.r.x, Node(l.x, l.l, l.r.l, false), Node(x, l.r.r, r, false), true), true)
  }

  /** The tree without its leftmost element, the is_bh_equal flag, and that element. */
  function DeleteLeftmost<N>(t: Tree<N>): (Tree<N>, bool, N)
    requires t.Node?
  {
    if t.l.Nil? then (t.r, t.red, t.x)
    else
      var (l', b, v) := DeleteLeftmost(t.l);
      var (t', b') := DeleteRebalanceLeft(t.x, l', t.r, t.red, b);
      (t', b', v)
  }

  function DeleteRoot<N>(t: Tree<N>): (Tree<N>, bool) {
    if t.Nil? then (Nil, true)
    else if t.r.Nil? then (t.l, t.red)
    else
      var (r', b, v) := DeleteLeftmost(t.r);
      DeleteRebalanceRight(v, t.l, r', t.red, b)
  }

  // ----- A position in a tree -----

  /** A tree with a hole; each constructor names the parent of the hole and its other subtree. */
  datatype Ctx<N> =
    | Top
    | InLeft(up: Ctx<N>, x: N, r: Tree<N>, red: bool)
    | InRight(up: Ctx<N>, l: Tree<N>, x: N, red: bool)

  function Plug<N>(c: Ctx<N>, t: Tree<N>): Tree<N> {
    match c
    case Top => t
    case InLeft(up, x, r, red) => Plug(up, Node(x, t, r, red))
    case InRight(up, l, x, red) => Plug(up, Node(x, l, t, red))
  }

  /** Insertion as specified: rebalance every ancestor of the new leaf, up to the root. */
  function InsertUp<N>(c: Ctx<N>, t: Tree<N>, bhEqual: bool): Tree<N> {
    match c
    case Top => t
    case InLeft(up, x, r, red) =>
      var (t', b) := InsertRebalanceLeft(x, t, r, red, bhEqual);
      InsertUp(up, t', b)
    case InRight(up, l, x, red) =>
      var (t', b) := InsertRebalanceRight(x, l, t, red, bhEqual);
      InsertUp(up, t', b)
  }

  /** Removal as specified: rebalance every ancestor of the changed subtree, up to the root. */
  function DeleteUp<N>(c: Ctx<N>, t: Tree<N>, bhEqual: bool): (Tree<N>, bool) {
    match c
    case Top => (t, bhEqual)
    case InLeft(up, x, r, red) =>
      var (t', b) := DeleteRebalanceLeft(x, t, r, red, bhEqual);
      DeleteUp(up, t', b)
    case InRight(up, l, x, red) =>
      var (t', b) := DeleteRebalanceRight(x, l, t, red, bhEqual);
      DeleteUp(up, t', b)
  }

  // ----- The code's loops, which stop early -----

  /** `insert_rebalance`: stop once the heights agree and the old subtree root was red
      or the new one is black. */
  function InsertLoop<N>(c: Ctx<N>, t: Tree<N>, bhEqual: bool): Tree<N> {
    match c
    case Top => t
    case InLeft(up, x, r, red) =>
      var (t', b) := InsertRebalanceLeft(x, t, r, red, bhEqual);
      if b && (red || !Red(t')) then Plug(up, t') else InsertLoop(up, t', b)
    case InRight(up, l, x, red) =>
      var (t', b) := InsertRebalanceRight(x, l, t, red, bhEqual);
      if b && (red || !Red(t')) then Plug(up, t') else InsertLoop(up, t', b)
  }

  /** The loop of `remove_node` run on a subtree t that is one black node short.  The boolean
      tells whether some iteration made up for the missing node; if none did, the
      subtree handed to the next iteration is the whole tree. */
  function DeficitLoop<N>(c: Ctx<N>, t: Tree<N>): (Tree<N>, bool) {
    match c
    case Top => (t, false)
    case InLeft(up, x, r, red) =>
      var (t', b) := DeleteRebalanceLeft(x, t, r, red, false);
      if b then (Plug(up, t'), true) else DeficitLoop(up, t')
    case InRight(up, l, x, red) =>
      var (t', b) := DeleteRebalanceRight(x, l, t, red, false);
      if b then (Plug(up, t'), true) else DeficitLoop(up, t')
  }

  /** A node of colour wasRed with the single subtree p has been unlinked from c, and p put in its place. */
  function Vacate<N>(c: Ctx<N>, p: Tree<N>, wasRed: bool): (Tree<N>, bool) {
    if wasRed then (Plug(c, p), true)
    else if Red(p) then (Plug(c, Blacken(p)), true)
    else DeficitLoop(c, p)
  }

  function Leftmost<N>(t: Tree<N>): (m: Tree<N>)
    requires t.Node?
    ensures m.Node? && m.l.Nil?
  {
    if t.l.Nil? then t else Leftmost(t.l)
  }

  /** The context, inside a tree t that sits in c, of the leftmost node of t. */
  function LeftSpine<N>(t: Tree<N>, c: Ctx<N>): Ctx<N>
    requires t.Node?
  {
    if t.l.Nil? then c else LeftSpine(t.l, InLeft(c, t.x, t.r, t.red))
  }

  /** `remove_node` on the root of a subtree t in context c. */
  function Removed<N>(c: Ctx<N>, t: Tree<N>): (Tree<N>, bool)
    requires t.Node?
  {
    if t.l.Nil? || t.r.Nil? then
      var p := if t.l.Node? then t.l else t.r;
      if c.Top? then (p, true) else Vacate(c, p, t.red)
    else
      var y := Leftmost(t.r);
      Vacate(LeftSpine(t.r, InRight(c, t.l, y.x, t.red)), y.r, y.red)
  }
}
