/** What the specification in the header of rbtree.hpp and the code's pruned loops guarantee. */
module RbTheory {
  import opened RbSpec

  /** The elements of t in order, followed by tail. */
  function Listed<N>(t: Tree<N>, tail: seq<N>): seq<N> {
    if t.Nil? then tail else Listed(t.l, [t.x] + Listed(t.r, tail))
  }

  function Inorder<N>(t: Tree<N>): seq<N> { Listed(t, []) }

  /** Black nodes on a path from the root to Nil (along the left edge). */
  function Bh<N>(t: Tree<N>): nat {
    if t.Nil? then 0 else Bh(t.l) + if t.red then 0 else 1
  }

  /** The red-black invariant.  The root may be red. */
  predicate Ok<N>(t: Tree<N>) {
    t.Node? ==>
      && Ok(t.l) && Ok(t.r) && Bh(t.l) == Bh(t.r)
      && (t.red ==> !Red(t.l) && !Red(t.r))
  }

  lemma Unfold<N>(t: Tree<N>)
    ensures Ok(t) <==>
      (t.Node? ==> Ok(t.l) && Ok(t.r) && Bh(t.l) == Bh(t.r) && (t.red ==> !Red(t.l) && !Red(t.r)))
    ensures Bh(t) == if t.Nil? then 0 else Bh(t.l) + if t.red then 0 else 1
  {
  }

  /** The definitions of Ok and Bh at the root and at its two children. */
  lemma Unfold2<N>(t: Tree<N>)
    ensures Ok(t) <==>
      (t.Node? ==> Ok(t.l) && Ok(t.r) && Bh(t.l) == Bh(t.r) && (t.red ==> !Red(t.l) && !Red(t.r)))
    ensures Bh(t) == if t.Nil? then 0 else Bh(t.l) + if t.red then 0 else 1
    ensures t.Node? && t.l.Node? ==> (Ok(t.l) <==>
      (Ok(t.l.l) && Ok(t.l.r) && Bh(t.l.l) == Bh(t.l.r) && (t.l.red ==> !Red(t.l.l) && !Red(t.l.r))))
    ensures t.Node? && t.r.Node? ==> (Ok(t.r) <==>
      (Ok(t.r.l) && Ok(t.r.r) && Bh(t.r.l) == Bh(t.r.r) && (t.r.red ==> !Red(t.r.l) && !Red(t.r.r))))
    ensures t.Node? ==> Bh(t.l) == if t.l.Nil? then 0 else Bh(t.l.l) + if t.l.red then 0 else 1
    ensures t.Node? ==> Bh(t.r) == if t.r.Nil? then 0 else Bh(t.r.l) + if t.r.red then 0 else 1
    ensures Ok<N>(Nil) && Bh<N>(Nil) == 0
  {
    Unfold(t);
    if t.Node? {
      Unfold(t.l);
      Unfold(t.r);
    }
  }

  /** The definition of Listed at the root and at its two children. */
  lemma Spell<N>(t: Tree<N>, tail: seq<N>)
    requires t.Node?
    ensures Listed(t, tail) == Listed(t.l, [t.x] + Listed(t.r, tail))
    ensures t.l.Node? ==>
      var tail' := [t.x] + Listed(t.r, tail); Listed(t.l, tail') == Listed(t.l.l, [t.l.x] + Listed(t.l.r, tail'))
    ensures t.r.Node? ==> Listed(t.r, tail) == Listed(t.r.l, [t.r.x] + Listed(t.r.r, tail))
  {
  }

  // ----- Insertion, one step -----

  /** The relation rb_insert_rel between a subtree and its replacement. */
  predicate InsertRel<N>(t: Tree<N>, t': Tree<N>, bhEqual: bool) {
    if bhEqual then Bh(t') == Bh(t)
    else
      && Bh(t') == Bh(t) + 1 && t'.Node? && !t'.red
      && (Red(t'.l) && Red(t'.r) ==> Red(t))
  }

  lemma InsertLeftStep<N>(x: N, l: Tree<N>, l': Tree<N>, r: Tree<N>, red: bool, bhEqual: bool)
    requires Ok(Node(x, l, r, red)) && Ok(l') && InsertRel(l, l', bhEqual)
    ensures var (t, b) := InsertRebalanceLeft(x, l', r, red, bhEqual);
            Ok(t) && InsertRel(Node(x, l, r, red), t, b)
  {
    hide Ok, Bh;
    var (t, b) := InsertRebalanceLeft(x, l', r, red, bhEqual);
    Unfold2(Node(x, l, r, red));
    Unfold2(l');
    Unfold2(t);
  }

  lemma InsertRightStep<N>(x: N, l: Tree<N>, r: Tree<N>, r': Tree<N>, red: bool, bhEqual: bool)
    requires Ok(Node(x, l, r, red)) && Ok(r') && InsertRel(r, r', bhEqual)
    ensures var (t, b) := InsertRebalanceRight(x, l, r', red, bhEqual);
            Ok(t) && InsertRel(Node(x, l, r, red), t, b)
  {
    hide Ok, Bh;
    var (t, b) := InsertRebalanceRight(x, l, r', red, bhEqual);
    Unfold2(Node(x, l, r, red));
    Unfold2(r');
    Unfold2(t);
  }

  lemma InsertLeftOrder<N>(x: N, l: Tree<N>, r: Tree<N>, red: bool, bhEqual: bool, tail: seq<N>)
    requires !bhEqual ==> l.Node? && !(red && Red(l.l) && Red(l.r))
    ensures Listed(InsertRebalanceLeft(x, l, r, red, bhEqual).0, tail) == Listed(Node(x, l, r, red), tail)
  {
    var t := InsertRebalanceLeft(x, l, r, red, bhEqual).0;
    Spell(Node(x, l, r, red), tail);
    Spell(t, tail);
    if !bhEqual { Spell(l, [x] + Listed(r, tail)); }
    if Red(r) { Spell(r, tail); }
  }

  lemma InsertRightOrder<N>(x: N, l: Tree<N>, r: Tree<N>, red: bool, bhEqual: bool, tail: seq<N>)
    requires !bhEqual ==> r.Node? && !(red && Red(r.l) && Red(r.r))
    ensures Listed(InsertRebalanceRight(x, l, r, red, bhEqual).0, tail) == Listed(Node(x, l, r, red), tail)
  {
    var t := InsertRebalanceRight(x, l, r, red, bhEqual).0;
    Spell(Node(x, l, r, red), tail);
    Spell(t, tail);
    if !bhEqual { Spell(r, tail); }
    if Red(l) { Spell(l, [x] + Listed(r, tail)); }
  }

  // ----- Removal, one step -----

  predicate DeleteRel<N>(t: Tree<N>, t': Tree<N>, bhEqual: bool) {
    if bhEqual then Bh(t') == Bh(t) && (Red(t') ==> Red(t))
    else Bh(t') + 1 == Bh(t) && !Red(t)
  }

  lemma DeleteLeftStep<N>(x: N, l: Tree<N>, l': Tree<N>, r: Tree<N>, red: bool, bhEqual: bool)
    requires Ok(Node(x, l, r, red)) && Ok(l') && DeleteRel(l, l', bhEqual)
    ensures var (t, b) := DeleteRebalanceLeft(x, l', r, red, bhEqual);
            Ok(t) && DeleteRel(Node(x, l, r, red), t, b)
  {
    hide Ok, Bh;
    var (t, b) := DeleteRebalanceLeft(x, l', r, red, bhEqual);
    Unfold2(Node(x, l, r, red));
    Unfold2(l');
    Unfold2(r);
    if r.Node? { Unfold2(r.l); }
    Unfold2(t);
    if t.Node? { Unfold2(t.l); }
  }

  lemma DeleteRightStep<N>(x: N, l: Tree<N>, r: Tree<N>, r': Tree<N>, red: bool, bhEqual: bool)
    requires Ok(Node(x, l, r, red)) && Ok(r') && DeleteRel(r, r', bhEqual)
    ensures var (t, b) := DeleteRebalanceRight(x, l, r', red, bhEqual);
            Ok(t) && DeleteRel(Node(x, l, r, red), t, b)
  {
    hide Ok, Bh;
    var (t, b) := DeleteRebalanceRight(x, l, r', red, bhEqual);
    Unfold2(Node(x, l, r, red));
    Unfold2(l);
    Unfold2(r');
    if l.Node? { Unfold2(l.r); }
    Unfold2(t);
    if t.Node? { Unfold2(t.r); }
  }

  /** The branches the specification calls impossible are the ones DeletableLeft excludes. */
  predicate DeletableLeft<N>(l: Tree<N>, r: Tree<N>, red: bool, bhEqual: bool) {
    if bhEqual then !(red && Red(l))
    else Red(l) || (r.Node? && (!red && r.red ==> r.l.Node?))
  }

  predicate DeletableRight<N>(l: Tree<N>, r: Tree<N>, red: bool, bhEqual: bool) {
    DeletableLeft(r, Mirror(l), red, bhEqual)
  }

  /** Only the shape of the top two levels matters where Mirror is used. */
  function Mirror<N>(t: Tree<N>): Tree<N> {
    if t.Nil? then Nil else Node(t.x, t.r, t.l, t.red)
  }

  lemma DeleteLeftOrder<N>(x: N, l: Tree<N>, r: Tree<N>, red: bool, bhEqual: bool, tail: seq<N>)
    requires DeletableLeft(l, r, red, bhEqual)
    ensures Listed(DeleteRebalanceLeft(x, l, r, red, bhEqual).0, tail) == Listed(Node(x, l, r, red), tail)
  {
    var t := DeleteRebalanceLeft(x, l, r, red, bhEqual).0;
    Spell(Node(x, l, r, red), tail);
    Spell(t, tail);
    if Red(l) { Spell(l, [x] + Listed(r, tail)); }
    if r.Node? {
      Spell(r, tail);
      if r.l.Node? { Spell(r.l, [r.x] + Listed(r.r, tail)); }
      if t.l.Node? { Spell(t.l, [t.x] + Listed(t.r, tail)); }
    }
  }

  lemma DeleteRightOrder<N>(x: N, l: Tree<N>, r: Tree<N>, red: bool, bhEqual: bool, tail: seq<N>)
    requires DeletableRight(l, r, red, bhEqual)
    ensures Listed(DeleteRebalanceRight(x, l, r, red, bhEqual).0, tail) == Listed(Node(x, l, r, red), tail)
  {
    var t := DeleteRebalanceRight(x, l, r, red, bhEqual).0;
    Spell(Node(x, l, r, red), tail);
    Spell(t, tail);
    if Red(r) { Spell(r, tail); }
    if l.Node? {
      var tail' := [x] + Listed(r, tail);
      Spell(l, tail');
      if l.r.Node? { Spell(l.r, tail'); }
      if t.r.Node? { Spell(t.r, tail); }
    }
  }
}
