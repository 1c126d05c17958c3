/** Correctness of whole insertions and removals: the specified ones, which rebalance up to
    the root, and the code's, which stop early. */
module RbLoops {
  import opened Arith
  import opened Lists
  import opened RbSpec
  import opened RbTheory

  /** The elements that come before, and after, those of the hole. */
  function Before<N>(c: Ctx<N>): seq<N> {
    match c
    case Top => []
    case InLeft(up, _, _, _) => Before(up)
    case InRight(up, l, x, _) => Before(up) + Inorder(l) + [x]
  }

  function After<N>(c: Ctx<N>): seq<N> {
    match c
    case Top => []
    case InLeft(up, x, r, _) => [x] + Listed(r, After(up))
    case InRight(up, _, _, _) => After(up)
  }

  lemma {:induction false} ListedAppends<N>(t: Tree<N>, tail: seq<N>)
    ensures Listed(t, tail) == Inorder(t) + tail
  {
    if t.Node? {
      ListedAppends(t.r, tail);
      ListedAppends(t.l, [t.x] + Listed(t.r, tail));
      ListedAppends(t.l, [t.x] + Listed(t.r, []));
      Associates([t.x], Inorder(t.r), tail);
      Associates(Inorder(t.l), [t.x] + Inorder(t.r), tail);
    }
  }

  lemma Regroup<N>(a: seq<N>, b: seq<N>, c: seq<N>, d: seq<N>)
    ensures a + (b + (c + d)) == (a + b + c) + d
  {
  }

  lemma {:induction false} PlugOrder<N>(c: Ctx<N>, t: Tree<N>)
    ensures Inorder(Plug(c, t)) == Before(c) + Listed(t, After(c))
  {
    match c
    case Top =>
    case InLeft(up, x, r, red) =>
      PlugOrder(up, Node(x, t, r, red));
    case InRight(up, l, x, red) =>
      PlugOrder(up, Node(x, l, t, red));
      ListedAppends(l, [x] + Listed(t, After(up)));
      Regroup(Before(up), Inorder(l), [x], Listed(t, After(up)));
  }

  lemma {:induction false} OkInside<N>(c: Ctx<N>, t: Tree<N>)
    requires Ok(Plug(c, t))
    ensures Ok(t)
  {
    match c
    case Top =>
    case InLeft(up, x, r, red) => OkInside(up, Node(x, t, r, red));
    case InRight(up, l, x, red) => OkInside(up, Node(x, l, t, red));
  }

  /** A subtree may be replaced by one of the same black height that is red only if it was. */
  lemma {:induction false} OkReplace<N>(c: Ctx<N>, t: Tree<N>, t': Tree<N>)
    requires Ok(Plug(c, t)) && Ok(t') && Bh(t') == Bh(t) && (Red(t') ==> Red(t))
    ensures Ok(Plug(c, t'))
  {
    OkInside(c, t);
    match c
    case Top =>
    case InLeft(up, x, r, red) =>
      OkInside(up, Node(x, t, r, red));
      OkReplace(up, Node(x, t, r, red), Node(x, t', r, red));
    case InRight(up, l, x, red) =>
      OkInside(up, Node(x, l, t, red));
      OkReplace(up, Node(x, l, t, red), Node(x, l, t', red));
  }

  // ----- Insertion -----

  /** The specified insertion keeps the invariant and the order, from any pair of subtrees related
      by rb_insert_rel; this is the claim of the header comment. */
  lemma {:induction false} InsertUpCorrect<N>(c: Ctx<N>, t: Tree<N>, t': Tree<N>, b: bool)
    requires Ok(Plug(c, t)) && Ok(t') && InsertRel(t, t', b)
    ensures Ok(InsertUp(c, t', b)) && Inorder(InsertUp(c, t', b)) == Inorder(Plug(c, t'))
  {
    match c
    case Top =>
    case InLeft(up, x, r, red) =>
      OkInside(up, Node(x, t, r, red));
      InsertLeftStep(x, t, t', r, red, b);
      InsertLeftOrder(x, t', r, red, b, After(up));
      var (t2, b2) := InsertRebalanceLeft(x, t', r, red, b);
      InsertUpCorrect(up, Node(x, t, r, red), t2, b2);
      PlugOrder(up, t2);
      PlugOrder(up, Node(x, t', r, red));
    case InRight(up, l, x, red) =>
      OkInside(up, Node(x, l, t, red));
      InsertRightStep(x, l, t, t', red, b);
      InsertRightOrder(x, l, t', red, b, After(up));
      var (t2, b2) := InsertRebalanceRight(x, l, t', red, b);
      InsertUpCorrect(up, Node(x, l, t, red), t2, b2);
      PlugOrder(up, t2);
      PlugOrder(up, Node(x, l, t', red));
  }

  /** What the pruned rebalancing code assumes of its arguments: a red X is only visited with equal
      heights, and otherwise the modified subtree is black with exactly one red child. */
  predicate PrunedInsert<N>(t': Tree<N>, red: bool, bhEqual: bool) {
    !bhEqual ==> !red && t'.Node? && !t'.red && Red(t'.l) != Red(t'.r)
  }

  /** Between two iterations of the code's loop: t' has replaced t in c. */
  predicate InsertState<N>(c: Ctx<N>, t: Tree<N>, t': Tree<N>, bhEqual: bool) {
    && Ok(Plug(c, t)) && Ok(t') && t'.Node?
    && if bhEqual then Bh(t') == Bh(t) && t'.red
       else Bh(t') == Bh(t) + 1 && !t'.red && Red(t'.l) != Red(t'.r) && Red(t)
  }

  /** Every iteration meets the pruned assumptions, and either stops with a valid tree
      or reaches the next iteration's state. */
  lemma InsertLoopStepLeft<N>(c: Ctx<N>, t: Tree<N>, t': Tree<N>, b: bool)
    requires InsertState(c, t, t', b) && c.InLeft?
    ensures PrunedInsert(t', c.red, b)
    ensures var (t2, b2) := InsertRebalanceLeft(c.x, t', c.r, c.red, b);
            if b2 && (c.red || !Red(t2)) then Ok(Plug(c.up, t2))
            else InsertState(c.up, Node(c.x, t, c.r, c.red), t2, b2)
  {
    var old' := Node(c.x, t, c.r, c.red);
    OkInside(c.up, old');
    InsertLeftStep(c.x, t, t', c.r, c.red, b);
    var (t2, b2) := InsertRebalanceLeft(c.x, t', c.r, c.red, b);
    if b2 && (c.red || !Red(t2)) {
      OkReplace(c.up, old', t2);
    }
  }

  lemma InsertLoopStepRight<N>(c: Ctx<N>, t: Tree<N>, t': Tree<N>, b: bool)
    requires InsertState(c, t, t', b) && c.InRight?
    ensures PrunedInsert(t', c.red, b)
    ensures var (t2, b2) := InsertRebalanceRight(c.x, c.l, t', c.red, b);
            if b2 && (c.red || !Red(t2)) then Ok(Plug(c.up, t2))
            else InsertState(c.up, Node(c.x, c.l, t, c.red), t2, b2)
  {
    var old' := Node(c.x, c.l, t, c.red);
    OkInside(c.up, old');
    InsertRightStep(c.x, c.l, t, t', c.red, b);
    var (t2, b2) := InsertRebalanceRight(c.x, c.l, t', c.red, b);
    if b2 && (c.red || !Red(t2)) {
      OkReplace(c.up, old', t2);
    }
  }

  /** Stopping early is sound. */
  lemma {:induction false} InsertLoopCorrect<N>(c: Ctx<N>, t: Tree<N>, t': Tree<N>, b: bool)
    requires InsertState(c, t, t', b)
    ensures Ok(InsertLoop(c, t', b)) && Inorder(InsertLoop(c, t', b)) == Inorder(Plug(c, t'))
    decreases c
  {
    match c
    case Top =>
    case InLeft(up, x, r, red) =>
      InsertLoopStepLeft(c, t, t', b);
      InsertLeftOrder(x, t', r, red, b, After(up));
      var (t2, b2) := InsertRebalanceLeft(x, t', r, red, b);
      if !(b2 && (red || !Red(t2))) { InsertLoopCorrect(up, Node(x, t, r, red), t2, b2); }
      PlugOrder(up, t2);
      PlugOrder(up, Node(x, t', r, red));
    case InRight(up, l, x, red) =>
      InsertLoopStepRight(c, t, t', b);
      InsertRightOrder(x, l, t', red, b, After(up));
      var (t2, b2) := InsertRebalanceRight(x, l, t', red, b);
      if !(b2 && (red || !Red(t2))) { InsertLoopCorrect(up, Node(x, l, t, red), t2, b2); }
      PlugOrder(up, t2);
      PlugOrder(up, Node(x, l, t', red));
  }

  /** `emplace_left_raw` and `emplace_right_raw`: hang a red leaf into an empty position
      and rebalance only if its parent is red. */
  function Attached<N>(c: Ctx<N>, n: N): Tree<N>
    requires !c.Top?
  {
    var leaf := Node(n, Nil, Nil, true);
    if c.red then InsertLoop(c, leaf, true) else Plug(c, leaf)
  }

  lemma AttachedCorrect<N>(c: Ctx<N>, n: N)
    requires !c.Top? && Ok(Plug(c, Nil))
    ensures Ok(Attached(c, n)) && Inorder(Attached(c, n)) == Before(c) + [n] + After(c)
  {
    var leaf := Node(n, Nil, Nil, true);
    PlugOrder(c, leaf);
    if c.red {
      InsertLoopCorrect(c, Nil, leaf, true);
    } else {
      match c
      case InLeft(up, x, r, red) =>
        OkInside(up, Node(x, Nil, r, red));
        OkReplace(up, Node(x, Nil, r, red), Node(x, leaf, r, red));
      case InRight(up, l, x, red) =>
        OkInside(up, Node(x, l, Nil, red));
        OkReplace(up, Node(x, l, Nil, red), Node(x, l, leaf, red));
    }
  }

  /** Above the point where the code stops, the specification recolours red ancestors and then
      recolours them back; only a red root stays blackened. */
  lemma {:induction false} InsertUpAfterStop<N>(c: Ctx<N>, t: Tree<N>)
    requires Ok(Plug(c, t)) && t.Node? && !t.red
    ensures InsertUp(c, t, true) == Blacken(Plug(c, t))
    decreases c
  {
    match c
    case Top =>
    case InLeft(up, x, r, red) =>
      OkInside(up, Node(x, t, r, red));
      if !red { InsertUpAfterStop(up, Node(x, t, r, red)); } else { InsertUpAfterRed(up, Node(x, t, r, red)); }
    case InRight(up, l, x, red) =>
      OkInside(up, Node(x, l, t, red));
      if !red { InsertUpAfterStop(up, Node(x, l, t, red)); } else { InsertUpAfterRed(up, Node(x, l, t, red)); }
  }

  lemma {:induction false} InsertUpAfterRed<N>(c: Ctx<N>, t: Tree<N>)
    requires Ok(Plug(c, t)) && Red(t)
    ensures InsertUp(c, Blacken(t), false) == Blacken(Plug(c, t))
    decreases c
  {
    match c
    case Top =>
    case InLeft(up, x, r, red) =>
      OkInside(up, Node(x, t, r, red));
      InsertUpAfterStop(up, Node(x, t, r, red));
    case InRight(up, l, x, red) =>
      OkInside(up, Node(x, l, t, red));
      InsertUpAfterStop(up, Node(x, l, t, red));
  }

  lemma {:induction false} InsertLoopIsSpec<N>(c: Ctx<N>, t: Tree<N>, t': Tree<N>, b: bool)
    requires InsertState(c, t, t', b)
    ensures Blacken(InsertUp(c, t', b)) == Blacken(InsertLoop(c, t', b))
    decreases c
  {
    match c
    case Top =>
    case InLeft(up, x, r, red) =>
      InsertLoopStepLeft(c, t, t', b);
      OkInside(up, Node(x, t, r, red));
      InsertLeftStep(x, t, t', r, red, b);
      var (t2, b2) := InsertRebalanceLeft(x, t', r, red, b);
      if b2 && (red || !Red(t2)) { InsertUpAfterStop(up, t2); } else { InsertLoopIsSpec(up, Node(x, t, r, red), t2, b2); }
    case InRight(up, l, x, red) =>
      InsertLoopStepRight(c, t, t', b);
      OkInside(up, Node(x, l, t, red));
      InsertRightStep(x, l, t, t', red, b);
      var (t2, b2) := InsertRebalanceRight(x, l, t', red, b);
      if b2 && (red || !Red(t2)) { InsertUpAfterStop(up, t2); } else { InsertLoopIsSpec(up, Node(x, l, t, red), t2, b2); }
  }

  /** The code's insertion is the specified one up to the colour of the root. */
  lemma AttachedIsSpec<N>(c: Ctx<N>, n: N)
    requires !c.Top? && Ok(Plug(c, Nil))
    ensures Blacken(Attached(c, n)) == Blacken(InsertUp(c, Node(n, Nil, Nil, true), true))
  {
    var leaf := Node(n, Nil, Nil, true);
    if c.red {
      InsertLoopIsSpec(c, Nil, leaf, true);
    } else {
      AttachedCorrect(c, n);
      match c
      case InLeft(up, x, r, red) => InsertUpAfterStop(up, Node(x, leaf, r, false));
      case InRight(up, l, x, red) => InsertUpAfterStop(up, Node(x, l, leaf, false));
    }
  }

  function OtherChild<N>(c: Ctx<N>): Tree<N>
    requires !c.Top?
  {
    if c.InLeft? then c.r else c.l
  }

  /** The recolouring that starts at a red parent of the hole climbs to the root: on the way up red nodes and
      black nodes with two red children alternate. */
  predicate Climbs<N>(c: Ctx<N>) {
    c.Top? || (c.red && (c.up.Top? || (Red(OtherChild(c.up)) && Climbs(c.up.up))))
  }

  lemma {:induction false} RootColour<N>(c: Ctx<N>, t: Tree<N>, t': Tree<N>)
    requires !c.Top?
    ensures Red(Plug(c, t)) == Red(Plug(c, t'))
  {
    match c
    case InLeft(up, x, r, red) =>
      if !up.Top? { RootColour(up, Node(x, t, r, red), Node(x, t', r, red)); }
    case InRight(up, l, x, red) =>
      if !up.Top? { RootColour(up, Node(x, l, t, red), Node(x, l, t', red)); }
  }

  /** Where the code stops below the root, code and specification differ exactly if the root is red. */
  lemma StopMeetsSpecIff<N>(c: Ctx<N>, t: Tree<N>, t2: Tree<N>)
    requires Ok(Plug(c, t2)) && t2.Node? && !t2.red && (c.Top? ==> !Red(t))
    ensures Plug(c, t2) == InsertUp(c, t2, true) <==> !Red(Plug(c, t))
  {
    InsertUpAfterStop(c, t2);
    if !c.Top? { RootColour(c, t, t2); }
  }

  /** The tree around the hole of c, which the rebalancing of c's innermost node starts from. */
  function Around<N>(c: Ctx<N>, t: Tree<N>): Tree<N>
    requires !c.Top?
  {
    if c.InLeft? then Node(c.x, t, c.r, c.red) else Node(c.x, c.l, t, c.red)
  }

  function InsertStepResult<N>(c: Ctx<N>, t: Tree<N>, bhEqual: bool): (Tree<N>, bool)
    requires !c.Top?
  {
    if c.InLeft? then InsertRebalanceLeft(c.x, t, c.r, c.red, bhEqual)
    else InsertRebalanceRight(c.x, c.l, t, c.red, bhEqual)
  }

  lemma InsertLoopStep<N>(c: Ctx<N>, t: Tree<N>, t': Tree<N>, b: bool)
    requires InsertState(c, t, t', b) && !c.Top?
    ensures PrunedInsert(t', c.red, b)
    ensures var (t2, b2) := InsertStepResult(c, t', b);
            && t2.Node? && Plug(c, t) == Plug(c.up, Around(c, t))
            && InsertUp(c, t', b) == InsertUp(c.up, t2, b2)
            && if b2 && (c.red || !Red(t2)) then Ok(Plug(c.up, t2)) && InsertLoop(c, t', b) == Plug(c.up, t2)
               else InsertState(c.up, Around(c, t), t2, b2) && InsertLoop(c, t', b) == InsertLoop(c.up, t2, b2)
  {
    if c.InLeft? { InsertLoopStepLeft(c, t, t', b); } else { InsertLoopStepRight(c, t, t', b); }
  }

  /** Two levels at a time: below a red parent the new subtree stays red only through a red uncle. */
  lemma {:induction false} LoopMeetsSpecIff<N>(c: Ctx<N>, t: Tree<N>, t': Tree<N>)
    requires InsertState(c, t, t', true)
    ensures InsertLoop(c, t', true) == InsertUp(c, t', true) <==> c.Top? || !Red(Plug(c, t)) || Climbs(c)
    decreases c
  {
    if !c.Top? {
      InsertLoopStep(c, t, t', true);
      var (t2, b2) := InsertStepResult(c, t', true);
      var up, t0 := c.up, Around(c, t);
      if !c.red {
        StopMeetsSpecIff(up, t0, t2);
      } else if !up.Top? {
        OkInside(up, t0);
        OkInside(up.up, Around(up, t0));
        InsertLoopStep(up, t0, t2, false);
        var (t3, b3) := InsertStepResult(up, t2, false);
        if Red(OtherChild(up)) {
          LoopMeetsSpecIff(up.up, Around(up, t0), t3);
        } else {
          StopMeetsSpecIff(up.up, Around(up, t0), t3);
        }
      }
    }
  }

  /** Code and specification build the same tree exactly if the root is black before the call or the
      recolouring climbs to it. */
  lemma AttachedIsSpecIff<N>(c: Ctx<N>, n: N)
    requires !c.Top? && Ok(Plug(c, Nil))
    ensures Attached(c, n) == InsertUp(c, Node(n, Nil, Nil, true), true) <==> !Red(Plug(c, Nil)) || Climbs(c)
  {
    var leaf := Node(n, Nil, Nil, true);
    if c.red {
      LoopMeetsSpecIff(c, Nil, leaf);
    } else {
      AttachedCorrect(c, n);
      StopMeetsSpecIff(c.up, Around(c, Nil), Around(c, leaf));
    }
  }

  /** The colour does differ: below a red root the specification goes on to blacken it. */
  lemma SpecBlackensRoot()
    ensures var c := InLeft(InLeft(Top, 2, Node(3, Nil, Nil, false), true), 1, Nil, false);
            Ok(Plug(c, Nil)) && Red(Attached(c, 0)) && !Red(InsertUp(c, Node(0, Nil, Nil, true), true))
  {
    var n3 := Node(3, Nil, Nil, false);
    var up := InLeft(Top, 2, n3, true);
    var c := InLeft(up, 1, Nil, false);
    var leaf := Node(0, Nil, Nil, true);
    var t1 := Node(1, Nil, Nil, false);
    assert Plug(c, Nil) == Plug(up, t1) == Node(2, t1, n3, true);
    assert Ok(t1) && Bh(t1) == 1 && Ok(n3) && Bh(n3) == 1;
    assert Plug(c, leaf) == Plug(up, Node(1, leaf, Nil, false)) == Node(2, Node(1, leaf, Nil, false), n3, true);
    InsertUpAfterStopNeeds(c, leaf);
  }

  lemma InsertUpAfterStopNeeds(c: Ctx<int>, leaf: Tree<int>)
    requires c == InLeft(InLeft(Top, 2, Node(3, Nil, Nil, false), true), 1, Nil, false)
    requires leaf == Node(0, Nil, Nil, true)
    ensures !Red(InsertUp(c, leaf, true))
  {
    assert InsertUp(c, leaf, true) == InsertUp(c.up, Node(1, leaf, Nil, false), true);
  }

  // ----- Removal -----

  lemma {:induction false} DeleteUpCorrect<N>(c: Ctx<N>, t: Tree<N>, t': Tree<N>, b: bool)
    requires Ok(Plug(c, t)) && Ok(t') && DeleteRel(t, t', b)
    ensures var (u, b') := DeleteUp(c, t', b);
            Ok(u) && DeleteRel(Plug(c, t), u, b') && Inorder(u) == Inorder(Plug(c, t'))
  {
    match c
    case Top =>
    case InLeft(up, x, r, red) =>
      OkInside(up, Node(x, t, r, red));
      DeleteLeftStep(x, t, t', r, red, b);
      DeleteLeftOrder(x, t', r, red, b, After(up));
      var (t2, b2) := DeleteRebalanceLeft(x, t', r, red, b);
      DeleteUpCorrect(up, Node(x, t, r, red), t2, b2);
      PlugOrder(up, t2);
      PlugOrder(up, Node(x, t', r, red));
    case InRight(up, l, x, red) =>
      OkInside(up, Node(x, l, t, red));
      DeleteRightStep(x, l, t, t', red, b);
      DeleteRightOrder(x, l, t', red, b, After(up));
      var (t2, b2) := DeleteRebalanceRight(x, l, t', red, b);
      DeleteUpCorrect(up, Node(x, l, t, red), t2, b2);
      PlugOrder(up, t2);
      PlugOrder(up, Node(x, l, t', red));
  }

  /** With equal heights the specification rebuilds what it was given. */
  lemma {:induction false} DeleteUpEqual<N>(c: Ctx<N>, t: Tree<N>, t': Tree<N>)
    requires Ok(Plug(c, t)) && (Red(t') ==> Red(t))
    ensures DeleteUp(c, t', true) == (Plug(c, t'), true)
  {
    match c
    case Top =>
    case InLeft(up, x, r, red) =>
      OkInside(up, Node(x, t, r, red));
      DeleteUpEqual(up, Node(x, t, r, red), Node(x, t', r, red));
    case InRight(up, l, x, red) =>
      OkInside(up, Node(x, l, t, red));
      DeleteUpEqual(up, Node(x, l, t, red), Node(x, l, t', red));
  }

  /** The early exit of the code's loop changes nothing: it computes what the specification does. */
  lemma {:induction false} DeficitLoopIsSpec<N>(c: Ctx<N>, t: Tree<N>, t': Tree<N>)
    requires Ok(Plug(c, t)) && Ok(t') && DeleteRel(t, t', false) && !Red(t')
    ensures DeficitLoop(c, t') == DeleteUp(c, t', false)
  {
    match c
    case Top =>
    case InLeft(up, x, r, red) =>
      var t0 := Node(x, t, r, red);
      OkInside(up, t0);
      DeleteLeftStep(x, t, t', r, red, false);
      var (t2, b2) := DeleteRebalanceLeft(x, t', r, red, false);
      if b2 { DeleteUpEqual(up, t0, t2); } else { DeficitLoopIsSpec(up, t0, t2); }
    case InRight(up, l, x, red) =>
      var t0 := Node(x, l, t, red);
      OkInside(up, t0);
      DeleteRightStep(x, l, t, t', red, false);
      var (t2, b2) := DeleteRebalanceRight(x, l, t', red, false);
      if b2 { DeleteUpEqual(up, t0, t2); } else { DeficitLoopIsSpec(up, t0, t2); }
  }

  lemma VacateIsSpec<N>(c: Ctx<N>, t: Tree<N>, p: Tree<N>)
    requires !c.Top? && Ok(Plug(c, t)) && t.Node?
    requires (t.l.Nil? && t.r == p) || (t.r.Nil? && t.l == p)
    ensures Vacate(c, p, t.red).0 == DeleteUp(c, p, t.red).0
  {
    OkInside(c, t);
    if t.red {
      DeleteUpEqual(c, t, p);
    } else if Red(p) {
      match c
      case InLeft(up, x, r, red) =>
        OkInside(up, Node(x, t, r, red));
        DeleteUpEqual(up, Node(x, t, r, red), Node(x, Blacken(p), r, red));
      case InRight(up, l, x, red) =>
        OkInside(up, Node(x, l, t, red));
        DeleteUpEqual(up, Node(x, l, t, red), Node(x, l, Blacken(p), red));
    } else {
      DeficitLoopIsSpec(c, t, p);
    }
  }

  /** Walking down the left spine and back up is `delete_leftmost`. */
  lemma {:induction false} LeftmostUp<N>(c: Ctx<N>, t: Tree<N>)
    requires t.Node?
    ensures var (t', b, v) := DeleteLeftmost(t); var y := Leftmost(t);
            && v == y.x
            && DeleteUp(LeftSpine(t, c), y.r, y.red) == DeleteUp(c, t', b)
    ensures Plug(LeftSpine(t, c), Leftmost(t)) == Plug(c, t)
    ensures LeftSpine(t, c).Top? ==> c.Top?
    decreases t
  {
    if t.l.Node? { LeftmostUp(InLeft(c, t.x, t.r, t.red), t.l); }
  }

  /** `remove_node` computes exactly the specified removal, except that a root whose only child
      is a right child is replaced by that child without blackening it. */
  lemma RemovedIsSpec<N>(c: Ctx<N>, t: Tree<N>)
    requires t.Node? && Ok(Plug(c, t))
    ensures var (t', b) := DeleteRoot(t); var spec := DeleteUp(c, t', b).0;
            spec == if c.Top? && t.l.Nil? then Blacken(Removed(c, t).0) else Removed(c, t).0
  {
    OkInside(c, t);
    Unfold2(t);
    if t.r.Nil? {
      if !c.Top? { VacateIsSpec(c, t, t.l); }
    } else if t.l.Nil? {
      assert t.r.l.Nil? && t.r.r.Nil? && t.r.red && !t.red by {
        Unfold2(t.r);
        Unfold(t.r.l);
        Unfold(t.r.r);
      }
      assert DeleteRoot(t) == (Blacken(t.r), true);
      if !c.Top? { DeleteUpEqual(c, t, Blacken(t.r)); }
    } else {
      var y := Leftmost(t.r);
      var c1 := InRight(c, t.l, y.x, t.red);
      var c2 := LeftSpine(t.r, c1);
      LeftmostUp(c1, t.r);
      OkReplace(c, t, Node(y.x, t.l, t.r, t.red));
      VacateIsSpec(c2, y, y.r);
    }
  }

  lemma {:induction false} DeleteLeftmostCorrect<N>(t: Tree<N>, tail: seq<N>)
    requires t.Node? && Ok(t)
    ensures var (t', b, v) := DeleteLeftmost(t);
            Ok(t') && DeleteRel(t, t', b) && Listed(t, tail) == [v] + Listed(t', tail)
  {
    if t.l.Nil? {
    } else {
      var (l', b, v) := DeleteLeftmost(t.l);
      DeleteLeftmostCorrect(t.l, [t.x] + Listed(t.r, tail));
      DeleteLeftStep(t.x, t.l, l', t.r, t.red, b);
      DeleteLeftOrder(t.x, l', t.r, t.red, b, tail);
    }
  }

  lemma DeleteRootCorrect<N>(t: Tree<N>, tail: seq<N>)
    requires t.Node? && Ok(t)
    ensures var (t', b) := DeleteRoot(t);
            Ok(t') && DeleteRel(t, t', b) && Listed(t', tail) == Listed(t.l, Listed(t.r, tail))
  {
    if t.r.Node? {
      var (r', b, v) := DeleteLeftmost(t.r);
      DeleteLeftmostCorrect(t.r, tail);
      DeleteRightStep(v, t.l, t.r, r', t.red, b);
      DeleteRightOrder(v, t.l, r', t.red, b, tail);
    }
  }

  /** Removing any node of any valid tree leaves a valid tree with exactly that element gone. */
  lemma RemovedCorrect<N>(c: Ctx<N>, t: Tree<N>)
    requires t.Node? && Ok(Plug(c, t))
    ensures Ok(Removed(c, t).0)
    ensures Inorder(Removed(c, t).0) == (Before(c) + Inorder(t.l)) + (Inorder(t.r) + After(c))
  {
    OkInside(c, t);
    var (t', b) := DeleteRoot(t);
    DeleteRootCorrect(t, After(c));
    DeleteUpCorrect(c, t, t', b);
    RemovedIsSpec(c, t);
    PlugOrder(c, t');
    WithoutRoot(c, t);
    UnblackenedCorrect(Removed(c, t).0);
  }

  lemma WithoutRoot<N>(c: Ctx<N>, t: Tree<N>)
    requires t.Node?
    ensures Before(c) + Listed(t.l, Listed(t.r, After(c))) == (Before(c) + Inorder(t.l)) + (Inorder(t.r) + After(c))
  {
    ListedAppends(t.l, Listed(t.r, After(c)));
    ListedAppends(t.r, After(c));
  }

  /** The in-order list, split at the root of t. */
  lemma SplitAtRoot<N>(c: Ctx<N>, t: Tree<N>)
    requires t.Node?
    ensures Inorder(Plug(c, t)) == (Before(c) + Inorder(t.l)) + ([t.x] + (Inorder(t.r) + After(c)))
  {
    hide Before, After, Inorder, Plug;
    PlugOrder(c, t);
    ListedAppends(t.r, After(c));
    ListedAppends(t.l, [t.x] + Listed(t.r, After(c)));
    Associates(Before(c), Inorder(t.l), [t.x] + (Inorder(t.r) + After(c)));
  }

  lemma UnblackenedCorrect<N>(t: Tree<N>)
    ensures Inorder(Blacken(t)) == Inorder(t)
    ensures Ok(Blacken(t)) && (Red(t) ==> t.l.Nil? && t.r.Nil?) ==> Ok(t)
  {
  }

  // ----- When the deficit reaches the root -----

  /** Every node on the way up from the hole is black, and so are its other child
      and that child's children. */
  predicate AllBlackAbove<N>(c: Ctx<N>) {
    match c
    case Top => true
    case InLeft(up, _, r, red) =>
      !red && r.Node? && !r.red && !Red(r.l) && !Red(r.r) && AllBlackAbove(up)
    case InRight(up, l, _, red) =>
      !red && l.Node? && !l.red && !Red(l.l) && !Red(l.r) && AllBlackAbove(up)
  }

  /** Told from the tree before the call: the position vacated by removing the root of t from c, the
      subtree moved into it, and the colour lost. */
  function Vacated<N>(c: Ctx<N>, t: Tree<N>): (Ctx<N>, Tree<N>, bool)
    requires t.Node?
  {
    if t.l.Nil? || t.r.Nil? then (c, if t.l.Node? then t.l else t.r, t.red)
    else
      var y := Leftmost(t.r);
      (LeftSpine(t.r, InRight(c, t.l, y.x, t.red)), y.r, y.red)
  }

  /** The condition under which the loop of `remove_node` is entered and never leaves by its return. */
  predicate DeficitEscapes<N>(c: Ctx<N>, t: Tree<N>)
    requires t.Node?
  {
    var (hole, p, wasRed) := Vacated(c, t);
    !hole.Top? && !wasRed && !Red(p) && AllBlackAbove(hole)
  }

  lemma {:induction false} LoopEscapesIff<N>(c: Ctx<N>, t: Tree<N>, t': Tree<N>)
    requires Ok(Plug(c, t)) && Ok(t') && DeleteRel(t, t', false) && !Red(t')
    ensures !DeficitLoop(c, t').1 <==> AllBlackAbove(c)
  {
    match c
    case Top =>
    case InLeft(up, x, r, red) =>
      var t0 := Node(x, t, r, red);
      OkInside(up, t0);
      DeleteLeftStep(x, t, t', r, red, false);
      var (t2, b2) := DeleteRebalanceLeft(x, t', r, red, false);
      if !b2 { LoopEscapesIff(up, t0, t2); }
    case InRight(up, l, x, red) =>
      var t0 := Node(x, l, t, red);
      OkInside(up, t0);
      DeleteRightStep(x, l, t, t', red, false);
      var (t2, b2) := DeleteRebalanceRight(x, l, t', red, false);
      if !b2 { LoopEscapesIff(up, t0, t2); }
  }

  lemma RemovedEscapesIff<N>(c: Ctx<N>, t: Tree<N>)
    requires t.Node? && Ok(Plug(c, t))
    ensures !Removed(c, t).1 <==> DeficitEscapes(c, t)
  {
    OkInside(c, t);
    if t.l.Nil? || t.r.Nil? {
      var p := if t.l.Node? then t.l else t.r;
      if !c.Top? && !t.red && !Red(p) { LoopEscapesIff(c, t, p); }
    } else {
      var y := Leftmost(t.r);
      var c1 := InRight(c, t.l, y.x, t.red);
      var c2 := LeftSpine(t.r, c1);
      LeftmostUp(c1, t.r);
      OkReplace(c, t, Node(y.x, t.l, t.r, t.red));
      OkInside(c2, y);
      if !y.red && !Red(y.r) { LoopEscapesIff(c2, y, y.r); }
    }
  }

  // ----- Height -----

  function Size<N>(t: Tree<N>): nat {
    if t.Nil? then 0 else Size(t.l) + 1 + Size(t.r)
  }

  function Height<N>(t: Tree<N>): nat {
    if t.Nil? then 0 else 1 + if Height(t.l) > Height(t.r) then Height(t.l) else Height(t.r)
  }

  /** A path is at most 2 * log2(n + 1) + 1 nodes long, a red root included. */
  lemma {:induction false} HeightBound<N>(t: Tree<N>)
    requires Ok(t)
    ensures Height(t) <= 2 * Bh(t) + if Red(t) then 1 else 0
    ensures Pow2(Bh(t)) <= Size(t) + 1
  {
    if t.Node? {
      HeightBound(t.l);
      HeightBound(t.r);
    }
  }
}
