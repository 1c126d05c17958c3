/** Runs of insertions and removals: the tree stays valid, its keys ascend and are the set that the operations describe, until
    a removal reaches the case the loop of rbtree.hpp has no exit for. */
module RbRun {
  import opened Lists
  import opened RbSpec
  import opened RbTheory
  import opened RbLoops

  /** The search path of `emplace_null` and `search`: where k is, or where it would be added. */
  function Descend(c: Ctx<int>, t: Tree<int>, k: int): (r: (Ctx<int>, Tree<int>))
    ensures Plug(r.0, r.1) == Plug(c, t)
    ensures r.0.Top? ==> c.Top? && r.1 == t
    decreases t
  {
    if t.Nil? || k == t.x then (c, t)
    else if k < t.x then Descend(InLeft(c, t.x, t.r, t.red), t.l, k)
    else Descend(InRight(c, t.l, t.x, t.red), t.r, k)
  }

  function InsertKey(t: Tree<int>, k: int): Tree<int> {
    if t.Nil? then Node(k, Nil, Nil, false)
    else
      var (c, hole) := Descend(Top, t, k);
      if hole.Node? then t else Attached(c, k)
  }

  /** The tree without k, and whether `remove_node` returned. */
  function RemoveKey(t: Tree<int>, k: int): (Tree<int>, bool) {
    var (c, sub) := Descend(Top, t, k);
    if sub.Nil? then (t, true) else Removed(c, sub)
  }

  datatype Op = Insert(k: int) | Remove(k: int)

  /** Every operation but the last has returned, and the tree is t after it. */
  function Run(t: Tree<int>, ops: seq<Op>): (Tree<int>, bool)
    decreases ops
  {
    if ops == [] then (t, true)
    else
      var (t', ok) := Step(t, ops[0]);
      if ok then Run(t', ops[1..]) else (t', false)
  }

  lemma {:induction false} RunKeepsOk(t: Tree<int>, ops: seq<Op>)
    requires Ok(t)
    ensures Ok(Run(t, ops).0)
    decreases ops
  {
    if ops != [] {
      var k := ops[0].k;
      var (c, sub) := Descend(Top, t, k);
      if ops[0].Insert? {
        if t.Node? && sub.Nil? { AttachedCorrect(c, k); }
        RunKeepsOk(InsertKey(t, k), ops[1..]);
      } else {
        if sub.Node? { RemovedCorrect(c, sub); }
        var (t', ok) := RemoveKey(t, k);
        if ok { RunKeepsOk(t', ops[1..]); }
      }
    }
  }

  // ----- What a run computes -----

  ghost predicate Ascending(s: seq<int>) {
    forall i, j :: 0 <= i < j < |s| ==> s[i] < s[j]
  }

  /** k belongs in the hole of c. */
  ghost predicate Between(c: Ctx<int>, k: int) {
    (forall x :: x in Before(c) ==> x < k) && forall x :: x in After(c) ==> k < x
  }

  /** The set that the operations make of keys. */
  function Described(keys: set<int>, ops: seq<Op>): set<int>
    decreases ops
  {
    if ops == [] then keys
    else Described(if ops[0].Insert? then keys + {ops[0].k} else keys - {ops[0].k}, ops[1..])
  }

  /** The last operation on a key decides. */
  lemma {:induction false} LastDecides(keys: set<int>, ops: seq<Op>, k: int)
    ensures k in Described(keys, ops) <==>
      || (k in keys && forall i :: 0 <= i < |ops| ==> ops[i].k != k)
      || exists i :: 0 <= i < |ops| && ops[i] == Insert(k) && forall j :: i < j < |ops| ==> ops[j].k != k
    decreases ops
  {
    if ops != [] {
      var rest := ops[1..];
      LastDecides(if ops[0].Insert? then keys + {ops[0].k} else keys - {ops[0].k}, rest, k);
      assert forall i :: 0 < i < |ops| ==> ops[i] == rest[i - 1];
      if i :| 0 <= i < |rest| && rest[i] == Insert(k) && forall j :: i < j < |rest| ==> rest[j].k != k {
        assert ops[i + 1] == Insert(k);
      }
    }
  }

  /** op removes a node of t, and its loop runs past the root. */
  ghost predicate Escapes(t: Tree<int>, op: Op) {
    op.Remove? && exists c, sub :: At(c, sub, t, op.k) && DeficitEscapes(c, sub)
  }

  ghost predicate At(c: Ctx<int>, sub: Tree<int>, t: Tree<int>, k: int) {
    sub.Node? && sub.x == k && Plug(c, sub) == t
  }

  lemma SplitAscending(a: seq<int>, x: int, b: seq<int>)
    requires Ascending(a + ([x] + b))
    ensures (forall y :: y in a ==> y < x) && (forall y :: y in b ==> x < y) && Ascending(a + b)
    ensures x !in a && x !in b
  {
    var s := a + ([x] + b);
    forall i | 0 <= i < |a| ensures a[i] < x { assert s[i] < s[|a|]; }
    forall i | 0 <= i < |b| ensures x < b[i] { assert s[|a|] < s[|a| + 1 + i]; }
    forall i, j | 0 <= i < j < |a + b| ensures (a + b)[i] < (a + b)[j] {
      assert s[if i < |a| then i else i + 1] < s[if j < |a| then j else j + 1];
    }
  }

  lemma InsertAscending(a: seq<int>, x: int, b: seq<int>)
    requires Ascending(a + b) && (forall y :: y in a ==> y < x) && forall y :: y in b ==> x < y
    ensures Ascending(a + [x] + b) && x !in a + b
  {
    var s := a + b;
    assert forall i :: 0 <= i < |a| ==> a[i] in a;
    assert forall i :: 0 <= i < |b| ==> b[i] in b;
    forall i, j | 0 <= i < j < |a + [x] + b| ensures (a + [x] + b)[i] < (a + [x] + b)[j] {
      if i != |a| && j != |a| {
        assert s[if i < |a| then i else i - 1] < s[if j < |a| then j else j - 1];
      } else if i == |a| {
        assert (a + [x] + b)[j] == b[j - |a| - 1];
      } else {
        assert (a + [x] + b)[i] == a[i];
      }
    }
  }

  /** Around a node: what comes before it, and what comes after it. */
  lemma NodeSplits(c: Ctx<int>, t: Tree<int>)
    requires t.Node? && Ascending(Inorder(Plug(c, t)))
    ensures Before(InRight(c, t.l, t.x, t.red)) == (Before(c) + Inorder(t.l)) + [t.x]
    ensures After(InLeft(c, t.x, t.r, t.red)) == [t.x] + (Inorder(t.r) + After(c))
    ensures forall y :: y in Before(c) + Inorder(t.l) ==> y < t.x
    ensures forall y :: y in Inorder(t.r) + After(c) ==> t.x < y
  {
    hide Ascending, Plug, Inorder;
    SplitAtRoot(c, t);
    ListedAppends(t.r, After(c));
    SplitAscending(Before(c) + Inorder(t.l), t.x, Inorder(t.r) + After(c));
  }

  lemma {:induction false} DescendBetween(c: Ctx<int>, t: Tree<int>, k: int)
    requires Ascending(Inorder(Plug(c, t))) && Between(c, k)
    ensures Between(Descend(c, t, k).0, k)
    decreases t
  {
    if t.Node? && k != t.x {
      NodeSplits(c, t);
      if k < t.x {
        DescendBetween(InLeft(c, t.x, t.r, t.red), t.l, k);
      } else {
        DescendBetween(InRight(c, t.l, t.x, t.red), t.r, k);
      }
    }
  }

  lemma {:induction false} DescendEnds(c: Ctx<int>, t: Tree<int>, k: int)
    ensures var sub := Descend(c, t, k).1; sub.Node? ==> sub.x == k
    decreases t
  {
    if t.Node? && k < t.x { DescendEnds(InLeft(c, t.x, t.r, t.red), t.l, k); }
    if t.Node? && k > t.x { DescendEnds(InRight(c, t.l, t.x, t.red), t.r, k); }
  }

  /** The descent takes the path to where the key is. */
  lemma {:induction false} DescendThrough(c: Ctx<int>, t: Tree<int>, k: int)
    requires Ascending(Inorder(Plug(c, t))) && k in Inorder(t)
    ensures Descend(Top, Plug(c, t), k) == Descend(c, t, k)
  {
    hide Ascending, Inorder;
    if c.Top? { return; }
    var t' := Around(c, t);
    InAround(c, t, k);
    DescendThrough(c.up, t', k);
    NodeSplits(c.up, t');
    if c.InLeft? {
      assert k in Before(c.up) + Inorder(t);
    } else {
      assert k in Inorder(t) + After(c.up);
    }
  }

  lemma InAround(c: Ctx<int>, t: Tree<int>, k: int)
    requires !c.Top? && k in Inorder(t)
    ensures k in Inorder(Around(c, t)) && Plug(c, t) == Plug(c.up, Around(c, t))
  {
    var t' := Around(c, t);
    ListedAppends(t'.l, [t'.x] + Inorder(t'.r));
  }

  lemma RootListed(t: Tree<int>)
    requires t.Node?
    ensures t.x in Inorder(t)
  {
    ListedAppends(t.l, [t.x] + Inorder(t.r));
  }

  lemma FoundAt(c: Ctx<int>, sub: Tree<int>, t: Tree<int>, k: int)
    requires At(c, sub, t, k) && Ascending(Inorder(t))
    ensures Descend(Top, t, k) == (c, sub)
  {
    RootListed(sub);
    DescendThrough(c, sub, k);
  }

  /** The keys, in order, around a position that a descent can end in. */
  lemma PositionSplits(c: Ctx<int>, sub: Tree<int>, k: int)
    requires Ascending(Inorder(Plug(c, sub))) && Between(c, k) && (sub.Node? ==> sub.x == k)
    ensures k in Inorder(Plug(c, sub)) <==> sub.Node?
    ensures sub.Nil? ==> Inorder(Plug(c, sub)) == Before(c) + After(c) && Ascending(Before(c) + [k] + After(c))
    ensures sub.Node? ==> var a, b := Before(c) + Inorder(sub.l), Inorder(sub.r) + After(c);
      Inorder(Plug(c, sub)) == a + ([k] + b) && Ascending(a + b) && k !in a && k !in b
  {
    hide Before, After, Plug, Inorder;
    if sub.Node? {
      SplitAtRoot(c, sub);
      SplitAscending(Before(c) + Inorder(sub.l), k, Inorder(sub.r) + After(c));
    } else {
      PlugOrder(c, sub);
      InsertAscending(Before(c), k, After(c));
    }
  }

  lemma BetweenTop(k: int)
    ensures Between(Top, k)
  {
  }

  /** One operation on the tree does to its keys what it does to a set, and it returns unless it escapes. */
  lemma StepIs(t: Tree<int>, op: Op)
    requires Ok(t) && Ascending(Inorder(t))
    ensures var (t', ok) := Step(t, op);
      && Ok(t') && Ascending(Inorder(t'))
      && SetOf(Inorder(t')) == (if op.Insert? then SetOf(Inorder(t)) + {op.k} else SetOf(Inorder(t)) - {op.k})
      && (op.Insert? == (op.k in Inorder(t)) ==> t' == t && ok)
      && (!ok <==> Escapes(t, op))
  {
    hide Ascending, Before, After, Removed, Attached, DeficitEscapes, Ok, Descend;
    var k := op.k;
    var (c, sub) := Descend(Top, t, k);
    BetweenTop(k);
    DescendBetween(Top, t, k);
    DescendEnds(Top, t, k);
    PositionSplits(c, sub, k);
    forall c2, sub2 | At(c2, sub2, t, k) ensures (c2, sub2) == (c, sub) { FoundAt(c2, sub2, t, k); }
    hide Between, Inorder;
    if op.Insert? {
      StepInsert(t, c, sub, k);
    } else {
      if sub.Node? {
        RemovedCorrect(c, sub);
        RemovedEscapesIff(c, sub);
        assert At(c, sub, t, k);
      }
    }
  }

  lemma StepInsert(t: Tree<int>, c: Ctx<int>, sub: Tree<int>, k: int)
    requires Ok(t) && Ascending(Inorder(t)) && (c, sub) == Descend(Top, t, k)
    requires k in Inorder(t) <==> sub.Node?
    requires sub.Nil? ==> Inorder(t) == Before(c) + After(c) && Ascending(Before(c) + [k] + After(c))
    ensures var t' := InsertKey(t, k);
      Ok(t') && Ascending(Inorder(t')) && SetOf(Inorder(t')) == SetOf(Inorder(t)) + {k} && (sub.Node? ==> t' == t)
  {
    hide Descend, Before, After, Attached;
    if t.Nil? {
      assert Listed<int>(Nil, []) == [] && Listed(Node(k, Nil, Nil, false), []) == [k];
    } else if sub.Nil? {
      AttachedCorrect(c, k);
    }
  }

  /** What the operations make of the tree: for as long as they return, the valid tree of the described set in ascending order;
      the first one that does not return removes the node it should and escapes. */
  lemma {:induction false} RunIs(t: Tree<int>, ops: seq<Op>) returns (n: nat)
    requires Ok(t) && Ascending(Inorder(t))
    ensures n <= |ops| && Ok(Run(t, ops).0) && Ascending(Inorder(Run(t, ops).0))
    ensures SetOf(Inorder(Run(t, ops).0)) == Described(SetOf(Inorder(t)), ops[..n])
    ensures if Run(t, ops).1 then n == |ops|
            else n > 0 && Run(t, ops[..n - 1]).1 && Escapes(Run(t, ops[..n - 1]).0, ops[n - 1])
    decreases ops
  {
    hide Ascending, Inorder, Escapes, Step, SetOf, Ok;
    if ops == [] { return 0; }
    var (t', ok) := Step(t, ops[0]);
    StepIs(t, ops[0]);
    if !ok {
      n := 1;
      assert ops[..1] == [ops[0]] && ops[..0] == [];
    } else {
      var m := RunIs(t', ops[1..]);
      n := m + 1;
      assert ops[..n][1..] == ops[1..][..m];
      if m > 0 { assert ops[..m][1..] == ops[1..][..m - 1]; }
    }
  }

  /** A run returns exactly if none of its operations escapes from the tree it finds. */
  lemma RunReturnsIff(t: Tree<int>, ops: seq<Op>)
    requires Ok(t) && Ascending(Inorder(t))
    ensures Run(t, ops).1 <==> forall m :: 0 <= m < |ops| && Run(t, ops[..m]).1 ==> !Escapes(Run(t, ops[..m]).0, ops[m])
  {
    var n := RunIs(t, ops);
    forall m | 0 <= m < |ops| && Run(t, ops[..m]).1 && Escapes(Run(t, ops[..m]).0, ops[m]) ensures !Run(t, ops).1 {
      RunAppend(t, ops, m);
      var k := RunIs(t, ops[..m]);
      StepIs(Run(t, ops[..m]).0, ops[m]);
    }
  }

  lemma {:induction false} RunAppend(t: Tree<int>, ops: seq<Op>, m: nat)
    requires m <= |ops| && Run(t, ops[..m]).1
    ensures Run(t, ops) == Run(Run(t, ops[..m]).0, ops[m..])
    decreases m
  {
    hide Step;
    if m == 0 {
      assert ops[0..] == ops && ops[..0] == [];
    } else {
      assert ops[..m][1..] == ops[1..][..m - 1] && ops[1..][m - 1..] == ops[m..];
      RunAppend(Step(t, ops[0]).0, ops[1..], m - 1);
    }
  }

  function B(k: int, l: Tree<int>, r: Tree<int>): Tree<int> { Node(k, l, r, false) }

  function R(k: int, l: Tree<int>, r: Tree<int>): Tree<int> { Node(k, l, r, true) }

  /** What one operation makes of t, if it returns. */
  function Step(t: Tree<int>, op: Op): (Tree<int>, bool) {
    if op.Insert? then (InsertKey(t, op.k), true) else RemoveKey(t, op.k)
  }

  lemma RunStep(t: Tree<int>, op: Op, rest: seq<Op>, t': Tree<int>)
    requires Step(t, op) == (t', true)
    ensures Run(t, [op] + rest) == Run(t', rest)
  {
    assert ([op] + rest)[1..] == rest;
  }

  /** Inserting 20, 10, 40, 30, 50, 35 and removing 35, 10, 20, 30 ends in a removal
      whose loop reaches the root. */
  lemma EscapingRun()
    ensures Run(Nil, [Insert(20), Insert(10), Insert(40), Insert(30), Insert(50), Insert(35),
                      Remove(35), Remove(10), Remove(20), Remove(30)])
         == (B(40, Nil, R(50, Nil, Nil)), false)
  {
    hide Run;
    var removals := [Remove(35), Remove(10), Remove(20), Remove(30)];
    InsertedRun(removals);
    RemovedRun();
    assert [Insert(20), Insert(10), Insert(40), Insert(30), Insert(50), Insert(35)] + removals
        == [Insert(20), Insert(10), Insert(40), Insert(30), Insert(50), Insert(35),
            Remove(35), Remove(10), Remove(20), Remove(30)];
  }

  /** The trees of the run. */
  function TreeAfter(n: nat): Tree<int> {
    if n == 0 then Nil
    else if n == 1 then B(20, Nil, Nil)
    else if n == 2 then B(20, R(10, Nil, Nil), Nil)
    else if n == 3 then B(20, R(10, Nil, Nil), R(40, Nil, Nil))
    else if n == 4 then R(20, B(10, Nil, Nil), B(40, R(30, Nil, Nil), Nil))
    else if n == 5 then R(20, B(10, Nil, Nil), B(40, R(30, Nil, Nil), R(50, Nil, Nil)))
    else if n == 6 then B(20, B(10, Nil, Nil), R(40, B(30, Nil, R(35, Nil, Nil)), B(50, Nil, Nil)))
    else if n == 7 then B(20, B(10, Nil, Nil), R(40, B(30, Nil, Nil), B(50, Nil, Nil)))
    else if n == 8 then B(40, B(30, R(20, Nil, Nil), Nil), B(50, Nil, Nil))
    else B(40, B(30, Nil, Nil), B(50, Nil, Nil))
  }

  lemma Step1()
    ensures Step(TreeAfter(0), Insert(20)) == (TreeAfter(1), true)
  {
  }

  lemma Step2()
    ensures Step(TreeAfter(1), Insert(10)) == (TreeAfter(2), true)
  {
  }

  lemma Step3()
    ensures Step(TreeAfter(2), Insert(40)) == (TreeAfter(3), true)
  {
  }

  lemma Step4()
    ensures Step(TreeAfter(3), Insert(30)) == (TreeAfter(4), true)
  {
  }

  lemma Step5()
    ensures Step(TreeAfter(4), Insert(50)) == (TreeAfter(5), true)
  {
  }

  lemma Step6()
    ensures Step(TreeAfter(5), Insert(35)) == (TreeAfter(6), true)
  {
  }

  lemma Step7()
    ensures Step(TreeAfter(6), Remove(35)) == (TreeAfter(7), true)
  {
  }

  lemma Step8()
    ensures Step(TreeAfter(7), Remove(10)) == (TreeAfter(8), true)
  {
  }

  lemma Step9()
    ensures Step(TreeAfter(8), Remove(20)) == (TreeAfter(9), true)
  {
  }

  lemma Step10()
    ensures Step(TreeAfter(9), Remove(30)) == (B(40, Nil, R(50, Nil, Nil)), false)
  {
  }

  lemma RemovedRun()
    ensures Run(TreeAfter(6), [Remove(35), Remove(10), Remove(20), Remove(30)]) == (B(40, Nil, R(50, Nil, Nil)), false)
  {
    hide Step, TreeAfter;
    Step7();
    Step8();
    Step9();
    Step10();
    RunStep(TreeAfter(6), Remove(35), [Remove(10), Remove(20), Remove(30)], TreeAfter(7));
    RunStep(TreeAfter(7), Remove(10), [Remove(20), Remove(30)], TreeAfter(8));
    RunStep(TreeAfter(8), Remove(20), [Remove(30)], TreeAfter(9));
    assert [Remove(35), Remove(10), Remove(20), Remove(30)] == [Remove(35)] + ([Remove(10)] + ([Remove(20)] + [Remove(30)]));
    assert [Remove(10), Remove(20), Remove(30)] == [Remove(10)] + ([Remove(20)] + [Remove(30)]);
    assert [Remove(20), Remove(30)] == [Remove(20)] + [Remove(30)];
  }

  lemma InsertedRun(rest: seq<Op>)
    ensures Run(Nil, [Insert(20), Insert(10), Insert(40), Insert(30), Insert(50), Insert(35)] + rest)
         == Run(TreeAfter(6), rest)
  {
    assert TreeAfter(0) == Nil;
    hide Step, TreeAfter;
    Step1();
    Step2();
    Step3();
    Step4();
    Step5();
    Step6();
    var i10, i40, i30, i50, i35 := [Insert(10)], [Insert(40)], [Insert(30)], [Insert(50)], [Insert(35)];
    RunStep(TreeAfter(0), Insert(20), i10 + (i40 + (i30 + (i50 + (i35 + rest)))), TreeAfter(1));
    RunStep(TreeAfter(1), Insert(10), i40 + (i30 + (i50 + (i35 + rest))), TreeAfter(2));
    RunStep(TreeAfter(2), Insert(40), i30 + (i50 + (i35 + rest)), TreeAfter(3));
    RunStep(TreeAfter(3), Insert(30), i50 + (i35 + rest), TreeAfter(4));
    RunStep(TreeAfter(4), Insert(50), i35 + rest, TreeAfter(5));
    RunStep(TreeAfter(5), Insert(35), rest, TreeAfter(6));
    assert [Insert(20), Insert(10), Insert(40), Insert(30), Insert(50), Insert(35)] + rest
        == [Insert(20)] + (i10 + (i40 + (i30 + (i50 + (i35 + rest)))));
  }
}
