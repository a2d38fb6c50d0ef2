/**
  A run that puts back a node it has taken out: 10, 7, 15 and 3 are inserted, 7 is taken, 1 and 20 are inserted, and
  the same node 7 again.  It carries the depth 2, and the depths above it are wrong from then on.
 */
module AVLPutBack {
  import opened Collections
  import opened AVLNodes
  import opened AVLShapes
  import opened AVLBalance
  import opened AVLOrder
  import opened AVLOperations
  import opened AVLResults
  import opened AVLCarried
  import opened AVLRuns

  // ------------------------------------------------------------------------ a way up without rotations

  predicate Calm(c: Path, t: Tree) {
    && t.Fork? && Near(Depth(t.left), Depth(t.right))
    && (!c.Top? ==> Calm(c.up, Above(c, Node(t.left, t.node, t.right))))
  }

  /** The tree with the depths on the way up set anew. */
  function Refreshed(c: Path, t: Tree): Tree
    requires t.Fork?
    decreases c
  {
    var u := Node(t.left, t.node, t.right);
    if c.Top? then u else Refreshed(c.up, Above(c, u))
  }

  lemma {:induction false} CalmClimb(readsRoot: bool, c: Path, t: Tree)
    requires SoundBelow(t) && SoundSides(c) && Calm(c, t)
    ensures Climb(readsRoot, c, t) == Some(Refreshed(c, t))
    decreases c
  {
    StillIs(readsRoot, c, t);
    SoundNode(t.left, t.node, t.right);
    if !c.Top? {
      CalmClimb(readsRoot, c.up, Above(c, Node(t.left, t.node, t.right)));
    }
  }

  lemma {:induction false} CalmPut(readsRoot: bool, t: Tree, n: AVLNode, d: int, c: Path, r: Tree)
    requires Sound(t) && d >= 1 && Find(Top, t, n.key) == Place(c, Nil) && !c.Top?
    requires Calm(c.up, Above(c, Leaf(n, d))) && Refreshed(c.up, Above(c, Leaf(n, d))) == r
    ensures Insert(readsRoot, t, n, d) == Added(r)
  {
    FindIsInside(Top, t, n.key);
    CalmClimb(readsRoot, c.up, Above(c, Leaf(n, d)));
  }

  /** A node that has never been in the tree carries the depth 1. */
  lemma {:induction false} CarriesNothing(readsRoot: bool, ops: seq<Operation>, trees: seq<Tree>, k: nat, n: AVLNode)
    requires k <= |ops| && |trees| == |ops| + 1
    requires forall j | 0 <= j < k :: n !in Inorder(trees[j])
    ensures Carried(readsRoot, ops, trees, k, n) == Some(1)
  {
    if k > 0 {
      CarriesNothing(readsRoot, ops, trees, k - 1, n);
    }
  }

  // -------------------------------------------------------------------------------------- the run

  /** Six nodes with the keys of the run. */
  predicate Named(n: seq<AVLNode>) {
    |n| == 6 && n[0].key == 10 && n[1].key == 7 && n[2].key == 15 && n[3].key == 3 && n[4].key == 1 && n[5].key == 20
  }

  function Ops(n: seq<AVLNode>): seq<Operation>
    requires Named(n)
  {
    [Put(n[0]), Put(n[1]), Put(n[2]), Put(n[3]), Take(7), Put(n[4]), Put(n[5]), Put(n[1])]
  }

  function Trees(n: seq<AVLNode>): seq<Tree>
    requires Named(n)
  {
    var left := Fork(Leaf(n[4], 1), n[3], 2, Nil);
    var right := Fork(Nil, n[2], 2, Leaf(n[5], 1));
    [Nil,
     Leaf(n[0], 1),
     Fork(Leaf(n[1], 1), n[0], 2, Nil),
     Fork(Leaf(n[1], 1), n[0], 2, Leaf(n[2], 1)),
     Fork(Fork(Leaf(n[3], 1), n[1], 2, Nil), n[0], 3, Leaf(n[2], 1)),
     Fork(Leaf(n[3], 1), n[0], 2, Leaf(n[2], 1)),
     Fork(left, n[0], 3, Leaf(n[2], 1)),
     Fork(left, n[0], 3, right),
     Fork(Fork(Leaf(n[4], 1), n[3], 3, Leaf(n[1], 2)), n[0], 4, right)]
  }

  lemma {:induction false} ForkOrder(l: Tree, n: AVLNode, d: int, r: Tree, a: seq<AVLNode>, b: seq<AVLNode>)
    requires Inorder(l) == a && Inorder(r) == b
    ensures Inorder(Fork(l, n, d, r)) == a + [n] + b
  {
  }

  /** The nodes of the trees in order. */
  lemma {:induction false} Orders(n: seq<AVLNode>)
    requires Named(n)
    ensures var t := Trees(n);
            && Inorder(t[0]) == [] && Inorder(t[1]) == [n[0]] && Inorder(t[2]) == [n[1], n[0]]
            && Inorder(t[3]) == [n[1], n[0], n[2]] && Inorder(t[4]) == [n[3], n[1], n[0], n[2]]
            && Inorder(t[5]) == [n[3], n[0], n[2]] && Inorder(t[6]) == [n[4], n[3], n[0], n[2]]
            && Inorder(t[7]) == [n[4], n[3], n[0], n[2], n[5]]
  {
    var t := Trees(n);
    forall i | 0 <= i < 6 ensures Inorder(Leaf(n[i], 1)) == [n[i]] {
      LeafShape(n[i], 1);
    }
    ForkOrder(t[2].left, n[0], 2, Nil, [n[1]], []);
    ForkOrder(t[3].left, n[0], 2, t[3].right, [n[1]], [n[2]]);
    ForkOrder(t[4].left.left, n[1], 2, Nil, [n[3]], []);
    ForkOrder(t[4].left, n[0], 3, t[4].right, [n[3], n[1]], [n[2]]);
    ForkOrder(t[5].left, n[0], 2, t[5].right, [n[3]], [n[2]]);
    ForkOrder(t[6].left.left, n[3], 2, Nil, [n[4]], []);
    ForkOrder(t[6].left, n[0], 3, t[6].right, [n[4], n[3]], [n[2]]);
    ForkOrder(Nil, n[2], 2, t[7].right.right, [], [n[5]]);
    ForkOrder(t[7].left, n[0], 3, t[7].right, [n[4], n[3]], [n[2], n[5]]);
  }

  lemma {:induction false} Shapes(n: seq<AVLNode>)
    requires Named(n)
    ensures var t := Trees(n);
            && (forall i | 0 <= i < 8 :: Exact(t[i]))
            && Sound(t[8]) && t[8].depth == 4 && Height(t[8]) == 3
  {
    var t := Trees(n);
    forall i | 0 <= i < 6 ensures Exact(Leaf(n[i], 1)) && Height(Leaf(n[i], 1)) == 1 {
      LeafShape(n[i], 1);
    }
    LeafShape(n[1], 2);
    ExactNode(t[4].left.left, n[1], Nil);
    ExactNode(t[6].left.left, n[3], Nil);
    ExactNode(Nil, n[2], t[7].right.right);
    assert Height(t[8].right) == 2 && Height(t[8].left) == 2;
  }

  lemma {:induction false} Puts(readsRoot: bool, n: seq<AVLNode>)
    requires Named(n)
    ensures var t := Trees(n);
            && (forall i | 0 <= i < 8 :: Exact(t[i]))
            && Insert(readsRoot, t[0], n[0], 1) == Added(t[1]) && Insert(readsRoot, t[1], n[1], 1) == Added(t[2])
            && Insert(readsRoot, t[2], n[2], 1) == Added(t[3]) && Insert(readsRoot, t[3], n[3], 1) == Added(t[4])
  {
    Shapes(n);
    var t := Trees(n);
    var at2 := LeftOf(Top, n[0], 1, Nil);
    assert Find(Top, t[1], 7) == Find(at2, Nil, 7);
    CalmPut(readsRoot, t[1], n[1], 1, at2, t[2]);
    var at3 := RightOf(Top, t[2].left, n[0], 2);
    assert Find(Top, t[2], 15) == Find(at3, Nil, 15);
    CalmPut(readsRoot, t[2], n[2], 1, at3, t[3]);
    var at7 := LeftOf(Top, n[0], 2, t[3].right);
    var at4 := LeftOf(at7, n[1], 1, Nil);
    assert Find(Top, t[3], 3) == Find(at7, t[3].left, 3) == Find(at4, Nil, 3);
    CalmPut(readsRoot, t[3], n[3], 1, at4, t[4]);
  }

  lemma {:induction false} MorePuts(readsRoot: bool, n: seq<AVLNode>)
    requires Named(n)
    ensures var t := Trees(n);
            && (forall i | 0 <= i < 8 :: Exact(t[i]))
            && Insert(readsRoot, t[5], n[4], 1) == Added(t[6]) && Insert(readsRoot, t[6], n[5], 1) == Added(t[7])
            && Insert(readsRoot, t[7], n[1], 2) == Added(t[8])
  {
    Shapes(n);
    var t := Trees(n);
    var at3 := LeftOf(Top, n[0], 2, t[5].right);
    var at1 := LeftOf(at3, n[3], 1, Nil);
    assert Find(Top, t[5], 1) == Find(at3, t[5].left, 1) == Find(at1, Nil, 1);
    CalmPut(readsRoot, t[5], n[4], 1, at1, t[6]);
    var at15 := RightOf(Top, t[6].left, n[0], 3);
    var at20 := RightOf(at15, Nil, n[2], 1);
    assert Find(Top, t[6], 20) == Find(at15, t[6].right, 20) == Find(at20, Nil, 20);
    CalmPut(readsRoot, t[6], n[5], 1, at20, t[7]);
    var to3 := LeftOf(Top, n[0], 3, t[7].right);
    var at7 := RightOf(to3, Leaf(n[4], 1), n[3], 2);
    assert Find(Top, t[7], 7) == Find(to3, t[7].left, 7) == Find(at7, Nil, 7);
    LeafShape(n[1], 2);
    CalmPut(readsRoot, t[7], n[1], 2, at7, t[8]);
  }

  lemma {:induction false} Taking(readsRoot: bool, n: seq<AVLNode>)
    requires Named(n)
    ensures var t := Trees(n);
            && Exact(t[4]) && Extract(readsRoot, t[4], 7) == Extracted(n[1], 2, t[5])
            && LoneChildIsLeaf(Victim(t[4], 7).tree)
  {
    Shapes(n);
    var t := Trees(n);
    var at := LeftOf(Top, n[0], 3, t[4].right);
    assert Find(Top, t[4], 7) == Find(at, t[4].left, 7) == Place(at, t[4].left);
    LeafShape(n[3], 1);
    CalmClimb(readsRoot, at, Leaf(n[3], 1));
    ExtractIs(readsRoot, t[4], 7, at, t[4].left);
  }

  lemma {:induction false} CarriesTwo(readsRoot: bool, n: seq<AVLNode>)
    requires Named(n)
    ensures Carried(readsRoot, Ops(n), Trees(n), 7, n[1]) == Some(2)
  {
    var ops, t := Ops(n), Trees(n);
    Orders(n);
    Taking(readsRoot, n);
    assert Leaves(readsRoot, t[4], ops[4], n[1]) == Some(2);
    assert n[1] in Inorder(t[4]) && n[1] !in Inorder(t[5]) && n[1] !in Inorder(t[6]) && n[1] !in Inorder(t[7]);
    assert Carried(readsRoot, ops, t, 5, n[1]) == Some(2);
    assert Carried(readsRoot, ops, t, 6, n[1]) == Some(2);
  }

  lemma {:induction false} PutStep(readsRoot: bool, n: seq<AVLNode>, i: nat, m: AVLNode, d: int)
    requires Named(n) && i < 8 && Ops(n)[i] == Put(m) && d >= 1 && Carried(readsRoot, Ops(n), Trees(n), i, m) == Some(d)
    requires Sound(Trees(n)[i]) && Insert(readsRoot, Trees(n)[i], m, d) == Added(Trees(n)[i + 1])
    ensures IsStep(readsRoot, Ops(n), Trees(n), i)
  {
  }

  /** The node has not been in the tree before the operation at `i`. */
  predicate IsNew(n: seq<AVLNode>, i: nat, m: AVLNode)
    requires Named(n) && i <= 8
  {
    forall j | 0 <= j < i :: m !in Inorder(Trees(n)[j])
  }

  lemma {:induction false} FirstNew(n: seq<AVLNode>)
    requires Named(n)
    ensures IsNew(n, 0, n[0]) && IsNew(n, 1, n[1]) && IsNew(n, 2, n[2]) && IsNew(n, 3, n[3])
  {
    Orders(n);
  }

  lemma {:induction false} LastNew(n: seq<AVLNode>)
    requires Named(n)
    ensures IsNew(n, 5, n[4]) && IsNew(n, 6, n[5])
  {
    Orders(n);
  }

  predicate StepAt(readsRoot: bool, n: seq<AVLNode>, i: nat)
    requires Named(n) && i < 8 && Sound(Trees(n)[i]) && Ops(n)[i].Put?
  {
    Insert(readsRoot, Trees(n)[i], Ops(n)[i].node, 1) == Added(Trees(n)[i + 1])
  }

  lemma {:induction false} NewStep(readsRoot: bool, n: seq<AVLNode>, i: nat)
    requires Named(n) && i < 8 && Ops(n)[i].Put? && IsNew(n, i, Ops(n)[i].node)
    requires Sound(Trees(n)[i]) && StepAt(readsRoot, n, i)
    ensures IsStep(readsRoot, Ops(n), Trees(n), i)
  {
    CarriesNothing(readsRoot, Ops(n), Trees(n), i, Ops(n)[i].node);
    PutStep(readsRoot, n, i, Ops(n)[i].node, 1);
  }

  lemma {:induction false} StepsAt(readsRoot: bool, n: seq<AVLNode>)
    requires Named(n)
    ensures forall i | 0 <= i < 8 :: Sound(Trees(n)[i])
    ensures forall i | 0 <= i < 4 :: StepAt(readsRoot, n, i)
    ensures StepAt(readsRoot, n, 5) && StepAt(readsRoot, n, 6)
  {
    Puts(readsRoot, n);
    MorePuts(readsRoot, n);
  }

  lemma {:induction false} Steps(readsRoot: bool, n: seq<AVLNode>, i: nat)
    requires Named(n) && i < 8
    ensures IsStep(readsRoot, Ops(n), Trees(n), i)
  {
    StepsAt(readsRoot, n);
    if i < 4 {
      FirstNew(n);
      NewStep(readsRoot, n, i);
    } else if i == 4 {
      Taking(readsRoot, n);
    } else if i < 7 {
      LastNew(n);
      NewStep(readsRoot, n, i);
    } else {
      LastStep(readsRoot, n);
    }
  }

  lemma {:induction false} LastStep(readsRoot: bool, n: seq<AVLNode>)
    requires Named(n)
    ensures IsStep(readsRoot, Ops(n), Trees(n), 7)
  {
    MorePuts(readsRoot, n);
    CarriesTwo(readsRoot, n);
    PutStep(readsRoot, n, 7, n[1], 2);
  }

  /** It is a run, as written or not, and its last insertion leaves depths that are not exact. */
  lemma {:induction false} PutBack(readsRoot: bool, n: seq<AVLNode>)
    requires Named(n)
    ensures IsRun(readsRoot, Ops(n), Trees(n)) && Carried(readsRoot, Ops(n), Trees(n), 7, n[1]) == Some(2)
    ensures Trees(n)[8].depth == 4 && Height(Trees(n)[8]) == 3 && !Exact(Trees(n)[8])
  {
    Shapes(n);
    forall i | 0 <= i < |Ops(n)| ensures IsStep(readsRoot, Ops(n), Trees(n), i) {
      Steps(readsRoot, n, i);
    }
    CarriesTwo(readsRoot, n);
  }
}
