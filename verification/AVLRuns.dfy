/**
  Whole runs of insertions and removals, nodes that are put back included, and how many nodes a tree of a given
  depth has.
 */
module AVLRuns {
  import opened Collections
  import opened AVLNodes
  import opened AVLShapes
  import opened AVLBalance
  import opened AVLOrder
  import opened AVLOperations
  import opened AVLResults
  import opened AVLCarried

  // -------------------------------------------------------------------------------- one operation

  datatype Operation = Put(node: AVLNode) | Take(key: int)

  /** A node that is put carries the depth `d`.  A crash ends the run. */
  function Apply(readsRoot: bool, t: Tree, op: Operation, d: int): Option<Tree>
    requires Sound(t) && d >= 1
  {
    match op
    case Put(n) =>
      (match Insert(readsRoot, t, n, d)
       case Present => Some(t)
       case Crashed => None
       case Added(r) => Some(r))
    case Take(key) =>
      (match Extract(readsRoot, t, key)
       case Absent => Some(t)
       case Broken => None
       case Extracted(_, _, r) => Some(r))
  }

  /** Whatever the loop asks for and whatever depths nodes carry, an operation keeps the order, and leaves depths that
      fit each other; they are exact if they were and the node is not put back with another depth than 1. */
  lemma {:induction false} ApplyKeeps(readsRoot: bool, t: Tree, op: Operation, d: int)
    requires Ordered(t) && Sound(t) && d >= 1
    ensures var r := Apply(readsRoot, t, op, d);
            r.Some? ==>
              && Ordered(r.value) && Sound(r.value)
              && (Exact(t) && (op.Put? && !HasKey(t, op.node.key) ==> d == 1) ==> Exact(r.value))
  {
    match op
    case Put(n) =>
      var _, _ := InsertKeeps(readsRoot, t, n, d);
    case Take(key) =>
      var _, _ := ExtractKeeps(readsRoot, t, key);
      ExtractOrdered(readsRoot, t, key);
  }

  /** What a caller sees of the tree. */
  function Keys(t: Tree): set<int> {
    set n | n in Inorder(t) :: n.key
  }

  function KeysAfter(keys: set<int>, op: Operation): set<int> {
    match op
    case Put(n) => keys + {n.key}
    case Take(key) => keys - {key}
  }

  /** The node that is put, if it is, lands. */
  predicate OpLands(t: Tree, op: Operation, d: int) {
    op.Put? && !HasKey(t, op.node.key) ==> Lands(Find(Top, t, op.node.key).path, d)
  }

  lemma {:induction false} PutExact(t: Tree, n: AVLNode, d: int)
    requires Good(t) && d >= 1
    ensures var r := Apply(false, t, Put(n), d);
            && r.Some? && Keys(r.value) == KeysAfter(Keys(t), Put(n))
               && (forall m | m in Inorder(t) :: m in Inorder(r.value))
            && (Exact(r.value) <==> OpLands(t, Put(n), d)) && (Exact(r.value) ==> Good(r.value))
  {
    var a, b := InsertKeeps(false, t, n, d);
    if !HasKey(t, n.key) {
      InsertCarried(t, n, d);
    }
  }

  lemma {:induction false} Found(t: Tree, key: int)
    requires Ordered(t) && Sound(t) && HasKey(t, key)
    ensures Victim(t, key).tree.Fork?
  {
    FindExact(t, key);
    VictimForks(t, key);
  }

  lemma {:induction false} KeysWithout(t: Tree, a: seq<AVLNode>, n: AVLNode, b: seq<AVLNode>, r: Tree)
    requires Ordered(t) && Inorder(t) == a + [n] + b && Inorder(r) == a + b
    ensures Keys(r) == Keys(t) - {n.key}
    ensures forall m | m in Inorder(t) && m != n :: m in Inorder(r)
  {
    SortedParts(a, n, b);
    assert forall m :: m in Inorder(t) <==> m in a || m == n || m in b;
    assert forall m :: m in Inorder(r) <==> m in a || m in b;
  }

  lemma {:induction false} TakeExact(t: Tree, key: int)
    requires Good(t)
    ensures var x := Extract(false, t, key);
            && !x.Broken? && (x.Extracted? <==> HasKey(t, key))
            && (x.Extracted? ==>
                 && Good(x.tree) && Keys(x.tree) == Keys(t) - {key} && LoneChildIsLeaf(Victim(t, key).tree)
                 && forall m | m in Inorder(t) && m != x.node :: m in Inorder(x.tree))
  {
    var a, b := ExtractKeeps(false, t, key);
    if HasKey(t, key) {
      Found(t, key);
      ExtractExact(false, t, key);
      ExtractOrdered(false, t, key);
      var x := Extract(false, t, key);
      KeysWithout(t, a, x.node, b, x.tree);
    }
  }

  /** An operation on an AVL tree that asks for the left child's balance never crashes and does to the keys what it
      should; the tree is an AVL tree with exact depths again exactly if the node that is put lands. */
  lemma {:induction false} ApplyGood(t: Tree, op: Operation, d: int)
    requires Good(t) && d >= 1
    ensures var r := Apply(false, t, op, d);
            && r.Some? && Keys(r.value) == KeysAfter(Keys(t), op)
            && (Exact(r.value) <==> OpLands(t, op, d)) && (Exact(r.value) ==> Good(r.value))
  {
    match op
    case Put(n) => PutExact(t, n, d);
    case Take(key) => TakeExact(t, key);
  }

  // ------------------------------------------------------------------------------------ whole runs

  /** The depth that a node carries when it leaves the tree; none if it was not returned, or carries children. */
  ghost function Leaves(readsRoot: bool, t: Tree, op: Operation, n: AVLNode): (d: Option<int>)
    ensures d.Some? ==> d.value >= 1
  {
    if op.Take? && Sound(t) && LoneChildIsLeaf(Victim(t, op.key).tree) then
      match Extract(readsRoot, t, op.key)
      case Extracted(m, d, _) => if m == n then VictimIs(t, op.key); Some(d) else None
      case _ => None
    else None
  }

  /** The depth that a node carries after the first `k` operations while it is not in the tree. */
  ghost function Carried(readsRoot: bool, ops: seq<Operation>, trees: seq<Tree>, k: nat, n: AVLNode): (d: Option<int>)
    requires k <= |ops| && |trees| == |ops| + 1
    ensures d.Some? ==> d.value >= 1
  {
    if k == 0 then Some(1)
    else if n in Inorder(trees[k - 1]) && n !in Inorder(trees[k]) then Leaves(readsRoot, trees[k - 1], ops[k - 1], n)
    else Carried(readsRoot, ops, trees, k - 1, n)
  }

  /** The depth with which the operation at `i` puts its node. */
  ghost function PutDepth(readsRoot: bool, ops: seq<Operation>, trees: seq<Tree>, i: nat): (d: int)
    requires i < |ops| && |trees| == |ops| + 1
    ensures d >= 1
  {
    if ops[i].Put? && Carried(readsRoot, ops, trees, i, ops[i].node).Some?
    then Carried(readsRoot, ops, trees, i, ops[i].node).value else 1
  }

  /** A node that carries children is not put back. */
  ghost predicate MayPut(readsRoot: bool, ops: seq<Operation>, trees: seq<Tree>, i: nat)
    requires i < |ops| && |trees| == |ops| + 1
  {
    ops[i].Put? && !HasKey(trees[i], ops[i].node.key) ==> Carried(readsRoot, ops, trees, i, ops[i].node).Some?
  }

  ghost predicate IsStep(readsRoot: bool, ops: seq<Operation>, trees: seq<Tree>, i: nat)
    requires i < |ops| && |trees| == |ops| + 1
  {
    && MayPut(readsRoot, ops, trees, i)
    && (Sound(trees[i]) ==>
         Apply(readsRoot, trees[i], ops[i], PutDepth(readsRoot, ops, trees, i)) == Some(trees[i + 1]))
  }

  /** A run without a crash from the empty tree, with the tree before and after every operation. */
  ghost predicate IsRun(readsRoot: bool, ops: seq<Operation>, trees: seq<Tree>) {
    && |trees| == |ops| + 1 && trees[0] == Nil
    && forall i | 0 <= i < |ops| :: IsStep(readsRoot, ops, trees, i)
  }

  /** The first `k` operations put no node with another depth than 1. */
  ghost predicate AllFresh(readsRoot: bool, ops: seq<Operation>, trees: seq<Tree>, k: nat)
    requires k <= |ops| && |trees| == |ops| + 1
  {
    forall i | 0 <= i < k :: PutDepth(readsRoot, ops, trees, i) == 1
  }

  /** On every run, as written or not, every tree is ordered, and its depths fit each other; they are exact as long as
      no node is put back that carries another depth than 1. */
  lemma {:induction false} RunKeeps(readsRoot: bool, ops: seq<Operation>, trees: seq<Tree>, k: nat)
    requires IsRun(readsRoot, ops, trees) && k <= |ops|
    ensures Ordered(trees[k]) && Sound(trees[k])
    ensures AllFresh(readsRoot, ops, trees, k) ==> Exact(trees[k])
  {
    if k > 0 {
      RunKeeps(readsRoot, ops, trees, k - 1);
      assert IsStep(readsRoot, ops, trees, k - 1);
      ApplyKeeps(readsRoot, trees[k - 1], ops[k - 1], PutDepth(readsRoot, ops, trees, k - 1));
    }
  }

  /** On every run that asks for the left child's balance, every tree takes every further operation without a crash. */
  lemma {:induction false} RunGoesOn(ops: seq<Operation>, trees: seq<Tree>, k: nat, next: Operation, d: int)
    requires IsRun(false, ops, trees) && k <= |ops| && d >= 1
    ensures Sound(trees[k]) && Apply(false, trees[k], next, d).Some?
  {
    RunKeeps(false, ops, trees, k);
    match next
    case Put(n) => NeverCrashes(trees[k], n, d, 0);
    case Take(key) =>
      if HasKey(trees[k], key) {
        var n :| n in Inorder(trees[k]) && n.key == key;
        NeverCrashes(trees[k], n, d, key);
      } else {
        var _, _ := ExtractKeeps(false, trees[k], key);
      }
  }

  /** The keys after the first `k` operations. */
  function RunKeys(ops: seq<Operation>, k: nat): set<int>
    requires k <= |ops|
  {
    if k == 0 then {} else KeysAfter(RunKeys(ops, k - 1), ops[k - 1])
  }

  ghost predicate LandsAt(ops: seq<Operation>, trees: seq<Tree>, i: nat)
    requires i < |ops| && |trees| == |ops| + 1
  {
    OpLands(trees[i], ops[i], PutDepth(false, ops, trees, i))
  }

  /** Every node lands that the first `k` operations put. */
  ghost predicate AllLand(ops: seq<Operation>, trees: seq<Tree>, k: nat)
    requires k <= |ops| && |trees| == |ops| + 1
  {
    forall i | 0 <= i < k :: LandsAt(ops, trees, i)
  }

  /** On every run that asks for the left child's balance, the trees are AVL trees with exact depths and hold the keys
      that they should, as long as every node that is put lands; and every node that has left the tree may be put
      back. */
  lemma {:induction false} RunBalanced(ops: seq<Operation>, trees: seq<Tree>, k: nat)
    requires IsRun(false, ops, trees) && k <= |ops| && AllLand(ops, trees, k)
    ensures Good(trees[k]) && Keys(trees[k]) == RunKeys(ops, k)
    ensures forall n :: Carried(false, ops, trees, k, n).Some?
  {
    if k > 0 {
      RunBalanced(ops, trees, k - 1);
      assert LandsAt(ops, trees, k - 1) && IsStep(false, ops, trees, k - 1);
      StepGood(ops, trees, k - 1);
      forall n ensures Carried(false, ops, trees, k, n).Some? {
        LeavesWith(ops, trees, k - 1, n);
      }
    }
  }

  lemma {:induction false} StepGood(ops: seq<Operation>, trees: seq<Tree>, i: nat)
    requires i < |ops| && |trees| == |ops| + 1 && IsStep(false, ops, trees, i) && Good(trees[i])
    ensures Keys(trees[i + 1]) == KeysAfter(Keys(trees[i]), ops[i])
    ensures (Exact(trees[i + 1]) <==> LandsAt(ops, trees, i)) && (Exact(trees[i + 1]) ==> Good(trees[i + 1]))
  {
    ApplyGood(trees[i], ops[i], PutDepth(false, ops, trees, i));
  }

  /** The first node that does not land ends that. */
  lemma {:induction false} RunSpoiled(ops: seq<Operation>, trees: seq<Tree>, k: nat)
    requires IsRun(false, ops, trees) && k < |ops| && AllLand(ops, trees, k)
    ensures Exact(trees[k + 1]) <==> LandsAt(ops, trees, k)
  {
    RunBalanced(ops, trees, k);
    assert IsStep(false, ops, trees, k);
    StepGood(ops, trees, k);
  }

  /** Only the node that is returned leaves an AVL tree, and it carries no children. */
  lemma {:induction false} LeavesWith(ops: seq<Operation>, trees: seq<Tree>, i: nat, n: AVLNode)
    requires i < |ops| && |trees| == |ops| + 1 && IsStep(false, ops, trees, i) && Good(trees[i])
    ensures n in Inorder(trees[i]) && n !in Inorder(trees[i + 1]) ==> Leaves(false, trees[i], ops[i], n).Some?
  {
    match ops[i]
    case Put(m) => PutExact(trees[i], m, PutDepth(false, ops, trees, i));
    case Take(key) => TakeExact(trees[i], key);
  }

  // ----------------------------------------------------------------------------------- logarithm

  function Fib(n: nat): nat {
    if n < 2 then n else Fib(n - 1) + Fib(n - 2)
  }

  lemma {:induction false} FibGrows(m: nat, n: nat)
    requires m <= n
    ensures Fib(m) <= Fib(n)
    decreases n - m
  {
    if m < n {
      FibGrows(m + 1, n);
    }
  }

  /** A balanced tree whose root depth is h has at least Fib(h + 2) - 1 nodes. */
  lemma {:induction false} FibNodes(t: Tree)
    requires AVL(t)
    ensures Size(t) + 1 >= Fib(Height(t) + 2)
    decreases t
  {
    if t.Fork? {
      FibNodes(t.left);
      FibNodes(t.right);
      FibSum(Height(t.left), Height(t.right), Size(t.left), Size(t.right));
    }
  }

  lemma {:induction false} FibSum(a: nat, b: nat, m: nat, n: nat)
    requires Near(a, b) && m + 1 >= Fib(a + 2) && n + 1 >= Fib(b + 2)
    ensures m + n + 2 >= Fib(Max(a, b) + 3)
  {
    var h := Max(a, b);
    FibGrows(h + 1, a + 2);
    FibGrows(h + 1, b + 2);
    assert Fib(h + 3) == Fib(h + 2) + Fib(h + 1);
  }

  /** The nodes that a descent looks at. */
  function Visited(t: Tree, key: int): nat {
    match t
    case Nil => 0
    case Fork(l, n, _, r) => 1 + if key < n.key then Visited(l, key) else if key > n.key then Visited(r, key) else 0
  }

  lemma {:induction false} VisitedHeight(t: Tree, key: int)
    ensures Visited(t, key) <= Height(t)
    decreases t
  {
    if t.Fork? {
      VisitedHeight(t.left, key);
      VisitedHeight(t.right, key);
    }
  }

  lemma {:induction false} DescentIn(t: Tree, key: int)
    requires AVL(t)
    ensures Size(t) + 1 >= Fib(Height(t) + 2) >= Fib(Visited(t, key) + 2)
  {
    FibNodes(t);
    VisitedHeight(t, key);
    FibGrows(Visited(t, key) + 2, Height(t) + 2);
  }

  /** On every run that asks for the left child's balance, as long as every node lands, a descent through d nodes is one
      in a tree of at least Fib(d + 2) - 1 nodes, for every key. */
  lemma {:induction false} DescentsAreShort(ops: seq<Operation>, trees: seq<Tree>, k: nat, key: int)
    requires IsRun(false, ops, trees) && k <= |ops| && AllLand(ops, trees, k)
    ensures Size(trees[k]) + 1 >= Fib(Height(trees[k]) + 2) >= Fib(Visited(trees[k], key) + 2)
  {
    RunBalanced(ops, trees, k);
    DescentIn(trees[k], key);
  }
}
