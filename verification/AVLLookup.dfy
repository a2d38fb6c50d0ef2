/**
  Lookups, removals of a leaf and failing insertions, as written.
 */
module AVLLookup {
  import opened Collections
  import opened AVLNodes
  import opened AVLShapes
  import opened AVLBalance
  import opened AVLOrder
  import opened AVLOperations
  import opened AVLResults

  /** A lookup; as written (`leftOnly`), it goes left when the key it looks for is the higher one, too. */
  function Get(leftOnly: bool, t: Tree, key: int): Option<AVLNode> {
    match t
    case Nil => None
    case Fork(l, n, _, r) =>
      if key < n.key || (leftOnly && key > n.key) then Get(leftOnly, l, key)
      else if key > n.key then Get(leftOnly, r, key)
      else Some(n)
  }

  /** The nodes that are reached from the root by going left. */
  function Spine(t: Tree): seq<AVLNode> {
    match t
    case Nil => []
    case Fork(l, n, _, _) => [n] + Spine(l)
  }

  lemma {:induction false} SpineInside(t: Tree)
    ensures forall n | n in Spine(t) :: n in Inorder(t)
    decreases t
  {
    if t.Fork? {
      SpineInside(t.left);
    }
  }

  lemma {:induction false} GetFrom(t: Tree, key: int)
    requires Ordered(t)
    ensures match Get(true, t, key)
            case Some(m) => m.key == key && m in Spine(t)
            case None => forall n | n in Spine(t) :: n.key != key
    decreases t
  {
    match t
    case Nil =>
    case Fork(l, n, _, r) =>
      SortedParts(Inorder(l), n, Inorder(r));
      GetFrom(l, key);
  }

  /** A lookup tells whether the key is there exactly if no node off the left edge has the key. */
  lemma {:induction false} GetExact(t: Tree, key: int)
    requires Ordered(t)
    ensures (Get(true, t, key).Some? <==> HasKey(t, key)) <==>
              forall n | n in Inorder(t) && n.key == key :: n in Spine(t)
  {
    GetFrom(t, key);
    SpineInside(t);
    if Get(true, t, key).Some? {
      var m := Get(true, t, key).value;
      assert m in Inorder(t);
      SameKey(t, m);
    } else if HasKey(t, key) {
      var n :| n in Inorder(t) && n.key == key;
      assert n !in Spine(t);
    }
  }

  /** A lookup that goes both ways finds the key exactly if it is there. */
  lemma {:induction false} SeekExact(t: Tree, key: int)
    requires Ordered(t)
    ensures match Get(false, t, key)
            case Some(m) => m.key == key && m in Inorder(t)
            case None => !HasKey(t, key)
    decreases t
  {
    match t
    case Nil =>
    case Fork(l, n, _, r) =>
      SortedParts(Inorder(l), n, Inorder(r));
      SeekExact(l, key);
      SeekExact(r, key);
      if key < n.key {
        forall m | m in Inorder(t) && m.key == key ensures m in Inorder(l) {
        }
      } else if key > n.key {
        forall m | m in Inorder(t) && m.key == key ensures m in Inorder(r) {
        }
      }
  }

  lemma {:induction false} SameKey(t: Tree, m: AVLNode)
    requires Ordered(t) && m in Inorder(t)
    ensures forall n | n in Inorder(t) && n.key == m.key :: n == m
  {
  }

  // ------------------------------------------------------------------------------- removal of a leaf

  lemma {:induction false} AboveIs(c: Path, t: Tree)
    requires !c.Top? && Exact(t) && Balanced(t)
    ensures Exact(Above(c, t)) && Balanced(Above(c, t)) <==>
              && Exact(Side(c)) && c.depth == 1 + Max(Depth(t), Depth(Side(c)))
              && Near(Depth(t), Depth(Side(c))) && Balanced(Side(c))
  {
  }

  /** The tree at a place fits into the tree around it. */
  predicate Fits(c: Path, t: Tree)
    requires Exact(t)
  {
    ExactSides(c) && DepthsAround(c, Depth(t)) && BalancedAround(c, Depth(t))
  }

  lemma {:induction false} FitsIs(c: Path, t: Tree)
    requires !c.Top? && Exact(t)
    ensures var d := 1 + Max(Depth(t), Depth(Side(c)));
            Fits(c, t) <==>
              && Exact(Side(c)) && c.depth == d && Near(Depth(t), Depth(Side(c))) && Balanced(Side(c))
              && ExactSides(c.up) && DepthsAround(c.up, d) && BalancedAround(c.up, d)
  {
  }

  lemma {:induction false} FitsAbove(c: Path, t: Tree)
    requires !c.Top? && Exact(t) && Balanced(t)
    ensures Fits(c, t) <==> Exact(Above(c, t)) && Balanced(Above(c, t)) && Fits(c.up, Above(c, t))
  {
    AboveIs(c, t);
    FitsIs(c, t);
    assert Depth(Above(c, t)) == c.depth;
  }

  lemma {:induction false} PlugExact(c: Path, t: Tree)
    requires Exact(t) && Balanced(t)
    ensures Exact(Plug(c, t)) && Balanced(Plug(c, t)) <==> Fits(c, t)
    decreases c
  {
    if !c.Top? {
      FitsAbove(c, t);
      if Exact(Above(c, t)) && Balanced(Above(c, t)) {
        PlugExact(c.up, Above(c, t));
      } else {
        PlugInexact(c.up, Above(c, t));
      }
    }
  }

  lemma {:induction false} PlugInexact(c: Path, t: Tree)
    requires !(Exact(t) && Balanced(t))
    ensures !(Exact(Plug(c, t)) && Balanced(Plug(c, t)))
    decreases c
  {
    if !c.Top? {
      PlugInexact(c.up, Above(c, t));
    }
  }

  lemma {:induction false} BothExact(t: Tree)
    ensures Exact(t) ==> (Balanced(t) <==> AVL(t))
  {
    if Exact(t) {
      ExactBalanced(t);
    }
  }

  /** The overloads by node and by iterator, and the multi tree, start no balancing after the removal of a
      leaf.  The tree is left as it should be exactly if the leaf was the root or had a leaf as its
      sibling. */
  lemma {:induction false} LeafRemovalExact(t: Tree, key: int)
    requires Good(t) && Find(Top, t, key).tree.Fork?
    requires Find(Top, t, key).tree.left.Nil? && Find(Top, t, key).tree.right.Nil?
    ensures var c := Find(Top, t, key).path;
            Exact(Plug(c, Nil)) && AVL(Plug(c, Nil)) <==> c.Top? || Height(Side(c)) == 1
  {
    var p := Find(Top, t, key);
    ExactBalanced(t);
    FindIsInside(Top, t, key);
    FindBalanced(Top, t, key);
    PlugExact(p.path, p.tree);
    PlugExact(p.path, Nil);
    BothExact(Plug(p.path, Nil));
  }

  // ----------------------------------------------------------------------------- a failing insertion

  /** The tree that the insertion of 50, 20, 80, 30 and 70 makes.  As written, the insertion of 60
      asks there for the balance of 20, which is heavy on its right, and rotates 70 about a right child
      that it does not have. */
  lemma {:induction false} MissingChild(n50: AVLNode, n20: AVLNode, n80: AVLNode, n30: AVLNode, n70: AVLNode,
                                        n60: AVLNode)
    requires n50.key == 50 && n20.key == 20 && n80.key == 80 && n30.key == 30 && n70.key == 70 && n60.key == 60
    ensures var t := Fork(Fork(Nil, n20, 2, Leaf(n30, 1)), n50, 3, Fork(Leaf(n70, 1), n80, 2, Nil));
            Good(t) && Insert(true, t, n60, 1).Crashed? && !InsertionSafe(true, t, n60)
  {
    LeafShape(n30, 1);
    LeafShape(n70, 1);
    LeafShape(n60, 1);
    var a := Fork(Nil, n20, 2, Leaf(n30, 1));
    var b := Fork(Leaf(n70, 1), n80, 2, Nil);
    var t := Fork(a, n50, 3, b);
    ForkShape(Nil, n20, 2, Leaf(n30, 1), [], [n30]);
    ForkShape(Leaf(n70, 1), n80, 2, Nil, [n70], []);
    ForkShape(a, n50, 3, b, [n20, n30], [n70, n80]);
    assert Inorder(t) == [n20, n30, n50, n70, n80];
    InsertExact(true, t, n60);
    var at80 := RightOf(Top, a, n50, 3);
    var at70 := LeftOf(at80, n80, 2, Nil);
    assert Find(Top, t, 60) == Find(at80, b, 60);
    assert Find(at80, b, 60) == Find(at70, Leaf(n70, 1), 60);
    assert Find(at70, Leaf(n70, 1), 60) == Find(LeftOf(at70, n70, 1, Nil), Nil, 60);
    assert ExactSides(at80) && ExactSides(at70);
    CrashAbove(at80, n80, n70, Leaf(n60, 1));
  }

  /** A leaf linked on the left of the left child of a node, at a place where `root->left` is heavy on
      its right. */
  lemma {:induction false} CrashAbove(c: Path, n: AVLNode, m: AVLNode, leaf: Tree)
    requires c.RightOf? && c.up.Top? && Exact(c.left) && Balance(c.left) < 0
    requires leaf.Fork? && Exact(leaf) && Height(leaf) == 1
    requires ExactSides(LeftOf(LeftOf(c, n, 2, Nil), m, 1, Nil))
    ensures ClimbAbove(true, LeftOf(LeftOf(c, n, 2, Nil), m, 1, Nil), leaf).None?
  {
    var at := LeftOf(c, n, 2, Nil);
    var w := Fork(leaf, m, 1, Nil);
    StillIs(true, at, w);
    var u := Fork(Node(leaf, m, Nil), n, 2, Nil);
    assert Climb(true, at, w) == Climb(true, c, u) by {
      assert Settle(true, at, w) == Some(u.left);
    }
    ExactNode(leaf, m, Nil);
    assert Height(u.left) == 2 && Even(u.left);
    assert Test(true, c, u) == Balance(c.left) by { TestAtRight(c, Node(u.left, n, Nil)); }
    SettleIs(true, c, u);
  }

  lemma {:induction false} TestAtRight(c: Path, t: Tree)
    requires c.RightOf? && c.up.Top?
    ensures RootLeftBalance(Plug(c, t)) == Balance(c.left)
  {
    assert Plug(c, t) == Fork(c.left, c.node, c.depth, t);
  }
}
