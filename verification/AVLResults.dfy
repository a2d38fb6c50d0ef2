/**
  Main results about the AVL tree: what every insertion and removal keeps, when the balance is kept,
  and how many nodes a tree of a given depth has.
 */
module AVLResults {
  import opened Collections
  import opened AVLNodes
  import opened AVLShapes
  import opened AVLBalance
  import opened AVLOrder
  import opened AVLOperations

  predicate Good(t: Tree) {
    Ordered(t) && Exact(t) && AVL(t)
  }

  // ---------------------------------------------------------------------- in the middle of a tree

  lemma {:induction false} AboveKeeps(readsRoot: bool, c: Path, t: Tree)
    requires SoundSides(c) && Sound(t)
    ensures var r := ClimbAbove(readsRoot, c, t);
            r.Some? ==>
              && Inorder(r.value) == Before(c) + Inorder(t) + After(c) && Sound(r.value)
              && (ExactSides(c) && Exact(t) ==> Exact(r.value))
  {
    if c.Top? {
      assert [] + Inorder(t) + [] == Inorder(t);
    } else {
      ClimbKeeps(readsRoot, c.up, Above(c, t));
      AboveInorder(c, t);
    }
  }

  /** Started at the parent of a place whose depth changes by one, the loop restores the balance
      exactly if it is never misled. */
  lemma {:induction false} AboveExact(readsRoot: bool, c: Path, t: Tree, h: nat)
    requires SoundSides(c) && Sound(t) && Balanced(t) && BalancedAround(c, h) && Near(Depth(t), h)
    ensures var r := ClimbAbove(readsRoot, c, t);
            r.Some? && Balanced(r.value) <==> NeverMisledAbove(readsRoot, c, t)
    ensures !readsRoot ==> NeverMisledAbove(readsRoot, c, t)
  {
    if !c.Top? {
      var g := 1 + Max(h, Depth(Side(c)));
      assert Pending(Above(c, t), g);
      ClimbExact(readsRoot, c.up, Above(c, t), g);
      ChildTestNeverMisled(c.up, Above(c, t), g);
    }
  }

  lemma {:induction false} AroundChildren(c: Path, t: Tree)
    requires t.Fork? && Exact(t) && Balanced(t) && BalancedAround(c, Depth(t))
    ensures BalancedAround(LeftOf(c, t.node, t.depth, t.right), Depth(t.left))
    ensures BalancedAround(RightOf(c, t.left, t.node, t.depth), Depth(t.right))
  {
  }

  lemma {:induction false} FindBalanced(c: Path, t: Tree, key: int)
    requires Exact(t) && Balanced(t) && BalancedAround(c, Depth(t))
    ensures var p := Find(c, t, key); Exact(p.tree) && Balanced(p.tree) && BalancedAround(p.path, Depth(p.tree))
    decreases t
  {
    if t.Fork? {
      AroundChildren(c, t);
      if key < t.node.key {
        FindBalanced(LeftOf(c, t.node, t.depth, t.right), t.left, key);
      } else if key > t.node.key {
        FindBalanced(RightOf(c, t.left, t.node, t.depth), t.right, key);
      }
    }
  }

  lemma {:induction false} LeftmostBalanced(c: Path, t: Tree)
    requires t.Fork? && Exact(t) && Balanced(t) && BalancedAround(c, Depth(t))
    ensures var p := Leftmost(c, t); Exact(p.tree) && Balanced(p.tree) && BalancedAround(p.path, Depth(p.tree))
    decreases t
  {
    if t.left.Fork? {
      AroundChildren(c, t);
      LeftmostBalanced(LeftOf(c, t.node, t.depth, t.right), t.left);
    }
  }

  lemma {:induction false} NoKey(a: seq<AVLNode>, key: int, b: seq<AVLNode>)
    requires Between(a, key, b)
    ensures forall n | n in a + b :: n.key != key
  {
  }

  /** The descent finds the key exactly if it is there. */
  lemma {:induction false} FindExact(t: Tree, key: int)
    requires Ordered(t) && Sound(t)
    ensures var p := Find(Top, t, key);
            && Inorder(t) == Before(p.path) + Inorder(p.tree) + After(p.path)
            && Between(Before(p.path), key, After(p.path))
            && (p.tree.Fork? <==> HasKey(t, key))
  {
    var p := Find(Top, t, key);
    FindIsInside(Top, t, key);
    FindSeparates(Top, t, key);
    PlugInorder(p.path, p.tree);
    if p.tree.Fork? {
      assert p.tree.node in Inorder(p.tree);
      assert p.tree.node in Inorder(t);
    } else {
      NoKey(Before(p.path), key, After(p.path));
    }
  }

  // ---------------------------------------------------------------------------------------- insert

  /** Inserting changes nothing but for the new node, which gets its place in the order; balanced or
      not, the depths fit each other afterwards, and are exact if they were and the node does not carry another
      depth than that of a leaf. */
  lemma {:induction false} InsertKeeps(readsRoot: bool, t: Tree, n: AVLNode, d: int)
    returns (a: seq<AVLNode>, b: seq<AVLNode>)
    requires Ordered(t) && Sound(t) && d >= 1
    ensures Insert(readsRoot, t, n, d).Present? <==> HasKey(t, n.key)
    ensures var r := Insert(readsRoot, t, n, d);
            r.Added? ==>
              && Inorder(t) == a + b && Inorder(r.tree) == a + [n] + b && Ordered(r.tree) && Sound(r.tree)
              && (Exact(t) && d == 1 ==> Exact(r.tree))
  {
    FindExact(t, n.key);
    FindIsInside(Top, t, n.key);
    var p := Find(Top, t, n.key);
    a, b := Before(p.path), After(p.path);
    if p.tree.Nil? {
      LeafShape(n, d);
      AboveKeeps(readsRoot, p.path, Leaf(n, d));
      assert a + [] + b == a + b;
      SortedAround(a, n, b);
    }
  }

  lemma {:induction false} LeafShape(n: AVLNode, d: int)
    requires d >= 1
    ensures Sound(Leaf(n, d)) && Inorder(Leaf(n, d)) == [n] && Height(Leaf(n, d)) == 1
    ensures AVL(Leaf(n, d)) && (Exact(Leaf(n, d)) <==> d == 1)
    ensures Balanced(Leaf(n, d)) <==> d <= 2
  {
    assert Height(Nil) == 0;
  }

  lemma {:induction false} SortedAround(a: seq<AVLNode>, n: AVLNode, b: seq<AVLNode>)
    requires Sorted(a + b) && Between(a, n.key, b)
    ensures Sorted(a + [n] + b)
  {
    assert forall i | 0 <= i < |a| :: a[i] == (a + b)[i];
    assert forall i | 0 <= i < |b| :: b[i] == (a + b)[|a| + i];
    SortedParts(a, n, b);
  }

  lemma {:induction false} ForkShape(l: Tree, n: AVLNode, d: int, r: Tree, a: seq<AVLNode>, b: seq<AVLNode>)
    requires Exact(l) && Exact(r) && d == 1 + Max(Depth(l), Depth(r)) && Inorder(l) == a && Inorder(r) == b
    ensures Exact(Fork(l, n, d, r)) && Height(Fork(l, n, d, r)) == d && Inorder(Fork(l, n, d, r)) == a + [n] + b
    ensures AVL(Fork(l, n, d, r)) <==> AVL(l) && AVL(r) && Near(Depth(l), Depth(r))
  {
  }

  /** The insertion of a new node is never misled. */
  predicate InsertionSafe(readsRoot: bool, t: Tree, n: AVLNode)
    requires Sound(t)
  {
    var p := Find(Top, t, n.key);
    FindIsInside(Top, t, n.key);
    NeverMisledAbove(readsRoot, p.path, Leaf(n, 1))
  }

  /** A new node is added to an AVL tree without a crash and with an AVL tree as the result exactly if
      the loop is never misled; and it never is when it asks for the balance of the left child. */
  lemma {:induction false} InsertExact(readsRoot: bool, t: Tree, n: AVLNode)
    requires Ordered(t) && Exact(t) && AVL(t) && !HasKey(t, n.key)
    ensures Insert(readsRoot, t, n, 1).Added? && AVL(Insert(readsRoot, t, n, 1).tree) <==>
              InsertionSafe(readsRoot, t, n)
    ensures !readsRoot ==> InsertionSafe(readsRoot, t, n)
  {
    ExactBalanced(t);
    FindExact(t, n.key);
    FindIsInside(Top, t, n.key);
    FindBalanced(Top, t, n.key);
    LeafShape(n, 1);
    AboveExact(readsRoot, Find(Top, t, n.key).path, Leaf(n, 1), 0);
    var _, _ := InsertKeeps(readsRoot, t, n, 1);
    if Insert(readsRoot, t, n, 1).Added? {
      ExactBalanced(Insert(readsRoot, t, n, 1).tree);
    }
  }

  // --------------------------------------------------------------------------------------- extract

  /** The order around the place from which the node is unlinked. */
  lemma {:induction false} VictimOrder(t: Tree, key: int) returns (a: seq<AVLNode>, b: seq<AVLNode>)
    requires Ordered(t) && Sound(t)
    ensures var p := Victim(t, key);
            && (p.tree.Fork? <==> HasKey(t, key))
            && (p.tree.Fork? ==>
              && p.tree.node.key == key
              && Inorder(t) == a + [p.tree.node] + b
              && a + b == Before(p.path) + (Inorder(p.tree.left) + Inorder(p.tree.right)) + After(p.path))
  {
    FindExact(t, key);
    FindIsInside(Top, t, key);
    var q := Find(Top, t, key);
    a, b := Before(q.path), After(q.path);
    if q.tree.Fork? {
      var l, n, r := Inorder(q.tree.left), q.tree.node, Inorder(q.tree.right);
      Outward(a, l, n, r, b);
      a, b := a + l, r + b;
      if q.tree.left.Fork? && q.tree.right.Fork? {
        LoweredOrder(q.path, q.tree);
      }
    }
  }

  lemma {:induction false} Outward(a: seq<AVLNode>, l: seq<AVLNode>, n: AVLNode, r: seq<AVLNode>, b: seq<AVLNode>)
    ensures a + (l + [n] + r) + b == (a + l) + [n] + (r + b)
    ensures a + (l + r) + b == (a + l) + (r + b)
    ensures (a + l) + ([n] + (r + b)) == (a + (l + [n])) + ([] + r) + b
  {
  }

  lemma {:induction false} LoweredOrder(c: Path, t: Tree)
    requires t.Fork? && t.left.Fork? && t.right.Fork? && Sound(t) && SoundSides(c)
    ensures var p := Lowered(c, t);
            (Before(c) + Inorder(t.left)) + (Inorder(t.right) + After(c))
              == Before(p.path) + (Inorder(p.tree.left) + Inorder(p.tree.right)) + After(p.path)
  {
    var m := Leftmost(Top, t.right).tree;
    var up := RightOf(c, t.left, m.node, if t.right.left.Nil? then m.depth else t.depth);
    LeftmostIs(up, t.right);
    Outward(Before(c), Inorder(t.left), m.node, Inorder(m.right), After(Leftmost(up, t.right).path));
  }

  /** Unlinking a node with a missing child loses no other node exactly if its only child has no
      children itself. */
  lemma {:induction false} DetachKeeps(readsRoot: bool, c: Path, t: Tree)
    requires SoundSides(c) && t.Fork? && (t.left.Nil? || t.right.Nil?)
    ensures var r := Detach(readsRoot, c, t);
            r.Some? ==>
              && Sound(r.value) && (ExactSides(c) ==> Exact(r.value))
              && (Inorder(r.value) == Before(c) + (Inorder(t.left) + Inorder(t.right)) + After(c) <==>
                    Size(t.left) <= 1 && Size(t.right) <= 1)
  {
    if t.left.Nil? && t.right.Nil? {
      AboveKeeps(readsRoot, c, Nil);
      assert Inorder(t.left) + Inorder(t.right) == Inorder(Nil);
    } else {
      var child := if t.left.Fork? then t.left else t.right;
      ChildKept(readsRoot, c, child);
      assert Inorder(t.left) + Inorder(t.right) == Inorder(child) && Size(t.left) + Size(t.right) == Size(child);
    }
  }

  /** The only child keeps its place and loses what hangs below it. */
  lemma {:induction false} ChildKept(readsRoot: bool, c: Path, child: Tree)
    requires SoundSides(c) && child.Fork?
    ensures var r := Climb(readsRoot, c, Leaf(child.node, child.depth));
            r.Some? ==>
              && Sound(r.value) && (ExactSides(c) ==> Exact(r.value))
              && (Inorder(r.value) == Before(c) + Inorder(child) + After(c) <==> Size(child) <= 1)
  {
    InorderSize(child);
    ClimbKeeps(readsRoot, c, Leaf(child.node, child.depth));
    if Size(child) == 1 {
      assert Inorder(child) == [child.node];
    }
  }

  lemma {:induction false} InorderSize(t: Tree)
    ensures |Inorder(t)| == Size(t)
    decreases t
  {
    if t.Fork? {
      InorderSize(t.left);
      InorderSize(t.right);
    }
  }

  /** Removing a key takes its node out and nothing else, provided an only child is a leaf; balanced or
      not, the depths fit each other afterwards, and are exact if they were. */
  lemma {:induction false} ExtractKeeps(readsRoot: bool, t: Tree, key: int) returns (a: seq<AVLNode>, b: seq<AVLNode>)
    requires Ordered(t) && Sound(t)
    ensures var x := Extract(readsRoot, t, key);
            && (x.Absent? <==> !HasKey(t, key))
            && (x.Extracted? ==> x.node.key == key && x.depth >= 1 && Inorder(t) == a + [x.node] + b)
            && (x.Extracted? ==> Sound(x.tree) && (Exact(t) ==> Exact(x.tree)))
            && (x.Extracted? ==> (Inorder(x.tree) == a + b <==> LoneChildIsLeaf(Victim(t, key).tree)))
  {
    VictimIs(t, key);
    a, b := VictimOrder(t, key);
    var p := Victim(t, key);
    if p.tree.Fork? {
      DetachKeeps(readsRoot, p.path, p.tree);
    }
  }

  lemma {:induction false} SortedSub(a: seq<AVLNode>, l: seq<AVLNode>, n: AVLNode, r: seq<AVLNode>, b: seq<AVLNode>)
    requires Sorted(a + (l + [n] + r) + b)
    ensures Sorted(a + [n] + b)
  {
    assert a + (l + [n] + r) + b == (a + l) + [n] + (r + b);
    SortedParts(a + l, n, r + b);
    assert forall i | 0 <= i < |a| :: (a + l)[i] == a[i];
    assert forall i | 0 <= i < |b| :: (r + b)[|r| + i] == b[i];
    assert forall x | x in a :: x in a + l;
    assert forall x | x in b :: x in r + b;
    SortedParts(a, n, b);
  }

  /** Even when nodes are lost, the others stay in order. */
  lemma {:induction false} ExtractOrdered(readsRoot: bool, t: Tree, key: int)
    requires Ordered(t) && Sound(t)
    ensures var x := Extract(readsRoot, t, key); x.Extracted? ==> Ordered(x.tree)
  {
    VictimIs(t, key);
    var a, b := VictimOrder(t, key);
    var p := Victim(t, key);
    if p.tree.Fork? {
      SortedWithout(a, p.tree.node, b);
      var child := if p.tree.left.Fork? then p.tree.left else p.tree.right;
      if child.Nil? {
        DetachKeeps(readsRoot, p.path, p.tree);
      } else {
        ClimbKeeps(readsRoot, p.path, Leaf(child.node, child.depth));
        assert Inorder(p.tree.left) + Inorder(p.tree.right)
               == Inorder(child.left) + [child.node] + Inorder(child.right);
        SortedSub(Before(p.path), Inorder(child.left), child.node, Inorder(child.right), After(p.path));
        assert Inorder(Leaf(child.node, child.depth)) == [child.node];
      }
    }
  }

  predicate LoneChildIsLeaf(t: Tree) {
    t.Fork? ==> Size(t.left) <= 1 && Size(t.right) <= 1
  }

  lemma {:induction false} SortedWithout(a: seq<AVLNode>, n: AVLNode, b: seq<AVLNode>)
    requires Sorted(a + [n] + b)
    ensures Sorted(a + b)
  {
    SortedParts(a, n, b);
    assert forall i | 0 <= i < |a| :: (a + b)[i] == a[i];
    assert forall i | 0 <= i < |b| :: (a + b)[|a| + i] == b[i];
  }

  /** No round is misled after a node with a missing child has been unlinked. */
  predicate DetachSafe(readsRoot: bool, c: Path, t: Tree)
    requires SoundSides(c) && t.Fork? && (t.left.Nil? || t.right.Nil?)
  {
    var child := if t.left.Fork? then t.left else t.right;
    if child.Nil? then NeverMisledAbove(readsRoot, c, Nil) else NeverMisled(readsRoot, c, Leaf(child.node, child.depth))
  }

  /** The removal of a key is never misled. */
  predicate RemovalSafe(readsRoot: bool, t: Tree, key: int)
    requires Sound(t) && Victim(t, key).tree.Fork?
  {
    var p := Victim(t, key);
    VictimIs(t, key);
    DetachSafe(readsRoot, p.path, p.tree)
  }

  lemma {:induction false} VictimBalanced(t: Tree, key: int)
    requires Balanced(t) && Exact(t) && Victim(t, key).tree.Fork?
    ensures var p := Victim(t, key);
            && ExactSides(p.path) && (p.tree.left.Nil? || p.tree.right.Nil?)
            && BalancedAround(p.path, 1 + Max(Depth(p.tree.left), Depth(p.tree.right)))
            && OneLeaf(p.tree.left) && OneLeaf(p.tree.right)
  {
    VictimIs(t, key);
    FindIsInside(Top, t, key);
    FindBalanced(Top, t, key);
    var q := Find(Top, t, key);
    if q.tree.left.Fork? && q.tree.right.Fork? {
      LoweredBalanced(q.path, q.tree);
    }
  }

  /** At most a leaf. */
  predicate OneLeaf(t: Tree) {
    Exact(t) && 0 <= Depth(t) <= 1
  }

  lemma {:induction false} LoweredBalanced(c: Path, t: Tree)
    requires t.Fork? && t.left.Fork? && t.right.Fork? && Balanced(t) && Exact(t) && ExactSides(c)
             && BalancedAround(c, Depth(t))
    ensures var p := Lowered(c, t);
            && p.tree.left.Nil? && OneLeaf(p.tree.right) && BalancedAround(p.path, 1 + Depth(p.tree.right))
  {
    var m := Leftmost(Top, t.right).tree;
    var up := RightOf(c, t.left, m.node, if t.right.left.Nil? then m.depth else t.depth);
    LeftmostIs(up, t.right);
    AroundRenamed(c, t, m.node, up.depth);
    LeftmostLow(up, t.right);
  }

  lemma {:induction false} LeftmostLow(c: Path, t: Tree)
    requires t.Fork? && Exact(t) && Balanced(t) && BalancedAround(c, Depth(t))
    ensures var p := Leftmost(c, t); OneLeaf(p.tree.right) && BalancedAround(p.path, 1 + Depth(p.tree.right))
  {
    LeftmostBalanced(c, t);
  }

  lemma {:induction false} AroundRenamed(c: Path, t: Tree, m: AVLNode, d: int)
    requires t.Fork? && Exact(t) && Balanced(t) && BalancedAround(c, Depth(t))
    ensures BalancedAround(RightOf(c, t.left, m, d), Depth(t.right))
  {
  }

  /** In an AVL tree an only child is a leaf, and the removal ends without a crash and with an AVL tree
      exactly if the loop is never misled; it never is when it asks for the left child's balance. */
  lemma {:induction false} ExtractExact(readsRoot: bool, t: Tree, key: int)
    requires Ordered(t) && Exact(t) && AVL(t) && Victim(t, key).tree.Fork?
    ensures LoneChildIsLeaf(Victim(t, key).tree)
    ensures var x := Extract(readsRoot, t, key);
            x.Extracted? && AVL(x.tree) <==> RemovalSafe(readsRoot, t, key)
    ensures !readsRoot ==> RemovalSafe(readsRoot, t, key)
  {
    ExactBalanced(t);
    VictimLone(t, key);
    var a, b := ExtractKeeps(readsRoot, t, key);
    VictimSafe(readsRoot, t, key);
    if Extract(readsRoot, t, key).Extracted? {
      ExactBalanced(Extract(readsRoot, t, key).tree);
    }
  }

  lemma {:induction false} VictimLone(t: Tree, key: int)
    requires Exact(t) && Balanced(t) && Victim(t, key).tree.Fork?
    ensures LoneChildIsLeaf(Victim(t, key).tree)
  {
    VictimBalanced(t, key);
    LowSize(Victim(t, key).tree.left);
    LowSize(Victim(t, key).tree.right);
  }

  lemma {:induction false} VictimSafe(readsRoot: bool, t: Tree, key: int)
    requires Exact(t) && Balanced(t) && Victim(t, key).tree.Fork?
    ensures var x := Extract(readsRoot, t, key); x.Extracted? && Balanced(x.tree) <==> RemovalSafe(readsRoot, t, key)
    ensures !readsRoot ==> RemovalSafe(readsRoot, t, key)
  {
    VictimIs(t, key);
    VictimBalanced(t, key);
    DetachExact(readsRoot, Victim(t, key).path, Victim(t, key).tree);
  }

  /** Unlinking a node with at most a leaf below it keeps the balance exactly if the loop is never misled. */
  lemma {:induction false} DetachExact(readsRoot: bool, c: Path, t: Tree)
    requires ExactSides(c) && t.Fork? && (t.left.Nil? || t.right.Nil?) && OneLeaf(t.left) && OneLeaf(t.right)
    requires BalancedAround(c, 1 + Max(Depth(t.left), Depth(t.right)))
    ensures var r := Detach(readsRoot, c, t); r.Some? && Balanced(r.value) <==> DetachSafe(readsRoot, c, t)
    ensures !readsRoot ==> DetachSafe(readsRoot, c, t)
  {
    var child := if t.left.Fork? then t.left else t.right;
    if child.Nil? {
      AboveExact(readsRoot, c, Nil, 1);
    } else {
      var leaf := Leaf(child.node, child.depth);
      assert Pending(leaf, 2);
      ClimbExact(readsRoot, c, leaf, 2);
      ChildTestNeverMisled(c, leaf, 2);
    }
  }

  lemma {:induction false} LowSize(t: Tree)
    requires OneLeaf(t)
    ensures Size(t) == Depth(t)
  {
    if t.Fork? {
      LowerBelow(t);
      assert t.left.Nil? && t.right.Nil?;
    }
  }
}
