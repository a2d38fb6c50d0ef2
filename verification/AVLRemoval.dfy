/**
  Which removals the balancing as written is misled on, read off the tree before the removal.

  A removal may rotate at every node on the way up, but what it does there follows from the heights beside
  that way alone; and as long as the loop is below `root->left`, the test of its balance reads what was stored
  there before the removal.
 */
module AVLRemoval {
  import opened Collections
  import opened AVLNodes
  import opened AVLShapes
  import opened AVLBalance
  import opened AVLOrder
  import opened AVLOperations
  import opened AVLResults
  import opened AVLInsertion

  /** The parent of the place stands two higher on the left and gets a double rotation to the right that it should
      not get; `b` is the balance of `root->left`.  At the root and at its left child, the test reads nothing
      misleading. */
  predicate Mistakes(b: int, c: Path)
    requires c.RightOf?
  {
    var l := c.left;
    && b < 0 && !c.up.Top? && !(c.up.up.Top? && c.up.LeftOf?) && l.Fork?
    && (|| Depth(l.left) > Depth(l.right)
        || (l.right.Fork? && Depth(l.left) == Depth(l.right) && Depth(l.right.left) + 1 < Depth(l.left)))
  }

  /** No node on the way up from a place is mistaken, at which the depth goes from `d` to `d - 1`.  The way ends at a
      node that was even, or that gets a rotation about an even child; above any other node, it goes on. */
  predicate Unmistaken(b: int, c: Path, d: int) {
    if c.Top? then true
    else
      var s := Side(c);
      if d > Depth(s) then Unmistaken(b, c.up, d + 1)
      else if d == Depth(s) then true
      else (c.RightOf? ==> !Mistakes(b, c)) && (Balance(s) == 0 || Unmistaken(b, c.up, Depth(s) + 1))
  }

  /** What the test reads at a node `y` that stands two higher on the left, as deep as `w` was. */
  lemma {:induction false} ReadsBefore(c: Path, w: Tree, y: Tree)
    requires y.Fork? && Depth(y) == Depth(w) && Balance(y) >= 0
    ensures var test := RootLeftBalance(Plug(c, y));
            if c.Top? then test == Balance(y.left)
            else if c.up.Top? && c.LeftOf? then test >= 0
            else test == RootLeftBalance(Plug(c, w))
  {
    if !c.Top? {
      if c.up.Top? && c.LeftOf? {
        assert Plug(c, y) == Above(c, y);
      } else {
        Unseen(c, y, w);
      }
    }
  }

  lemma {:induction false} DepthTurnedRight(test: int, t: Tree)
    requires Arrives(t) && !Misled(test, t) && Depth(t.left) == Depth(t.right) + 2 && Exact(t.left)
             && Rebuilt(test, t).Some?
    ensures Depth(Rebuilt(test, t).value) == if Balance(t.left) == 0 then Reach(t) else Reach(t) - 1
  {
    LowerTwice(t.left);
  }

  lemma {:induction false} DepthTurnedLeft(test: int, t: Tree)
    requires Arrives(t) && Depth(t.right) == Depth(t.left) + 2 && Exact(t.right) && Rebuilt(test, t).Some?
    ensures Depth(Rebuilt(test, t).value) == if Balance(t.right) == 0 then Reach(t) else Reach(t) - 1
  {
    LowerTwice(t.right);
  }

  /** A rotation about an even child keeps the depth, any other one lowers it. */
  lemma {:induction false} DepthTurned(test: int, t: Tree)
    requires Arrives(t) && !Misled(test, t) && Balanced(t.left) && Balanced(t.right)
    requires Depth(t.left) == Depth(t.right) + 2 || Depth(t.right) == Depth(t.left) + 2
    requires Exact(if Depth(t.left) > Depth(t.right) then t.left else t.right)
    ensures Rebuilt(test, t).Some? && Sound(Rebuilt(test, t).value) && Balanced(Rebuilt(test, t).value)
    ensures var s := if Depth(t.left) > Depth(t.right) then t.left else t.right;
            Depth(Rebuilt(test, t).value) == if Balance(s) == 0 then Reach(t) else Reach(t) - 1
  {
    RebuiltBalanced(test, t);
    RebuiltSound(test, t);
    if Depth(t.left) > Depth(t.right) {
      DepthTurnedRight(test, t);
    } else {
      DepthTurnedLeft(test, t);
    }
  }

  /** The tree `u` is one lower than `z`, which hung at the place before. */
  predicate Fallen(c: Path, z: Tree, u: Tree) {
    && ExactSides(c) && BalancedAround(c, Depth(z)) && DepthsAround(c, Depth(z))
    && Sound(u) && Balanced(u) && Depth(u) == Depth(z) - 1
  }

  /** A node that rotates. */
  lemma {:induction false} TurnsAt(c: Path, z: Tree, u: Tree) returns (v: Tree)
    requires Fallen(c, z, u) && !c.Top? && Depth(z) < Depth(Side(c))
    ensures c.RightOf? && Mistakes(RootLeftBalance(Plug(c, z)), c) ==> !NeverMisledAbove(true, c, u)
    ensures !(c.RightOf? && Mistakes(RootLeftBalance(Plug(c, z)), c)) ==>
              && Sound(v) && Balanced(v) && (NeverMisledAbove(true, c, u) <==> NeverMisledAbove(true, c.up, v))
              && Depth(v) == if Balance(Side(c)) == 0 then Depth(Side(c)) + 1 else Depth(Side(c))
  {
    var x, w := Above(c, u), Above(c, z);
    var y := Node(x.left, x.node, x.right);
    var test := Test(true, c.up, x);
    SoundNode(x.left, x.node, x.right);
    LowerTwice(Side(c));
    if c.RightOf? {
      ReadsBefore(c.up, w, y);
    }
    assert Misled(test, x) <==> c.RightOf? && Mistakes(RootLeftBalance(Plug(c, z)), c);
    v := y;
    if !Misled(test, x) {
      SettleIs(true, c.up, x);
      DepthTurned(test, x);
      v := Rebuilt(test, x).value;
    }
  }

  /** A node that does not rotate. */
  lemma {:induction false} StaysAt(c: Path, z: Tree, u: Tree) returns (v: Tree)
    requires Fallen(c, z, u) && !c.Top? && Depth(z) >= Depth(Side(c))
    ensures Sound(v) && Balanced(v) && (NeverMisledAbove(true, c, u) <==> NeverMisledAbove(true, c.up, v))
    ensures Depth(v) == 1 + Depth(Side(c))
  {
    var x := Above(c, u);
    v := Node(x.left, x.node, x.right);
    StillIs(true, c.up, x);
    SoundNode(x.left, x.node, x.right);
    NodeBalanced(x.left, x.node, x.right);
  }

  /** What is known one place further up. */
  lemma {:induction false} AboveIt(c: Path, z: Tree, u: Tree)
    requires Fallen(c, z, u) && !c.Top?
    ensures var w := Above(c, z);
            && ExactSides(c.up) && BalancedAround(c.up, Depth(w)) && DepthsAround(c.up, Depth(w))
            && Depth(w) == 1 + Max(Depth(z), Depth(Side(c)))
            && RootLeftBalance(Plug(c, z)) == RootLeftBalance(Plug(c.up, w))
  {
  }

  predicate MistakenAt(b: int, c: Path, d: int) {
    !c.Top? && d < Depth(Side(c)) && c.RightOf? && Mistakes(b, c)
  }

  /** One step of the way. */
  lemma {:induction false} Onward(c: Path, z: Tree, u: Tree) returns (v: Tree)
    requires Fallen(c, z, u) && !c.Top?
    ensures MistakenAt(RootLeftBalance(Plug(c, z)), c, Depth(z)) ==> !NeverMisledAbove(true, c, u)
    ensures !MistakenAt(RootLeftBalance(Plug(c, z)), c, Depth(z)) ==>
              && Sound(v) && Balanced(v) && (NeverMisledAbove(true, c, u) <==> NeverMisledAbove(true, c.up, v))
              && Depth(v) == if EndsAt(c, Depth(z)) then Depth(Above(c, z)) else Depth(Above(c, z)) - 1
  {
    AboveIt(c, z, u);
    if Depth(z) < Depth(Side(c)) {
      v := TurnsAt(c, z, u);
    } else {
      v := StaysAt(c, z, u);
    }
  }

  /** The way ends at the parent of the place. */
  predicate EndsAt(c: Path, d: int)
    requires !c.Top?
  {
    d == Depth(Side(c)) || (d < Depth(Side(c)) && Balance(Side(c)) == 0)
  }

  lemma {:induction false} UnmistakenStep(b: int, c: Path, d: int)
    requires !c.Top?
    ensures Unmistaken(b, c, d) <==>
              !MistakenAt(b, c, d) && (EndsAt(c, d) || Unmistaken(b, c.up, 1 + Max(d, Depth(Side(c)))))
  {
  }

  /** The way up, told from before. */
  lemma {:induction false} Falls(c: Path, z: Tree, u: Tree)
    requires Fallen(c, z, u)
    ensures NeverMisledAbove(true, c, u) <==> Unmistaken(RootLeftBalance(Plug(c, z)), c, Depth(z))
    decreases c
  {
    if !c.Top? {
      var b := RootLeftBalance(Plug(c, z));
      UnmistakenStep(b, c, Depth(z));
      var v := Onward(c, z, u);
      if !MistakenAt(b, c, Depth(z)) {
        Further(c, z, u, v);
        if !EndsAt(c, Depth(z)) {
          Falls(c.up, Above(c, z), v);
        }
      }
    }
  }

  lemma {:induction false} Further(c: Path, z: Tree, u: Tree, v: Tree)
    requires Fallen(c, z, u) && !c.Top? && Sound(v) && Balanced(v)
    requires Depth(v) == if EndsAt(c, Depth(z)) then Depth(Above(c, z)) else Depth(Above(c, z)) - 1
    ensures SoundSides(c.up) && Depth(Above(c, z)) == 1 + Max(Depth(z), Depth(Side(c)))
    ensures RootLeftBalance(Plug(c, z)) == RootLeftBalance(Plug(c.up, Above(c, z)))
    ensures if EndsAt(c, Depth(z)) then NeverMisledAbove(true, c.up, v) else Fallen(c.up, Above(c, z), v)
  {
    AboveIt(c, z, u);
    if EndsAt(c, Depth(z)) {
      Settled(true, c.up, v);
    }
  }

  // ------------------------------------------------------------------------- where the way up begins

  /** Two trees that differ in the node at their root. */
  lemma {:induction false} SameReading(c: Path, y: Tree, z: Tree)
    requires y.Fork? && z.Fork? && y.left == z.left && y.right == z.right && y.depth == z.depth
    ensures RootLeftBalance(Plug(c, y)) == RootLeftBalance(Plug(c, z))
  {
    if !c.Top? {
      if c.up.Top? && c.LeftOf? {
        assert Plug(c, y) == Above(c, y) && Plug(c, z) == Above(c, z);
      } else {
        Unseen(c, y, z);
      }
    }
  }

  lemma {:induction false} FindDepths(c: Path, t: Tree, key: int)
    requires Exact(t) && DepthsAround(c, Depth(t))
    ensures var p := Find(c, t, key); DepthsAround(p.path, Depth(p.tree)) && Plug(p.path, p.tree) == Plug(c, t)
    decreases t
  {
    if t.Fork? {
      if key < t.node.key {
        FindDepths(LeftOf(c, t.node, t.depth, t.right), t.left, key);
      } else if key > t.node.key {
        FindDepths(RightOf(c, t.left, t.node, t.depth), t.right, key);
      }
    }
  }

  lemma {:induction false} LeftmostDepths(c: Path, t: Tree)
    requires t.Fork? && Exact(t) && DepthsAround(c, Depth(t))
    ensures var p := Leftmost(c, t);
            DepthsAround(p.path, Depth(p.tree)) && Plug(p.path, p.tree) == Plug(c, t)
    decreases t
  {
    if t.left.Fork? {
      LeftmostDepths(LeftOf(c, t.node, t.depth, t.right), t.left);
    }
  }

  /** The depth stored in a node that the loop comes to makes no difference. */
  lemma {:induction false} DepthForgotten(c: Path, t: Tree, d: int)
    requires SoundBelow(t) && SoundSides(c)
    ensures NeverMisled(true, c, t) <==> NeverMisled(true, c, Fork(t.left, t.node, d, t.right))
  {
    var u := Fork(t.left, t.node, d, t.right);
    assert Test(true, c, u) == Test(true, c, t);
    assert Round(Test(true, c, u), u) == Round(Test(true, c, t), t);
    assert Settle(true, c, u) == Settle(true, c, t);
  }

  /** A node with at most a leaf below it is unlinked at a place where a tree as deep as it hung. */
  lemma {:induction false} DetachFalls(c: Path, z: Tree, v: Tree)
    requires v.Fork? && (v.left.Nil? || v.right.Nil?) && OneLeaf(v.left) && OneLeaf(v.right)
    requires ExactSides(c) && BalancedAround(c, Depth(z)) && DepthsAround(c, Depth(z))
    requires Depth(z) == 1 + Max(Depth(v.left), Depth(v.right))
    ensures DetachSafe(true, c, v) <==> Unmistaken(RootLeftBalance(Plug(c, z)), c, Depth(z))
  {
    var child := if v.left.Fork? then v.left else v.right;
    if child.Nil? {
      Falls(c, z, Nil);
    } else {
      LowSize(child);
      var leaf := Leaf(child.node, child.depth);
      LeafShape(child.node, child.depth);
      StillIs(true, c, leaf);
      Falls(c, z, leaf);
    }
  }

  /** The place to which a node with two children is brought, with the depth that was there. */
  lemma {:induction false} LoweredFrom(c: Path, t: Tree) returns (at: Path, z: Tree)
    requires t.Fork? && t.left.Fork? && t.right.Fork? && Exact(t) && Balanced(t)
    requires ExactSides(c) && BalancedAround(c, Depth(t)) && DepthsAround(c, Depth(t))
    ensures ExactSides(at) && BalancedAround(at, Depth(z)) && DepthsAround(at, Depth(z))
    ensures z.Fork? && Depth(z) == 1 + Depth(Lowered(c, t).tree.right)
    ensures RootLeftBalance(Plug(at, z)) == RootLeftBalance(Plug(c, t))
    ensures var p := Lowered(c, t).path;
            !p.Top? && at == if t.right.left.Nil? then RightOf(p.up, p.left, p.node, t.depth) else p
  {
    var m := Leftmost(Top, t.right).tree;
    var up := RightOf(c, t.left, m.node, t.depth);
    LeftmostIs(up, t.right);
    LeftmostExact(up, t.right);
    AroundRenamed(c, t, m.node, t.depth);
    LeftmostBalanced(up, t.right);
    LeftmostDepths(up, t.right);
    LeftmostBelow(up, t.right);
    at, z := Leftmost(up, t.right).path, Leftmost(up, t.right).tree;
    SameReading(c, Above(up, t.right), t);
  }

  lemma {:induction false} LeftmostBelow(c: Path, t: Tree)
    requires t.Fork? && !c.Top?
    ensures !Leftmost(c, t).path.Top?
    decreases t
  {
    if t.left.Fork? {
      LeftmostBelow(LeftOf(c, t.node, t.depth, t.right), t.left);
    }
  }

  /** The depth of the place from which a key is unlinked. */
  function VictimDepth(t: Tree, key: int): int
    requires Victim(t, key).tree.Fork?
  {
    var v := Victim(t, key).tree; 1 + Max(Depth(v.left), Depth(v.right))
  }

  /** The loop after the removal of a node at `q`, whose own place is `p` then. */
  lemma {:induction false} LoweredFalls(q: Place, p: Place)
    requires q.tree.Fork? && q.tree.left.Fork? && q.tree.right.Fork? && p == Lowered(q.path, q.tree)
    requires Exact(q.tree) && Balanced(q.tree)
    requires ExactSides(q.path) && BalancedAround(q.path, Depth(q.tree)) && DepthsAround(q.path, Depth(q.tree))
    requires SoundSides(p.path) && p.tree.left.Nil? && OneLeaf(p.tree.right)
    ensures DetachSafe(true, p.path, p.tree) <==>
              Unmistaken(RootLeftBalance(Plug(q.path, q.tree)), p.path, 1 + Depth(p.tree.right))
  {
    var at, z := LoweredFrom(q.path, q.tree);
    DetachFalls(at, z, p.tree);
    if at != p.path {
      SamePlace(at, p.path, p.tree, Depth(z), RootLeftBalance(Plug(q.path, q.tree)));
    }
  }

  lemma {:induction false} FoundPlace(t: Tree, key: int)
    requires Exact(t) && Balanced(t)
    ensures var q := Find(Top, t, key);
            && Exact(q.tree) && Balanced(q.tree) && Plug(q.path, q.tree) == t
            && ExactSides(q.path) && BalancedAround(q.path, Depth(q.tree)) && DepthsAround(q.path, Depth(q.tree))
  {
    FindIsInside(Top, t, key);
    FindBalanced(Top, t, key);
    FindDepths(Top, t, key);
  }

  lemma {:induction false} RemovalFalls(t: Tree, key: int)
    requires Exact(t) && Balanced(t) && Victim(t, key).tree.Fork?
    ensures RemovalSafe(true, t, key) <==> Unmistaken(RootLeftBalance(t), Victim(t, key).path, VictimDepth(t, key))
  {
    VictimIs(t, key);
    VictimBalanced(t, key);
    FoundPlace(t, key);
    var p, q := Victim(t, key), Find(Top, t, key);
    if q.tree.left.Nil? || q.tree.right.Nil? {
      DetachFalls(p.path, p.tree, p.tree);
    } else {
      LoweredFalls(q, p);
    }
  }

  /** Two places whose parents are stored with different depths. */
  lemma {:induction false} SamePlace(a: Path, c: Path, v: Tree, d: int, b: int)
    requires a.RightOf? && c.RightOf? && a == RightOf(c.up, c.left, c.node, a.depth) && SoundSides(c)
    requires v.Fork? && v.left.Nil? && OneLeaf(v.right)
    ensures DetachSafe(true, a, v) <==> DetachSafe(true, c, v)
    ensures Unmistaken(b, a, d) <==> Unmistaken(b, c, d)
  {
    if v.right.Nil? {
      DepthForgotten(c.up, Above(c, Nil), a.depth);
    } else {
      var leaf := Leaf(v.right.node, v.right.depth);
      LowSize(v.right);
      StillIs(true, a, leaf);
      StillIs(true, c, leaf);
      DepthForgotten(c.up, Above(c, leaf), a.depth);
    }
  }

  /** The removal of a key from an AVL tree as written ends without a crash and with an AVL tree exactly if no node
      above the place that loses a level is mistaken. */
  lemma {:induction false} WrittenExtractExact(t: Tree, key: int)
    requires Good(t) && HasKey(t, key)
    ensures Victim(t, key).tree.Fork?
    ensures Extract(true, t, key).Extracted? && AVL(Extract(true, t, key).tree) <==>
              Unmistaken(RootLeftBalance(t), Victim(t, key).path, VictimDepth(t, key))
  {
    FindExact(t, key);
    VictimForks(t, key);
    ExactBalanced(t);
    RemovalFalls(t, key);
    ExtractExact(true, t, key);
  }

  /** The removal of 90 asks for the balance of 20, which is high on its right, and rotates 70 about a right child that
      it does not have. */
  lemma {:induction false} MistakenRemoval(n50: AVLNode, n20: AVLNode, n30: AVLNode, n80: AVLNode, n70: AVLNode,
                                           n60: AVLNode, n90: AVLNode)
    requires n20.key == 20 && n30.key == 30 && n50.key == 50 && n60.key == 60 && n70.key == 70 && n80.key == 80
             && n90.key == 90
    ensures var a, b := Fork(Nil, n20, 2, Leaf(n30, 1)), Fork(Fork(Leaf(n60, 1), n70, 2, Nil), n80, 3, Leaf(n90, 1));
            var t := Fork(a, n50, 4, b);
            Good(t) && HasKey(t, 90) && !(Extract(true, t, 90).Extracted? && AVL(Extract(true, t, 90).tree))
  {
    LeafShape(n30, 1);
    LeafShape(n60, 1);
    LeafShape(n90, 1);
    var a, l := Fork(Nil, n20, 2, Leaf(n30, 1)), Fork(Leaf(n60, 1), n70, 2, Nil);
    var b := Fork(l, n80, 3, Leaf(n90, 1));
    var t := Fork(a, n50, 4, b);
    ForkShape(Nil, n20, 2, Leaf(n30, 1), [], [n30]);
    ForkShape(Leaf(n60, 1), n70, 2, Nil, [n60], []);
    ForkShape(l, n80, 3, Leaf(n90, 1), [n60, n70], [n90]);
    ForkShape(a, n50, 4, b, [n20, n30], [n60, n70, n80, n90]);
    assert Inorder(t) == [n20, n30, n50, n60, n70, n80, n90];
    assert n90 in Inorder(t);
    var at80 := RightOf(Top, a, n50, 4);
    var at90 := RightOf(at80, l, n80, 3);
    assert Find(Top, t, 90) == Find(at80, b, 90);
    assert Find(at80, b, 90) == Find(at90, Leaf(n90, 1), 90) == Place(at90, Leaf(n90, 1));
    assert Mistakes(RootLeftBalance(t), at90);
    assert !Unmistaken(RootLeftBalance(t), at90, 1);
    WrittenExtractExact(t, 90);
  }
}
