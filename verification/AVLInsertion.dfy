/**
  Which insertions the balancing as written is misled on, read off the tree before the insertion.

  An insertion rotates at one place at most: the lowest node above the new leaf that was higher on one
  side.  The test of `root->left` goes wrong there if that node is high on the left, the leaf goes to the
  left of its left child, and `root->left`, which the loop has not come to yet, reads high on its right.
 */
module AVLInsertion {
  import opened Collections
  import opened AVLNodes
  import opened AVLShapes
  import opened AVLBalance
  import opened AVLOrder
  import opened AVLOperations
  import opened AVLResults

  /** The lowest node from a place upwards that is higher on one side; the root if there is none. */
  function Pivot(c: Path, t: Tree): Place
    decreases c
  {
    if c.Top? || (t.Fork? && Depth(t.left) != Depth(t.right)) then Place(c, t) else Pivot(c.up, Above(c, t))
  }

  /** When the tree `t` at a place becomes higher by one, the balance read from `root->left` is negative: it
      was before, or the place is its right child and it was even. */
  predicate ReadsNegative(c: Path, t: Tree) {
    var b := RootLeftBalance(Plug(c, t));
    && !c.Top?
    && (c.up.Top? ==> c.RightOf? && b < 0)
    && (!c.up.Top? && c.up.up.Top? && c.up.LeftOf? ==> c.RightOf? && b <= 0)
    && (!c.up.Top? && !(c.up.up.Top? && c.up.LeftOf?) ==> b < 0)
  }

  /** The node there needs a single rotation to the right, and gets a double one. */
  predicate Mistaken(p: Place, key: int) {
    && p.tree.Fork? && p.tree.left.Fork? && Depth(p.tree.left) == Depth(p.tree.right) + 1
    && key < p.tree.node.key && key < p.tree.left.node.key
    && ReadsNegative(p.path, p.tree)
  }

  /** The key belongs to the place. */
  predicate Leads(c: Path, key: int) {
    !c.Top? ==> (if c.LeftOf? then key < c.node.key else key > c.node.key) && Leads(c.up, key)
  }

  lemma {:induction false} FindLeads(c: Path, t: Tree, key: int)
    requires Exact(t) && Leads(c, key) && DepthsAround(c, Depth(t))
    ensures var p := Find(c, t, key); Leads(p.path, key) && DepthsAround(p.path, Depth(p.tree))
    decreases t
  {
    if t.Fork? {
      if key < t.node.key {
        FindLeads(LeftOf(c, t.node, t.depth, t.right), t.left, key);
      } else if key > t.node.key {
        FindLeads(RightOf(c, t.left, t.node, t.depth), t.right, key);
      }
    }
  }

  // --------------------------------------------------------------------------- what the test reads

  /** Deeper in the tree than below `root->left`, a tree is not seen by the test. */
  lemma {:induction false} Unseen(c: Path, y: Tree, z: Tree)
    requires !c.Top? && (c.up.Top? ==> c.RightOf?) && Depth(y) == Depth(z)
    ensures RootLeftBalance(Plug(c, y)) == RootLeftBalance(Plug(c, z))
    decreases c
  {
    if c.up.Top? {
      assert Plug(c, y) == Above(c, y) && Plug(c, z) == Above(c, z);
    } else if c.up.up.Top? && c.up.LeftOf? {
      TwoUp(c, y);
      TwoUp(c, z);
    } else {
      Unseen(c.up, Above(c, y), Above(c, z));
    }
  }

  lemma {:induction false} TwoUp(c: Path, y: Tree)
    requires !c.Top? && !c.up.Top? && c.up.up.Top?
    ensures Plug(c, y) == Above(c.up, Above(c, y))
  {
    assert Plug(c, y) == Plug(c.up, Above(c, y));
    assert Plug(c.up, Above(c, y)) == Plug(c.up.up, Above(c.up, Above(c, y)));
  }

  lemma {:induction false} UnseenBelow(c: Path, y: Tree, z: Tree)
    requires !c.Top? && (c.up.Top? ==> c.RightOf?) && (!c.up.Top? && c.up.up.Top? ==> c.up.RightOf?)
    ensures RootLeftBalance(Plug(c, y)) == RootLeftBalance(Plug(c, z))
  {
    if !c.up.Top? {
      Unseen(c.up, Above(c, y), Above(c, z));
    }
  }

  /** What the test reads while the node `y`, which was `o`, stands two higher on the left. */
  lemma {:induction false} TestReads(c: Path, o: Tree, y: Tree)
    requires SoundSides(c) && BalancedAround(c, Depth(o)) && Depth(y) == Depth(o) + 1
    requires y.Fork? && Balance(y) >= 0 && Balance(y.left) >= 0
    ensures RootLeftBalance(Plug(c, y)) < 0 <==> ReadsNegative(c, o)
  {
    if !c.Top? {
      if c.up.Top? {
        assert Plug(c, y) == Above(c, y) && Plug(c, o) == Above(c, o);
      } else if c.up.up.Top? && c.up.LeftOf? {
        BelowRootLeft(c, y);
        BelowRootLeft(c, o);
      } else {
        UnseenBelow(c, y, o);
      }
    }
  }

  lemma {:induction false} BelowRootLeft(c: Path, y: Tree)
    requires !c.Top? && !c.up.Top? && c.up.up.Top? && c.up.LeftOf? && Sound(Side(c))
    ensures RootLeftBalance(Plug(c, y)) == if c.LeftOf? then Depth(y) - Depth(Side(c)) else Depth(Side(c)) - Depth(y)
  {
    TwoUp(c, y);
    assert Depth(Side(c)) == Depth(Side(c));
  }

  // ---------------------------------------------------------------------------------- on the way up

  /** Above a place whose height is what it was before, no round is misled. */
  lemma {:induction false} Settled(readsRoot: bool, c: Path, t: Tree)
    requires SoundSides(c) && Sound(t) && Balanced(t) && BalancedAround(c, Depth(t))
    ensures NeverMisledAbove(readsRoot, c, t)
    decreases c
  {
    if !c.Top? {
      var x := Above(c, t);
      StillIs(readsRoot, c.up, x);
      SoundNode(x.left, x.node, x.right);
      Settled(readsRoot, c.up, Node(x.left, x.node, x.right));
    }
  }

  /** The tree `u` has grown out of `o` on the side of the key. */
  predicate Grown(o: Tree, u: Tree, key: int) {
    && Sound(o) && Sound(u) && Balanced(u) && Depth(u) == Depth(o) + 1
    && (o.Fork? ==>
         && Depth(o.left) == Depth(o.right) && u.node == o.node
         && if key < o.node.key then Depth(u.left) > Depth(u.right) else Depth(u.left) < Depth(u.right))
  }

  /** A rotation brings the height back that there was before. */
  lemma {:induction false} Restored(test: int, t: Tree)
    requires Arrives(t) && !Misled(test, t) && Depth(t.left) != Depth(t.right)
    requires Depth(t.left) > Depth(t.right) ==>
               Depth(t.left) == Depth(t.right) + 2 && Depth(t.left.left) != Depth(t.left.right)
    requires Depth(t.left) < Depth(t.right) ==>
               Depth(t.right) == Depth(t.left) + 2 && Depth(t.right.left) != Depth(t.right.right)
    requires Balanced(t.left) && Balanced(t.right)
    ensures Rebuilt(test, t).Some? && Sound(Rebuilt(test, t).value) && Balanced(Rebuilt(test, t).value)
    ensures Depth(Rebuilt(test, t).value) == Max(Depth(t.left), Depth(t.right))
  {
    LowerTwice(t.left);
    LowerTwice(t.right);
    RebuiltBalanced(test, t);
    RebuiltSound(test, t);
  }

  /** The node at which the loop rotates. */
  lemma {:induction false} AtPivot(c: Path, o: Tree, u: Tree, key: int)
    requires !c.Top? && SoundSides(c) && BalancedAround(c, Depth(o)) && DepthsAround(c, Depth(o)) && Leads(c, key)
    requires Grown(o, u, key) && o.Fork? && Depth(o) == Depth(Side(c)) + 1
    ensures NeverMisledAbove(true, c, u) <==> !Mistaken(Place(c.up, Above(c, o)), key)
  {
    var x, was := Above(c, u), Above(c, o);
    var test := Test(true, c.up, x);
    SoundNode(x.left, x.node, x.right);
    if c.LeftOf? && key < o.node.key {
      LowerTwice(u);
      TestReads(c.up, was, Node(x.left, x.node, x.right));
    }
    assert Misled(test, x) <==> Mistaken(Place(c.up, was), key);
    if !Misled(test, x) {
      SettleIs(true, c.up, x);
      Restored(test, x);
      Settled(true, c.up, Rebuilt(test, x).value);
    }
  }

  /** A node that was even, or higher on the other side. */
  lemma {:induction false} NoTurn(c: Path, o: Tree, u: Tree, key: int) returns (x: Tree)
    requires !c.Top? && SoundSides(c) && BalancedAround(c, Depth(o)) && DepthsAround(c, Depth(o)) && Leads(c, key)
    requires Grown(o, u, key) && Depth(o) != Depth(Side(c)) + 1
    ensures Sound(x) && Balanced(x) && (NeverMisledAbove(true, c, u) <==> NeverMisledAbove(true, c.up, x))
    ensures if Depth(o) == Depth(Side(c)) then Grown(Above(c, o), x, key)
            else
              && Depth(x) == Depth(Above(c, o)) && Pivot(c.up, Above(c, o)) == Place(c.up, Above(c, o))
              && !Mistaken(Place(c.up, Above(c, o)), key)
  {
    var y := Above(c, u);
    x := Node(y.left, y.node, y.right);
    StillIs(true, c.up, y);
    SoundNode(y.left, y.node, y.right);
    NodeBalanced(y.left, y.node, y.right);
  }

  /** The way up from a place that has grown: nothing rotates before the pivot, and nothing behind it. */
  lemma {:induction false} Rises(c: Path, o: Tree, u: Tree, key: int)
    requires SoundSides(c) && BalancedAround(c, Depth(o)) && DepthsAround(c, Depth(o)) && Leads(c, key)
    requires Grown(o, u, key)
    ensures NeverMisledAbove(true, c, u) <==> !Mistaken(Pivot(c, o), key)
    decreases c
  {
    if !c.Top? {
      var was := Above(c, o);
      if Depth(o) == Depth(Side(c)) + 1 {
        AtPivot(c, o, u, key);
      } else {
        var x := NoTurn(c, o, u, key);
        if Depth(o) == Depth(Side(c)) {
          Rises(c.up, was, x, key);
        } else {
          Settled(true, c.up, x);
        }
      }
    }
  }

  /** The insertion of a new key into an AVL tree as written crashes or leaves a tree that is no AVL tree
      exactly if it is mistaken at the lowest node above the new leaf that is higher on one side. */
  lemma {:induction false} WrittenInsertExact(t: Tree, n: AVLNode)
    requires Ordered(t) && Exact(t) && AVL(t) && !HasKey(t, n.key)
    ensures var p := Find(Top, t, n.key);
            Insert(true, t, n, 1).Added? && AVL(Insert(true, t, n, 1).tree) <==> !Mistaken(Pivot(p.path, p.tree), n.key)
  {
    InsertExact(true, t, n);
    FindExact(t, n.key);
    FindIsInside(Top, t, n.key);
    ExactBalanced(t);
    FindBalanced(Top, t, n.key);
    FindLeads(Top, t, n.key);
    var p := Find(Top, t, n.key);
    LeafShape(n, 1);
    Rises(p.path, p.tree, Leaf(n, 1), n.key);
  }
}
