/**
  When the balancing loop leaves an AVL tree behind: always, if its left-heavy cases ask for the
  balance of the left child, and as written exactly if they are never misled on the way up.
 */
module AVLBalance {
  import opened Collections
  import opened AVLNodes
  import opened AVLShapes

  /** The root of the tree is balanced as far as the stored depths tell; a node without children has the depth 1,
      or 2 if it carries that from an earlier place.  Nothing is said about the nodes below. */
  predicate Even(t: Tree) {
    t.Fork? ==> Near(Depth(t.left), Depth(t.right)) && (t.left.Nil? && t.right.Nil? ==> t.depth <= 2)
  }

  /** Every node is balanced as far as the stored depths tell. */
  predicate Balanced(t: Tree) {
    t.Fork? ==> Even(t) && Balanced(t.left) && Balanced(t.right)
  }

  /** With exact depths, these trees are the AVL trees. */
  lemma {:induction false} ExactBalanced(t: Tree)
    requires Exact(t)
    ensures Balanced(t) <==> AVL(t)
    decreases t
  {
    if t.Fork? {
      ExactBalanced(t.left);
      ExactBalanced(t.right);
    }
  }

  /** The loop arrives at a node with even, sound subtrees whose depths differ by two at most. */
  predicate Arrives(t: Tree) {
    && SoundBelow(t)
    && Even(t.left) && Even(t.right)
    && -2 <= Depth(t.left) - Depth(t.right) <= 2
  }

  /** Where a node that the loop arrives at ends up. */
  function Rebuilt(test: int, t: Tree): Option<Tree>
    requires SoundBelow(t)
  {
    var l, n, r := t.left, t.node, t.right;
    if Depth(l) == Depth(r) + 2 then
      if test >= 0 && Depth(l.left) >= Depth(l.right) then Some(Node(l.left, l.node, Node(l.right, n, r)))
      else if l.right.Nil? then None
      else Some(Node(Node(l.left, l.node, l.right.left), l.right.node, Node(l.right.right, n, r)))
    else if Depth(r) == Depth(l) + 2 then
      if Depth(r.left) <= Depth(r.right) then Some(Node(Node(l, n, r.left), r.node, r.right))
      else Some(Node(Node(l, n, r.left.left), r.left.node, Node(r.left.right, r.node, r.right)))
    else Some(Node(l, n, r))
  }

  lemma {:induction false} LowerTwice(t: Tree)
    requires Sound(t)
    ensures t.Fork? ==> 0 <= Depth(t.left) < t.depth && 0 <= Depth(t.right) < t.depth
    ensures t.Fork? && t.left.Fork? ==>
              0 <= Depth(t.left.left) < t.left.depth && 0 <= Depth(t.left.right) < t.left.depth
    ensures t.Fork? && t.right.Fork? ==>
              0 <= Depth(t.right.left) < t.right.depth && 0 <= Depth(t.right.right) < t.right.depth
  {
    LowerBelow(t);
    if t.Fork? {
      LowerBelow(t.left);
      LowerBelow(t.right);
    }
  }

  lemma {:induction false} StillIs(readsRoot: bool, c: Path, t: Tree)
    requires SoundBelow(t) && Near(Depth(t.left), Depth(t.right))
    ensures Settle(readsRoot, c, t) == Some(Node(t.left, t.node, t.right))
  {
    RoundIs(Test(readsRoot, c, t), t);
  }

  lemma {:induction false} TurnedIs(readsRoot: bool, c: Path, t: Tree)
    requires SoundBelow(t) && Round(Test(readsRoot, c, t), t).Turned?
    ensures SoundBelow(Round(Test(readsRoot, c, t), t).tree)
    ensures Settle(readsRoot, c, t) == Settle(readsRoot, c, Round(Test(readsRoot, c, t), t).tree)
  {
    RoundSound(Test(readsRoot, c, t), t);
  }

  /** A right-heavy node settles in one rotation or one double rotation. */
  lemma {:induction false} RightHeavySettles(readsRoot: bool, c: Path, t: Tree)
    requires SoundBelow(t) && Even(t.right) && Depth(t.right) == Depth(t.left) + 2
    ensures Settle(readsRoot, c, t) == Rebuilt(Test(readsRoot, c, t), t)
  {
    RoundIs(Test(readsRoot, c, t), t);
    LowerTwice(t.right);
    TurnedIs(readsRoot, c, t);
    StillIs(readsRoot, c, Round(Test(readsRoot, c, t), t).tree);
  }

  /** A single rotation of an inner-heavy node leaves a right-heavy one, which the next round turns
      into what the double rotation would have made. */
  lemma {:induction false} LeftHeavySettles(readsRoot: bool, c: Path, t: Tree)
    requires Arrives(t) && Depth(t.left) == Depth(t.right) + 2
    ensures Settle(readsRoot, c, t) == Rebuilt(Test(readsRoot, c, t), t)
  {
    var test, l, n, r := Test(readsRoot, c, t), t.left, t.node, t.right;
    RoundIs(test, t);
    LowerTwice(t.left);
    if Round(test, t).Turned? {
      TurnedIs(readsRoot, c, t);
      var u := Round(test, t).tree;
      if test >= 0 && Depth(l.left) < Depth(l.right) {
        assert u == Node(l.left, l.node, Node(l.right, n, r));
        RightHeavySettles(readsRoot, c, u);
      } else {
        StillIs(readsRoot, c, u);
      }
    }
  }

  /** All rounds at one place together. */
  lemma {:induction false} SettleIs(readsRoot: bool, c: Path, t: Tree)
    requires Arrives(t)
    ensures Settle(readsRoot, c, t) == Rebuilt(Test(readsRoot, c, t), t)
  {
    if Depth(t.left) == Depth(t.right) + 2 {
      LeftHeavySettles(readsRoot, c, t);
    } else if Depth(t.right) == Depth(t.left) + 2 {
      RightHeavySettles(readsRoot, c, t);
    } else {
      StillIs(readsRoot, c, t);
    }
  }

  /** The left-heavy case asks for a double rotation of a node whose left child is not heavy on the
      inner side; evenly high grandchildren survive that only if the inner one is high on its left. */
  predicate Misled(test: int, t: Tree) {
    && t.Fork? && t.left.Fork? && Depth(t.left) == Depth(t.right) + 2 && test < 0
    && var l := t.left;
       || l.right.Nil?
       || Depth(l.left) > Depth(l.right)
       || (Depth(l.left) == Depth(l.right) && Depth(l.right.left) + 1 < Depth(l.left))
  }

  lemma {:induction false} RebuiltSound(test: int, t: Tree)
    requires Arrives(t) && Rebuilt(test, t).Some?
    ensures Rebuilt(test, t).value.Fork? && Sound(Rebuilt(test, t).value)
  {
    var l, n, r := t.left, t.node, t.right;
    SoundNode(l, n, r);
    if Depth(l) == Depth(r) + 2 {
      SoundNode(l.right, n, r);
      SoundNode(l.left, l.node, Node(l.right, n, r));
      if l.right.Fork? {
        SoundNode(l.left, l.node, l.right.left);
        SoundNode(l.right.right, n, r);
        SoundNode(Node(l.left, l.node, l.right.left), l.right.node, Node(l.right.right, n, r));
      }
    } else if Depth(r) == Depth(l) + 2 {
      SoundNode(l, n, r.left);
      SoundNode(Node(l, n, r.left), r.node, r.right);
      if r.left.Fork? {
        SoundNode(l, n, r.left.left);
        SoundNode(r.left.right, r.node, r.right);
        SoundNode(Node(l, n, r.left.left), r.left.node, Node(r.left.right, r.node, r.right));
      }
    }
  }

  /** The new root is even and at most one lower. */
  predicate Lowers(t: Tree, u: Tree) {
    Even(u) && Reach(t) - 1 <= Depth(u) <= Reach(t)
  }

  lemma {:induction false} RebuiltLeft(test: int, t: Tree)
    requires Arrives(t) && Depth(t.left) == Depth(t.right) + 2 && Rebuilt(test, t).Some?
    ensures Lowers(t, Rebuilt(test, t).value)
  {
    LowerTwice(t.left);
  }

  lemma {:induction false} RebuiltRight(test: int, t: Tree)
    requires Arrives(t) && Depth(t.right) == Depth(t.left) + 2 && Rebuilt(test, t).Some?
    ensures Lowers(t, Rebuilt(test, t).value)
  {
    LowerTwice(t.right);
  }

  lemma {:induction false} RebuiltHeight(test: int, t: Tree)
    requires Arrives(t) && Rebuilt(test, t).Some?
    ensures Lowers(t, Rebuilt(test, t).value)
    ensures Near(Depth(t.left), Depth(t.right)) ==> Depth(Rebuilt(test, t).value) == Reach(t)
  {
    if Depth(t.left) == Depth(t.right) + 2 {
      RebuiltLeft(test, t);
    } else if Depth(t.right) == Depth(t.left) + 2 {
      RebuiltRight(test, t);
    } else {
      LowerBelow(t.left);
      LowerBelow(t.right);
    }
  }

  lemma {:induction false} NodeBalanced(l: Tree, n: AVLNode, r: Tree)
    ensures Balanced(Node(l, n, r)) <==> Balanced(l) && Balanced(r) && Near(Depth(l), Depth(r))
  {
  }

  lemma {:induction false} EvenBalanced(t: Tree)
    requires t.Fork? && Even(t)
    ensures Balanced(t) <==> Balanced(t.left) && Balanced(t.right)
  {
  }

  /** A node whose children come to stand beside trees one lower than itself. */
  lemma {:induction false} Middle(m: Tree)
    requires m.Fork? && Sound(m)
    ensures Even(m) <==> Near(m.depth - 1, Depth(m.left)) && Near(m.depth - 1, Depth(m.right))
  {
    LowerBelow(m);
  }

  lemma {:induction false} RightRebuiltBalanced(test: int, t: Tree)
    requires Arrives(t) && Depth(t.right) == Depth(t.left) + 2
    ensures Rebuilt(test, t).Some? && Balanced(Rebuilt(test, t).value) <==> Balanced(t.left) && Balanced(t.right)
  {
    LowerTwice(t.left);
    LowerTwice(t.right);
    var l, n, r := t.left, t.node, t.right;
    EvenBalanced(r);
    if Depth(r.left) <= Depth(r.right) {
      NodeBalanced(l, n, r.left);
      NodeBalanced(Node(l, n, r.left), r.node, r.right);
    } else {
      var m := r.left;
      Middle(m);
      NodeBalanced(l, n, m.left);
      NodeBalanced(m.right, r.node, r.right);
      NodeBalanced(Node(l, n, m.left), m.node, Node(m.right, r.node, r.right));
    }
  }

  lemma {:induction false} LeftRebuiltBalanced(test: int, t: Tree)
    requires Arrives(t) && Depth(t.left) == Depth(t.right) + 2
    ensures Rebuilt(test, t).Some? && Balanced(Rebuilt(test, t).value) <==>
              Balanced(t.left) && Balanced(t.right) && !Misled(test, t)
  {
    LowerTwice(t.left);
    LowerTwice(t.right);
    var l, n, r := t.left, t.node, t.right;
    EvenBalanced(l);
    if test >= 0 && Depth(l.left) >= Depth(l.right) {
      NodeBalanced(l.right, n, r);
      NodeBalanced(l.left, l.node, Node(l.right, n, r));
    } else if l.right.Fork? {
      var m := l.right;
      Middle(m);
      NodeBalanced(l.left, l.node, m.left);
      NodeBalanced(m.right, n, r);
      NodeBalanced(Node(l.left, l.node, m.left), m.node, Node(m.right, n, r));
    }
  }

  lemma {:induction false} RebuiltBalanced(test: int, t: Tree)
    requires Arrives(t)
    ensures Rebuilt(test, t).Some? && Balanced(Rebuilt(test, t).value) <==>
              Balanced(t.left) && Balanced(t.right) && !Misled(test, t)
  {
    if Depth(t.left) == Depth(t.right) + 2 {
      LeftRebuiltBalanced(test, t);
    } else if Depth(t.right) == Depth(t.left) + 2 {
      RightRebuiltBalanced(test, t);
    } else {
      NodeBalanced(t.left, t.node, t.right);
    }
  }

  // ------------------------------------------------------------------------------ up to the root

  /** The tree around a place is an AVL tree if a tree of height `h` is put there. */
  predicate BalancedAround(c: Path, h: int) {
    !c.Top? ==> Balanced(Side(c)) && Near(h, Depth(Side(c))) && BalancedAround(c.up, 1 + Max(h, Depth(Side(c))))
  }

  /** What the loop finds at a place where the height used to be `h` and one insertion or one
      removal has happened below. */
  predicate Pending(t: Tree, h: nat) {
    && Arrives(t)
    && if Near(Depth(t.left), Depth(t.right)) then Near(Reach(t), h) else h <= Reach(t) <= h + 1
  }

  /** No round on the way up is misled. */
  predicate NeverMisled(readsRoot: bool, c: Path, t: Tree)
    requires SoundBelow(t) && SoundSides(c)
    decreases c
  {
    && !Misled(Test(readsRoot, c, t), t)
    && var u := Settle(readsRoot, c, t);
       (u.Some? && !c.Top? ==> NeverMisled(readsRoot, c.up, Above(c, u.value)))
  }

  lemma {:induction false} PendingAbove(readsRoot: bool, c: Path, t: Tree, h: nat)
    requires Pending(t, h) && SoundSides(c) && BalancedAround(c, h)
    ensures var u := Settle(readsRoot, c, t);
            && (u.Some? && Balanced(u.value) <==>
                  Balanced(t.left) && Balanced(t.right) && !Misled(Test(readsRoot, c, t), t))
            && (u.Some? && !c.Top? ==> Pending(Above(c, u.value), 1 + Max(h, Depth(Side(c)))))
  {
    var test := Test(readsRoot, c, t);
    SettleIs(readsRoot, c, t);
    RebuiltBalanced(test, t);
    if Rebuilt(test, t).Some? {
      RebuiltSound(test, t);
      RebuiltHeight(test, t);
    }
  }

  /** The loop leaves an AVL tree behind exactly if it starts on AVL subtrees and is never misled. */
  lemma {:induction false} ClimbExact(readsRoot: bool, c: Path, t: Tree, h: nat)
    requires Pending(t, h) && SoundSides(c) && BalancedAround(c, h)
    ensures var r := Climb(readsRoot, c, t);
            r.Some? && Balanced(r.value) <==> Balanced(t.left) && Balanced(t.right) && NeverMisled(readsRoot, c, t)
    decreases c
  {
    PendingAbove(readsRoot, c, t, h);
    var u := Settle(readsRoot, c, t);
    if u.Some? && !c.Top? {
      ClimbExact(readsRoot, c.up, Above(c, u.value), 1 + Max(h, Depth(Side(c))));
    }
  }

  /** Asking for the balance of the left child, the loop is never misled. */
  lemma {:induction false} ChildTestNeverMisled(c: Path, t: Tree, h: nat)
    requires Pending(t, h) && SoundSides(c) && BalancedAround(c, h)
    ensures NeverMisled(false, c, t)
    decreases c
  {
    LowerTwice(t.left);
    PendingAbove(false, c, t, h);
    var u := Settle(false, c, t);
    if u.Some? && !c.Top? {
      ChildTestNeverMisled(c.up, Above(c, u.value), 1 + Max(h, Depth(Side(c))));
    }
  }
}
