/**
  Nodes that have been extracted and are inserted again: which depth they carry, and what becomes of it.

  `extract` does not reset the depth of the node that it returns, and `insert` does not look at it.  The balancing
  is taken here to ask for the balance of the left child.
 */
module AVLCarried {
  import opened Collections
  import opened AVLNodes
  import opened AVLShapes
  import opened AVLBalance
  import opened AVLOrder
  import opened AVLOperations
  import opened AVLResults

  // -------------------------------------------------------------------------------------- no crash

  /** Asking for the balance of the left child, no rotation meets a missing child. */
  lemma {:induction false} NoFault(t: Tree)
    requires SoundBelow(t)
    ensures !Round(Balance(t.left), t).Fault?
  {
    RoundIs(Balance(t.left), t);
    LowerBelow(t.left);
  }

  lemma {:induction false} SettlesAlways(c: Path, t: Tree)
    requires SoundBelow(t)
    ensures Settle(false, c, t).Some?
    decreases Reach(t), Rank(t), Size(Inner(t))
  {
    var test := Test(false, c, t);
    NoFault(t);
    RoundSound(test, t);
    if Round(test, t).Turned? {
      RoundDecreases(test, t);
      SettlesAlways(c, Round(test, t).tree);
    }
  }

  lemma {:induction false} ClimbsAlways(c: Path, t: Tree)
    requires SoundBelow(t) && SoundSides(c)
    ensures Climb(false, c, t).Some?
    decreases c
  {
    SettlesAlways(c, t);
    if !c.Top? {
      ClimbsAlways(c.up, Above(c, Settle(false, c, t).value));
    }
  }

  /** Whatever depths nodes carry, no insertion and no removal crashes. */
  lemma {:induction false} NeverCrashes(t: Tree, n: AVLNode, d: int, key: int)
    requires Sound(t) && d >= 1
    ensures !Insert(false, t, n, d).Crashed? && !Extract(false, t, key).Broken?
  {
    FindIsInside(Top, t, n.key);
    var c := Find(Top, t, n.key).path;
    if !c.Top? {
      ClimbsAlways(c.up, Above(c, Leaf(n, d)));
    }
    VictimIs(t, key);
    var p := Victim(t, key);
    if p.tree.Fork? {
      var child := if p.tree.left.Fork? then p.tree.left else p.tree.right;
      if child.Fork? {
        ClimbsAlways(p.path, Leaf(child.node, child.depth));
      } else if !p.path.Top? {
        ClimbsAlways(p.path.up, Above(p.path, Nil));
      }
    }
  }

  // ---------------------------------------------------------------------------- the depth it carries

  /** An extracted node carries the depth of a leaf exactly if it was one, or had two children and changed places with a
      leaf that was not its own child: neighbours keep their depths in the exchange. */
  lemma {:induction false} CarriesOne(readsRoot: bool, t: Tree, key: int)
    requires Exact(t) && Extract(readsRoot, t, key).Extracted?
    ensures var q := Find(Top, t, key).tree;
            Extract(readsRoot, t, key).depth == 1 <==>
              || (q.left.Nil? && q.right.Nil?)
              || (q.left.Fork? && q.right.Fork? && q.right.left.Fork? && Leftmost(Top, q.right).tree.right.Nil?)
  {
    FindIsInside(Top, t, key);
    VictimForks(t, key);
    var q := Find(Top, t, key).tree;
    LowerBelow(q);
    if q.left.Fork? && q.right.Fork? {
      LeftmostExact(Top, q.right);
      LowerBelow(Leftmost(Top, q.right).tree);
    }
  }

  // ------------------------------------------------------------------------- where the depth is kept

  /** The leaf hangs on the inner side of its parent, whose sibling is a leaf. */
  predicate OnInnerSide(c: Path)
    requires !c.Top?
  {
    !c.up.Top? && Height(Side(c.up)) == 1 && (c.RightOf? <==> c.up.LeftOf?)
  }

  /** A node that carries the depth `d` gets the depth of a leaf at the place, or a new one in a rotation. */
  predicate Lands(c: Path, d: int) {
    d == 1 || (!c.Top? && (d >= 3 || Side(c).Nil? || OnInnerSide(c)))
  }

  /** The depth of some leaf is too high. */
  predicate Stale(t: Tree) {
    t.Fork? && ((t.left.Nil? && t.right.Nil? && t.depth >= 2) || Stale(t.left) || Stale(t.right))
  }

  lemma {:induction false} StaleIs(t: Tree)
    requires Sound(t)
    ensures Stale(t) <==> !Exact(t)
    decreases t
  {
    if t.Fork? {
      StaleIs(t.left);
      StaleIs(t.right);
    }
  }

  predicate StaleBelow(t: Tree) {
    t.Fork? && (Stale(t.left) || Stale(t.right))
  }

  predicate Deep(t: Tree) {
    t.Fork? && (StaleBelow(t.left) || StaleBelow(t.right))
  }

  lemma {:induction false} StaleNode(l: Tree, n: AVLNode, r: Tree)
    requires Stale(l) || Stale(r)
    ensures StaleBelow(Node(l, n, r)) && Stale(Node(l, n, r))
  {
  }

  lemma {:induction false} DeepNode(l: Tree, n: AVLNode, r: Tree)
    requires StaleBelow(l) || StaleBelow(r)
    ensures Deep(Node(l, n, r))
  {
  }

  lemma {:induction false} DeepIsStale(t: Tree)
    ensures StaleBelow(t) ==> Stale(t)
    ensures Deep(t) ==> StaleBelow(t)
  {
  }

  lemma {:induction false} DeepLeft(test: int, t: Tree)
    requires SoundBelow(t) && (Deep(t.left) || Deep(t.right)) && Rebuilt(test, t).Some?
             && Depth(t.left) == Depth(t.right) + 2
    ensures Deep(Rebuilt(test, t).value)
  {
    var l, n, r := t.left, t.node, t.right;
    DeepIsStale(l.left);
    DeepIsStale(l.right);
    DeepIsStale(r);
    if test >= 0 && Depth(l.left) >= Depth(l.right) {
      if Stale(l.right) || Stale(r) {
        StaleNode(l.right, n, r);
      }
      DeepNode(l.left, l.node, Node(l.right, n, r));
    } else {
      var m := l.right;
      if Stale(l.left) || Stale(m.left) {
        StaleNode(l.left, l.node, m.left);
      }
      if Stale(m.right) || Stale(r) {
        StaleNode(m.right, n, r);
      }
      DeepNode(Node(l.left, l.node, m.left), m.node, Node(m.right, n, r));
    }
  }

  lemma {:induction false} DeepRight(test: int, t: Tree)
    requires SoundBelow(t) && (Deep(t.left) || Deep(t.right)) && Rebuilt(test, t).Some?
             && Depth(t.right) == Depth(t.left) + 2
    ensures Deep(Rebuilt(test, t).value)
  {
    var l, n, r := t.left, t.node, t.right;
    DeepIsStale(l);
    DeepIsStale(r.left);
    DeepIsStale(r.right);
    if Depth(r.left) <= Depth(r.right) {
      if Stale(l) || Stale(r.left) {
        StaleNode(l, n, r.left);
      }
      DeepNode(Node(l, n, r.left), r.node, r.right);
    } else {
      var m := r.left;
      if Stale(l) || Stale(m.left) {
        StaleNode(l, n, m.left);
      }
      if Stale(m.right) || Stale(r.right) {
        StaleNode(m.right, r.node, r.right);
      }
      DeepNode(Node(l, n, m.left), m.node, Node(m.right, r.node, r.right));
    }
  }

  /** A rotation further up does not come near the leaf. */
  lemma {:induction false} DeepRebuilt(test: int, t: Tree)
    requires SoundBelow(t) && (Deep(t.left) || Deep(t.right)) && Rebuilt(test, t).Some?
    ensures Deep(Rebuilt(test, t).value)
  {
    if Depth(t.left) == Depth(t.right) + 2 {
      DeepLeft(test, t);
    } else if Depth(t.right) == Depth(t.left) + 2 {
      DeepRight(test, t);
    } else {
      DeepNode(t.left, t.node, t.right);
    }
  }

  lemma {:induction false} DeepStays(c: Path, t: Tree, h: nat)
    requires SoundSides(c) && Sound(t) && Balanced(t) && BalancedAround(c, h) && Near(Depth(t), h) && Deep(t)
    ensures ClimbAbove(false, c, t).Some? && Stale(ClimbAbove(false, c, t).value)
    decreases c
  {
    if !c.Top? {
      var x, g := Above(c, t), 1 + Max(h, Depth(Side(c)));
      assert Pending(x, g);
      SettlesAlways(c.up, x);
      SettleIs(false, c.up, x);
      var test := Test(false, c.up, x);
      RebuiltHeight(test, x);
      LowerBelow(x.left);
      PendingAbove(false, c.up, x, g);
      DeepRebuilt(test, x);
      DeepStays(c.up, Rebuilt(test, x).value, g);
    }
  }

  lemma {:induction false} StaleStays(c: Path, t: Tree)
    requires SoundSides(c) && Sound(t) && BalancedAround(c, Depth(t)) && Stale(t)
    ensures ClimbAbove(false, c, t).Some? && Stale(ClimbAbove(false, c, t).value)
    decreases c
  {
    if !c.Top? {
      var x := Above(c, t);
      StillIs(false, c.up, x);
      SoundNode(x.left, x.node, x.right);
      StaleStays(c.up, Node(x.left, x.node, x.right));
    }
  }

  // ------------------------------------------------------------------------------ the parent's round

  /** What becomes of the parent of a leaf that carries a depth over 1. */
  function Hung(c: Path, n: AVLNode, d: int): Tree
    requires !c.Top?
  {
    var s := Side(c);
    if s.Nil? then
      if c.LeftOf? then Node(Nil, n, Leaf(c.node, 1)) else Node(Leaf(c.node, 1), n, Nil)
    else
      var leaf := Leaf(n, if d == 2 then 2 else 1);
      if c.LeftOf? then Node(leaf, c.node, s) else Node(s, c.node, leaf)
  }

  /** The place is beside at most a leaf. */
  predicate Beside(c: Path) {
    !c.Top? && OneLeaf(Side(c))
  }

  lemma {:induction false} HungLow(c: Path, n: AVLNode, d: int)
    requires Beside(c) && d >= 2 && (Side(c).Nil? || d == 2)
    ensures Settle(false, c.up, Above(c, Leaf(n, d))) == Some(Hung(c, n, d))
  {
    var x := Above(c, Leaf(n, d));
    LeafShape(n, d);
    RoundIs(Test(false, c.up, x), x);
    if Side(c).Nil? {
      TurnedIs(false, c.up, x);
      StillIs(false, c.up, Round(Test(false, c.up, x), x).tree);
    } else {
      StillIs(false, c.up, x);
    }
  }

  /** A leaf that carries more is turned up and down again. */
  lemma {:induction false} HungHigh(c: Path, n: AVLNode, d: int)
    requires Beside(c) && d >= 3 && Side(c).Fork?
    ensures Settle(false, c.up, Above(c, Leaf(n, d))) == Some(Hung(c, n, d))
  {
    var x := Above(c, Leaf(n, d));
    LeafShape(n, d);
    RoundIs(Test(false, c.up, x), x);
    TurnedIs(false, c.up, x);
    var y := Round(Test(false, c.up, x), x).tree;
    RoundIs(Test(false, c.up, y), y);
    TurnedIs(false, c.up, y);
    StillIs(false, c.up, Round(Test(false, c.up, y), y).tree);
  }

  lemma {:induction false} HungShape(c: Path, n: AVLNode, d: int)
    requires Beside(c) && Balanced(Side(c)) && d >= 2
    ensures var u := Hung(c, n, d);
            && Sound(u) && Balanced(u)
            && (Exact(u) <==> d >= 3 || Side(c).Nil?)
            && Depth(u) == if Side(c).Fork? && d == 2 then 3 else 2
  {
    LeafShape(n, if d == 2 then 2 else 1);
    LeafShape(c.node, 1);
    ExactNode(Nil, n, Leaf(c.node, 1));
    ExactNode(Leaf(c.node, 1), n, Nil);
    if Side(c).Fork? && d > 2 {
      ExactNode(Leaf(n, 1), c.node, Side(c));
      ExactNode(Side(c), c.node, Leaf(n, 1));
    }
  }

  lemma {:induction false} HungSettles(c: Path, n: AVLNode, d: int)
    requires Beside(c) && SoundSides(c) && Balanced(Side(c)) && d >= 2
    ensures Sound(Leaf(n, d)) && Sound(Hung(c, n, d))
    ensures ClimbAbove(false, c, Leaf(n, d)) == ClimbAbove(false, c.up, Hung(c, n, d))
  {
    LeafShape(n, d);
    HungShape(c, n, d);
    if d == 2 || Side(c).Nil? {
      HungLow(c, n, d);
    } else {
      HungHigh(c, n, d);
    }
  }

  // -------------------------------------------------------------------------------- the whole way up

  /** The leaf keeps the depth 2 below its parent, which is one higher than it should be. */
  lemma {:induction false} HungStale(c: Path, n: AVLNode) returns (v: Tree)
    requires Beside(c) && Side(c).Fork? && !c.up.Top? && ExactSides(c) && Balanced(Side(c)) && BalancedAround(c.up, 2)
    ensures SoundSides(c.up.up) && Sound(Hung(c, n, 2)) && Sound(v) && Balanced(v)
    ensures ClimbAbove(false, c.up, Hung(c, n, 2)) == ClimbAbove(false, c.up.up, v)
    ensures if Depth(Side(c.up)) >= 2 then Deep(v) && Near(Depth(v), 1 + Max(2, Depth(Side(c.up))))
            else Depth(v) == 3 && (Exact(v) <==> OnInnerSide(c))
  {
    var u := Hung(c, n, 2);
    HungShape(c, n, 2);
    var w := Above(c.up, u);
    SettlesAlways(c.up.up, w);
    SettleIs(false, c.up.up, w);
    var test := Test(false, c.up.up, w);
    v := Rebuilt(test, w).value;
    RebuiltBalanced(test, w);
    LowerBelow(Side(c.up));
  }

  /** The parent has a leaf on the other side, and the node carries the depth 2. */
  lemma {:induction false} HangsOn(c: Path, n: AVLNode)
    requires Beside(c) && Side(c).Fork? && ExactSides(c) && Balanced(Side(c)) && BalancedAround(c, 0)
    ensures Sound(Leaf(n, 2))
    ensures var r := ClimbAbove(false, c, Leaf(n, 2));
            r.Some? && Sound(r.value) && Balanced(r.value) && (Exact(r.value) <==> OnInnerSide(c))
  {
    HungSettles(c, n, 2);
    HungShape(c, n, 2);
    var u := Hung(c, n, 2);
    AboveExact(false, c.up, u, 2);
    AboveKeeps(false, c.up, u);
    if !c.up.Top? {
      var v := HungStale(c, n);
      AboveKeeps(false, c.up.up, v);
      StaleIs(v);
      if Depth(Side(c.up)) >= 2 {
        DeepStays(c.up.up, v, 1 + Max(2, Depth(Side(c.up))));
      } else if !OnInnerSide(c) {
        StaleStays(c.up.up, v);
      }
      StaleIs(ClimbAbove(false, c.up.up, v).value);
    }
  }

  /** Any other place below a node, or any other depth over 1. */
  lemma {:induction false} TurnsUp(c: Path, n: AVLNode, d: int)
    requires Beside(c) && d >= 2 && (Side(c).Nil? || d >= 3) && ExactSides(c) && Balanced(Side(c))
             && BalancedAround(c, 0)
    ensures Sound(Leaf(n, d))
    ensures var r := ClimbAbove(false, c, Leaf(n, d)); r.Some? && Exact(r.value) && Balanced(r.value)
  {
    HungSettles(c, n, d);
    HungShape(c, n, d);
    var u := Hung(c, n, d);
    AboveExact(false, c.up, u, 1 + Depth(Side(c)));
    AboveKeeps(false, c.up, u);
  }

  /** The insertion of a node that carries the depth `d` into an AVL tree never crashes, and leaves exact depths exactly
      if the node lands; then the tree is an AVL tree again.  It is balanced as far as the stored depths tell in any
      case, unless the node is the only one. */
  lemma {:induction false} InsertCarried(t: Tree, n: AVLNode, d: int)
    requires Good(t) && !HasKey(t, n.key) && d >= 1
    ensures var r := Insert(false, t, n, d);
            && r.Added? && (Exact(r.tree) <==> Lands(Find(Top, t, n.key).path, d))
            && (Exact(r.tree) ==> Good(r.tree)) && (t.Fork? ==> Balanced(r.tree))
  {
    FindExact(t, n.key);
    FindIsInside(Top, t, n.key);
    ExactBalanced(t);
    FindBalanced(Top, t, n.key);
    LeafShape(n, d);
    var c := Find(Top, t, n.key).path;
    var _, _ := InsertKeeps(false, t, n, d);
    if d == 1 {
      InsertExact(false, t, n);
    } else if !c.Top? {
      assert Beside(c) && Balanced(Side(c));
      if d == 2 && Side(c).Fork? {
        HangsOn(c, n);
      } else {
        TurnsUp(c, n, d);
      }
    }
    var r := Insert(false, t, n, d).tree;
    if Exact(r) {
      ExactBalanced(r);
    }
  }
}
