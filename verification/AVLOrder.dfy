/**
  Search order: the balancing loop only regroups the nodes, and a descent by key arrives where the
  key is or belongs.
 */
module AVLOrder {
  import opened Collections
  import opened AVLNodes
  import opened AVLShapes

  /** The nodes in front of everything at the place `c`, in order. */
  function Before(c: Path): seq<AVLNode> {
    match c
    case Top => []
    case LeftOf(up, _, _, _) => Before(up)
    case RightOf(up, l, n, _) => Before(up) + (Inorder(l) + [n])
  }

  function After(c: Path): seq<AVLNode> {
    match c
    case Top => []
    case LeftOf(up, n, _, r) => ([n] + Inorder(r)) + After(up)
    case RightOf(up, _, _, _) => After(up)
  }

  lemma {:induction false} PlugInorder(c: Path, t: Tree)
    ensures Inorder(Plug(c, t)) == Before(c) + Inorder(t) + After(c)
  {
    if c.Top? {
      assert [] + Inorder(t) + [] == Inorder(t);
    } else {
      PlugInorder(c.up, Above(c, t));
      AboveInorder(c, t);
    }
  }

  lemma {:induction false} AboveInorder(c: Path, t: Tree)
    requires !c.Top?
    ensures Before(c.up) + Inorder(Above(c, t)) + After(c.up) == Before(c) + Inorder(t) + After(c)
  {
    if c.LeftOf? {
      assert Inorder(Above(c, t)) == Inorder(t) + [c.node] + Inorder(c.right);
    } else {
      assert Inorder(Above(c, t)) == Inorder(c.left) + [c.node] + Inorder(t);
    }
  }

  lemma {:induction false} Shift(a: seq<AVLNode>, x: AVLNode, b: seq<AVLNode>, y: AVLNode, c: seq<AVLNode>)
    ensures (a + [x] + b) + [y] + c == a + [x] + (b + [y] + c)
  {
  }

  lemma {:induction false} TurnRight(y: Tree)
    requires y.Fork? && y.left.Fork?
    ensures Inorder(RotateRight(y)) == Inorder(y)
  {
    var x := y.left;
    Shift(Inorder(x.left), x.node, Inorder(x.right), y.node, Inorder(y.right));
  }

  lemma {:induction false} TurnLeft(x: Tree)
    requires x.Fork? && x.right.Fork?
    ensures Inorder(RotateLeft(x)) == Inorder(x)
  {
    var y := x.right;
    Shift(Inorder(x.left), x.node, Inorder(y.left), y.node, Inorder(y.right));
  }

  lemma {:induction false} RoundInorder(test: int, t: Tree)
    requires t.Fork?
    ensures !Round(test, t).Fault? ==> Inorder(Round(test, t).tree) == Inorder(t)
  {
    var u := Node(t.left, t.node, t.right);
    if u.left.Fork? {
      TurnRight(u);
      if u.left.right.Fork? {
        TurnLeft(u.left);
        TurnRight(Fork(RotateLeft(u.left), u.node, u.depth, u.right));
      }
    }
    if u.right.Fork? {
      TurnLeft(u);
      if u.right.left.Fork? {
        TurnRight(u.right);
        TurnLeft(Fork(u.left, u.node, u.depth, RotateRight(u.right)));
      }
    }
  }

  lemma {:induction false} SettleInorder(readsRoot: bool, c: Path, t: Tree)
    requires SoundBelow(t)
    ensures var u := Settle(readsRoot, c, t); u.Some? ==> Inorder(u.value) == Inorder(t)
    decreases Reach(t), Rank(t), Size(Inner(t))
  {
    var test := Test(readsRoot, c, t);
    RoundSound(test, t);
    RoundInorder(test, t);
    if Round(test, t).Turned? {
      RoundDecreases(test, t);
      SettleInorder(readsRoot, c, Round(test, t).tree);
    }
  }

  /** Balanced or not, the loop loses and reorders nothing, and all depths fit each other afterwards; they are
      exact if they were in the trees that it works on. */
  lemma {:induction false} ClimbKeeps(readsRoot: bool, c: Path, t: Tree)
    requires SoundBelow(t) && SoundSides(c)
    ensures var r := Climb(readsRoot, c, t);
            r.Some? ==>
              && Inorder(r.value) == Before(c) + Inorder(t) + After(c) && Sound(r.value)
              && (ExactBelow(t) && ExactSides(c) ==> Exact(r.value))
    decreases c
  {
    SettleInorder(readsRoot, c, t);
    var u := Settle(readsRoot, c, t);
    if u.Some? {
      if c.Top? {
        assert [] + Inorder(t) + [] == Inorder(t);
      } else {
        ClimbKeeps(readsRoot, c.up, Above(c, u.value));
        AboveInorder(c, u.value);
      }
    }
  }

  // -------------------------------------------------------------------------------- search order

  predicate Sorted(s: seq<AVLNode>) {
    forall i, j | 0 <= i < j < |s| :: s[i].key < s[j].key
  }

  predicate Ordered(t: Tree) {
    Sorted(Inorder(t))
  }

  datatype Place = Place(path: Path, tree: Tree)

  /** The descent of `insert`, `extract` and `get`: by key to the node that has it, or to the free
      place where it belongs. */
  function Find(c: Path, t: Tree, key: int): Place
    decreases t
  {
    match t
    case Nil => Place(c, t)
    case Fork(l, n, d, r) =>
      if key < n.key then Find(LeftOf(c, n, d, r), l, key)
      else if key > n.key then Find(RightOf(c, l, n, d), r, key)
      else Place(c, t)
  }

  /** All keys in `a` are lower and all keys in `b` are higher. */
  predicate Between(a: seq<AVLNode>, key: int, b: seq<AVLNode>) {
    && (forall n | n in a :: n.key < key)
    && (forall n | n in b :: key < n.key)
  }

  lemma {:induction false} SortedParts(a: seq<AVLNode>, n: AVLNode, b: seq<AVLNode>)
    ensures Sorted(a + [n] + b) <==> Sorted(a) && Sorted(b) && Between(a, n.key, b)
  {
    var s := a + [n] + b;
    if Sorted(s) {
      assert forall i | 0 <= i < |a| :: s[i] == a[i];
      assert forall i | 0 <= i < |b| :: s[|a| + 1 + i] == b[i];
      assert s[|a|] == n;
    }
  }

  lemma {:induction false} FindIsInside(c: Path, t: Tree, key: int)
    requires SoundSides(c) && Sound(t)
    ensures var p := Find(c, t, key);
            && Plug(p.path, p.tree) == Plug(c, t) && SoundSides(p.path) && Sound(p.tree)
            && (ExactSides(c) && Exact(t) ==> ExactSides(p.path) && Exact(p.tree))
            && (p.tree.Fork? ==> p.tree.node.key == key)
    decreases t
  {
    match t
    case Nil =>
    case Fork(l, n, d, r) =>
      if key < n.key {
        FindIsInside(LeftOf(c, n, d, r), l, key);
      } else if key > n.key {
        FindIsInside(RightOf(c, l, n, d), r, key);
      }
  }

  /** The place where the descent ends separates the lower keys from the higher ones. */
  lemma {:induction false} FindSeparates(c: Path, t: Tree, key: int)
    requires Ordered(t) && Between(Before(c), key, After(c))
    ensures var p := Find(c, t, key);
            && Between(Before(p.path), key, After(p.path))
            && (p.tree.Fork? ==> Between(Inorder(p.tree.left), key, Inorder(p.tree.right)))
    decreases t
  {
    match t
    case Nil =>
    case Fork(l, n, d, r) =>
      SortedParts(Inorder(l), n, Inorder(r));
      if key < n.key {
        FindSeparates(LeftOf(c, n, d, r), l, key);
      } else if key > n.key {
        FindSeparates(RightOf(c, l, n, d), r, key);
      }
  }
}
