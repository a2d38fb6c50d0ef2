/**
  `insert` and `extract` on tree values: what is linked or unlinked, and where the balancing loop
  starts.
 */
module AVLOperations {
  import opened Collections
  import opened AVLNodes
  import opened AVLShapes
  import opened AVLBalance
  import opened AVLOrder

  predicate HasKey(t: Tree, key: int) {
    exists n | n in Inorder(t) :: n.key == key
  }

  function Leaf(n: AVLNode, depth: int): Tree {
    Fork(Nil, n, depth, Nil)
  }

  /** The loop started at the parent of the place `c`, where `t` hangs. */
  function ClimbAbove(readsRoot: bool, c: Path, t: Tree): (r: Option<Tree>)
    requires SoundSides(c) && Sound(t)
  {
    if c.Top? then Some(t) else Climb(readsRoot, c.up, Above(c, t))
  }

  predicate NeverMisledAbove(readsRoot: bool, c: Path, t: Tree)
    requires SoundSides(c) && Sound(t)
  {
    c.Top? || NeverMisled(readsRoot, c.up, Above(c, t))
  }

  // ---------------------------------------------------------------------------------------- insert

  datatype Insertion = Present | Crashed | Added(tree: Tree)

  /** The node `n` carries the depth `d`: 1 if it is new, and what `extract` has left it with otherwise.  The loop
      starts at its parent and does not look at it. */
  function Insert(readsRoot: bool, t: Tree, n: AVLNode, d: int): Insertion
    requires Sound(t) && d >= 1
  {
    var p := Find(Top, t, n.key);
    FindIsInside(Top, t, n.key);
    if p.tree.Fork? then Present
    else
      match ClimbAbove(readsRoot, p.path, Leaf(n, d))
      case None => Crashed
      case Some(r) => Added(r)
  }

  // --------------------------------------------------------------------------------------- extract

  /** minKeyNode, with the way to it. */
  function Leftmost(c: Path, t: Tree): (p: Place)
    requires t.Fork?
    ensures p.tree.Fork? && p.tree.left.Nil?
    decreases t
  {
    if t.left.Nil? then Place(c, t) else Leftmost(LeftOf(c, t.node, t.depth, t.right), t.left)
  }

  /** A node with two children changes places with the leftmost node on its right.  The stored depths
      go with the places, except when the two nodes are neighbours. */
  function Lowered(c: Path, t: Tree): Place
    requires t.Fork? && t.right.Fork?
  {
    var m := Leftmost(Top, t.right).tree;
    var near := t.right.left.Nil?;
    var p := Leftmost(RightOf(c, t.left, m.node, if near then m.depth else t.depth), t.right);
    Place(p.path, Fork(Nil, t.node, if near then t.depth else m.depth, m.right))
  }

  /** A node with a missing child is unlinked: without children, the loop starts at its parent;
      an only child takes its place and loses its own children, and the loop starts there. */
  function Detach(readsRoot: bool, c: Path, t: Tree): Option<Tree>
    requires SoundSides(c) && t.Fork? && (t.left.Nil? || t.right.Nil?)
  {
    var child := if t.left.Fork? then t.left else t.right;
    if child.Nil? then ClimbAbove(readsRoot, c, Nil)
    else Climb(readsRoot, c, Leaf(child.node, child.depth))
  }

  /** The extracted node carries a depth with it. */
  datatype Extraction = Absent | Broken | Extracted(node: AVLNode, depth: int, tree: Tree)

  /** The place from which the node with the key is unlinked. */
  function Victim(t: Tree, key: int): Place {
    var p := Find(Top, t, key);
    if p.tree.Nil? || p.tree.left.Nil? || p.tree.right.Nil? then p else Lowered(p.path, p.tree)
  }

  function Extract(readsRoot: bool, t: Tree, key: int): Extraction
    requires Sound(t)
  {
    var p := Victim(t, key);
    VictimIs(t, key);
    if p.tree.Nil? then Absent
    else
      match Detach(readsRoot, p.path, p.tree)
      case None => Broken
      case Some(r) => Extracted(p.tree.node, p.tree.depth, r)
  }

  lemma {:induction false} LeftmostSound(c: Path, t: Tree)
    requires t.Fork? && Sound(t) && SoundSides(c)
    ensures var p := Leftmost(c, t); SoundSides(p.path) && Sound(p.tree)
    decreases t
  {
    if t.left.Fork? {
      LeftmostSound(LeftOf(c, t.node, t.depth, t.right), t.left);
    }
  }

  lemma {:induction false} LeftmostSame(c: Path, t: Tree)
    requires t.Fork?
    ensures Leftmost(c, t).tree == Leftmost(Top, t).tree && Before(Leftmost(c, t).path) == Before(c)
    decreases t
  {
    if t.left.Fork? {
      LeftmostSame(LeftOf(c, t.node, t.depth, t.right), t.left);
      LeftmostSame(LeftOf(Top, t.node, t.depth, t.right), t.left);
    }
  }

  lemma {:induction false} LeftmostOrder(c: Path, t: Tree)
    requires t.Fork?
    ensures var p := Leftmost(c, t); Inorder(t) + After(c) == [p.tree.node] + (Inorder(p.tree.right) + After(p.path))
    decreases t
  {
    if t.left.Nil? {
      assert Inorder(t) == [t.node] + Inorder(t.right);
    } else {
      LeftmostOrder(LeftOf(c, t.node, t.depth, t.right), t.left);
      assert Inorder(t) + After(c) == Inorder(t.left) + (([t.node] + Inorder(t.right)) + After(c));
    }
  }

  lemma {:induction false} LeftmostIs(c: Path, t: Tree)
    requires t.Fork? && Sound(t) && SoundSides(c)
    ensures var p := Leftmost(c, t);
            && SoundSides(p.path) && Sound(p.tree) && p.tree == Leftmost(Top, t).tree
            && Before(p.path) == Before(c)
            && Inorder(t) + After(c) == [p.tree.node] + (Inorder(p.tree.right) + After(p.path))
  {
    LeftmostSound(c, t);
    LeftmostSame(c, t);
    LeftmostOrder(c, t);
  }

  lemma {:induction false} LeftmostExact(c: Path, t: Tree)
    requires t.Fork? && Exact(t) && ExactSides(c)
    ensures var p := Leftmost(c, t); ExactSides(p.path) && Exact(p.tree)
    decreases t
  {
    if t.left.Fork? {
      LeftmostExact(LeftOf(c, t.node, t.depth, t.right), t.left);
    }
  }

  lemma {:induction false} VictimIs(t: Tree, key: int)
    requires Sound(t)
    ensures var p := Victim(t, key);
            && SoundSides(p.path) && (Exact(t) ==> ExactSides(p.path))
            && (p.tree.Fork? ==> (p.tree.left.Nil? || p.tree.right.Nil?) && p.tree.depth >= 1)
  {
    FindIsInside(Top, t, key);
    var p := Find(Top, t, key);
    if p.tree.Fork? && p.tree.left.Fork? && p.tree.right.Fork? {
      var d := if p.tree.right.left.Nil? then p.tree.right.depth else p.tree.depth;
      var c := RightOf(p.path, p.tree.left, Leftmost(Top, p.tree.right).tree.node, d);
      LeftmostIs(c, p.tree.right);
      if Exact(t) {
        LeftmostExact(c, p.tree.right);
      }
    }
  }

  lemma {:induction false} VictimForks(t: Tree, key: int)
    ensures Victim(t, key).tree.Fork? <==> Find(Top, t, key).tree.Fork?
  {
  }

  lemma {:induction false} ExtractIs(readsRoot: bool, t: Tree, key: int, c: Path, v: Tree)
    requires Sound(t) && Place(c, v) == Victim(t, key) && v.Fork? && SoundSides(c) && (v.left.Nil? || v.right.Nil?)
    ensures Extract(readsRoot, t, key)
         == match Detach(readsRoot, c, v) case None => Broken case Some(r) => Extracted(v.node, v.depth, r)
  {
  }
}
