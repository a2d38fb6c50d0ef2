/**
  The rebalancing of libbinom/source/binom_impl/avl_tree.cxx on tree values.

  A tree value holds the depth that is stored in every node, which may be out of date.  A path says
  where in a tree a subtree hangs.
 */
module AVLShapes {
  import opened Collections
  import opened AVLNodes

  datatype Tree = Nil | Fork(left: Tree, node: AVLNode, depth: int, right: Tree)

  datatype Path =
    | Top
    | LeftOf(up: Path, node: AVLNode, depth: int, right: Tree)
    | RightOf(up: Path, left: Tree, node: AVLNode, depth: int)

  /** The tree at the parent's place when `t` hangs at `c`. */
  function Above(c: Path, t: Tree): Tree
    requires !c.Top?
  {
    if c.LeftOf? then Fork(t, c.node, c.depth, c.right) else Fork(c.left, c.node, c.depth, t)
  }

  /** The other subtree of the parent. */
  function Side(c: Path): Tree
    requires !c.Top?
  {
    if c.LeftOf? then c.right else c.left
  }

  function Plug(c: Path, t: Tree): Tree {
    if c.Top? then t else Plug(c.up, Above(c, t))
  }

  function Inorder(t: Tree): seq<AVLNode> {
    match t
    case Nil => []
    case Fork(l, n, _, r) => Inorder(l) + [n] + Inorder(r)
  }

  function Max(a: int, b: int): int {
    if a > b then a else b
  }

  function Height(t: Tree): nat {
    match t
    case Nil => 0
    case Fork(l, _, _, r) => 1 + Max(Height(l), Height(r))
  }

  function Size(t: Tree): nat {
    match t
    case Nil => 0
    case Fork(l, _, _, r) => Size(l) + 1 + Size(r)
  }

  /** Every depth is computed from those of the children; a node without children has any depth from 1 on. */
  predicate Sound(t: Tree): (b: bool)
    ensures b && t.Fork? ==> t.depth >= 1
  {
    t.Fork? ==>
      && Sound(t.left) && Sound(t.right)
      && if t.left.Nil? && t.right.Nil? then t.depth >= 1 else t.depth == 1 + Max(Depth(t.left), Depth(t.right))
  }

  predicate SoundSides(c: Path) {
    !c.Top? ==> Sound(Side(c)) && SoundSides(c.up)
  }

  /** The depths stored on the way up are those for a tree of depth `h` at the place. */
  predicate DepthsAround(c: Path, h: int) {
    !c.Top? ==> c.depth == 1 + Max(h, Depth(Side(c))) && DepthsAround(c.up, 1 + Max(h, Depth(Side(c))))
  }

  predicate SoundBelow(t: Tree) {
    t.Fork? && Sound(t.left) && Sound(t.right)
  }

  /** Every stored depth is the height. */
  predicate Exact(t: Tree): (b: bool)
    ensures b ==> Sound(t) && Depth(t) == Height(t)
  {
    t.Fork? ==> t.depth == Height(t) && Exact(t.left) && Exact(t.right)
  }

  predicate ExactSides(c: Path): (b: bool)
    ensures b ==> SoundSides(c)
  {
    !c.Top? ==> Exact(Side(c)) && ExactSides(c.up)
  }

  predicate Near(a: int, b: int) {
    -1 <= a - b <= 1
  }

  predicate AVL(t: Tree) {
    t.Fork? ==> Near(Height(t.left), Height(t.right)) && AVL(t.left) && AVL(t.right)
  }

  // ------------------------------------------------------------------------- the source functions

  function Depth(t: Tree): int {
    if t.Nil? then 0 else t.depth
  }

  function Balance(t: Tree): int {
    if t.Nil? then 0 else Depth(t.left) - Depth(t.right)
  }

  /** Sets the depth from the children. */
  function Node(l: Tree, n: AVLNode, r: Tree): Tree {
    Fork(l, n, 1 + Max(Depth(l), Depth(r)), r)
  }

  function RotateRight(y: Tree): Tree
    requires y.Fork? && y.left.Fork?
  {
    var x := y.left;
    Node(x.left, x.node, Node(x.right, y.node, y.right))
  }

  /** The depth of the new root is computed from the depth that `x` had before. */
  function RotateLeft(x: Tree): Tree
    requires x.Fork? && x.right.Fork?
  {
    var y := x.right;
    Fork(Node(x.left, x.node, y.left), y.node, 1 + Max(x.depth, Depth(y.right)), y.right)
  }

  datatype Outcome = Fault | Turned(tree: Tree) | Still(tree: Tree)

  /** One round of the balancing loop; `test` is the balance that its left-heavy cases ask for.  A
      rotation about a missing child is a fault. */
  function Round(test: int, t: Tree): Outcome
    requires t.Fork?
  {
    var u := Node(t.left, t.node, t.right);
    var balance := Balance(u);
    if balance > 1 && test >= 0 then
      if u.left.Fork? then Turned(RotateRight(u)) else Fault
    else if balance > 1 then
      if u.left.Fork? && u.left.right.Fork?
      then Turned(RotateRight(Fork(RotateLeft(u.left), u.node, u.depth, u.right)))
      else Fault
    else if balance < -1 && Balance(u.right) <= 0 then
      if u.right.Fork? then Turned(RotateLeft(u)) else Fault
    else if balance < -1 then
      if u.right.Fork? && u.right.left.Fork?
      then Turned(RotateLeft(Fork(u.left, u.node, u.depth, RotateRight(u.right))))
      else Fault
    else Still(u)
  }

  /** The balance read by the left-heavy cases: that of `root->left` as written, or that of
      `node->left` as in the mirrored cases. */
  function Test(readsRoot: bool, c: Path, t: Tree): int
    requires t.Fork?
  {
    var u := Node(t.left, t.node, t.right);
    if readsRoot then RootLeftBalance(Plug(c, u)) else Balance(u.left)
  }

  function RootLeftBalance(t: Tree): int {
    if t.Nil? then 0 else Balance(t.left)
  }

  // ------------------------------------------------------------------------------ termination

  /** The depth that a node gets from its children. */
  function Reach(t: Tree): nat {
    if t.Nil? then 0 else 1 + Max(0, Max(Depth(t.left), Depth(t.right)))
  }

  function Rank(t: Tree): nat {
    if t.Nil? then 0
    else if Depth(t.left) > Depth(t.right) + 1 then 2
    else if Depth(t.right) > Depth(t.left) + 1 then 1
    else 0
  }

  function Inner(t: Tree): Tree {
    if t.Fork? && t.left.Fork? then t.left.right else Nil
  }

  predicate ExactBelow(t: Tree) {
    t.Fork? && Exact(t.left) && Exact(t.right)
  }

  lemma {:induction false} ExactNode(l: Tree, n: AVLNode, r: Tree)
    requires Exact(l) && Exact(r)
    ensures Exact(Node(l, n, r)) && Balance(Node(l, n, r)) == Height(l) - Height(r)
  {
    assert Depth(l) == Height(l) && Depth(r) == Height(r);
  }

  lemma {:induction false} SoundNode(l: Tree, n: AVLNode, r: Tree)
    requires Sound(l) && Sound(r)
    ensures Sound(Node(l, n, r))
  {
  }

  lemma {:induction false} LowerBelow(t: Tree)
    requires Sound(t)
    ensures t.Fork? ==> 0 <= Depth(t.left) < t.depth && 0 <= Depth(t.right) < t.depth
  {
  }

  /** What a round does, told by the depths below. */
  lemma {:induction false} RoundIs(test: int, t: Tree)
    requires SoundBelow(t)
    ensures var l, n, r, dl, dr := t.left, t.node, t.right, Depth(t.left), Depth(t.right);
            Round(test, t) ==
              if dl > dr + 1 && test >= 0 then Turned(Node(l.left, l.node, Node(l.right, n, r)))
              else if dl > dr + 1 then
                if l.right.Nil? then Fault
                else Turned(Node(Node(l.left, l.node, l.right.left), l.right.node, Node(l.right.right, n, r)))
              else if dr > dl + 1 && Depth(r.left) <= Depth(r.right) then
                Turned(Fork(Node(l, n, r.left), r.node, 1 + Max(1 + Max(dl, dr), Depth(r.right)), r.right))
              else if dr > dl + 1 then
                Turned(Fork(Node(l, n, r.left.left), r.left.node,
                            1 + Max(1 + Max(dl, dr), Depth(RotateRight(r).right)), RotateRight(r).right))
              else Still(Node(l, n, r))
  {
  }

  /** A rotation leaves sound subtrees behind, whatever depth the new root has. */
  lemma {:induction false} RoundSound(test: int, t: Tree)
    requires SoundBelow(t)
    ensures var o := Round(test, t);
            (o.Turned? ==> SoundBelow(o.tree)) && (o.Still? ==> o.tree.Fork? && Sound(o.tree))
  {
    RoundIs(test, t);
    var l, n, r := t.left, t.node, t.right;
    SoundNode(l, n, r);
    if l.Fork? {
      SoundNode(l.right, n, r);
      if l.right.Fork? {
        SoundNode(l.left, l.node, l.right.left);
        SoundNode(l.right.right, n, r);
      }
    }
    if r.Fork? {
      SoundNode(l, n, r.left);
      if r.left.Fork? {
        SoundNode(l, n, r.left.left);
        SoundNode(r.left.right, r.node, r.right);
      }
    }
  }

  lemma {:induction false} ExactBalance(t: Tree)
    requires Exact(t)
    ensures Depth(t) == Height(t)
    ensures t.Fork? ==> Depth(t.left) == Height(t.left) && Depth(t.right) == Height(t.right)
    ensures t.Fork? ==> Balance(t) == Height(t.left) - Height(t.right)
  {
  }

  /** A rotation leaves exact subtrees behind, whatever depth the new root has. */
  lemma {:induction false} RoundExact(test: int, t: Tree)
    requires ExactBelow(t)
    ensures var o := Round(test, t);
            (o.Turned? ==> ExactBelow(o.tree)) && (o.Still? ==> o.tree.Fork? && Exact(o.tree))
  {
    RoundIs(test, t);
    RoundSound(test, t);
    var l, n, r := t.left, t.node, t.right;
    ExactNode(l, n, r);
    if l.Fork? {
      ExactNode(l.right, n, r);
      if l.right.Fork? {
        ExactNode(l.left, l.node, l.right.left);
        ExactNode(l.right.right, n, r);
      }
    }
    if r.Fork? {
      ExactNode(l, n, r.left);
      if r.left.Fork? {
        ExactNode(l, n, r.left.left);
        ExactNode(r.left.right, r.node, r.right);
      }
    }
  }

  /** At one place, a rotation lowers the tree, or turns a left-heavy one into a right-heavy or an
      even one, or takes nodes out of the inner subtree. */
  lemma {:induction false} RoundDecreases(test: int, t: Tree)
    requires SoundBelow(t) && Round(test, t).Turned?
    ensures var u := Round(test, t).tree;
            || Reach(u) < Reach(t)
            || (Reach(u) == Reach(t) && Rank(u) < Rank(t))
            || (Reach(u) == Reach(t) && Rank(u) == Rank(t) && Size(Inner(u)) < Size(Inner(t)))
  {
    RoundIs(test, t);
    LowerBelow(t.left);
    LowerBelow(t.right);
    if t.left.Fork? {
      LowerBelow(t.left.right);
    }
    if t.right.Fork? {
      LowerBelow(t.right.left);
    }
  }

  /** The rounds of the loop at one place, until the node there needs no rotation. */
  function Settle(readsRoot: bool, c: Path, t: Tree): (r: Option<Tree>)
    requires SoundBelow(t)
    ensures r.Some? ==> r.value.Fork? && Sound(r.value)
    ensures r.Some? && ExactBelow(t) ==> Exact(r.value)
    decreases Reach(t), Rank(t), Size(Inner(t))
  {
    var test := Test(readsRoot, c, t);
    RoundSound(test, t);
    match Round(test, t)
    case Fault => None
    case Still(u) =>
      assert ExactBelow(t) ==> Exact(u) by { if ExactBelow(t) { RoundExact(test, t); } }
      Some(u)
    case Turned(u) =>
      assert ExactBelow(t) ==> ExactBelow(u) by { if ExactBelow(t) { RoundExact(test, t); } }
      RoundDecreases(test, t);
      Settle(readsRoot, c, u)
  }

  /** The whole loop, from the node of `t` up to the root. */
  function Climb(readsRoot: bool, c: Path, t: Tree): (r: Option<Tree>)
    requires SoundBelow(t) && SoundSides(c)
    decreases c
  {
    match Settle(readsRoot, c, t)
    case None => None
    case Some(u) => if c.Top? then Some(u) else Climb(readsRoot, c.up, Above(c, u))
  }
}
