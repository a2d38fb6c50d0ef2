/**
  Walking a tree: the order in which `clear` destroys the nodes, and the in-order iterator.
 */
module AVLWalks {
  import opened Collections
  import opened AVLNodes
  import opened AVLShapes
  import opened AVLBalance
  import opened AVLOrder
  import opened AVLOperations
  import opened AVLResults
  import opened AVLHeap
  import opened AVLRenaming

  // ----------------------------------------------------------------------------------------- clear

  /** Children before their parent. */
  function Postorder(t: Tree): seq<AVLNode> {
    match t
    case Nil => []
    case Fork(l, n, _, r) => Postorder(l) + Postorder(r) + [n]
  }

  /** What `clear` destroys in a subtree.  Below a leftmost node it goes one step to the right and no
      further. */
  function ClearOrder(t: Tree): seq<AVLNode> {
    match t
    case Nil => []
    case Fork(l, n, _, r) =>
      if l.Fork? then ClearOrder(l) + ClearOrder(r) + [n]
      else if r.Fork? then [r.node] + [n]
      else [n]
  }

  /** A node without a left child has a leaf on its right, or nothing. */
  predicate RightLeaves(t: Tree) {
    t.Fork? ==> (t.left.Nil? ==> Size(t.right) <= 1) && RightLeaves(t.left) && RightLeaves(t.right)
  }

  lemma {:induction false} ClearSize(t: Tree)
    ensures |ClearOrder(t)| <= Size(t)
    ensures |ClearOrder(t)| == Size(t) ==> RightLeaves(t) && ClearOrder(t) == Postorder(t)
    ensures RightLeaves(t) ==> ClearOrder(t) == Postorder(t)
    decreases t
  {
    if t.Fork? {
      ClearSize(t.left);
      ClearSize(t.right);
      if t.left.Nil? && t.right.Fork? && Size(t.right) == 1 {
        assert t.right.left.Nil? && t.right.right.Nil?;
        assert Postorder(t.right) == [t.right.node];
      }
    }
  }

  lemma {:induction false} PostorderSize(t: Tree)
    ensures |Postorder(t)| == Size(t)
    decreases t
  {
    if t.Fork? {
      PostorderSize(t.left);
      PostorderSize(t.right);
    }
  }

  /** `clear` destroys every node, children first, exactly if the right subtree of every node without a
      left child is a leaf at most. */
  lemma {:induction false} ClearExact(t: Tree)
    ensures ClearOrder(t) == Postorder(t) <==> RightLeaves(t)
  {
    ClearSize(t);
    PostorderSize(t);
  }

  /** The tree without what hangs below the right child of a node that has no left child. */
  function Pruned(t: Tree): Tree {
    match t
    case Nil => Nil
    case Fork(l, n, d, r) =>
      if l.Nil? && r.Fork? then Fork(Nil, n, d, Leaf(r.node, r.depth)) else Fork(Pruned(l), n, d, Pruned(r))
  }

  /** On any tree, `clear` destroys exactly the nodes that are left then, children first. */
  lemma {:induction false} ClearPruned(t: Tree)
    ensures ClearOrder(t) == Postorder(Pruned(t))
    decreases t
  {
    if t.Fork? {
      if t.left.Nil? && t.right.Fork? {
        var leaf := Leaf(t.right.node, t.right.depth);
        assert Postorder(leaf) == [t.right.node];
        assert Postorder(Pruned(t)) == Postorder(Nil) + Postorder(leaf) + [t.node];
      } else {
        ClearPruned(t.left);
        ClearPruned(t.right);
      }
    }
  }

  /** On every balanced tree, `clear` destroys all nodes, children first. */
  lemma {:induction false} BalancedClears(t: Tree)
    requires AVL(t)
    ensures ClearOrder(t) == Postorder(t)
  {
    BalancedRightLeaves(t);
    ClearExact(t);
  }

  lemma {:induction false} OneNode(t: Tree)
    requires Height(t) <= 1
    ensures Size(t) == Height(t)
  {
  }

  lemma {:induction false} BalancedRightLeaves(t: Tree)
    requires AVL(t)
    ensures RightLeaves(t)
    decreases t
  {
    if t.Fork? {
      BalancedRightLeaves(t.left);
      BalancedRightLeaves(t.right);
      if t.left.Nil? {
        OneNode(t.right);
      }
    }
  }

  /** What is destroyed behind the place `c`. */
  function ClearAfter(c: Path): seq<AVLNode> {
    if c.Top? then []
    else if c.LeftOf? then ClearOrder(c.right) + ([c.node] + ClearAfter(c.up))
    else [c.node] + ClearAfter(c.up)
  }

  /** The place at which the destruction of a subtree starts. */
  function ClearStart(c: Path, t: Tree): (p: Place)
    requires t.Fork?
    ensures p.tree.Fork?
  {
    var p := Leftmost(c, t);
    if p.tree.right.Fork? then Place(RightOf(p.path, Nil, p.tree.node, p.tree.depth), p.tree.right) else p
  }

  lemma {:induction false} ClearFromStart(c: Path, t: Tree)
    requires t.Fork?
    ensures var p := ClearStart(c, t); ClearOrder(t) + ClearAfter(c) == [p.tree.node] + ClearAfter(p.path)
    decreases t
  {
    if t.left.Fork? {
      ClearFromStart(LeftOf(c, t.node, t.depth, t.right), t.left);
      assert ClearOrder(t) + ClearAfter(c) == ClearOrder(t.left) + (ClearOrder(t.right) + ([t.node] + ClearAfter(c)));
    } else if t.right.Fork? {
      assert ClearOrder(t) + ClearAfter(c) == [t.right.node] + ([t.node] + ClearAfter(c));
    }
  }

  lemma {:induction false} ClearInside(t: Tree)
    ensures forall n | n in ClearOrder(t) :: n in Nodes(t)
    decreases t
  {
    if t.Fork? {
      ClearInside(t.left);
      ClearInside(t.right);
    }
  }

  lemma {:induction false} NoRepeatsParts(a: seq<AVLNode>, b: seq<AVLNode>)
    requires NoRepeats(a) && NoRepeats(b) && forall n | n in a :: n !in b
    ensures NoRepeats(a + b)
  {
    assert forall i, j | 0 <= i < |a| && 0 <= j < |b| :: a[i] in a && b[j] in b;
  }

  /** No node is destroyed twice. */
  lemma {:induction false} ClearOnce(t: Tree)
    requires Distinct(t)
    ensures NoRepeats(ClearOrder(t))
    decreases t
  {
    if t.Fork? && t.left.Fork? {
      ClearOnce(t.left);
      ClearOnce(t.right);
      ClearInside(t.left);
      ClearInside(t.right);
      NoRepeatsParts(ClearOrder(t.left), ClearOrder(t.right));
      NoRepeatsParts(ClearOrder(t.left) + ClearOrder(t.right), [t.node]);
    }
  }

  /** The nodes around the place `c` that `clear` has not come to. */
  ghost function Ahead(c: Path): set<AVLNode> {
    if c.Top? then {}
    else {c.node} + (if c.LeftOf? then Nodes(c.right) else {}) + Ahead(c.up)
  }

  lemma {:induction false} AheadInside(c: Path)
    ensures Ahead(c) <= PathNodes(c)
    decreases c
  {
    if !c.Top? {
      AheadInside(c.up);
    }
  }

  /** Reading a pointer of a node that is still there. */
  function LeftPointer(n: AVLNode, ghost gone: set<AVLNode>): AVLNode?
    requires n !in gone
    reads n
  {
    n.left
  }

  function RightPointer(n: AVLNode, ghost gone: set<AVLNode>): AVLNode?
    requires n !in gone
    reads n
  {
    n.right
  }

  function ParentPointer(n: AVLNode, ghost gone: set<AVLNode>): AVLNode?
    requires n !in gone
    reads n
  {
    n.parent
  }

  lemma {:induction false} FocusSide(c: Path, t: Tree, root: AVLNode?)
    requires Focused(c, t, root) && c.LeftOf?
    ensures Focused(RightOf(c.up, t, c.node, c.depth), c.right, root)
  {
    assert Linked(c.right, c.node.right, c.node);
  }

  /** Down to the node of a subtree that is destroyed first. */
  method FirstToClear(at: AVLNode, ghost root: AVLNode?, ghost c0: Path, ghost t0: Tree, ghost gone: set<AVLNode>)
    returns (node: AVLNode, ghost p: Place)
    requires t0.Fork? && at == t0.node && Focused(c0, t0, root) && gone !! Nodes(t0) + Ahead(c0)
    ensures p == ClearStart(c0, t0) && node == p.tree.node && Focused(p.path, p.tree, root)
    ensures gone !! {node} + Ahead(p.path)
  {
    node := at;
    ghost var c, t := c0, t0;
    while LeftPointer(node, gone) != null
      invariant t.Fork? && node == t.node && Focused(c, t, root)
      invariant Leftmost(c, t) == Leftmost(c0, t0)
      invariant gone !! Nodes(t) + Ahead(c)
      decreases t
    {
      FocusLeft(c, t, root);
      node := LeftPointer(node, gone);
      c, t := LeftOf(c, t.node, t.depth, t.right), t.left;
    }
    assert t.left.Nil? by { assert Linked(t.left, node.left, node); }
    assert Linked(t.right, node.right, node);
    if RightPointer(node, gone) != null {
      FocusRight(c, t, root);
      node := RightPointer(node, gone);
      c, t := RightOf(c, t.left, t.node, t.depth), t.right;
    }
    p := Place(c, t);
  }

  /** From a node to the one that is destroyed behind it. */
  method NextToClear(last: AVLNode, ghost root: AVLNode?, ghost p0: Place, ghost gone: set<AVLNode>)
    returns (node: AVLNode?, ghost p: Place)
    requires p0.tree.Fork? && last == p0.tree.node && Focused(p0.path, p0.tree, root)
    requires gone !! {last} + Ahead(p0.path)
    ensures node == null <==> p0.path.Top?
    ensures node != null ==>
              && p.tree.Fork? && node == p.tree.node && Focused(p.path, p.tree, root)
              && gone + {last} !! {node} + Ahead(p.path)
              && ClearAfter(p0.path) == [node] + ClearAfter(p.path)
  {
    ghost var c, t := p0.path, p0.tree;
    AheadInside(c);
    node, p := null, p0;
    var parent := ParentPointer(last, gone);
    if parent != null {
      if LeftPointer(parent, gone) == last && RightPointer(parent, gone) != null {
        FocusSide(c, t, root);
        ghost var side := RightOf(c.up, t, c.node, c.depth);
        ClearFromStart(side, c.right);
        node, p := FirstToClear(RightPointer(parent, gone), root, side, c.right, gone + {last});
      } else {
        FocusUp(c, t, root);
        node := parent;
        p := Place(c.up, Above(c, t));
      }
    }
  }

  /** `clear`: the nodes in the order of their destruction.  No pointer of a destroyed node is read. */
  method Clear(root: AVLNode?, ghost tree: Tree) returns (order: seq<AVLNode>)
    requires Linked(tree, root, null)
    ensures order == ClearOrder(tree)
  {
    order := [];
    if root == null { return; }
    ghost var gone: set<AVLNode> := {};
    ghost var p;
    var node: AVLNode?;
    node, p := FirstToClear(root, root, Top, tree, gone);
    ClearFromStart(Top, tree);
    assert ClearOrder(tree) + [] == ClearOrder(tree);
    while node != null
      invariant gone == set n | n in order
      invariant node == null ==> order == ClearOrder(tree)
      invariant node != null ==>
          && p.tree.Fork? && node == p.tree.node && Focused(p.path, p.tree, root)
          && gone !! {node} + Ahead(p.path)
          && order + ([node] + ClearAfter(p.path)) == ClearOrder(tree)
      decreases |ClearOrder(tree)| - |order|, node != null
    {
      var last := node;
      assert order + ([last] + ClearAfter(p.path)) == (order + [last]) + ClearAfter(p.path);
      node, p := NextToClear(last, root, p, gone);
      order := order + [last];
      gone := gone + {last};
    }
  }

  // -------------------------------------------------------------------------------------- iterator

  /** The nodes behind the node of `t` at the place `c`, in order. */
  function Behind(p: Place): seq<AVLNode> {
    (if p.tree.Fork? then Inorder(p.tree.right) else []) + After(p.path)
  }

  lemma {:induction false} WholeBehind(p: Place)
    requires p.tree.Fork?
    ensures Inorder(Plug(p.path, p.tree)) == Before(p.path) + Inorder(p.tree.left) + [p.tree.node] + Behind(p)
  {
    PlugInorder(p.path, p.tree);
    assert Inorder(p.tree) == Inorder(p.tree.left) + [p.tree.node] + Inorder(p.tree.right);
  }

  /** `begin`, and the way down on the right: to the leftmost node of a subtree. */
  method Begin(at: AVLNode, ghost root: AVLNode?, ghost c0: Path, ghost t0: Tree)
    returns (node: AVLNode, ghost p: Place)
    requires t0.Fork? && at == t0.node && Focused(c0, t0, root)
    ensures p.tree.Fork? && node == p.tree.node && Focused(p.path, p.tree, root)
    ensures Inorder(t0) + After(c0) == [node] + Behind(p)
  {
    node := at;
    p := Place(c0, t0);
    while node.left != null
      invariant p.tree.Fork? && node == p.tree.node && Focused(p.path, p.tree, root)
      invariant Inorder(t0) + After(c0) == Inorder(p.tree) + After(p.path)
      decreases p.tree
    {
      FocusLeft(p.path, p.tree, root);
      ghost var t := p.tree;
      assert Inorder(t) + After(p.path) == Inorder(t.left) + (([t.node] + Inorder(t.right)) + After(p.path));
      node := node.left;
      p := Place(LeftOf(p.path, t.node, t.depth, t.right), t.left);
    }
    assert p.tree.left.Nil? by { assert Linked(p.tree.left, node.left, node); }
    assert Inorder(p.tree) + After(p.path) == [node] + Behind(p);
  }

  /** `++`: the next node in order, or null behind the last one. */
  method Next(at: AVLNode, ghost root: AVLNode?, ghost p0: Place) returns (node: AVLNode?, ghost p: Place)
    requires p0.tree.Fork? && at == p0.tree.node && Focused(p0.path, p0.tree, root)
    ensures if node == null then Behind(p0) == []
            else p.tree.Fork? && node == p.tree.node && Focused(p.path, p.tree, root)
                 && Behind(p0) == [node] + Behind(p)
  {
    ghost var c, t := p0.path, p0.tree;
    p := p0;
    assert Linked(t.right, at.right, at);
    if at.right != null {
      FocusRight(c, t, root);
      node, p := Begin(at.right, root, RightOf(c, t.left, t.node, t.depth), t.right);
    } else if at.parent == null {
      node := null;
    } else if at.parent.left == at {
      node := at.parent;
      FocusUp(c, t, root);
      p := Place(c.up, Above(c, t));
    } else {
      var tmp := at.parent;
      node := at.parent.parent;
      FocusUp(c, t, root);
      c, t := c.up, Above(c, t);
      while node != null && node.right == tmp
        invariant t.Fork? && tmp == t.node && Focused(c, t, root) && node == tmp.parent
        invariant Behind(p0) == After(c)
        decreases c
      {
        FocusUp(c, t, root);
        tmp := node;
        node := node.parent;
        c, t := c.up, Above(c, t);
      }
      if node != null {
        FocusUp(c, t, root);
        p := Place(c.up, Above(c, t));
      }
    }
  }

  /** The nodes in front of the node of `t` at the place `c`, in order. */
  function InFront(p: Place): seq<AVLNode> {
    Before(p.path) + (if p.tree.Fork? then Inorder(p.tree.left) else [])
  }

  /** `rbegin`, and the way down on the left: to the rightmost node of a subtree. */
  method Last(at: AVLNode, ghost root: AVLNode?, ghost c0: Path, ghost t0: Tree) returns (node: AVLNode, ghost p: Place)
    requires t0.Fork? && at == t0.node && Focused(c0, t0, root)
    ensures p.tree.Fork? && node == p.tree.node && Focused(p.path, p.tree, root)
    ensures Before(c0) + Inorder(t0) == InFront(p) + [node]
  {
    node := at;
    p := Place(c0, t0);
    while node.right != null
      invariant p.tree.Fork? && node == p.tree.node && Focused(p.path, p.tree, root)
      invariant Before(c0) + Inorder(t0) == Before(p.path) + Inorder(p.tree)
      decreases p.tree
    {
      FocusRight(p.path, p.tree, root);
      ghost var t := p.tree;
      assert Before(p.path) + Inorder(t) == (Before(p.path) + (Inorder(t.left) + [t.node])) + Inorder(t.right);
      node := node.right;
      p := Place(RightOf(p.path, t.left, t.node, t.depth), t.right);
    }
    assert p.tree.right.Nil? by { assert Linked(p.tree.right, node.right, node); }
    assert Before(p.path) + Inorder(p.tree) == InFront(p) + [node];
  }

  /** `--`: the previous node in order, or null in front of the first one. */
  method Previous(at: AVLNode, ghost root: AVLNode?, ghost p0: Place) returns (node: AVLNode?, ghost p: Place)
    requires p0.tree.Fork? && at == p0.tree.node && Focused(p0.path, p0.tree, root)
    ensures if node == null then InFront(p0) == []
            else p.tree.Fork? && node == p.tree.node && Focused(p.path, p.tree, root)
                 && InFront(p0) == InFront(p) + [node]
  {
    ghost var c, t := p0.path, p0.tree;
    p := p0;
    assert Linked(t.left, at.left, at);
    if at.left != null {
      FocusLeft(c, t, root);
      node, p := Last(at.left, root, LeftOf(c, t.node, t.depth, t.right), t.left);
    } else if at.parent == null {
      node := null;
    } else if at.parent.right == at {
      node := at.parent;
      FocusUp(c, t, root);
      assert Linked(t, at, c.node);
      p := Place(c.up, Above(c, t));
    } else {
      var tmp := at.parent;
      node := at.parent.parent;
      FocusUp(c, t, root);
      c, t := c.up, Above(c, t);
      while node != null && node.left == tmp
        invariant t.Fork? && tmp == t.node && Focused(c, t, root) && node == tmp.parent
        invariant InFront(p0) == Before(c)
        decreases c
      {
        FocusUp(c, t, root);
        tmp := node;
        node := node.parent;
        c, t := c.up, Above(c, t);
      }
      if node != null {
        FocusUp(c, t, root);
        p := Place(c.up, Above(c, t));
      }
    }
  }
}
