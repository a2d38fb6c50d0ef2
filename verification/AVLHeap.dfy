/**
  Node objects that represent a tree value: child and parent pointers agree, the stored depths are
  those of the value, and no node occurs twice.
 */
module AVLHeap {
  import opened AVLNodes
  import opened AVLShapes
  import opened AVLOrder

  ghost function Nodes(t: Tree): set<AVLNode> {
    if t.Nil? then {} else Nodes(t.left) + {t.node} + Nodes(t.right)
  }

  ghost function PathNodes(c: Path): set<AVLNode> {
    if c.Top? then {} else {c.node} + Nodes(Side(c)) + PathNodes(c.up)
  }

  function RootOf(t: Tree): AVLNode? {
    if t.Nil? then null else t.node
  }

  function ParentAt(c: Path): AVLNode? {
    if c.Top? then null else c.node
  }

  /** The nodes reached from `at` represent `t`. */
  ghost predicate Linked(t: Tree, at: AVLNode?, parent: AVLNode?)
    reads Nodes(t)
  {
    && at == RootOf(t)
    && (t.Fork? ==>
      && t.node.parent == parent && t.node.depth == t.depth
      && t.node !in Nodes(t.left) && t.node !in Nodes(t.right) && Nodes(t.left) !! Nodes(t.right)
      && Linked(t.left, t.node.left, t.node) && Linked(t.right, t.node.right, t.node))
  }

  /** The nodes around the place `c` represent it; `at` is the pointer into the place. */
  ghost predicate Around(c: Path, root: AVLNode?, at: AVLNode?)
    reads PathNodes(c)
  {
    if c.Top? then root == at
    else
      && c.node.parent == ParentAt(c.up) && c.node.depth == c.depth
      && c.node !in Nodes(Side(c)) && c.node !in PathNodes(c.up) && Nodes(Side(c)) !! PathNodes(c.up)
      && (if c.LeftOf? then c.node.left == at && Linked(c.right, c.node.right, c.node)
          else c.node.right == at && Linked(c.left, c.node.left, c.node))
      && Around(c.up, root, c.node)
  }

  /** The nodes reached from `root` represent the tree with `t` at the place `c`. */
  ghost predicate Focused(c: Path, t: Tree, root: AVLNode?)
    reads PathNodes(c), Nodes(t)
  {
    && Around(c, root, RootOf(t))
    && Linked(t, RootOf(t), ParentAt(c))
    && Nodes(t) !! PathNodes(c)
  }

  lemma {:induction false} PlugNodes(c: Path, t: Tree)
    ensures Nodes(Plug(c, t)) == PathNodes(c) + Nodes(t)
  {
    if !c.Top? {
      PlugNodes(c.up, Above(c, t));
    }
  }

  lemma {:induction false} FocusUp(c: Path, t: Tree, root: AVLNode?)
    requires Focused(c, t, root) && !c.Top?
    ensures Focused(c.up, Above(c, t), root)
  {
  }

  lemma {:induction false} FocusLeft(c: Path, t: Tree, root: AVLNode?)
    requires Focused(c, t, root) && t.Fork?
    ensures Focused(LeftOf(c, t.node, t.depth, t.right), t.left, root)
  {
    assert Linked(t.left, t.node.left, t.node);
  }

  lemma {:induction false} FocusRight(c: Path, t: Tree, root: AVLNode?)
    requires Focused(c, t, root) && t.Fork?
    ensures Focused(RightOf(c, t.left, t.node, t.depth), t.right, root)
  {
    assert Linked(t.right, t.node.right, t.node);
  }

  /** Looking at a place does not change what is represented. */
  lemma {:induction false} FocusExact(c: Path, t: Tree, root: AVLNode?)
    ensures Focused(c, t, root) <==> Linked(Plug(c, t), root, null)
    decreases c
  {
    PlugNodes(c, t);
    if !c.Top? {
      FocusExact(c.up, Above(c, t), root);
      if Focused(c.up, Above(c, t), root) {
        if c.LeftOf? {
          FocusLeft(c.up, Above(c, t), root);
        } else {
          FocusRight(c.up, Above(c, t), root);
        }
      }
      if Focused(c, t, root) {
        FocusUp(c, t, root);
      }
    }
  }

  lemma {:induction false} RotateRightNodes(t: Tree)
    requires t.Fork? && t.left.Fork?
    ensures Nodes(RotateRight(t)) == Nodes(t)
  {
    var x := t.left;
    var m := Node(x.right, t.node, t.right);
    assert Nodes(m) == Nodes(x.right) + {t.node} + Nodes(t.right);
    assert Nodes(x) == Nodes(x.left) + {x.node} + Nodes(x.right);
  }

  lemma {:induction false} RotateLeftNodes(t: Tree)
    requires t.Fork? && t.right.Fork?
    ensures Nodes(RotateLeft(t)) == Nodes(t)
  {
    var y := t.right;
    var m := Node(t.left, t.node, y.left);
    assert Nodes(m) == Nodes(t.left) + {t.node} + Nodes(y.left);
    assert Nodes(y) == Nodes(y.left) + {y.node} + Nodes(y.right);
  }

  lemma {:induction false} NodesAllocated(t: Tree)
    ensures forall n | n in Nodes(t) :: allocated(n)
    decreases t
  {
    if t.Fork? {
      NodesAllocated(t.left);
      NodesAllocated(t.right);
    }
  }

  lemma {:induction false} PlugFork(c: Path, t: Tree)
    requires t.Fork?
    ensures Plug(c, t).Fork?
    decreases c
  {
    if !c.Top? {
      PlugFork(c.up, Above(c, t));
    }
  }

  lemma {:induction false} PathAllocated(c: Path)
    ensures forall n | n in PathNodes(c) :: allocated(n)
    decreases c
  {
    if !c.Top? {
      NodesAllocated(Side(c));
      PathAllocated(c.up);
    }
  }
}
