/**
  Exchanging two nodes on the heap exchanges them in the represented tree value.
 */
module AVLRenaming {
  import opened AVLNodes
  import opened AVLShapes
  import opened AVLOrder
  import opened AVLOperations
  import opened AVLHeap
  import opened AVLSwaps

  /** The place of `a` goes to `b` with the depth `y`, the place of `b` to `a` with the depth `x`. */
  function Renamed(t: Tree, a: AVLNode, x: int, b: AVLNode, y: int): Tree {
    if t.Nil? then Nil
    else
      Fork(Renamed(t.left, a, x, b, y), Image(t.node, a, b),
           if t.node == a then y else if t.node == b then x else t.depth,
           Renamed(t.right, a, x, b, y))
  }

  lemma {:induction false} RenamedNodes(t: Tree, a: AVLNode, x: int, b: AVLNode, y: int)
    ensures forall p: AVLNode :: p in Nodes(Renamed(t, a, x, b, y)) <==> Image(p, a, b) in Nodes(t)
    decreases t
  {
    if t.Fork? {
      RenamedNodes(t.left, a, x, b, y);
      RenamedNodes(t.right, a, x, b, y);
    }
  }

  lemma {:induction false} RenamedDisjoint(l: Tree, r: Tree, a: AVLNode, x: int, b: AVLNode, y: int)
    requires Nodes(l) !! Nodes(r)
    ensures Nodes(Renamed(l, a, x, b, y)) !! Nodes(Renamed(r, a, x, b, y))
  {
    RenamedNodes(l, a, x, b, y);
    RenamedNodes(r, a, x, b, y);
    forall p | p in Nodes(Renamed(l, a, x, b, y)) ensures p !in Nodes(Renamed(r, a, x, b, y)) {
      assert Image(p, a, b) in Nodes(l);
    }
  }

  lemma {:induction false} RenamedSame(t: Tree, a: AVLNode, x: int, b: AVLNode, y: int)
    requires a !in Nodes(t) && b !in Nodes(t)
    ensures Renamed(t, a, x, b, y) == t
    decreases t
  {
    if t.Fork? {
      RenamedSame(t.left, a, x, b, y);
      RenamedSame(t.right, a, x, b, y);
    }
  }

  /** `Linked` in a snapshot. */
  ghost predicate LinkedIn(was: map<AVLNode, Links>, t: Tree, at: AVLNode?, parent: AVLNode?) {
    && at == RootOf(t)
    && (t.Fork? ==>
      && t.node in was && was[t.node].parent == parent && was[t.node].depth == t.depth
      && t.node !in Nodes(t.left) && t.node !in Nodes(t.right) && Nodes(t.left) !! Nodes(t.right)
      && LinkedIn(was, t.left, was[t.node].left, t.node) && LinkedIn(was, t.right, was[t.node].right, t.node))
  }

  lemma {:induction false} SnapshotLinked(was: map<AVLNode, Links>, s: set<AVLNode>, t: Tree, at: AVLNode?,
                                          parent: AVLNode?)
    requires Nodes(t) <= s && was == Snapshot(s)
    ensures LinkedIn(was, t, at, parent) <==> Linked(t, at, parent)
    decreases t
  {
    if t.Fork? {
      SnapshotLinked(was, s, t.left, t.node.left, t.node);
      SnapshotLinked(was, s, t.right, t.node.right, t.node);
    }
  }

  lemma {:induction false} RenamedLinked(was: map<AVLNode, Links>, t: Tree, at: AVLNode?, parent: AVLNode?, a: AVLNode,
                                         b: AVLNode)
    requires a in was && b in was && LinkedIn(was, t, at, parent) && Exchanged(was, a, b)
    ensures Linked(Renamed(t, a, a.depth, b, b.depth), ImageOf(at, a, b), ImageOf(parent, a, b))
    decreases t
  {
    if t.Fork? {
      var n := t.node;
      RenamedNodes(t.left, a, a.depth, b, b.depth);
      RenamedNodes(t.right, a, a.depth, b, b.depth);
      RenamedDisjoint(t.left, t.right, a, a.depth, b, b.depth);
      RenamedLinked(was, t.left, was[n].left, n, a, b);
      RenamedLinked(was, t.right, was[n].right, n, a, b);
      assert n in was && Image(n, a, b) in was;
    }
  }

  /** In a represented tree, the pointers of the node `p` agree with those of its neighbours. */
  ghost predicate AgreesAt(t: Tree, parent: AVLNode?, p: AVLNode)
    requires p in Nodes(t)
    reads Nodes(t)
  {
    && (p.left != null ==> p.left in Nodes(t) && p.left.parent == p && p.left != p.right)
    && (p.right != null ==> p.right in Nodes(t) && p.right.parent == p)
    && (if p == RootOf(t) then p.parent == parent
        else p.parent != null && p.parent in Nodes(t)
             && (p.parent.left == p || p.parent.right == p) && p.parent != p && p.parent.parent != p)
  }

  lemma {:induction false} LinkedAgrees(t: Tree, at: AVLNode?, parent: AVLNode?, p: AVLNode)
    requires Linked(t, at, parent) && (parent == null || parent !in Nodes(t)) && p in Nodes(t)
    ensures AgreesAt(t, parent, p)
    decreases t
  {
    var n := t.node;
    if n.left != null {
      LinkedAgrees(t.left, n.left, n, n.left);
    }
    if n.right != null {
      LinkedAgrees(t.right, n.right, n, n.right);
    }
    if p in Nodes(t.left) {
      LinkedAgrees(t.left, n.left, n, p);
    } else if p in Nodes(t.right) {
      LinkedAgrees(t.right, n.right, n, p);
    }
  }

  lemma {:induction false} WholeAgrees(t: Tree, root: AVLNode?)
    requires Linked(t, root, null)
    ensures Agree(Nodes(t), root)
  {
    forall p | p in Nodes(t)
      ensures p.left != null ==> p.left in Nodes(t) && p.left.parent == p && p.left != p.right
      ensures p.right != null ==> p.right in Nodes(t) && p.right.parent == p
      ensures p.parent == null <==> root == p
      ensures p.parent != null ==>
                && p.parent in Nodes(t) && (p.parent.left == p || p.parent.right == p)
                && p.parent != p && p.parent.parent != p
    {
      LinkedAgrees(t, root, null, p);
    }
  }

  // ------------------------------------------------------------------ the renamed tree, at a place

  lemma {:induction false} RenamedAround(c: Path, t: Tree, a: AVLNode, x: int, b: AVLNode, y: int)
    requires a !in PathNodes(c) && b !in PathNodes(c)
    ensures Renamed(Plug(c, t), a, x, b, y) == Plug(c, Renamed(t, a, x, b, y))
    decreases c
  {
    if !c.Top? {
      RenamedSame(Side(c), a, x, b, y);
      RenamedAround(c.up, Above(c, t), a, x, b, y);
    }
  }

  /** No node occurs twice. */
  ghost predicate Distinct(t: Tree) {
    t.Fork? ==>
      && t.node !in Nodes(t.left) && t.node !in Nodes(t.right) && Nodes(t.left) !! Nodes(t.right)
      && Distinct(t.left) && Distinct(t.right)
  }

  lemma {:induction false} LinkedDistinct(t: Tree, at: AVLNode?, parent: AVLNode?)
    requires Linked(t, at, parent)
    ensures Distinct(t)
    decreases t
  {
    if t.Fork? {
      LinkedDistinct(t.left, t.node.left, t.node);
      LinkedDistinct(t.right, t.node.right, t.node);
    }
  }

  lemma {:induction false} LeftmostInside(t: Tree)
    requires t.Fork?
    ensures Leftmost(Top, t).tree.node in Nodes(t)
    decreases t
  {
    if t.left.Fork? {
      LeftmostInside(t.left);
      LeftmostSame(LeftOf(Top, t.node, t.depth, t.right), t.left);
    }
  }

  lemma {:induction false} RenamedLeftmost(c: Path, t: Tree, a: AVLNode, x: int, b: AVLNode, y: int)
    requires t.Fork? && Distinct(t) && a !in Nodes(t) && b == Leftmost(Top, t).tree.node
    ensures var p := Leftmost(c, t);
            Plug(c, Renamed(t, a, x, b, y)) == Plug(p.path, Fork(Nil, a, x, p.tree.right))
    decreases t
  {
    if t.left.Nil? {
      RenamedSame(t.right, a, x, b, y);
    } else {
      LeftmostSame(LeftOf(Top, t.node, t.depth, t.right), t.left);
      LeftmostInside(t.left);
      RenamedSame(t.right, a, x, b, y);
      RenamedLeftmost(LeftOf(c, t.node, t.depth, t.right), t.left, a, x, b, y);
    }
  }

  /** The place in the tree at which a node with two children is found after the exchange. */
  lemma {:induction false} RenamedLowered(c: Path, t: Tree, a: AVLNode, x: int, b: AVLNode, y: int)
    requires t.Fork? && t.right.Fork? && Distinct(t) && Nodes(t) !! PathNodes(c)
    requires a == t.node && b == Leftmost(Top, t.right).tree.node
    requires var m := Leftmost(Top, t.right).tree;
             if t.right.left.Nil? then x == t.depth && y == m.depth else x == m.depth && y == t.depth
    ensures var p := Lowered(c, t);
            p.tree.node == a && Renamed(Plug(c, t), a, x, b, y) == Plug(p.path, p.tree)
  {
    LeftmostInside(t.right);
    RenamedAround(c, t, a, x, b, y);
    RenamedSame(t.left, a, x, b, y);
    LeftmostSame(RightOf(c, t.left, b, y), t.right);
    RenamedLeftmost(RightOf(c, t.left, b, y), t.right, a, x, b, y);
  }

  /** An only child exchanged with its parent. */
  lemma {:induction false} RenamedChild(c: Path, t: Tree, a: AVLNode, x: int, b: AVLNode, y: int)
    requires t.Fork? && Distinct(t) && Nodes(t) !! PathNodes(c) && a == t.node
    requires if t.left.Fork? then t.right.Nil? && b == t.left.node else t.right.Fork? && b == t.right.node
    ensures var child := if t.left.Fork? then t.left else t.right;
            var down := Fork(child.left, a, x, child.right);
            var p := if t.left.Fork? then LeftOf(c, b, y, Nil) else RightOf(c, Nil, b, y);
            Renamed(Plug(c, t), a, x, b, y) == Plug(p, down)
  {
    var child := if t.left.Fork? then t.left else t.right;
    RenamedAround(c, t, a, x, b, y);
    RenamedSame(child.left, a, x, b, y);
    RenamedSame(child.right, a, x, b, y);
  }

  /** An exchange inside a tree keeps the set of nodes. */
  lemma {:induction false} RenamedSet(t: Tree, a: AVLNode, x: int, b: AVLNode, y: int)
    requires a in Nodes(t) && b in Nodes(t)
    ensures Nodes(Renamed(t, a, x, b, y)) == Nodes(t)
  {
    RenamedNodes(t, a, x, b, y);
    var u := Renamed(t, a, x, b, y);
    forall p | p in Nodes(u) ensures p in Nodes(t) {
      assert Image(p, a, b) in Nodes(t);
    }
    forall p | p in Nodes(t) ensures p in Nodes(u) {
      assert Image(Image(p, a, b), a, b) == p;
    }
  }

  lemma {:induction false} LoweredNodes(c: Path, t: Tree, a: AVLNode, x: int, b: AVLNode, y: int)
    requires t.Fork? && t.right.Fork? && a == t.node && b in Nodes(t)
    requires Renamed(Plug(c, t), a, x, b, y) == Plug(Lowered(c, t).path, Lowered(c, t).tree)
    ensures PathNodes(Lowered(c, t).path) + Nodes(Lowered(c, t).tree) == PathNodes(c) + Nodes(t)
  {
    PlugNodes(c, t);
    PlugNodes(Lowered(c, t).path, Lowered(c, t).tree);
    RenamedSet(Plug(c, t), a, x, b, y);
  }
}
