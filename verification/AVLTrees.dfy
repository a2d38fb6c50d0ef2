/**
  The AVL tree object (libbinom/source/binom_impl/avl_tree.cxx), with its nodes on the heap.
 */
module AVLTrees {
  import opened Collections
  import opened AVLNodes
  import opened AVLShapes
  import opened AVLOrder
  import opened AVLOperations
  import opened AVLResults
  import opened AVLHeap
  import opened AVLSwaps
  import opened AVLRenaming
  import AVLWalks

  function DepthOf(node: AVLNode?): int
    reads node
  {
    if node == null then 0 else node.depth
  }

  function BalanceOf(node: AVLNode?): int
    reads node, if node == null then {} else {node.left, node.right}
  {
    if node == null then 0 else DepthOf(node.left) - DepthOf(node.right)
  }

  lemma {:induction false} BalanceIs(t: Tree, at: AVLNode?, parent: AVLNode?)
    requires Linked(t, at, parent)
    ensures DepthOf(at) == Depth(t) && BalanceOf(at) == Balance(t)
    ensures t.Fork? ==> at.left == RootOf(t.left) && at.right == RootOf(t.right)
  {
    if t.Fork? {
      assert Linked(t.left, t.node.left, t.node) && Linked(t.right, t.node.right, t.node);
    }
  }

  ghost function ParentSet(c: Path): set<AVLNode> {
    if c.Top? then {} else {c.node}
  }

  /** The part of a rotation below the parent of the node. */
  method PivotRight(y: AVLNode, ghost t: Tree, ghost parent: AVLNode?) returns (x: AVLNode)
    requires t.Fork? && t.left.Fork? && Linked(t, y, parent)
    modifies Nodes(t)
    ensures x == t.left.node && y.parent == x && x.parent == parent
    ensures Linked(AVLShapes.RotateRight(t), x, parent)
  {
    ghost var a, b, d := t.left.left, t.left.right, t.right;
    assert Linked(t.left, y.left, y) && Linked(d, y.right, y);
    assert Linked(a, t.left.node.left, t.left.node) && Linked(b, t.left.node.right, t.left.node);
    x := y.left;
    var t2 := x.right;

    x.right := y;
    y.left := t2;

    y.depth := Max(DepthOf(y.left), DepthOf(y.right)) + 1;
    x.depth := Max(DepthOf(x.left), DepthOf(x.right)) + 1;

    x.parent := y.parent;
    y.parent := x;
    if t2 != null {
      t2.parent := y;
    }
    assert Linked(a, x.left, x) && Linked(b, y.left, y) && Linked(d, y.right, y);
  }

  method PivotLeft(x: AVLNode, ghost t: Tree, ghost parent: AVLNode?) returns (y: AVLNode)
    requires t.Fork? && t.right.Fork? && Linked(t, x, parent)
    modifies Nodes(t)
    ensures y == t.right.node && x.parent == y && y.parent == parent
    ensures Linked(AVLShapes.RotateLeft(t), y, parent)
  {
    ghost var a, b, d := t.left, t.right.left, t.right.right;
    assert Linked(t.right, x.right, x) && Linked(a, x.left, x);
    assert Linked(b, t.right.node.left, t.right.node) && Linked(d, t.right.node.right, t.right.node);
    y := x.right;
    var t2 := y.left;

    y.left := x;
    x.right := t2;

    y.depth := Max(DepthOf(y.left), DepthOf(y.right)) + 1;
    x.depth := Max(DepthOf(x.left), DepthOf(x.right)) + 1;

    y.parent := x.parent;
    x.parent := y;
    if t2 != null {
      t2.parent := x;
    }
    assert Linked(a, x.left, x) && Linked(b, x.right, x) && Linked(d, y.right, y);
  }

  /** The tree with a new leaf at the free side of its root on which the key belongs. */
  ghost function Beside(t: Tree, n: AVLNode, d: int): Tree
    requires t.Fork?
  {
    if n.key < t.node.key then Fork(Leaf(n, d), t.node, t.depth, t.right) else Fork(t.left, t.node, t.depth, Leaf(n, d))
  }

  /** What a node carries that was at the root of `t` and has been unlinked: its depth there, and the children of its
      only child. */
  ghost predicate Carries(node: AVLNode, t: Tree)
    requires t.Fork?
    reads node
  {
    var below := if t.left.Fork? then t.left else t.right;
    && node.parent == null && node.depth == t.depth
    && node.left == (if below.Fork? then RootOf(below.left) else null)
    && node.right == (if below.Fork? then RootOf(below.right) else null)
  }

  lemma {:induction false} CarriesNoChild(node: AVLNode, t: Tree)
    requires t.Fork? && Carries(node, t) && LoneChildIsLeaf(t)
    ensures node.left == null && node.right == null
  {
    var below := if t.left.Fork? then t.left else t.right;
    assert Size(below) <= 1;
  }

  /** How far a place is from the root. */
  ghost function Levels(c: Path): nat {
    if c.Top? then 0 else 1 + Levels(c.up)
  }

  /** The loop gets on, up to the parent or by a rotation. */
  ghost predicate Nearer(c: Path, t: Tree, c0: Path, t0: Tree) {
    || Levels(c) < Levels(c0)
    || (c == c0 && Reach(t) < Reach(t0))
    || (c == c0 && Reach(t) == Reach(t0) && Rank(t) < Rank(t0))
    || (c == c0 && Reach(t) == Reach(t0) && Rank(t) == Rank(t0) && Size(Inner(t)) < Size(Inner(t0)))
  }

  lemma {:induction false} RoundNearer(test: int, c: Path, t: Tree)
    requires SoundBelow(t) && Round(test, t).Turned?
    ensures Nearer(c, Round(test, t).tree, c, t)
  {
    RoundDecreases(test, t);
  }

  /** What a round contributes to the loop. */
  lemma {:induction false} RoundClimbs(readsRoot: bool, c: Path, t: Tree)
    requires SoundBelow(t) && SoundSides(c)
    ensures match Round(Test(readsRoot, c, t), t)
            case Fault => Climb(readsRoot, c, t).None?
            case Turned(u) => SoundBelow(u) && Climb(readsRoot, c, t) == Climb(readsRoot, c, u)
            case Still(u) =>
              if c.Top? then Climb(readsRoot, c, t) == Some(u)
              else SoundBelow(Above(c, u)) && Climb(readsRoot, c, t) == Climb(readsRoot, c.up, Above(c, u))
  {
    RoundSound(Test(readsRoot, c, t), t);
  }

  /** A step of a descent. */
  lemma {:induction false} StepLeft(c: Path, t: Tree, root: AVLNode?, key: int)
    requires Focused(c, t, root) && t.Fork? && key < t.node.key && SoundSides(c) && Sound(t)
    ensures var d := LeftOf(c, t.node, t.depth, t.right);
            && Focused(d, t.left, root) && SoundSides(d) && Sound(t.left)
            && PathNodes(d) + Nodes(t.left) == PathNodes(c) + Nodes(t) && Find(d, t.left, key) == Find(c, t, key)
  {
    FocusLeft(c, t, root);
  }

  lemma {:induction false} StepRight(c: Path, t: Tree, root: AVLNode?, key: int)
    requires Focused(c, t, root) && t.Fork? && key > t.node.key && SoundSides(c) && Sound(t)
    ensures var d := RightOf(c, t.left, t.node, t.depth);
            && Focused(d, t.right, root) && SoundSides(d) && Sound(t.right)
            && PathNodes(d) + Nodes(t.right) == PathNodes(c) + Nodes(t) && Find(d, t.right, key) == Find(c, t, key)
  {
    FocusRight(c, t, root);
  }

  lemma {:induction false} FoundFocus(tree: Tree, key: int, root: AVLNode?)
    requires Linked(tree, root, null) && Sound(tree)
    ensures var p := Find(Top, tree, key);
            && Focused(p.path, p.tree, root) && SoundSides(p.path) && Sound(p.tree)
            && PathNodes(p.path) + Nodes(p.tree) == Nodes(tree)
  {
    FindIsInside(Top, tree, key);
    FocusExact(Find(Top, tree, key).path, Find(Top, tree, key).tree, root);
    PlugNodes(Find(Top, tree, key).path, Find(Top, tree, key).tree);
  }

  lemma {:induction false} UpNearer(c: Path, u: Tree, t: Tree)
    requires !c.Top?
    ensures Nearer(c.up, u, c, t)
  {
  }

  /** What insertion comes to at the node where the descent ends. */
  lemma {:induction false} InsertIs(readsRoot: bool, tree: Tree, n: AVLNode, d: int, c: Path, t: Tree)
    requires Sound(tree) && SoundSides(c) && Sound(t) && t.Fork? && Find(c, t, n.key) == Find(Top, tree, n.key)
    requires d >= 1 && (n.key < t.node.key ==> t.left.Nil?)
    requires n.key > t.node.key ==> t.right.Nil?
    ensures AVLOperations.Insert(readsRoot, tree, n, d) ==
              if n.key == t.node.key then Present
              else match Climb(readsRoot, c, Beside(t, n, d))
                   case None => Crashed
                   case Some(r) => Added(r)
  {
    FindIsInside(Top, tree, n.key);
    if n.key < t.node.key {
      assert Find(c, t, n.key) == Place(LeftOf(c, t.node, t.depth, t.right), Nil);
    } else if n.key > t.node.key {
      assert Find(c, t, n.key) == Place(RightOf(c, t.left, t.node, t.depth), Nil);
    }
  }

  class AVLTree {
    var root: AVLNode?
    ghost var tree: Tree

    /** Whether the left-heavy cases ask for the balance of `root->left`, as written, or for that of
        `node->left`. */
    const readsRoot: bool

    constructor (readsRoot: bool)
      ensures this.readsRoot == readsRoot && tree == Nil && Valid()
    {
      this.readsRoot := readsRoot;
      root := null;
      tree := Nil;
    }

    /** Lets the pointer into the place `c` point to `x`. */
    method HangIn(x: AVLNode, isLeft: bool, isRight: bool, ghost c: Path, ghost at: AVLNode?)
      requires Around(c, root, at) && x !in PathNodes(c) && x.parent == ParentAt(c)
      requires isLeft == c.LeftOf? && isRight == c.RightOf?
      modifies this`root, ParentSet(c)
      ensures Around(c, root, x)
    {
      if isLeft {
        x.parent.left := x;
      } else if isRight {
        x.parent.right := x;
      } else {
        root := x;
      }
    }

    /** Rotations.  The place `c` and the subtree `t` at the node are given for the proof only. */
    method RotateRight(y: AVLNode, ghost c: Path, ghost t: Tree) returns (x: AVLNode)
      requires t.Fork? && t.left.Fork? && y == t.node && Focused(c, t, root)
      modifies this`root, Nodes(t), ParentSet(c)
      ensures Focused(c, AVLShapes.RotateRight(t), root)
      ensures x == t.left.node && y.parent == x && Nodes(AVLShapes.RotateRight(t)) == Nodes(t)
    {
      var isLeft := y.parent != null && y.parent.left == y;
      var isRight := y.parent != null && y.parent.right == y;
      ghost var u := AVLShapes.RotateRight(t);
      RotateRightNodes(t);
      NodesAllocated(t);
      PathAllocated(c);
      x := PivotRight(y, t, ParentAt(c));
      HangIn(x, isLeft, isRight, c, y);
      assert Linked(u, x, ParentAt(c));
    }

    method RotateLeft(x: AVLNode, ghost c: Path, ghost t: Tree) returns (y: AVLNode)
      requires t.Fork? && t.right.Fork? && x == t.node && Focused(c, t, root)
      modifies this`root, Nodes(t), ParentSet(c)
      ensures Focused(c, AVLShapes.RotateLeft(t), root)
      ensures y == t.right.node && x.parent == y && Nodes(AVLShapes.RotateLeft(t)) == Nodes(t)
    {
      var isLeft := x.parent != null && x.parent.left == x;
      var isRight := x.parent != null && x.parent.right == x;
      ghost var u := AVLShapes.RotateLeft(t);
      RotateLeftNodes(t);
      NodesAllocated(t);
      PathAllocated(c);
      y := PivotLeft(x, t, ParentAt(c));
      HangIn(y, isLeft, isRight, c, x);
      assert Linked(u, y, ParentAt(c));
    }

    /** The depth of a node from its children. */
    method Refresh(node: AVLNode, ghost c: Path, ghost t: Tree)
      requires t.Fork? && node == t.node && Focused(c, t, root)
      modifies node`depth
      ensures Focused(c, Node(t.left, t.node, t.right), root)
    {
      BalanceIs(t, node, node.parent);
      assert Linked(t.left, node.left, node) && Linked(t.right, node.right, node);
      node.depth := 1 + Max(DepthOf(node.left), DepthOf(node.right));
      assert Linked(t.left, node.left, node) && Linked(t.right, node.right, node);
    }

    /** The balance that the left-heavy cases ask for. */
    function TestedBalance(node: AVLNode): int
      reads *
    {
      if readsRoot then if root == null then 0 else BalanceOf(root.left) else BalanceOf(node.left)
    }

    lemma {:induction false} TestIs(node: AVLNode, c: Path, t: Tree)
      requires t.Fork? && node == t.node && Focused(c, Node(t.left, t.node, t.right), root)
      ensures TestedBalance(node) == Test(readsRoot, c, t)
    {
      var u := Node(t.left, t.node, t.right);
      FocusExact(c, u, root);
      PlugFork(c, u);
      BalanceIs(Plug(c, u).left, root.left, root);
      BalanceIs(u.left, node.left, node);
    }

    /** The double rotations. */
    method RotateLeftRight(node: AVLNode, ghost c: Path, ghost u: Tree)
      requires u.Fork? && u.left.Fork? && u.left.right.Fork? && node == u.node && Focused(c, u, root)
      modifies this`root, Nodes(u), ParentSet(c)
      ensures var r := AVLShapes.RotateRight(Fork(AVLShapes.RotateLeft(u.left), u.node, u.depth, u.right));
              Focused(c, r, root) && node.parent == r.node && Nodes(r) == Nodes(u)
    {
      NodesAllocated(u);
      PathAllocated(c);
      assert Linked(u.left, node.left, node);
      FocusLeft(c, u, root);
      RotateLeftNodes(u.left);
      var _ := RotateLeft(node.left, LeftOf(c, node, u.depth, u.right), u.left);
      ghost var v := Fork(AVLShapes.RotateLeft(u.left), node, u.depth, u.right);
      FocusUp(LeftOf(c, node, u.depth, u.right), AVLShapes.RotateLeft(u.left), root);
      RotateRightNodes(v);
      var _ := RotateRight(node, c, v);
    }

    method RotateRightLeft(node: AVLNode, ghost c: Path, ghost u: Tree)
      requires u.Fork? && u.right.Fork? && u.right.left.Fork? && node == u.node && Focused(c, u, root)
      modifies this`root, Nodes(u), ParentSet(c)
      ensures var r := AVLShapes.RotateLeft(Fork(u.left, u.node, u.depth, AVLShapes.RotateRight(u.right)));
              Focused(c, r, root) && node.parent == r.node && Nodes(r) == Nodes(u)
    {
      NodesAllocated(u);
      PathAllocated(c);
      assert Linked(u.right, node.right, node);
      FocusRight(c, u, root);
      RotateRightNodes(u.right);
      var _ := RotateRight(node.right, RightOf(c, u.left, node, u.depth), u.right);
      ghost var v := Fork(u.left, node, u.depth, AVLShapes.RotateRight(u.right));
      FocusUp(RightOf(c, u.left, node, u.depth), AVLShapes.RotateRight(u.right), root);
      RotateLeftNodes(v);
      var _ := RotateLeft(node, c, v);
    }

    /** One round of the balancing loop at `node`; false where it rotates about a missing child. */
    method BalanceNode(node: AVLNode, ghost c: Path, ghost t: Tree) returns (ok: bool)
      requires t.Fork? && node == t.node && Focused(c, t, root)
      modifies this`root, Nodes(t), ParentSet(c)
      ensures ok <==> !Round(Test(readsRoot, c, t), t).Fault?
      ensures ok ==> var o := Round(Test(readsRoot, c, t), t);
                       && Focused(c, o.tree, root) && Nodes(o.tree) == Nodes(t)
                       && node.parent == if o.Still? then ParentAt(c) else RootOf(o.tree)
    {
      ghost var u := Node(t.left, t.node, t.right);
      NodesAllocated(t);
      PathAllocated(c);
      Refresh(node, c, t);
      BalanceIs(u, node, node.parent);
      BalanceIs(u.left, node.left, node);
      BalanceIs(u.right, node.right, node);
      var balance := BalanceOf(node);
      TestIs(node, c, t);
      var test := TestedBalance(node);
      ok := true;
      if balance > 1 && test >= 0 {
        if node.left == null { return false; }
        RotateRightNodes(u);
        var _ := RotateRight(node, c, u);
      } else if balance > 1 && test < 0 {
        if node.left == null || node.left.right == null { return false; }
        RotateLeftRight(node, c, u);
      } else if balance < -1 && BalanceOf(node.right) <= 0 {
        if node.right == null { return false; }
        RotateLeftNodes(u);
        var _ := RotateLeft(node, c, u);
      } else if balance < -1 && BalanceOf(node.right) > 0 {
        if node.right == null || node.right.left == null { return false; }
        RotateRightLeft(node, c, u);
      }
    }

    /** One round, and the step to the parent: `c` and `t` are where the loop goes on, or the whole tree. */
    method NextRound(node: AVLNode, ghost c0: Path, ghost t0: Tree)
      returns (ok: bool, next: AVLNode?, ghost c: Path, ghost t: Tree)
      requires t0.Fork? && node == t0.node && Focused(c0, t0, root) && SoundBelow(t0) && SoundSides(c0)
      modifies this`root, Nodes(t0), PathNodes(c0)
      ensures !ok ==> Climb(readsRoot, c0, t0).None?
      ensures ok ==> Focused(c, t, root) && PathNodes(c) + Nodes(t) == PathNodes(c0) + Nodes(t0)
      ensures ok && next == null ==> c.Top? && Climb(readsRoot, c0, t0) == Some(t)
      ensures ok && next != null ==>
                && t.Fork? && next == t.node && SoundBelow(t) && SoundSides(c)
                && Climb(readsRoot, c0, t0) == Climb(readsRoot, c, t)
      ensures ok && next != null ==> Nearer(c, t, c0, t0)
    {
      ghost var test := Test(readsRoot, c0, t0);
      RoundClimbs(readsRoot, c0, t0);
      ok := BalanceNode(node, c0, t0);
      c, t, next := c0, t0, null;
      if !ok { return; }
      next := node.parent;
      if Round(test, t0).Turned? {
        RoundNearer(test, c0, t0);
        t := Round(test, t0).tree;
      } else {
        ghost var u := Round(test, t0).tree;
        if c0.Top? {
          t := u;
        } else {
          FocusUp(c0, u, root);
          UpNearer(c0, Above(c0, u), t0);
          c, t := c0.up, Above(c0, u);
        }
      }
    }

    /** The balancing loop from `start` up to the root. */
    method BalanceUp(start: AVLNode, ghost c0: Path, ghost t0: Tree) returns (ok: bool)
      requires t0.Fork? && start == t0.node && Focused(c0, t0, root)
      requires SoundBelow(t0) && SoundSides(c0)
      modifies this`root, Nodes(t0), PathNodes(c0)
      ensures ok <==> Climb(readsRoot, c0, t0).Some?
      ensures ok ==> var r := Climb(readsRoot, c0, t0).value;
                Linked(r, root, null) && Nodes(r) == PathNodes(c0) + Nodes(t0)
    {
      ghost var c, t := c0, t0;
      var node: AVLNode? := start;
      while node != null
        invariant PathNodes(c) + Nodes(t) == PathNodes(c0) + Nodes(t0)
        invariant Focused(c, t, root)
        invariant node != null ==>
            && t.Fork? && node == t.node && SoundBelow(t) && SoundSides(c)
            && Climb(readsRoot, c, t) == Climb(readsRoot, c0, t0)
        invariant node == null ==> c.Top? && Climb(readsRoot, c0, t0) == Some(t)
        decreases node != null, Levels(c), Reach(t), Rank(t), Size(Inner(t))
      {
        ok, node, c, t := NextRound(node, c, t);
        if !ok { return; }
      }
      return true;
    }

    ghost predicate Valid()
      reads this, Nodes(tree)
    {
      Linked(tree, root, null) && Ordered(tree) && Sound(tree)
    }

    /** Links a new leaf below `node` on the side of its key, which is free. */
    method LinkLeaf(node: AVLNode, newNode: AVLNode, ghost c: Path, ghost t: Tree)
      requires t.Fork? && node == t.node && Focused(c, t, root)
      requires newNode.key != node.key && (if newNode.key < node.key then t.left.Nil? else t.right.Nil?)
      requires newNode !in Nodes(t) + PathNodes(c) && newNode.left == null == newNode.right
      modifies node, newNode
      ensures newNode.depth == old(newNode.depth) && Focused(c, Beside(t, newNode, newNode.depth), root)
    {
      assert Linked(t.left, node.left, node) && Linked(t.right, node.right, node);
      if newNode.key < node.key {
        node.left := newNode;
      } else {
        node.right := newNode;
      }
      newNode.parent := node;
      assert newNode.key > node.key ==> Linked(t.left, node.left, node);
      assert newNode.key < node.key ==> Linked(t.right, node.right, node);
      assert Linked(Leaf(newNode, newNode.depth), newNode, node);
    }

    /** The descent of `insert`: to the node with the key, or to the one below which it belongs. */
    method Descend(key: int) returns (node: AVLNode, ghost c: Path, ghost t: Tree)
      requires Valid() && root != null
      ensures t.Fork? && node == t.node && Focused(c, t, root) && SoundSides(c) && Sound(t)
      ensures PathNodes(c) + Nodes(t) == Nodes(tree)
      ensures Find(c, t, key) == Find(Top, tree, key)
      ensures key < node.key ==> t.left.Nil?
      ensures key > node.key ==> t.right.Nil?
    {
      node := root;
      c, t := Top, tree;
      while true
        invariant Focused(c, t, root) && t.Fork? && node == t.node
        invariant PathNodes(c) + Nodes(t) == Nodes(tree) && SoundSides(c) && Sound(t)
        invariant Find(c, t, key) == Find(Top, tree, key)
        decreases t
      {
        BalanceIs(t, node, node.parent);
        if key < node.key {
          if node.left == null { return; }
          StepLeft(c, t, root, key);
          node := node.left;
          c, t := LeftOf(c, t.node, t.depth, t.right), t.left;
        } else if key > node.key {
          if node.right == null { return; }
          StepRight(c, t, root, key);
          node := node.right;
          c, t := RightOf(c, t.left, t.node, t.depth), t.right;
        } else {
          return;
        }
      }
    }

    /** Links the new node and balances the tree. */
    method AddBelow(node: AVLNode, newNode: AVLNode, ghost c: Path, ghost t0: Tree) returns (ok: bool)
      requires t0.Fork? && node == t0.node && Focused(c, t0, root) && SoundSides(c) && Sound(t0)
      requires newNode.key != node.key && (if newNode.key < node.key then t0.left.Nil? else t0.right.Nil?)
      requires newNode !in Nodes(t0) + PathNodes(c) && newNode.depth >= 1 && newNode.left == null == newNode.right
      modifies this`root, Nodes(t0), PathNodes(c), newNode
      ensures var t := Beside(t0, newNode, old(newNode.depth));
              && (ok <==> Climb(readsRoot, c, t).Some?)
              && (ok ==> var r := Climb(readsRoot, c, t).value;
                           Linked(r, root, null) && Nodes(r) == PathNodes(c) + Nodes(t0) + {newNode})
    {
      LinkLeaf(node, newNode, c, t0);
      ok := BalanceUp(node, c, Beside(t0, newNode, newNode.depth));
    }

    /** Null if the key is present; `ok` is false after a rotation about a missing child.  The node may carry any depth
        with which `Extract` has returned it. */
    method Insert(newNode: AVLNode) returns (result: AVLNode?, ok: bool)
      requires Valid() && newNode !in Nodes(tree)
      requires newNode.depth >= 1 && newNode.left == null == newNode.right && newNode.parent == null
      modifies this`root, this`tree, Nodes(tree), newNode
      ensures ok <==> !AVLOperations.Insert(readsRoot, old(tree), newNode, old(newNode.depth)).Crashed?
      ensures ok ==> Valid() && match AVLOperations.Insert(readsRoot, old(tree), newNode, old(newNode.depth))
                                case Added(r) => result == newNode && tree == r
                                    && Nodes(tree) == old(Nodes(tree)) + {newNode}
                                case _ => result == null && tree == old(tree)
    {
      ghost var d, was := newNode.depth, tree;
      ghost var _, _ := InsertKeeps(readsRoot, was, newNode, d);
      NodesAllocated(was);
      result, ok := InsertAt(newNode);
      if ok && result != null {
        Become(AVLOperations.Insert(readsRoot, was, newNode, d).tree);
      }
    }

    /** The pointers represent another tree now. */
    ghost method Become(t: Tree)
      requires Linked(t, root, null) && Ordered(t) && Sound(t)
      modifies this`tree
      ensures Valid() && tree == t
    {
      tree := t;
    }

    method InsertAt(newNode: AVLNode) returns (result: AVLNode?, ok: bool)
      requires Valid() && newNode !in Nodes(tree)
      requires newNode.depth >= 1 && newNode.left == null == newNode.right && newNode.parent == null
      modifies this`root, Nodes(tree), newNode
      ensures match AVLOperations.Insert(readsRoot, tree, newNode, old(newNode.depth))
              case Present => ok && result == null && Linked(tree, root, null)
              case Crashed => !ok
              case Added(r) => ok && result == newNode && Linked(r, root, null) && Nodes(r) == Nodes(tree) + {newNode}
    {
      if root == null {
        root := newNode;
        assert Linked(Leaf(newNode, newNode.depth), root, null);
        return root, true;
      }
      result, ok := InsertInto(newNode);
    }

    /** The descent and the balancing in a tree that is not empty. */
    method InsertInto(newNode: AVLNode) returns (result: AVLNode?, ok: bool)
      requires Valid() && root != null && newNode !in Nodes(tree)
      requires newNode.depth >= 1 && newNode.left == null == newNode.right && newNode.parent == null
      modifies this`root, Nodes(tree), newNode
      ensures match AVLOperations.Insert(readsRoot, tree, newNode, old(newNode.depth))
              case Present => ok && result == null && Linked(tree, root, null)
              case Crashed => !ok
              case Added(r) => ok && result == newNode && Linked(r, root, null) && Nodes(r) == Nodes(tree) + {newNode}
    {
      NodesAllocated(tree);
      var node;
      ghost var c, t;
      node, c, t := Descend(newNode.key);
      InsertIs(readsRoot, tree, newNode, newNode.depth, c, t);
      if newNode.key == node.key {
        return null, true;
      }
      ok := AddBelow(node, newNode, c, t);
      return newNode, ok;
    }

    // -------------------------------------------------------------------------------------- extract

    method SwapPosition(a: AVLNode, b: AVLNode, ghost t: Tree)
      requires Linked(t, root, null) && a in Nodes(t) && b in Nodes(t) && a != b
      modifies this`root, Nodes(t)
      ensures Linked(Renamed(t, a, a.depth, b, b.depth), root, null)
      ensures if old(b.parent) == a then a.depth == old(a.depth) && b.depth == old(b.depth)
              else a.depth == old(b.depth) && b.depth == old(a.depth)
    {
      ghost var was := Snapshot(Nodes(t));
      NodesAllocated(t);
      WholeAgrees(t, root);
      SnapshotLinked(was, Nodes(t), t, root, null);
      root := Exchange(a, b, root, Nodes(t));
      RenamedLinked(was, t, old(root), null, a, b);
    }

    /** Takes the node at the place `c` out of the tree, with everything that hangs below it. */
    method Unpin(node: AVLNode, ghost c: Path, ghost t: Tree)
      requires t.Fork? && node == t.node && Focused(c, t, root)
      modifies this`root, node, ParentSet(c)
      ensures Focused(c, Nil, root) && node.parent == null
      ensures node.depth == old(node.depth) && node.left == old(node.left) && node.right == old(node.right)
    {
      if node.parent != null && node.parent.left == node {
        node.parent.left := null;
      } else if node.parent != null && node.parent.right == node {
        node.parent.right := null;
      } else {
        root := null;
      }
      node.parent := null;
    }

    method MinKeyNode(start: AVLNode, ghost t0: Tree, ghost parent: AVLNode?) returns (node: AVLNode)
      requires t0.Fork? && Linked(t0, start, parent)
      ensures node == Leftmost(Top, t0).tree.node && node.depth == Leftmost(Top, t0).tree.depth
      ensures if t0.left.Nil? then node.parent == parent else node.parent in Nodes(t0)
    {
      node := start;
      ghost var t := t0;
      while node.left != null
        invariant t.Fork? && node == t.node && Linked(t, node, node.parent) && Nodes(t) <= Nodes(t0)
        invariant Leftmost(Top, t).tree == Leftmost(Top, t0).tree
        invariant if t == t0 then node.parent == parent else t0.left.Fork? && node.parent in Nodes(t0)
        decreases t
      {
        assert Linked(t.left, node.left, node);
        LeftmostSame(LeftOf(Top, t.node, t.depth, t.right), t.left);
        node := node.left;
        t := t.left;
      }
      assert Linked(t.left, node.left, node);
    }

    /** The node with the key and its place, or the free place where the key belongs. */
    method Lookup(key: int) returns (node: AVLNode?, ghost c: Path, ghost t: Tree)
      requires Valid()
      ensures Place(c, t) == Find(Top, tree, key) && node == RootOf(t)
    {
      node := root;
      c, t := Top, tree;
      while node != null
        invariant Focused(c, t, root) && node == RootOf(t)
        invariant Find(c, t, key) == Find(Top, tree, key)
        decreases t
      {
        if key < node.key {
          FocusLeft(c, t, root);
          node := node.left;
          c, t := LeftOf(c, t.node, t.depth, t.right), t.left;
        } else if key > node.key {
          FocusRight(c, t, root);
          node := node.right;
          c, t := RightOf(c, t.left, t.node, t.depth), t.right;
        } else {
          return;
        }
      }
    }

    /** A node with two children changes places with the leftmost node on its right. */
    method Lower(node: AVLNode, ghost c: Path, ghost t: Tree)
      requires t.Fork? && t.right.Fork? && node == t.node && Focused(c, t, root)
      modifies this`root, Nodes(t), PathNodes(c)
      ensures var p := Lowered(c, t);
              Focused(p.path, p.tree, root) && p.tree.node == node
                  && PathNodes(p.path) + Nodes(p.tree) == PathNodes(c) + Nodes(t)
    {
      NodesAllocated(t);
      PathAllocated(c);
      BalanceIs(t, node, node.parent);
      assert Linked(t.right, node.right, node);
      var tmp := MinKeyNode(node.right, t.right, node);
      LeftmostInside(t.right);
      FocusExact(c, t, root);
      PlugNodes(c, t);
      LinkedDistinct(t, node, node.parent);
      SwapPosition(node, tmp, Plug(c, t));
      RenamedLowered(c, t, node, node.depth, tmp, tmp.depth);
      ghost var p := Lowered(c, t);
      FocusExact(p.path, p.tree, root);
      LoweredNodes(c, t, node, node.depth, tmp, tmp.depth);
    }

    /** A node without children is unpinned; the loop starts at its parent. */
    method DetachLeaf(node: AVLNode, ghost c: Path, ghost t: Tree) returns (ok: bool)
      requires t.Fork? && t.left.Nil? && t.right.Nil? && node == t.node && Focused(c, t, root) && SoundSides(c)
      modifies this`root, Nodes(t), PathNodes(c)
      ensures ok <==> AVLOperations.Detach(readsRoot, c, t).Some?
      ensures ok ==> var r := AVLOperations.Detach(readsRoot, c, t).value;
                       Linked(r, root, null) && Nodes(r) == PathNodes(c) && Carries(node, t)
    {
      var up := node.parent;
      BalanceIs(t, node, up);
      NodesAllocated(t);
      PathAllocated(c);
      Unpin(node, c, t);
      ok := true;
      if up != null {
        FocusUp(c, Nil, root);
        ok := BalanceUp(up, c.up, Above(c, Nil));
      }
    }

    /** An only child changes places with the node, which is unpinned; the loop starts at the child. */
    method DetachInner(node: AVLNode, child: AVLNode, ghost c: Path, ghost t: Tree) returns (ok: bool)
      requires t.Fork? && node == t.node && Focused(c, t, root) && SoundSides(c)
      requires if t.left.Fork? then t.right.Nil? && child == t.left.node else t.right.Fork? && child == t.right.node
      modifies this`root, Nodes(t), PathNodes(c)
      ensures ok <==> AVLOperations.Detach(readsRoot, c, t).Some?
      ensures ok ==> var r := AVLOperations.Detach(readsRoot, c, t).value;
                       Linked(r, root, null) && Nodes(r) == PathNodes(c) + {child} && Carries(node, t)
    {
      PutChild(node, child, c, t);
      ghost var below := if t.left.Fork? then t.left else t.right;
      ok := BalanceUp(child, c, Leaf(child, below.depth));
    }

    /** The child at the place of the node, without children, and the node unpinned. */
    method PutChild(node: AVLNode, child: AVLNode, ghost c: Path, ghost t: Tree)
      requires t.Fork? && node == t.node && Focused(c, t, root)
      requires if t.left.Fork? then t.right.Nil? && child == t.left.node else t.right.Fork? && child == t.right.node
      modifies this`root, Nodes(t), PathNodes(c)
      ensures Focused(c, Leaf(child, (if t.left.Fork? then t.left else t.right).depth), root) && Carries(node, t)
      ensures node != child && node !in PathNodes(c)
    {
      NodesAllocated(t);
      PathAllocated(c);
      ghost var p, down := ExchangeWithChild(node, child, c, t);
      BalanceIs(down, node, node.parent);
      Unpin(node, p, down);
      FocusUp(p, Nil, root);
    }

    /** `p` and `down` are the place of the node below its child and what hangs there. */
    method ExchangeWithChild(node: AVLNode, child: AVLNode, ghost c: Path, ghost t: Tree)
      returns (ghost p: Path, ghost down: Tree)
      requires t.Fork? && node == t.node && Focused(c, t, root)
      requires if t.left.Fork? then t.right.Nil? && child == t.left.node else t.right.Fork? && child == t.right.node
      modifies this`root, Nodes(t), PathNodes(c)
      ensures Focused(p, down, root)
      ensures var below := if t.left.Fork? then t.left else t.right;
              down == Fork(below.left, node, t.depth, below.right) &&
              p == if t.left.Fork? then LeftOf(c, child, below.depth, Nil) else RightOf(c, Nil, child, below.depth)
    {
      ghost var below := if t.left.Fork? then t.left else t.right;
      BalanceIs(t, node, node.parent);
      assert Linked(below, child, node);
      FocusExact(c, t, root);
      PlugNodes(c, t);
      LinkedDistinct(t, node, node.parent);
      SwapPosition(node, child, Plug(c, t));
      RenamedChild(c, t, node, node.depth, child, child.depth);
      down := Fork(below.left, node, node.depth, below.right);
      p := if t.left.Fork? then LeftOf(c, child, child.depth, Nil) else RightOf(c, Nil, child, child.depth);
      FocusExact(p, down, root);
    }

    /** The removal of a found node. */
    method Remove(node: AVLNode, ghost c0: Path, ghost t0: Tree, ghost key: int) returns (ok: bool)
      requires Valid() && t0.Fork? && node == t0.node && Place(c0, t0) == Find(Top, tree, key)
      modifies this`root, Nodes(tree)
      ensures ok <==> AVLOperations.Extract(readsRoot, tree, key).Extracted?
      ensures ok ==> var x := AVLOperations.Extract(readsRoot, tree, key);
                       && x.node == node && Carries(node, Victim(old(tree), key).tree) && Linked(x.tree, root, null)
                       && node !in Nodes(x.tree) && Nodes(x.tree) <= Nodes(tree)
    {
      ghost var c, t := c0, t0;
      FoundFocus(tree, key, root);
      VictimIs(tree, key);
      BalanceIs(t, node, node.parent);
      NodesAllocated(tree);
      if node.left != null && node.right != null {
        Lower(node, c, t);
        ghost var p := Lowered(c, t);
        c, t := p.path, p.tree;
        BalanceIs(t, node, node.parent);
      }
      var tmp := if node.left != null then node.left else node.right;
      assert Place(c, t) == Victim(tree, key);
      ok := Detach(node, tmp, c, t);
      ExtractIs(readsRoot, tree, key, c, t);
    }

    /** Unlinks a node with at most one child. */
    method Detach(node: AVLNode, child: AVLNode?, ghost c: Path, ghost t: Tree) returns (ok: bool)
      requires t.Fork? && node == t.node && Focused(c, t, root) && SoundSides(c)
      requires t.left.Nil? || t.right.Nil?
      requires child == if t.left.Fork? then t.left.node else RootOf(t.right)
      modifies this`root, Nodes(t), PathNodes(c)
      ensures ok <==> AVLOperations.Detach(readsRoot, c, t).Some?
      ensures ok ==> var r := AVLOperations.Detach(readsRoot, c, t).value;
                       && Linked(r, root, null) && Carries(node, t)
                       && node !in Nodes(r) && Nodes(r) <= PathNodes(c) + Nodes(t)
    {
      if child == null {
        ok := DetachLeaf(node, c, t);
      } else {
        ok := DetachInner(node, child, c, t);
      }
    }

    /** Null if the key is absent; `ok` is false after a rotation about a missing child. */
    method Extract(key: int) returns (result: AVLNode?, ok: bool)
      requires Valid()
      modifies this`root, this`tree, Nodes(tree)
      ensures ok <==> !AVLOperations.Extract(readsRoot, old(tree), key).Broken?
      ensures ok ==> Valid() && match AVLOperations.Extract(readsRoot, old(tree), key)
                                case Extracted(n, d, r) =>
                                  && result == n && tree == r && n.parent == null && n.depth == d
                                  && (LoneChildIsLeaf(Victim(old(tree), key).tree) ==>
                                        n.left == null && n.right == null)
                                  && n !in Nodes(tree) && Nodes(tree) <= old(Nodes(tree))
                                case _ => result == null && tree == old(tree)
    {
      ExtractOrdered(readsRoot, tree, key);
      ghost var _, _ := ExtractKeeps(readsRoot, tree, key);
      FindIsInside(Top, tree, key);
      NodesAllocated(tree);
      ghost var c, t;
      result, c, t := Lookup(key);
      if result == null {
        return null, true;
      }
      VictimForks(tree, key);
      ok := Remove(result, c, t, key);
      if ok {
        if LoneChildIsLeaf(Victim(tree, key).tree) {
          CarriesNoChild(result, Victim(tree, key).tree);
        }
        tree := AVLOperations.Extract(readsRoot, tree, key).tree;
      }
    }

    /** Empties the tree and returns the nodes in the order in which the destructor is called on them. */
    method Clear() returns (order: seq<AVLNode>)
      requires Valid()
      modifies this`root, this`tree
      ensures Valid() && tree == Nil
      ensures order == AVLWalks.ClearOrder(old(tree))
    {
      order := AVLWalks.Clear(root, tree);
      root := null;
      tree := Nil;
    }
  }
}
