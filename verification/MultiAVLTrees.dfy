/**
  The multi tree (libbinom/source/binom_impl/multi_avl_tree.cxx): an AVL tree of key nodes with a list of
  values below each of them.

  The tree of key nodes is that of AVLTrees, with the balance of `node->left` asked for and with the
  balancing of a leaf removal started at its parent.  The list fields of a key node are an object of
  their own.
 */
module MultiAVLTrees {
  import opened Collections
  import opened AVLNodes
  import opened AVLShapes
  import opened AVLOrder
  import opened AVLOperations
  import opened AVLResults
  import opened AVLRuns
  import opened AVLHeap
  import AVLLookup
  import AVLTrees
  import opened ValueLists
  import opened ValueTables

  lemma {:induction false} NodesInorder(t: Tree)
    ensures Nodes(t) == Members(Inorder(t))
    decreases t
  {
    if t.Fork? {
      NodesInorder(t.left);
      NodesInorder(t.right);
    }
  }

  // ---------------------------------------------------------------------------- the map of sequences

  predicate Apart(m: AVLNode, n: AVLNode) {
    m.key == n.key ==> m == n
  }

  predicate KeysDiffer(s: set<AVLNode>) {
    forall m, n | m in s && n in s :: Apart(m, n)
  }

  lemma {:induction false} NoOther(s: set<AVLNode>, n: AVLNode)
    requires KeysDiffer(s + {n}) && n !in s
    ensures !HasNode(s, n.key)
  {
    assert HasNode(s, n.key) ==> Apart(NodeOf(s, n.key), n);
  }

  lemma {:induction false} OrderedKeys(t: Tree)
    requires Ordered(t)
    ensures KeysDiffer(Nodes(t))
  {
    NodesInorder(t);
    forall m, n | m in Nodes(t) && n in Nodes(t) ensures Apart(m, n) {
      AVLLookup.SameKey(t, m);
    }
  }

  ghost predicate HasNode(s: set<AVLNode>, key: int) {
    exists n :: n in s && n.key == key
  }

  ghost function NodeOf(s: set<AVLNode>, key: int): AVLNode
    requires HasNode(s, key)
  {
    var n :| n in s && n.key == key; n
  }

  /** The values by key instead of by key node. */
  ghost function ByKey(held: map<AVLNode, seq<ValueNode>>): map<int, seq<ValueNode>> {
    map k | k in (set n | n in held :: n.key) && HasNode(held.Keys, k) :: held[NodeOf(held.Keys, k)]
  }

  lemma {:induction false} ByKeyAt(held: map<AVLNode, seq<ValueNode>>, n: AVLNode)
    requires KeysDiffer(held.Keys) && n in held
    ensures n.key in ByKey(held) && ByKey(held)[n.key] == held[n]
  {
    assert n in held.Keys;
    assert HasNode(held.Keys, n.key);
    assert Apart(NodeOf(held.Keys, n.key), n);
  }

  lemma {:induction false} ByKeyPut(held: map<AVLNode, seq<ValueNode>>, n: AVLNode, s: seq<ValueNode>)
    requires KeysDiffer(held.Keys + {n})
    ensures ByKey(held[n := s]) == ByKey(held)[n.key := s]
    ensures n in held <==> n.key in ByKey(held)
    ensures n in held ==> ByKey(held)[n.key] == held[n]
  {
    var h := held[n := s];
    assert h.Keys == held.Keys + {n};
    var a, b := ByKey(h), ByKey(held)[n.key := s];
    forall k | k in a ensures k in b && a[k] == b[k] {
      var m := NodeOf(h.Keys, k);
      assert Apart(m, n);
      ByKeyAt(h, m);
      if m != n {
        ByKeyAt(held, m);
      }
    }
    forall k | k in b ensures k in a {
      if k == n.key {
        ByKeyAt(h, n);
      } else {
        ByKeyAt(h, NodeOf(held.Keys, k));
      }
    }
    KeyHeld(held, n);
  }

  lemma {:induction false} KeyHeld(held: map<AVLNode, seq<ValueNode>>, n: AVLNode)
    requires KeysDiffer(held.Keys + {n})
    ensures n in held <==> n.key in ByKey(held)
    ensures n in held ==> ByKey(held)[n.key] == held[n]
  {
    if n.key in ByKey(held) {
      assert Apart(NodeOf(held.Keys, n.key), n);
    }
    if n in held {
      ByKeyAt(held, n);
    }
  }

  lemma {:induction false} ByKeyTake(held: map<AVLNode, seq<ValueNode>>, n: AVLNode)
    requires KeysDiffer(held.Keys) && n in held
    ensures ByKey(held - {n}) == ByKey(held) - {n.key}
  {
    var h := held - {n};
    assert h.Keys == held.Keys - {n};
    var a, b := ByKey(h), ByKey(held) - {n.key};
    forall k | k in a ensures k in b && a[k] == b[k] {
      var m := NodeOf(h.Keys, k);
      assert Apart(m, n);
      ByKeyAt(h, m);
      ByKeyAt(held, m);
    }
    forall k | k in b ensures k in a {
      ByKeyAt(h, NodeOf(held.Keys, k));
    }
  }

  // -------------------------------------------------------------------------------- the key nodes

  lemma {:induction false} MembersInserted<T>(a: seq<T>, n: T, b: seq<T>)
    ensures Members(a + [n] + b) == Members(a + b) + {n}
  {
    assert forall x | x in a || x in b :: x in a + b && x in a + [n] + b;
  }

  lemma {:induction false} NodesParts(t: Tree, a: seq<AVLNode>, n: AVLNode, b: seq<AVLNode>, r: Tree)
    requires Inorder(t) == a + [n] + b && Inorder(r) == a + b && Ordered(t)
    ensures Nodes(t) == Nodes(r) + {n} && n !in Nodes(r)
  {
    NodesInorder(t);
    NodesInorder(r);
    SortedParts(a, n, b);
    MembersInserted(a, n, b);
  }

  /** Inserting a new key keeps the tree good and adds the one node. */
  lemma {:induction false} InsertGood(t: Tree, n: AVLNode)
    requires Good(t) && !HasKey(t, n.key)
    ensures var x := Insert(false, t, n, 1); x.Added? && Good(x.tree) && Nodes(x.tree) == Nodes(t) + {n}
  {
    var a, b := InsertKeeps(false, t, n, 1);
    InsertExact(false, t, n);
    NodesParts(Insert(false, t, n, 1).tree, a, n, b, t);
  }

  /** Removing a key keeps the tree good and takes out the one node. */
  lemma {:induction false} ExtractGood(t: Tree, n: AVLNode)
    requires Good(t) && n in Nodes(t)
    ensures var x := Extract(false, t, n.key);
            x.Extracted? && x.node == n && Good(x.tree) && Nodes(x.tree) == Nodes(t) - {n}
  {
    NodesInorder(t);
    var a, b := ExtractKeeps(false, t, n.key);
    VictimForks(t, n.key);
    assert HasKey(t, n.key);
    TakeExact(t, n.key);
    var x := Extract(false, t, n.key);
    assert x.node in Inorder(t);
    AVLLookup.SameKey(t, x.node);
    NodesParts(t, a, x.node, b, x.tree);
  }

  /** A node is where the descent by its key ends. */
  lemma {:induction false} NodePlace(t: Tree, n: AVLNode)
    requires Ordered(t) && Sound(t) && n in Nodes(t)
    ensures var p := Find(Top, t, n.key); p.tree.Fork? && p.tree.node == n
  {
    NodesInorder(t);
    FindExact(t, n.key);
    FindIsInside(Top, t, n.key);
    var p := Find(Top, t, n.key);
    assert HasKey(t, n.key) && p.tree.Fork?;
    InTheMiddle(Before(p.path), p.tree, After(p.path));
    AVLLookup.SameKey(t, n);
  }

  lemma {:induction false} InTheMiddle(a: seq<AVLNode>, t: Tree, b: seq<AVLNode>)
    requires t.Fork?
    ensures t.node in a + Inorder(t) + b
  {
    assert t.node in Inorder(t);
  }

  /** A key without the value at position `i`, and gone if that was its only value. */
  ghost predicate TakenOut(m: map<int, seq<ValueNode>>, key: int, v: ValueNode, i: nat,
                           after: map<int, seq<ValueNode>>) {
    && key in m && i < |m[key]| && m[key][i] == v
    && after == if |m[key]| == 1 then m - {key} else m[key := m[key][..i] + m[key][i + 1..]]
  }

  /** A key with the value in front of the others or behind them; a new key with the value alone; all other keys as
      before. */
  ghost predicate PutIn(m: map<int, seq<ValueNode>>, key: int, v: ValueNode, position: Position,
                        after: map<int, seq<ValueNode>>) {
    && key in after && after - {key} == m - {key}
    && (key !in m ==> after[key] == [v])
    && (key in m && position == Front ==> after[key] == [v] + m[key])
    && (key in m && position == Back ==> after[key] == m[key] + [v])
  }

  lemma {:induction false} PutInIs(m: map<int, seq<ValueNode>>, key: int, v: ValueNode, position: Position)
    ensures PutIn(m, key, v, position, m[key := if key in m then Joined(m[key], v, position) else [v]])
  {
  }

  /** The tree of key nodes. */
  class KeyTree {
    const tree: AVLTrees.AVLTree

    /** Whether lookups go left in any case, as written. */
    const leftOnly: bool
    ghost var nodes: set<AVLNode>
    ghost var repr: set<object>

    constructor (leftOnly: bool)
      ensures Valid() && fresh(repr) && nodes == {} && this.leftOnly == leftOnly
    {
      tree := new AVLTrees.AVLTree(false);
      this.leftOnly := leftOnly;
      nodes := {};
      new;
      repr := {this, tree};
    }

    ghost predicate Valid()
      reads this, repr
    {
      && this in repr && tree in repr && nodes <= repr
      && nodes == Nodes(tree.tree) && tree.Valid() && Good(tree.tree) && !tree.readsRoot
    }

    /** A key has one node at most. */
    lemma {:induction false} Differ()
      requires Valid()
      ensures KeysDiffer(nodes)
    {
      OrderedKeys(tree.tree);
    }

    /** Changing what a node holds changes it for its key. */
    lemma {:induction false} Change(held: map<AVLNode, seq<ValueNode>>, n: AVLNode, s: seq<ValueNode>)
      requires Valid() && held.Keys + {n} == nodes
      ensures ByKey(held[n := s]) == ByKey(held)[n.key := s]
      ensures n in held <==> n.key in ByKey(held)
      ensures n in held ==> ByKey(held)[n.key] == held[n]
    {
      Differ();
      ByKeyPut(held, n, s);
    }

    /** Taking a value from a node takes it from its key. */
    lemma {:induction false} Taken(held: map<AVLNode, seq<ValueNode>>, n: AVLNode, i: nat)
      requires Valid() && held.Keys == nodes && n in held && i < |held[n]|
      ensures TakenOut(ByKey(held), n.key, held[n][i], i,
                       ByKey(if |held[n]| == 1 then held - {n} else held[n := Without(held[n], i)]))
    {
      Differ();
      ByKeyAt(held, n);
      assert held.Keys + {n} == held.Keys;
      if |held[n]| == 1 {
        ByKeyTake(held, n);
      } else {
        ByKeyPut(held, n, Without(held[n], i));
      }
    }

    /** Taking a node takes its key with all values. */
    lemma {:induction false} Gone(held: map<AVLNode, seq<ValueNode>>, n: AVLNode)
      requires Valid() && held.Keys == nodes && n in held
      ensures n.key in ByKey(held) && ByKey(held)[n.key] == held[n] && ByKey(held - {n}) == ByKey(held) - {n.key}
    {
      Differ();
      ByKeyAt(held, n);
      ByKeyTake(held, n);
    }

    /** Links a new node as the root or below `node`, the end of the descent, and balances the tree. */
    method Link(keyNode: AVLNode, node: AVLNode?, ghost c: Path, ghost t: Tree)
      requires Valid() && keyNode !in repr && keyNode.depth == 1
      requires keyNode.left == null && keyNode.right == null && keyNode.parent == null
      requires Focused(c, t, tree.root) && SoundSides(c) && Sound(t) && PathNodes(c) + Nodes(t) == nodes
      requires Find(c, t, keyNode.key) == Find(Top, tree.tree, keyNode.key) && node == RootOf(t)
      requires if t.Nil? then c.Top?
               else keyNode.key != node.key && (if keyNode.key < node.key then t.left.Nil? else t.right.Nil?)
      modifies repr, keyNode
      ensures Valid() && nodes == old(nodes) + {keyNode} && repr == old(repr) + {keyNode}
    {
      NodesAllocated(tree.tree);
      ghost var was := tree.tree;
      FindExact(was, keyNode.key);
      InsertGood(was, keyNode);
      if node == null {
        tree.root := keyNode;
      } else {
        AVLTrees.InsertIs(false, was, keyNode, 1, c, t);
        var ok := tree.AddBelow(node, keyNode, c, t);
      }
      Become(Insert(false, was, keyNode, 1).tree, repr + {keyNode});
    }

    /** The pointers represent another tree now. */
    ghost method Become(t: Tree, r: set<object>)
      requires Linked(t, tree.root, null) && Good(t) && !tree.readsRoot
      requires this in r && tree in r && Nodes(t) <= r
      modifies this`nodes, this`repr, tree`tree
      ensures Valid() && nodes == Nodes(t) && repr == r
    {
      tree.tree := t;
      nodes, repr := Nodes(t), r;
    }

    /** The node with the key, which is new if there was none. */
    method Put(key: int) returns (node: AVLNode)
      requires Valid()
      modifies repr
      ensures Valid() && node.key == key && nodes == old(nodes) + {node}
      ensures node !in old(nodes) ==> fresh(node) && !HasNode(old(nodes), key)
      ensures fresh(repr - old(repr))
    {
      var at: AVLNode? := null;
      ghost var c, t := Top, tree.tree;
      if tree.root != null {
        at, c, t := tree.Descend(key);
        if key == at.key {
          return at;
        }
      }
      node := LinkNew(key, at, c, t);
      Differ();
      NoOther(old(nodes), node);
    }

    method LinkNew(key: int, at: AVLNode?, ghost c: Path, ghost t: Tree) returns (node: AVLNode)
      requires Valid() && Focused(c, t, tree.root) && SoundSides(c) && Sound(t) && PathNodes(c) + Nodes(t) == nodes
      requires Find(c, t, key) == Find(Top, tree.tree, key) && at == RootOf(t)
      requires if t.Nil? then c.Top? else key != at.key && (if key < at.key then t.left.Nil? else t.right.Nil?)
      modifies repr
      ensures Valid() && node.key == key && nodes == old(nodes) + {node} && fresh(node) && node !in old(nodes)
      ensures repr == old(repr) + {node}
    {
      NodesAllocated(tree.tree);
      PathAllocated(c);
      NodesAllocated(t);
      node := new AVLNode(key);
      Link(node, at, c, t);
    }

    /** Takes a node out and balances the tree. */
    method Take(node: AVLNode)
      requires Valid() && node in nodes
      modifies repr
      ensures Valid() && nodes == old(nodes) - {node} && repr == old(repr) - {node}
    {
      ghost var was := tree.tree;
      NodesAllocated(was);
      NodePlace(was, node);
      ExtractGood(was, node);
      ghost var p := Find(Top, was, node.key);
      var ok := tree.Remove(node, p.path, p.tree, node.key);
      Become(Extract(false, was, node.key).tree, repr - {node});
    }

    lemma {:induction false} Absent(held: map<AVLNode, seq<ValueNode>>, key: int)
      requires Valid() && held.Keys == nodes
      ensures AVLLookup.Get(leftOnly, tree.tree, key).None? && !leftOnly ==> key !in ByKey(held)
    {
      Found(key);
    }

    /** What the lookup of a key comes to. */
    lemma {:induction false} Found(key: int)
      requires Valid()
      ensures match AVLLookup.Get(leftOnly, tree.tree, key)
              case Some(n) => n in nodes && n.key == key
              case None => !leftOnly ==> !HasNode(nodes, key)
    {
      NodesInorder(tree.tree);
      if leftOnly {
        AVLLookup.GetFrom(tree.tree, key);
        AVLLookup.SpineInside(tree.tree);
      } else {
        AVLLookup.SeekExact(tree.tree, key);
      }
    }

    /** The lookup of a key. */
    method Look(key: int) returns (node: AVLNode?)
      requires Valid()
      ensures match AVLLookup.Get(leftOnly, tree.tree, key)
              case None => node == null
              case Some(n) => node == n && n in nodes && n.key == key
    {
      Found(key);
      node := tree.root;
      ghost var t := tree.tree;
      ghost var parent: AVLNode? := null;
      while node != null
        invariant Linked(t, node, parent) && AVLLookup.Get(leftOnly, t, key) == AVLLookup.Get(leftOnly, tree.tree, key)
        decreases t
      {
        assert Linked(t.left, node.left, node) && Linked(t.right, node.right, node);
        if key == node.key {
          return;
        }
        parent := node;
        if key < node.key || leftOnly {
          node := node.left;
          t := t.left;
        } else {
          node := node.right;
          t := t.right;
        }
      }
    }

    method Reset()
      requires Valid()
      modifies repr
      ensures Valid() && nodes == {} && repr == old(repr)
    {
      tree.root := null;
      Become(Nil, repr);
    }
  }

  class MultiAVLTree {
    const keys: KeyTree
    const table: ValueTable

    constructor (leftOnly: bool)
      ensures Valid() && fresh(keys.repr) && fresh(table) && table.foot == {} && Contents() == map[]
      ensures keys.leftOnly == leftOnly
    {
      keys := new KeyTree(leftOnly);
      table := new ValueTable();
    }

    ghost predicate Valid()
      reads keys, keys.repr, table, table.foot
    {
      keys.Valid() && table.Valid() && keys.repr !! {table} + table.foot && table.held.Keys == keys.nodes
    }

    ghost function Contents(): map<int, seq<ValueNode>>
      reads table
    {
      ByKey(table.held)
    }

    /** The node of a key, which has no values yet if it is new. */
    method PutKey(key: int) returns (node: AVLNode)
      requires Valid()
      modifies keys.repr
      ensures keys.Valid() && node.key == key && keys.nodes == old(keys.nodes) + {node}
              && fresh(keys.repr - old(keys.repr))
      ensures table.Valid() && keys.repr !! {table} + table.foot && table.held == old(table.held)
              && table.foot == old(table.foot)
    {
      node := keys.Put(key);
    }

    /** Links a value at a key node, whose first one it may be. */
    method PutValue(node: AVLNode, newNode: ValueNode, position: Position)
      requires keys.Valid() && table.Valid() && keys.repr !! {table} + table.foot
               && keys.nodes == table.held.Keys + {node}
      requires newNode !in keys.repr && newNode !in table.foot && newNode.next == null && newNode.prev == null
      modifies table, table.foot, newNode
      ensures Valid() && newNode.keyNode == node && keys.repr == old(keys.repr)
      ensures var h := old(table.held);
              table.held == h[node := if node in h then Joined(h[node], newNode, position) else [newNode]]
      ensures newNode in table.foot && fresh(table.foot - old(table.foot) - {newNode})
    {
      table.Put(node, newNode, position);
    }

    /** Adds a value at one of the ends of the sequence of a key. */
    method Insert(key: int, newNode: ValueNode, position: Position) returns (keyNode: AVLNode)
      requires Valid() && newNode !in keys.repr && newNode !in table.foot && newNode.next == null
               && newNode.prev == null
      modifies keys.repr, table, table.foot, newNode
      ensures Valid() && keyNode.key == key && newNode.keyNode == keyNode
      ensures PutIn(old(Contents()), key, newNode, position, Contents())
      ensures fresh(keys.repr - old(keys.repr)) && newNode in table.foot
              && fresh(table.foot - old(table.foot) - {newNode})
    {
      ghost var m := Contents();
      keyNode := Enter(key, newNode, position);
      keys.Change(old(table.held), keyNode, table.held[keyNode]);
      PutInIs(m, key, newNode, position);
    }

    /** The same by key node. */
    method Enter(key: int, newNode: ValueNode, position: Position) returns (keyNode: AVLNode)
      requires Valid() && newNode !in keys.repr && newNode !in table.foot && newNode.next == null
               && newNode.prev == null
      modifies keys.repr, table, table.foot, newNode
      ensures Valid() && keyNode.key == key && newNode.keyNode == keyNode && keys.nodes == old(keys.nodes) + {keyNode}
      ensures var h := old(table.held);
              table.held == h[keyNode := if keyNode in h then Joined(h[keyNode], newNode, position) else [newNode]]
      ensures fresh(keys.repr - old(keys.repr)) && newNode in table.foot
              && fresh(table.foot - old(table.foot) - {newNode})
    {
      keyNode := PutKey(key);
      PutValue(keyNode, newNode, position);
    }

    /** Unlinks a value; the key goes with its last value. */
    method Extract(v: ValueNode) returns (ghost i: nat)
      requires Valid() && v.keyNode != null && v.keyNode in table.held && v in table.held[v.keyNode]
      modifies keys.repr, table, table.foot
      ensures Valid() && v.keyNode == null && v.next == null && v.prev == null
      ensures keys.repr <= old(keys.repr) && table.foot == old(table.foot) - {v}
      ensures TakenOut(old(Contents()), old(v.keyNode.key), v, i, Contents())
    {
      var node := v.keyNode;
      ghost var held := table.held;
      i :| i < |held[node]| && held[node][i] == v;
      keys.Taken(held, node, i);
      Unlink(v, node, i);
    }

    /** Unlinks a value, and its key node if that has no other one. */
    method Unlink(v: ValueNode, node: AVLNode, ghost i: nat)
      requires Valid() && node in table.held && i < |table.held[node]| && table.held[node][i] == v
      modifies keys.repr, table, table.foot
      ensures Valid() && v.keyNode == null && v.next == null && v.prev == null
      ensures keys.repr <= old(keys.repr) && table.foot == old(table.foot) - {v}
      ensures var h := old(table.held);
              table.held == if |h[node]| == 1 then h - {node} else h[node := Without(h[node], i)]
    {
      var emptied := TakeValue(v, node, i);
      if emptied {
        TakeKey(node);
      }
    }

    method TakeValue(v: ValueNode, node: AVLNode, ghost i: nat) returns (emptied: bool)
      requires Valid() && node in table.held && i < |table.held[node]| && table.held[node][i] == v
      modifies table, table.foot
      ensures keys.Valid() && keys.nodes == old(keys.nodes) && table.Valid() && table.foot == old(table.foot) - {v}
      ensures keys.repr == old(keys.repr) && keys.repr !! {table} + table.foot
      ensures v.keyNode == null && v.next == null && v.prev == null
      ensures emptied <==> |old(table.held)[node]| == 1
      ensures table.held == if emptied then old(table.held) - {node}
              else old(table.held)[node := Without(old(table.held)[node], i)]
    {
      emptied := table.Take(v, node, i);
    }

    /** Takes out a key node that has no values any more. */
    method TakeKey(node: AVLNode)
      requires keys.Valid() && table.Valid() && keys.repr !! {table} + table.foot
      requires node in keys.nodes && table.held.Keys == keys.nodes - {node}
      modifies keys.repr
      ensures Valid() && keys.repr <= old(keys.repr)
      ensures table.held == old(table.held) && table.foot == old(table.foot)
    {
      keys.Take(node);
    }

    /** Takes a key out with all its values, which are destroyed in order.  A lookup that goes both ways finds
        every key. */
    method RemoveKey(key: int) returns (removed: bool, order: seq<ValueNode>)
      requires Valid()
      modifies keys.repr, table
      ensures Valid() && (removed <==> AVLLookup.Get(keys.leftOnly, old(keys.tree.tree), key).Some?)
      ensures !keys.leftOnly ==> (removed <==> key in old(Contents()))
      ensures !removed ==> Contents() == old(Contents())
      ensures removed ==>
                && key in old(Contents()) && order == old(Contents())[key]
                && Contents() == old(Contents()) - {key}
    {
      keys.Absent(table.held, key);
      var node := keys.Look(key);
      if node == null { return false, []; }
      ghost var held := table.held;
      keys.Gone(held, node);
      order := DropKey(node);
      return true, order;
    }

    method DropKey(node: AVLNode) returns (order: seq<ValueNode>)
      requires Valid() && node in table.held
      modifies keys.repr, table
      ensures Valid() && table.held == old(table.held) - {node} && order == old(table.held)[node]
    {
      order := DropValues(node);
      TakeKey(node);
    }

    method DropValues(node: AVLNode) returns (order: seq<ValueNode>)
      requires Valid() && node in table.held
      modifies table
      ensures keys.Valid() && keys.nodes == old(keys.nodes) && keys.repr == old(keys.repr)
      ensures table.Valid() && table.foot == old(table.foot)
      ensures table.held == old(table.held) - {node} && order == old(table.held)[node]
    {
      order := table.Drop(node);
    }

    method Reset()
      requires Valid()
      modifies keys.repr, table
      ensures Valid() && Contents() == map[]
    {
      keys.Reset();
      table.Become(map[], map[], table.foot);
    }
  }
}
