/**
  Walking a multi tree: the iterators over all values, and the order in which `clear` destroys them.
 */
module MultiAVLWalks {
  import opened Collections
  import opened AVLNodes
  import opened AVLShapes
  import opened AVLOrder
  import opened AVLResults
  import opened AVLHeap
  import AVLLookup
  import opened AVLWalks
  import opened ValueLists
  import opened ValueTables
  import opened MultiAVLTrees

  /** The values of some key nodes one after the other. */
  ghost function Flatten(order: seq<AVLNode>, held: map<AVLNode, seq<ValueNode>>): seq<ValueNode>
    requires Members(order) <= held.Keys
  {
    if order == [] then [] else held[order[0]] + Flatten(order[1..], held)
  }

  lemma {:induction false} FlattenAppend(a: seq<AVLNode>, b: seq<AVLNode>, held: map<AVLNode, seq<ValueNode>>)
    requires Members(a + b) <= held.Keys
    ensures Members(a) <= held.Keys && Members(b) <= held.Keys
    ensures Flatten(a + b, held) == Flatten(a, held) + Flatten(b, held)
  {
    MembersAppend(a, b);
    if a == [] {
      assert a + b == b;
    } else {
      assert (a + b)[1..] == a[1..] + b;
      FlattenAppend(a[1..], b, held);
    }
  }

  lemma {:induction false} MembersAppend<T>(a: seq<T>, b: seq<T>)
    ensures Members(a + b) == Members(a) + Members(b)
  {
  }

  lemma {:induction false} FlattenParts(a: seq<AVLNode>, n: AVLNode, b: seq<AVLNode>,
                                        held: map<AVLNode, seq<ValueNode>>)
    requires Members(a + [n] + b) <= held.Keys
    ensures n in held && Members(a) <= held.Keys && Members(b) <= held.Keys
    ensures Flatten(a + [n] + b, held) == Flatten(a, held) + held[n] + Flatten(b, held)
  {
    FlattenAppend(a + [n], b, held);
    FlattenAppend(a, [n], held);
    assert n in [n];
    assert Flatten([n], held) == held[n] + [];
  }

  lemma {:induction false} FlattenLast(a: seq<AVLNode>, n: AVLNode, held: map<AVLNode, seq<ValueNode>>)
    requires Members(a + [n]) <= held.Keys
    ensures n in held && Members(a) <= held.Keys && Flatten(a + [n], held) == Flatten(a, held) + held[n]
  {
    assert a + [n] + [] == a + [n];
    FlattenParts(a, n, [], held);
  }

  /** The key node of the value at position `i`, and the position of the value there. */
  lemma {:induction false} Located(order: seq<AVLNode>, held: map<AVLNode, seq<ValueNode>>, i: nat)
    returns (a: seq<AVLNode>, n: AVLNode, b: seq<AVLNode>, j: nat)
    requires Members(order) <= held.Keys && i < |Flatten(order, held)|
    ensures order == a + [n] + b && n in held && Members(a) <= held.Keys && Members(b) <= held.Keys
    ensures i == |Flatten(a, held)| + j && j < |held[n]| && Flatten(order, held)[i] == held[n][j]
    decreases |order|
  {
    n := order[0];
    assert n in order;
    if i < |held[n]| {
      a, b, j := [], order[1..], i;
    } else {
      a, n, b, j := Located(order[1..], held, i - |held[n]|);
      a := [order[0]] + a;
      assert a[1..] + [n] + b == order[1..];
    }
    assert order == a + [n] + b;
    FlattenParts(a, n, b, held);
  }

  /** All values, key by key. */
  ghost function All(m: MultiAVLTree): seq<ValueNode>
    requires m.Valid()
    reads m.keys, m.keys.repr, m.table, m.table.foot
  {
    NodesInorder(m.keys.tree.tree);
    Flatten(Inorder(m.keys.tree.tree), m.table.held)
  }

  /** Two places in the sequences of some key nodes, the first one in front of the second. */
  ghost predicate InFrontOf(held: map<AVLNode, seq<ValueNode>>, n: AVLNode, p: nat, o: AVLNode, q: nat) {
    && n in held && p < |held[n]| && o in held && q < |held[o]|
    && (n.key < o.key || (n == o && p < q))
  }

  lemma {:induction false} FlattenSorted(order: seq<AVLNode>, held: map<AVLNode, seq<ValueNode>>, i: nat, j: nat)
    returns (n: AVLNode, p: nat, o: AVLNode, q: nat)
    requires Members(order) <= held.Keys && Sorted(order) && i < j < |Flatten(order, held)|
    ensures n in order && o in order && InFrontOf(held, n, p, o, q)
    ensures Flatten(order, held)[i] == held[n][p] && Flatten(order, held)[j] == held[o][q]
    decreases |order|
  {
    assert order[0] in order;
    var first, rest := held[order[0]], order[1..];
    if j < |first| {
      n, p, o, q := order[0], i, order[0], j;
    } else if i < |first| {
      var a, b;
      a, o, b, q := Located(rest, held, j - |first|);
      assert order[|a| + 1] == o;
      n, p := order[0], i;
    } else {
      n, p, o, q := FlattenSorted(rest, held, i - |first|, j - |first|);
    }
  }

  /** All values come in the order of their keys, and those of one key in their own order. */
  lemma {:induction false} AllSorted(m: MultiAVLTree, i: nat, j: nat) returns (k: int, p: nat, l: int, q: nat)
    requires m.Valid() && i < j < |All(m)|
    ensures k in m.Contents() && p < |m.Contents()[k]| && All(m)[i] == m.Contents()[k][p]
    ensures l in m.Contents() && q < |m.Contents()[l]| && All(m)[j] == m.Contents()[l][q]
    ensures k < l || (k == l && p < q)
  {
    var n, o;
    NodesInorder(m.keys.tree.tree);
    n, p, o, q := FlattenSorted(Inorder(m.keys.tree.tree), m.table.held, i, j);
    m.keys.Differ();
    ByKeyAt(m.table.held, n);
    ByKeyAt(m.table.held, o);
    k, l := n.key, o.key;
  }

  /** Every value of every key is among them. */
  lemma {:induction false} AllThere(m: MultiAVLTree, k: int, p: nat) returns (i: nat)
    requires m.Valid() && k in m.Contents() && p < |m.Contents()[k]|
    ensures i < |All(m)| && All(m)[i] == m.Contents()[k][p]
  {
    var n := NodeOf(m.table.held.Keys, k);
    m.keys.Differ();
    ByKeyAt(m.table.held, n);
    NodesInorder(m.keys.tree.tree);
    i := FlattenThere(Inorder(m.keys.tree.tree), m.table.held, n, p);
  }

  lemma {:induction false} FlattenThere(order: seq<AVLNode>, held: map<AVLNode, seq<ValueNode>>, n: AVLNode, p: nat)
    returns (i: nat)
    requires Members(order) <= held.Keys && n in order && p < |held[n]|
    ensures i < |Flatten(order, held)| && Flatten(order, held)[i] == held[n][p]
    decreases |order|
  {
    assert order[0] in order;
    if order[0] == n {
      i := p;
    } else {
      i := FlattenThere(order[1..], held, n, p);
      i := i + |held[order[0]]|;
    }
  }

  lemma {:induction false} SameSplit(a: seq<AVLNode>, n: AVLNode, b: seq<AVLNode>, c: seq<AVLNode>, d: seq<AVLNode>)
    requires a + [n] + b == c + [n] + d && Sorted(a + [n] + b)
    ensures a == c && b == d
  {
    var s := a + [n] + b;
    assert s[|a|] == n && s[|c|] == n;
    assert |a| == |c|;
    assert a == s[..|a|] && c == s[..|c|] && b == s[|a| + 1..] && d == s[|c| + 1..];
  }

  /** The place of a node among the key nodes. */
  lemma {:induction false} PlaceOf(keys: KeyTree, a: seq<AVLNode>, n: AVLNode, b: seq<AVLNode>) returns (p: Place)
    requires keys.Valid() && Inorder(keys.tree.tree) == a + [n] + b
    ensures p.tree.Fork? && p.tree.node == n && Focused(p.path, p.tree, keys.tree.root)
    ensures InFront(p) == a && Behind(p) == b
  {
    var t := keys.tree.tree;
    NodesInorder(t);
    assert n in a + [n] + b;
    NodePlace(t, n);
    FindIsInside(Top, t, n.key);
    p := Find(Top, t, n.key);
    FocusExact(p.path, p.tree, keys.tree.root);
    WholeBehind(p);
    SameSplit(a, n, b, InFront(p), Behind(p));
  }

  /** The list of the key node of a value. */
  lemma {:induction false} Around(m: MultiAVLTree, i: nat)
    returns (a: seq<AVLNode>, n: AVLNode, b: seq<AVLNode>, j: nat)
    requires m.Valid() && i < |All(m)|
    ensures Inorder(m.keys.tree.tree) == a + [n] + b && n in m.table.held && Members(a) <= m.table.held.Keys
            && Members(b) <= m.table.held.Keys
    ensures var s := m.table.held[n];
            && All(m) == Flatten(a, m.table.held) + s + Flatten(b, m.table.held)
            && i == |Flatten(a, m.table.held)| + j && j < |s| && s[j] == All(m)[i]
            && s[j].keyNode == n && s[j].next == At(s, j + 1) && s[j].prev == At(s, j - 1)
  {
    NodesInorder(m.keys.tree.tree);
    a, n, b, j := Located(Inorder(m.keys.tree.tree), m.table.held, i);
    FlattenParts(a, n, b, m.table.held);
    assert Holds(m.table.list[n], n, m.table.held[n]);
    assert Placed(m.table.held[n], j, n);
  }

  lemma {:induction false} FirstOf(m: MultiAVLTree, n: AVLNode)
    requires m.Valid() && n in m.table.held
    ensures n in m.table.list && m.table.held[n] != [] && m.table.list[n].Valid()
            && m.table.list[n].values == m.table.held[n]
    ensures m.table.list[n].first == m.table.held[n][0]
            && m.table.list[n].last == m.table.held[n][|m.table.held[n]| - 1]
  {
    assert Holds(m.table.list[n], n, m.table.held[n]);
  }

  /** `++`: the next value of the key, or the first one of the next key. */
  method Next(m: MultiAVLTree, v: ValueNode, ghost i: nat) returns (next: ValueNode?)
    requires m.Valid() && i < |All(m)| && All(m)[i] == v
    ensures next == At(All(m), i + 1)
  {
    ghost var a, n, b, j := Around(m, i);
    if v.next != null {
      return v.next;
    }
    ghost var p := PlaceOf(m.keys, a, n, b);
    var keyNode;
    keyNode, p := AVLWalks.Next(v.keyNode, m.keys.tree.root, p);
    if keyNode == null {
      return null;
    }
    FlattenAppend([keyNode], Behind(p), m.table.held);
    FirstOf(m, keyNode);
    return m.table.list[keyNode].first;
  }

  /** The reverse iterator's `++`: the previous value of the key, or the last one of the previous key. */
  method Previous(m: MultiAVLTree, v: ValueNode, ghost i: nat) returns (previous: ValueNode?)
    requires m.Valid() && i < |All(m)| && All(m)[i] == v
    ensures previous == At(All(m), i - 1)
  {
    ghost var a, n, b, j := Around(m, i);
    if v.prev != null {
      return v.prev;
    }
    ghost var p := PlaceOf(m.keys, a, n, b);
    var keyNode;
    keyNode, p := AVLWalks.Previous(v.keyNode, m.keys.tree.root, p);
    if keyNode == null {
      return null;
    }
    FlattenLast(InFront(p), keyNode, m.table.held);
    FirstOf(m, keyNode);
    return m.table.list[keyNode].last;
  }

  /** The const reverse iterator's `++` goes on at the first value of the next key when it has reached the
      first value of a key. */
  method ConstPrevious(m: MultiAVLTree, v: ValueNode, ghost i: nat) returns (previous: ValueNode?)
    requires m.Valid() && i < |All(m)| && All(m)[i] == v
    ensures v.keyNode in m.table.held
    ensures previous == At(All(m), if v == m.table.held[v.keyNode][0] then i + |m.table.held[v.keyNode]| else i - 1)
  {
    ghost var a, n, b, j := Around(m, i);
    FirstOf(m, n);
    assert Holds(m.table.list[n], n, m.table.held[n]);
    assert j > 0 ==> Differ(m.table.held[n], 0, j);
    if v.prev != null {
      return v.prev;
    }
    ghost var p := PlaceOf(m.keys, a, n, b);
    var keyNode;
    keyNode, p := AVLWalks.Next(v.keyNode, m.keys.tree.root, p);
    if keyNode == null {
      return null;
    }
    FlattenAppend([keyNode], Behind(p), m.table.held);
    FirstOf(m, keyNode);
    return m.table.list[keyNode].first;
  }

  method Begin(m: MultiAVLTree) returns (first: ValueNode?)
    requires m.Valid()
    ensures first == At(All(m), 0)
  {
    ghost var t := m.keys.tree.tree;
    NodesInorder(t);
    if m.keys.tree.root == null {
      return null;
    }
    FocusExact(Top, t, m.keys.tree.root);
    var keyNode;
    ghost var p;
    keyNode, p := AVLWalks.Begin(m.keys.tree.root, m.keys.tree.root, Top, t);
    FirstValue(m, keyNode, Behind(p));
    return m.table.list[keyNode].first;
  }

  /** The first value is the first one of the first key, and likewise at the other end. */
  lemma {:induction false} FirstValue(m: MultiAVLTree, n: AVLNode, b: seq<AVLNode>)
    requires m.Valid() && Inorder(m.keys.tree.tree) == [n] + b
    ensures n in m.table.list && At(All(m), 0) == m.table.list[n].first
  {
    NodesInorder(m.keys.tree.tree);
    FlattenAppend([n], b, m.table.held);
    assert n in [n] + b;
    FirstOf(m, n);
  }

  lemma {:induction false} LastValue(m: MultiAVLTree, a: seq<AVLNode>, n: AVLNode)
    requires m.Valid() && Inorder(m.keys.tree.tree) == a + [n]
    ensures n in m.table.list && At(All(m), |All(m)| - 1) == m.table.list[n].last
  {
    NodesInorder(m.keys.tree.tree);
    FlattenLast(a, n, m.table.held);
    FirstOf(m, n);
  }

  method ReverseBegin(m: MultiAVLTree) returns (last: ValueNode?)
    requires m.Valid()
    ensures last == At(All(m), |All(m)| - 1)
  {
    ghost var t := m.keys.tree.tree;
    NodesInorder(t);
    if m.keys.tree.root == null {
      return null;
    }
    FocusExact(Top, t, m.keys.tree.root);
    var keyNode;
    ghost var p;
    keyNode, p := AVLWalks.Last(m.keys.tree.root, m.keys.tree.root, Top, t);
    assert Before(Top) + Inorder(t) == Inorder(t);
    LastValue(m, InFront(p), keyNode);
    return m.table.list[keyNode].last;
  }

  /** `find` and `findLast`: an end of the sequence of a key. */
  method FindEnd(m: MultiAVLTree, key: int, last: bool) returns (v: ValueNode?)
    requires m.Valid()
    ensures !m.keys.leftOnly ==> (v == null <==> key !in m.Contents())
    ensures if AVLLookup.Get(m.keys.leftOnly, m.keys.tree.tree, key).None? then v == null
            else key in m.Contents() && v == At(m.Contents()[key], if last then |m.Contents()[key]| - 1 else 0)
  {
    m.keys.Absent(m.table.held, key);
    var node := m.keys.Look(key);
    if node == null {
      return null;
    }
    m.keys.Gone(m.table.held, node);
    FirstOf(m, node);
    return if last then m.table.list[node].last else m.table.list[node].first;
  }

  // ----------------------------------------------------------------------------------------- clear

  lemma {:induction false} PostorderMembers(t: Tree)
    ensures Members(Postorder(t)) == Nodes(t)
    decreases t
  {
    if t.Fork? {
      PostorderMembers(t.left);
      PostorderMembers(t.right);
      MembersAppend(Postorder(t.left), Postorder(t.right));
      MembersAppend(Postorder(t.left) + Postorder(t.right), [t.node]);
    }
  }

  /** The values of a tree in postorder of the keys are the same as in order, each as often. */
  lemma {:induction false} SameValues(t: Tree, held: map<AVLNode, seq<ValueNode>>)
    requires Nodes(t) <= held.Keys
    ensures Members(Postorder(t)) <= held.Keys && Members(Inorder(t)) <= held.Keys
    ensures multiset(Flatten(Postorder(t), held)) == multiset(Flatten(Inorder(t), held))
    decreases t
  {
    PostorderMembers(t);
    NodesInorder(t);
    if t.Fork? {
      SameValues(t.left, held);
      SameValues(t.right, held);
      FlattenParts(Inorder(t.left), t.node, Inorder(t.right), held);
      var q := Postorder(t.left) + Postorder(t.right);
      assert q + [t.node] + [] == Postorder(t);
      FlattenParts(q, t.node, [], held);
      FlattenAppend(Postorder(t.left), Postorder(t.right), held);
    }
  }

  /** Another key node is destroyed, and its values with it. */
  lemma {:induction false} OneMore(done: seq<AVLNode>, n: AVLNode, rest: seq<AVLNode>,
                                   held: map<AVLNode, seq<ValueNode>>)
    requires Members(done + ([n] + rest)) <= held.Keys
    ensures n in held && Members(done) <= held.Keys && Members(done + [n]) <= held.Keys
    ensures Flatten(done + [n], held) == Flatten(done, held) + held[n]
  {
    assert done + ([n] + rest) == done + [n] + rest;
    FlattenAppend(done + [n], rest, held);
    FlattenLast(done, n, held);
  }

  /** The walk over the key nodes of `t` has destroyed those in `done` and has come to `node`. */
  ghost predicate Clearing(t: Tree, root: AVLNode?, node: AVLNode?, p: Place, done: seq<AVLNode>)
    reads PathNodes(p.path), Nodes(p.tree)
  {
    if node == null then done == ClearOrder(t)
    else
      && p.tree.Fork? && node == p.tree.node && Focused(p.path, p.tree, root)
      && Members(done) !! {node} + Ahead(p.path)
      && done + ([node] + ClearAfter(p.path)) == ClearOrder(t)
  }

  method FirstKey(root: AVLNode, ghost t: Tree) returns (node: AVLNode, ghost p: Place)
    requires Linked(t, root, null)
    ensures Clearing(t, root, node, p, [])
  {
    FocusExact(Top, t, root);
    ClearFromStart(Top, t);
    node, p := FirstToClear(root, root, Top, t, {});
    assert ClearOrder(t) + [] == ClearOrder(t);
    assert [] + ([node] + ClearAfter(p.path)) == ClearOrder(t);
  }

  /** The step to the next key node, and then the destruction of the values of the last one. */
  method NextKey(last: AVLNode, list: ValueList, ghost t: Tree, ghost root: AVLNode?, ghost p0: Place,
                 ghost done: seq<AVLNode>)
    returns (node: AVLNode?, ghost p: Place, values: seq<ValueNode>)
    requires Clearing(t, root, last, p0, done) && list.Valid()
    ensures Clearing(t, root, node, p, done + [last]) && values == list.values
  {
    node, p := NextToClear(last, root, p0, Members(done));
    NodesAllocated(p.tree);
    PathAllocated(p.path);
    values := list.Destroy();
    assert done + ([last] + ClearAfter(p0.path)) == (done + [last]) + ClearAfter(p0.path);
    MembersAppend(done, [last]);
  }

  /** The values in the order of their destruction.  No pointer of a destroyed key node is read. */
  method DestroyAll(m: MultiAVLTree) returns (order: seq<ValueNode>)
    requires m.Valid()
    ensures Members(ClearOrder(m.keys.tree.tree)) <= m.table.held.Keys
    ensures order == Flatten(ClearOrder(m.keys.tree.tree), m.table.held)
  {
    ghost var t, root, held := m.keys.tree.tree, m.keys.tree.root, m.table.held;
    ClearInside(t);
    order := [];
    if m.keys.tree.root == null { return; }
    ghost var done: seq<AVLNode> := [];
    ghost var p;
    var node: AVLNode?;
    node, p := FirstKey(m.keys.tree.root, t);
    while node != null
      invariant Clearing(t, root, node, p, done)
      invariant Members(done) <= held.Keys && order == Flatten(done, held)
      decreases |ClearOrder(t)| - |done|, node != null
    {
      var last: AVLNode := node;
      OneMore(done, last, ClearAfter(p.path), held);
      FirstOf(m, last);
      var values;
      node, p, values := NextKey(last, m.table.list[last], t, root, p, done);
      order := order + values;
      done := done + [last];
    }
  }

  /** `clear`: every value is destroyed once, key by key. */
  method Clear(m: MultiAVLTree) returns (order: seq<ValueNode>)
    requires m.Valid()
    modifies m.keys.repr, m.table
    ensures m.Valid() && m.Contents() == map[]
    ensures multiset(order) == multiset(old(All(m)))
    ensures Members(ClearOrder(old(m.keys.tree.tree))) <= old(m.table.held).Keys
    ensures order == Flatten(ClearOrder(old(m.keys.tree.tree)), old(m.table.held))
  {
    order := DestroyAll(m);
    BalancedClears(m.keys.tree.tree);
    SameValues(m.keys.tree.tree, m.table.held);
    m.Reset();
  }
}
