/**
  The values below one key of a multi tree: a doubly linked list whose ends the key node holds
  (libbinom/source/binom_impl/multi_avl_tree.cxx).
 */
module ValueLists {
  import opened Collections
  import opened AVLNodes

  class ValueNode {
    var keyNode: AVLNode?
    var next: ValueNode?
    var prev: ValueNode?

    constructor ()
      ensures keyNode == null && next == null && prev == null
    {
      keyNode, next, prev := null, null, null;
    }
  }

  /** What a pointer to position `i` is. */
  function At(values: seq<ValueNode>, i: int): (v: ValueNode?)
    ensures v == null <==> i < 0 || i >= |values|
  {
    if 0 <= i < |values| then values[i] else null
  }

  /** The value at position `i` knows its key node and its neighbours. */
  ghost predicate Placed(values: seq<ValueNode>, i: nat, owner: AVLNode)
    requires i < |values|
    reads Members(values)
  {
    values[i].keyNode == owner && values[i].next == At(values, i + 1) && values[i].prev == At(values, i - 1)
  }

  predicate Differ(values: seq<ValueNode>, i: nat, j: nat)
    requires i < |values| && j < |values|
  {
    values[i] != values[j]
  }

  predicate AllDiffer(values: seq<ValueNode>) {
    forall i, j | 0 <= i < j < |values| :: Differ(values, i, j)
  }

  ghost predicate Chained(values: seq<ValueNode>, owner: AVLNode)
    reads Members(values)
  {
    AllDiffer(values) && forall i | 0 <= i < |values| :: Placed(values, i, owner)
  }

  function Without<T>(s: seq<T>, i: nat): seq<T>
    requires i < |s|
  {
    s[..i] + s[i + 1..]
  }

  lemma {:induction false} MembersWithout(s: seq<ValueNode>, i: nat)
    requires AllDiffer(s) && i < |s|
    ensures Members(Without(s, i)) == Members(s) - {s[i]}
  {
    var w := Without(s, i);
    forall v | v in Members(s) - {s[i]} ensures v in w {
      var j :| 0 <= j < |s| && s[j] == v;
      assert v == w[if j < i then j else j - 1];
    }
    forall j | 0 <= j < |w| ensures w[j] in Members(s) - {s[i]} {
      if j < i {
        assert Differ(s, j, i);
      } else {
        assert Differ(s, i, j + 1);
      }
    }
  }

  lemma {:induction false} AtWithout(s: seq<ValueNode>, i: nat, j: int)
    requires i < |s|
    ensures At(Without(s, i), j) == At(s, if j < i then j else j + 1)
  {
  }

  /** The value at position `j` points past position `i`. */
  ghost predicate PlacedPast(values: seq<ValueNode>, i: nat, j: nat, owner: AVLNode)
    requires j < |values|
    reads Members(values)
  {
    && values[j].keyNode == owner
    && values[j].next == At(values, if j + 1 == i then i + 1 else j + 1)
    && values[j].prev == At(values, if j == i + 1 then i - 1 else j - 1)
  }

  lemma {:induction false} Unlinked(values: seq<ValueNode>, i: nat, owner: AVLNode)
    requires i < |values| && AllDiffer(values)
    requires forall j | 0 <= j < |values| && j != i :: PlacedPast(values, i, j, owner)
    ensures Chained(Without(values, i), owner)
  {
    var w := Without(values, i);
    assert forall j | 0 <= j < |w| :: w[j] == values[if j < i then j else j + 1];
    forall j, k | 0 <= j < k < |w| ensures Differ(w, j, k) {
      assert Differ(values, if j < i then j else j + 1, if k < i then k else k + 1);
    }
    forall j | 0 <= j < |w| ensures Placed(w, j, owner) {
      AtWithout(values, i, j - 1);
      AtWithout(values, i, j + 1);
      assert PlacedPast(values, i, if j < i then j else j + 1, owner);
    }
  }

  datatype Position = Front | Back

  /** The values of a key with a new one. */
  function Joined(s: seq<ValueNode>, v: ValueNode, position: Position): seq<ValueNode> {
    if position == Front then [v] + s else s + [v]
  }

  /** The list fields of the key node `owner`. */
  class ValueList {
    const owner: AVLNode
    var size: nat
    var first: ValueNode?
    var last: ValueNode?
    ghost var values: seq<ValueNode>
    ghost var nodes: set<ValueNode>

    constructor (owner: AVLNode)
      ensures Valid() && this.owner == owner && values == []
    {
      this.owner := owner;
      size, first, last := 0, null, null;
      values, nodes := [], {};
    }

    ghost predicate Valid()
      reads this, nodes
    {
      nodes == Members(values) && size == |values| && first == At(values, 0) && last == At(values, |values| - 1)
          && Chained(values, owner)
    }

    /** A node that is linked behind others must not point on. */
    method PushBack(node: ValueNode)
      requires Valid() && node !in nodes && (values != [] ==> node.next == null)
      modifies this, nodes, node
      ensures Valid() && values == old(values) + [node] && nodes == old(nodes) + {node} && node.keyNode == owner
    {
      node.keyNode := owner;
      if first == null {
        first, last := node, node;
        node.next, node.prev := null, null;
      } else {
        node.prev := last;
        last.next := node;
        last := node;
      }
      size := size + 1;
      values, nodes := values + [node], nodes + {node};
      forall i | 0 <= i < |values| ensures Placed(values, i, owner) {
        assert i < |old(values)| ==> old(Placed(values, i, owner));
        assert i < |old(values)| - 1 ==> Differ(old(values), i, |old(values)| - 1);
      }
      forall i, j | 0 <= i < j < |values| ensures Differ(values, i, j) {
        assert j < |old(values)| ==> Differ(old(values), i, j);
        assert values[i] in old(nodes);
      }
    }

    method PushFront(node: ValueNode)
      requires Valid() && node !in nodes && (values != [] ==> node.prev == null)
      modifies this, nodes, node
      ensures Valid() && values == [node] + old(values) && nodes == old(nodes) + {node} && node.keyNode == owner
    {
      node.keyNode := owner;
      if first == null {
        first, last := node, node;
        node.next, node.prev := null, null;
      } else {
        node.next := first;
        first.prev := node;
        first := node;
      }
      size := size + 1;
      values, nodes := [node] + values, nodes + {node};
      forall i | 0 <= i < |values| ensures Placed(values, i, owner) {
        assert i > 0 ==> old(Placed(values, i - 1, owner));
        assert i > 1 ==> Differ(old(values), 0, i - 1);
      }
      forall i, j | 0 <= i < j < |values| ensures Differ(values, i, j) {
        assert i > 0 ==> Differ(old(values), i - 1, j - 1);
        assert values[j] in old(nodes);
      }
    }

    method Push(node: ValueNode, position: Position)
      requires Valid() && node !in nodes && node.next == null && node.prev == null
      modifies this, nodes, node
      ensures Valid() && values == Joined(old(values), node, position)
      ensures position == Front ==> values == [node] + old(values)
      ensures position == Back ==> values == old(values) + [node]
      ensures nodes == old(nodes) + {node} && node.keyNode == owner
    {
      match position
      case Front => PushFront(node);
      case Back => PushBack(node);
    }

    /** Unlinks the value at position `i`. */
    method Extract(node: ValueNode, ghost i: nat)
      requires Valid() && i < |values| && values[i] == node
      modifies this, nodes
      ensures Valid() && values == Without(old(values), i) && nodes == old(nodes) - {node}
      ensures values == old(values)[..i] + old(values)[i + 1..]
      ensures node.keyNode == null && node.next == null && node.prev == null
    {
      assert Placed(values, i, owner);
      if node.next != null {
        node.next.prev := node.prev;
      } else if node == last {
        last := node.prev;
      }
      if node.prev != null {
        node.prev.next := node.next;
      } else if node == first {
        first := node.next;
      }
      node.keyNode := null;
      node.next := null;
      node.prev := null;
      size := size - 1;
      forall j | 0 <= j < |values| && j != i ensures PlacedPast(values, i, j, owner) {
        assert old(Placed(values, j, owner));
        assert if j < i then Differ(values, j, i) else Differ(values, i, j);
        assert j < i - 1 ==> Differ(values, j, i - 1);
        assert i + 1 < j ==> Differ(values, i + 1, j);
        assert j < i && i + 1 < |values| ==> Differ(values, j, i + 1);
        assert i < j && i > 0 ==> Differ(values, i - 1, j);
      }
      AtWithout(values, i, 0);
      AtWithout(values, i, |values| - 2);
      ghost var was := values;
      values, nodes := Without(values, i), nodes - {node};
      MembersWithout(was, i);
      Unlinked(was, i, owner);
    }

    /** Calls the destructor on every value, reading its successor first. */
    method Destroy() returns (order: seq<ValueNode>)
      requires Valid()
      ensures order == values
    {
      order := [];
      var it := first;
      while it != null
        invariant |order| <= |values| && order == values[..|order|] && it == At(values, |order|)
        decreases |values| - |order|
      {
        var node := it;
        assert Placed(values, |order|, owner);
        it := it.next;
        order := order + [node];
      }
    }
  }
}
