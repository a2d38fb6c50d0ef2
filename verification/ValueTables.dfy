/**
  The value lists of all key nodes of a multi tree, by key node.  In the source they are fields of the
  key nodes.
 */
module ValueTables {
  import opened Collections
  import opened AVLNodes
  import opened ValueLists

  /** `list` belongs to the key node `n` and holds `s`. */
  ghost predicate Holds(list: ValueList, n: AVLNode, s: seq<ValueNode>)
    reads list, Members(s)
  {
    list.owner == n && list.values == s && list.nodes == Members(s) && list.Valid() && s != []
  }

  lemma {:induction false} Owned(list: ValueList, n: AVLNode, s: seq<ValueNode>)
    requires Holds(list, n, s)
    ensures forall v | v in Members(s) :: v.keyNode == n
  {
    forall v | v in Members(s) ensures v.keyNode == n {
      var i :| 0 <= i < |s| && s[i] == v;
      assert Placed(s, i, n);
    }
  }

  /** Every key node has its own list, with the values it should have. */
  ghost predicate Consistent(list: map<AVLNode, ValueList>, held: map<AVLNode, seq<ValueNode>>, foot: set<object>)
    reads foot
  {
    && list.Keys == held.Keys
    && (forall n | n in list :: list[n] in foot && Members(held[n]) <= foot)
    && (forall n | n in list :: Holds(list[n], n, held[n]))
  }

  lemma {:induction false} With(list: map<AVLNode, ValueList>, held: map<AVLNode, seq<ValueNode>>, foot: set<object>,
                                n: AVLNode, l: ValueList, s: seq<ValueNode>)
    requires list.Keys == held.Keys
    requires forall m | m in list && m != n :: list[m] in foot && Members(held[m]) <= foot && Holds(list[m], m, held[m])
    requires Holds(l, n, s)
    ensures Consistent(list[n := l], held[n := s], foot + {l} + Members(s))
  {
    var x, h := list[n := l], held[n := s];
    assert forall m | m in list && m != n :: x[m] == list[m] && h[m] == held[m];
  }

  lemma {:induction false} WithoutKey(list: map<AVLNode, ValueList>, held: map<AVLNode, seq<ValueNode>>,
                                      foot: set<object>, n: AVLNode)
    requires list.Keys == held.Keys
    requires forall m | m in list && m != n :: list[m] in foot && Members(held[m]) <= foot && Holds(list[m], m, held[m])
    ensures Consistent(list - {n}, held - {n}, foot)
  {
  }

  method NewList(n: AVLNode, newNode: ValueNode) returns (l: ValueList)
    modifies newNode
    ensures fresh(l) && Holds(l, n, [newNode]) && newNode.keyNode == n
  {
    l := new ValueList(n);
    l.PushBack(newNode);
  }

  class ValueTable {
    var list: map<AVLNode, ValueList>
    ghost var held: map<AVLNode, seq<ValueNode>>

    /** The lists and the values. */
    ghost var foot: set<object>

    constructor ()
      ensures Valid() && foot == {} && held == map[]
    {
      list, held, foot := map[], map[], {};
    }

    ghost predicate Valid()
      reads this, foot
    {
      this !in foot && Consistent(list, held, foot)
    }

    method Become(l: map<AVLNode, ValueList>, ghost h: map<AVLNode, seq<ValueNode>>, ghost f: set<object>)
      requires this !in f && Consistent(l, h, f)
      modifies this
      ensures Valid() && list == l && held == h && foot == f
    {
      list, held, foot := l, h, f;
    }

    /** Gives a new key node its first value. */
    method Add(n: AVLNode, newNode: ValueNode)
      requires Valid() && n !in held && newNode !in foot
      modifies this, newNode
      ensures Valid() && held == old(held)[n := [newNode]] && newNode.keyNode == n
      ensures newNode in foot && fresh(foot - old(foot) - {newNode})
    {
      var l := NewList(n, newNode);
      With(list, held, foot, n, l, [newNode]);
      Become(list[n := l], held[n := [newNode]], foot + {l} + Members([newNode]));
    }

    /** Links a value at one of the ends of a list. */
    method Push(n: AVLNode, newNode: ValueNode, position: Position)
      requires Valid() && n in held && newNode !in foot && newNode.next == null && newNode.prev == null
      modifies this, foot, newNode
      ensures Valid() && held == old(held)[n := Joined(old(held)[n], newNode, position)] && newNode.keyNode == n
      ensures foot == old(foot) + {newNode}
    {
      var l := list[n];
      Apart(n);
      l.Push(newNode, position);
      With(list, held, foot, n, l, l.values);
      assert foot + {l} + l.nodes == foot + {newNode};
      Become(list[n := l], held[n := l.values], foot + {newNode});
    }

    /** The other lists have nothing in common with that of `n`. */
    lemma {:induction false} Apart(n: AVLNode)
      requires Valid() && n in list
      ensures forall m | m in list && m != n ::
                Holds(list[m], m, held[m]) && list[m] != list[n] && Members(held[m]) !! list[n].nodes
    {
      forall m | m in list && m != n
        ensures Holds(list[m], m, held[m]) && list[m] != list[n] && Members(held[m]) !! list[n].nodes
      {
        Owned(list[n], n, held[n]);
        Owned(list[m], m, held[m]);
      }
    }

    method Put(n: AVLNode, newNode: ValueNode, position: Position)
      requires Valid() && newNode !in foot && newNode.next == null && newNode.prev == null
      modifies this, foot, newNode
      ensures Valid() && newNode.keyNode == n
      ensures var h := old(held); held == h[n := if n in h then Joined(h[n], newNode, position) else [newNode]]
      ensures newNode in foot && fresh(foot - old(foot) - {newNode})
    {
      if n in list {
        Push(n, newNode, position);
      } else {
        Add(n, newNode);
      }
    }

    /** Unlinks a value; a list that becomes empty is given up. */
    method Take(v: ValueNode, n: AVLNode, ghost i: nat) returns (emptied: bool)
      requires Valid() && n in held && i < |held[n]| && held[n][i] == v
      modifies this, foot
      ensures Valid() && foot == old(foot) - {v} && v.keyNode == null && v.next == null && v.prev == null
      ensures emptied <==> |old(held)[n]| == 1
      ensures held == if emptied then old(held) - {n} else old(held)[n := Without(old(held)[n], i)]
    {
      var l := list[n];
      Apart(n);
      assert v in Members(held[n]);
      l.Extract(v, i);
      emptied := l.size == 0;
      if emptied {
        WithoutKey(list, held, foot - {v}, n);
        Become(list - {n}, held - {n}, foot - {v});
      } else {
        With(list, held, foot - {v}, n, l, l.values);
        assert foot - {v} + {l} + l.nodes == foot - {v};
        Become(list[n := l], held[n := l.values], foot - {v});
      }
    }

    /** Destroys the values of a key node and gives up its list. */
    method Drop(n: AVLNode) returns (order: seq<ValueNode>)
      requires Valid() && n in list
      modifies this
      ensures Valid() && foot == old(foot) && held == old(held) - {n} && order == old(held)[n]
    {
      assert Holds(list[n], n, held[n]);
      order := list[n].Destroy();
      WithoutKey(list, held, foot, n);
      Become(list - {n}, held - {n}, foot);
    }
  }
}
