/**
  Which queries the rescan flattens correctly: a syntactic condition on the nested query, kept by
  every good step and refuted as soon as one bad step is due.
 */
module QuerySafe {
  import opened Collections
  import opened Query
  import opened QueryTerms
  import opened QueryShape
  import opened QueryRewrite
  import opened QueryWritten

  // ----------------------------------------------------------------------------- the condition

  function NodeCount(l: seq<Expr>): nat {
    if l == [] then 0
    else (if l[0].Sub? then 1 + NodeCount(l[0].items) else 1) + NodeCount(l[1..])
  }

  lemma {:induction false} NodeCountAppend(a: seq<Expr>, b: seq<Expr>)
    ensures NodeCount(a + b) == NodeCount(a) + NodeCount(b)
  {
    if a == [] {
      assert a + b == b;
    } else {
      assert (a + b)[1..] == a[1..] + b;
      NodeCountAppend(a[1..], b);
    }
  }

  lemma {:induction false} NodeCountSplit(l: seq<Expr>, n: nat)
    requires n <= |l|
    ensures NodeCount(l) == NodeCount(l[..n]) + NodeCount(l[n..])
    ensures n > 0 ==> NodeCount(l[..n]) > 0
  {
    assert l == l[..n] + l[n..];
    NodeCountAppend(l[..n], l[n..]);
  }

  /** Every AND-block before the last one ends in a plain condition; in the last one, a
      subexpression with something to its right has a single AND-block, and the rule holds again
      for what the last subexpression and the spliced blocks consist of. */
  predicate Safe(l: seq<Expr>)
    decreases NodeCount(l)
  {
    if l == [] then true
    else
      var n := BlockEnd(l);
      NodeCountSplit(l, n);
      if n < |l| then l[n - 1].Atom? && Safe(l[n..])
      else if l[0].Atom? then Safe(l[1..])
      else if |l| == 1 then Safe(l[0].items)
      else
        NodeCountAppend(l[0].items, l[1..]);
        SingleBlock(l[0].items) && Safe(l[0].items + l[1..])
  }

  lemma {:induction false} FlatIsSafe(l: seq<Expr>)
    requires Flat(l)
    ensures Safe(l)
    decreases NodeCount(l)
  {
    if l != [] {
      var n := BlockEnd(l);
      NodeCountSplit(l, n);
      assert Flat(l[n..]) && Flat(l[1..]);
      if n < |l| {
        FlatIsSafe(l[n..]);
      } else {
        FlatIsSafe(l[1..]);
      }
    }
  }

  lemma {:induction false} SafeBlock(b: seq<Expr>, rest: seq<Expr>)
    requires IsBlock(b) && b[|b| - 1].rel == OR && rest != []
    ensures Safe(b + rest) == (b[|b| - 1].Atom? && Safe(rest))
  {
    BlockEndOf(b, rest);
  }

  lemma {:induction false} SafeStrip(p: seq<Expr>, rest: seq<Expr>)
    requires Flat(p) && p + rest != [] && IsBlock(p + rest)
    ensures Safe(p + rest) == Safe(rest)
    decreases |p|
  {
    if p == [] {
      assert p + rest == rest;
    } else {
      BlockEndOf(p + rest, []);
      assert p + rest + [] == p + rest;
      assert (p + rest)[0] == p[0];
      assert (p + rest)[1..] == p[1..] + rest;
      if p[1..] + rest != [] {
        assert forall i | 0 <= i < |p[1..] + rest| - 1 :: (p[1..] + rest)[i] == (p + rest)[i + 1];
        SafeStrip(p[1..], rest);
      } else {
        assert rest == [];
      }
    }
  }

  lemma {:induction false} SafeCopiesThen(prefix: seq<Expr>, items: seq<Expr>, suffix: seq<Expr>, rest: seq<Expr>)
    requires items != [] && AllAnd(prefix)
    requires IsBlock(suffix) && suffix[|suffix| - 1].rel == OR && rest != []
    ensures Safe(Copies(prefix, items, suffix) + rest) == (suffix[|suffix| - 1].Atom? && Safe(rest))
    decreases |items|
  {
    var n := BlockEnd(items);
    FirstBlock(items);
    var c, more := Copy(prefix, items[..n], suffix), Copies(prefix, items[n..], suffix);
    CopyIsBlock(prefix, items[..n], suffix, OR);
    assert c[|c| - 1] == suffix[|suffix| - 1];
    assert Copies(prefix, items, suffix) + rest == c + (more + rest);
    SafeBlock(c, more + rest);
    if n < |items| {
      SafeCopiesThen(prefix, items[n..], suffix, rest);
    } else {
      assert more + rest == rest;
    }
  }

  lemma {:induction false} SafeLastCopies(prefix: seq<Expr>, items: seq<Expr>)
    requires items != [] && Flat(prefix) && AllAnd(prefix)
    ensures Safe(Copies(prefix, items, [])) == Safe(items)
    decreases |items|
  {
    var n := BlockEnd(items);
    FirstBlock(items);
    var c, more := Copy(prefix, items[..n], []), Copies(prefix, items[n..], []);
    CopyIsBlock(prefix, items[..n], [], OR);
    assert c == prefix + items[..n];
    if n < |items| {
      assert c[|c| - 1] == items[n - 1];
      SafeLastCopies(prefix, items[n..]);
      assert more != [] by {
        assert Copy(prefix, items[n..][..BlockEnd(items[n..])], []) != [];
      }
      SafeBlock(c, more);
    } else {
      assert items[..n] == items && c + more == c;
      SafeStrip(prefix, items);
    }
  }

  lemma {:induction false} SingleCopy(prefix: seq<Expr>, items: seq<Expr>, suffix: seq<Expr>)
    requires items != [] && SingleBlock(items) && Closed(items)
    ensures Copies(prefix, items, suffix) == prefix + (items + suffix)
  {
    assert items[..|items|] == items;
    assert items[|items| - 1 := items[|items| - 1].(rel := AND)] == items;
    assert Copies(prefix, items[|items|..], suffix) == [];
  }

  lemma {:induction false} SafeFront(front: seq<Expr>, l: seq<Expr>)
    requires IsFront(front) && l != []
    ensures Safe(front + l) == Safe(l)
    decreases |front|
  {
    if front == [] {
      assert front + l == l;
    } else {
      var b, more := TakeFront(front);
      SafeFront(more, l);
      Regroup(b, more, l);
      SafeBlock(b, more + l);
      assert b[|b| - 1] in b;
    }
  }

  /** The first block has blocks behind it: safe when it ends in a plain condition. */
  lemma {:induction false} SafeMiddle(P: seq<Expr>, e: Expr, Q: seq<Expr>, rest: seq<Expr>)
    requires IsSplit(P, e, Q, rest) && rest != []
    ensures Safe((P + ([e] + Q)) + rest) == (Q != [] && Q[|Q| - 1].Atom? && Safe(rest))
    ensures Q != [] ==> Safe(Copies(P, e.items, Q) + rest) == (Q[|Q| - 1].Atom? && Safe(rest))
  {
    SplitShape(P, e, Q, rest);
    SafeBlock(P + ([e] + Q), rest);
    if Q != [] {
      SuffixIsBlock(e, Q);
      SafeCopiesThen(P, e.items, Q, rest);
    }
  }

  lemma {:induction false} SafeLastBlock(t: seq<Expr>)
    requires IsBlock(t) && t[0].Sub?
    ensures Safe(t) == if |t| == 1 then Safe(t[0].items) else SingleBlock(t[0].items) && Safe(t[0].items + t[1..])
  {
    BlockEndOf(t, []);
    assert t + [] == t;
  }

  /** The first block is the last one. */
  lemma {:induction false} SafeLast(P: seq<Expr>, e: Expr, Q: seq<Expr>)
    requires IsSplit(P, e, Q, []) && ClosingRel(e, Q) == AND
    ensures Safe(P + ([e] + Q)) == if Q == [] then Safe(e.items) else SingleBlock(e.items) && Safe(e.items + Q)
    ensures Q == [] ==> Safe(Copies(P, e.items, Q)) == Safe(e.items)
    ensures Q != [] && SingleBlock(e.items) ==> Safe(Copies(P, e.items, Q)) == Safe(e.items + Q)
  {
    var t := [e] + Q;
    SplitShape(P, e, Q, []);
    SafeStrip(P, t);
    SafeLastBlock(t);
    if Q == [] {
      SafeLastCopies(P, e.items);
    } else {
      assert t[1..] == Q;
      SuffixIsBlock(e, Q);
      if SingleBlock(e.items) {
        SingleCopy(P, e.items, Q);
        SplicedIsBlock(P, e.items, Q);
        SafeStrip(P, e.items + Q);
      }
    }
  }

  lemma {:induction false} SplicedIsBlock(prefix: seq<Expr>, items: seq<Expr>, suffix: seq<Expr>)
    requires AllAnd(prefix)
    requires items != [] && SingleBlock(items) && Closed(items)
    requires IsBlock(suffix)
    ensures IsBlock(prefix + (items + suffix))
  {
    InsideBlock(items);
    var c := prefix + (items + suffix);
    forall i | 0 <= i < |c| - 1 ensures c[i].rel == AND {
      if |prefix| + |items| <= i {
        assert c[i] == suffix[i - |prefix| - |items|];
      } else if |prefix| <= i {
        assert c[i] == items[i - |prefix|];
      } else {
        assert c[i] == prefix[i];
      }
    }
  }

  lemma {:induction false} SafeSplit(P: seq<Expr>, e: Expr, Q: seq<Expr>, rest: seq<Expr>, good: bool)
    requires IsSplit(P, e, Q, rest) && (rest == [] ==> ClosingRel(e, Q) == AND)
    requires good <==> if Q == [] then rest == [] else ClosingRel(e, Q) == OR || SingleBlock(e.items)
    ensures Safe((P + ([e] + Q)) + rest) == (good && Safe(Copies(P, e.items, Q) + rest))
  {
    if Q != [] {
      SuffixIsBlock(e, Q);
    }
    if rest == [] {
      SafeLast(P, e, Q);
      assert (P + ([e] + Q)) + [] == P + ([e] + Q);
      assert Copies(P, e.items, Q) + [] == Copies(P, e.items, Q);
    } else {
      SafeMiddle(P, e, Q, rest);
    }
  }

  lemma {:induction false} SafeFronts(front: seq<Expr>, P: seq<Expr>, e: Expr, Q: seq<Expr>, rest: seq<Expr>)
    requires IsFront(front) && e.Sub? && e.items != []
    ensures Safe(front + ((P + ([e] + Q)) + rest)) == Safe((P + ([e] + Q)) + rest)
    ensures Safe(front + (Copies(P, e.items, Q) + rest)) == Safe(Copies(P, e.items, Q) + rest)
  {
    assert Copies(P, e.items, Q) != [];
    SafeFront(front, (P + ([e] + Q)) + rest);
    SafeFront(front, Copies(P, e.items, Q) + rest);
  }

  /** A query is safe exactly when its next step is good and leaves a safe query. */
  lemma {:induction false} SafeStep(l: seq<Expr>)
    requires WellFormed(l)
    ensures Safe(l) == (GoodStep(l) && Safe(Step(l)))
  {
    HasSub(l);
    if !Flat(l) {
      var front, P, e, Q, rest := Parts(l);
      PartsSubsProper(l, front, P, e, Q, rest);
      SafeSplit(P, e, Q, rest, GoodStep(l));
      SafeFronts(front, P, e, Q, rest);
    }
  }
}
