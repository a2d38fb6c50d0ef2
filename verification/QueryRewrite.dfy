/**
  What the distribution of subexpressions does to the meaning of a query: the intended step
  preserves the expansion, the written step differs from it only by turning some ORs into ANDs,
  and every such difference loses an answer of a query whose conditions are pairwise distinct.
 */
module QueryRewrite {
  import opened Collections
  import opened Query
  import opened QueryTerms
  import opened QueryShape

  // ------------------------------------------------------------------------ expansion of the copies

  lemma {:induction false} ExpandBlock(b: seq<Expr>, rest: seq<Expr>, d: bool)
    requires IsBlock(b) && (b[|b| - 1].rel == OR || rest == [])
    ensures Expand(b + rest, d) == BlockExpand(b, d) + Expand(rest, d)
  {
    BlockEndOf(b, rest);
  }

  lemma {:induction false} AtomsHaveOneTerm(b: seq<Expr>, d: bool)
    requires Flat(b)
    ensures |BlockExpand(b, d)| == 1
  {
    if b != [] {
      assert b[0] in b && Flat(b[1..]);
      AtomsHaveOneTerm(b[1..], d);
      ProductSize([{b[0].cond}], BlockExpand(b[1..], d));
    }
  }

  /** The product with a single term has as many terms as the other factor. */
  lemma {:induction false} ProductSize(a: seq<Term>, b: seq<Term>)
    requires |a| == 1
    ensures |Product(a, b)| == |b|
  {
    assert a[1..] == [];
    assert Product(a, b) == Scale(a[0], b) + Product([], b);
  }

  lemma {:induction false} ProductOne(a: seq<Term>, x: seq<Term>, y: seq<Term>)
    requires |a| == 1
    ensures Product(a, x + y) == Product(a, x) + Product(a, y)
  {
    ScaleAppend(a[0], x, y);
    assert a[1..] == [];
    assert Product(a, x + y) == Scale(a[0], x + y) + [];
    assert Product(a, x) == Scale(a[0], x) + [];
    assert Product(a, y) == Scale(a[0], y) + [];
  }

  lemma {:induction false} NoCopies(P: seq<Term>, Q: seq<Term>)
    requires |P| == 1
    ensures Product(P, Product([], Q)) == []
  {
    ProductSize(P, []);
  }

  lemma {:induction false} CopyExpand(prefix: seq<Expr>, block: seq<Expr>, suffix: seq<Expr>, r: Relation, d: bool)
    requires block != []
    ensures BlockExpand(Close(Copy(prefix, block, suffix), r), d)
         == Product(BlockExpand(prefix, d), Product(BlockExpand(block, d), BlockExpand(suffix, d)))
  {
    var c := Close(Copy(prefix, block, suffix), r);
    var e := prefix + (block + suffix);
    assert |c| == |e|;
    forall i | 0 <= i < |c| ensures SameItem(c[i], e[i]) {
      if suffix == [] {
        assert e == prefix + block;
      }
    }
    BlockExpandCong(c, e, d);
    BlockExpandAppend(prefix, block + suffix, d);
    BlockExpandAppend(block, suffix, d);
  }

  lemma {:induction false} CopyIsBlock(prefix: seq<Expr>, block: seq<Expr>, suffix: seq<Expr>, r: Relation)
    requires IsBlock(block)
    requires AllAnd(prefix)
    requires suffix != [] ==> IsBlock(suffix)
    ensures IsBlock(Copy(prefix, block, suffix))
    ensures IsBlock(Close(Copy(prefix, block, suffix), r))
    ensures Close(Copy(prefix, block, suffix), r)[|prefix| + |block| + |suffix| - 1].rel == r
  {
    var c := Copy(prefix, block, suffix);
    forall i | 0 <= i < |c| - 1 ensures c[i].rel == AND {
      if i < |prefix| {
        assert c[i] == prefix[i];
      } else if i < |prefix| + |block| {
        assert c[i].rel == AND;
      } else {
        assert c[i] == suffix[i - |prefix| - |block|];
      }
    }
  }

  lemma {:induction false} DistributeOne(P: seq<Term>, B: seq<Term>, T: seq<Term>, Q: seq<Term>, rest: seq<Term>)
    requires |P| == 1
    ensures Product(P, Product(B, Q)) + (Product(P, Product(T, Q)) + rest) == Product(P, Product(B + T, Q)) + rest
  {
    ProductAppend(B, T, Q);
    ProductOne(P, Product(B, Q), Product(T, Q));
    Regroup(Product(P, Product(B, Q)), Product(P, Product(T, Q)), rest);
  }

  /** The first copy contributes the product of prefix, block and suffix. */
  lemma {:induction false} CopyThen(prefix: seq<Expr>, block: seq<Expr>, suffix: seq<Expr>, r: Relation,
                                    tail: seq<Expr>, d: bool)
    requires IsBlock(block) && (suffix != [] ==> IsBlock(suffix))
    requires AllAnd(prefix)
    requires r == OR || tail == []
    ensures Expand(Close(Copy(prefix, block, suffix), r) + tail, d)
         == Product(BlockExpand(prefix, d), Product(BlockExpand(block, d), BlockExpand(suffix, d))) + Expand(tail, d)
  {
    CopyIsBlock(prefix, block, suffix, r);
    ExpandBlock(Close(Copy(prefix, block, suffix), r), tail, d);
    CopyExpand(prefix, block, suffix, r, d);
  }

  lemma {:induction false} FirstCopyExpand(prefix: seq<Expr>, block: seq<Expr>, more: seq<Expr>, suffix: seq<Expr>,
                                           close: Relation, rest: seq<Expr>, d: bool)
    requires AllAnd(prefix) && IsBlock(block) && (block[|block| - 1].rel == OR || more == [])
    requires suffix != [] ==> IsBlock(suffix)
    requires close == OR || rest == []
    ensures Expand(IntendedCopies(prefix, block + more, suffix, close) + rest, d)
         == Product(BlockExpand(prefix, d), Product(BlockExpand(block, d), BlockExpand(suffix, d)))
            + Expand(IntendedCopies(prefix, more, suffix, close) + rest, d)
  {
    var r := if more == [] then close else OR;
    var copies := IntendedCopies(prefix, more, suffix, close);
    IntendedCopiesUnfold(prefix, block, more, suffix, close);
    Regroup(Close(Copy(prefix, block, suffix), r), copies, rest);
    CopyThen(prefix, block, suffix, r, copies + rest, d);
  }

  /** All copies together contribute the product of prefix, subexpression and suffix. */
  lemma {:induction false} IntendedCopiesExpand(prefix: seq<Expr>, items: seq<Expr>, suffix: seq<Expr>,
                                                close: Relation, rest: seq<Expr>, d: bool)
    requires Flat(prefix) && AllAnd(prefix)
    requires suffix != [] ==> IsBlock(suffix)
    requires close == OR || rest == []
    ensures Expand(IntendedCopies(prefix, items, suffix, close) + rest, d)
         == Product(BlockExpand(prefix, d), Product(Expand(items, d), BlockExpand(suffix, d))) + Expand(rest, d)
    decreases |items|
  {
    AtomsHaveOneTerm(prefix, d);
    if items == [] {
      NoCopies(BlockExpand(prefix, d), BlockExpand(suffix, d));
      assert [] + rest == rest;
    } else {
      var block, more := TakeBlock(items);
      var P, B, T, Q := BlockExpand(prefix, d), BlockExpand(block, d), Expand(more, d), BlockExpand(suffix, d);
      assert Expand(IntendedCopies(prefix, items, suffix, close) + rest, d)
          == Product(P, Product(B, Q)) + Expand(IntendedCopies(prefix, more, suffix, close) + rest, d) by {
        FirstCopyExpand(prefix, block, more, suffix, close, rest, d);
      }
      IntendedCopiesExpand(prefix, more, suffix, close, rest, d);
      assert Expand(items, d) == B + T by { ExpandBlock(block, more, d); }
      DistributeOne(P, B, T, Q, Expand(rest, d));
    }
  }

  lemma {:induction false} ExpandSplit(P: seq<Expr>, e: Expr, Q: seq<Expr>, rest: seq<Expr>, d: bool)
    requires IsSplit(P, e, Q, rest)
    ensures Expand((P + ([e] + Q)) + rest, d)
         == Product(BlockExpand(P, d), Product(ItemExpand(e, d), BlockExpand(Q, d))) + Expand(rest, d)
  {
    SplitShape(P, e, Q, rest);
    ExpandBlock(P + ([e] + Q), rest, d);
    BlockExpandAppend(P, [e] + Q, d);
    assert ([e] + Q)[1..] == Q;
  }

  lemma {:induction false} ExpandSplitCopies(P: seq<Expr>, e: Expr, Q: seq<Expr>, rest: seq<Expr>, d: bool)
    requires IsSplit(P, e, Q, rest)
    ensures Expand(IntendedCopies(P, e.items, Q, ClosingRel(e, Q)) + rest, d)
         == Product(BlockExpand(P, d), Product(Expand(e.items, d), BlockExpand(Q, d))) + Expand(rest, d)
  {
    if Q != [] {
      SuffixIsBlock(e, Q);
    }
    IntendedCopiesExpand(P, e.items, Q, ClosingRel(e, Q), rest, d);
  }

  lemma {:induction false} ExpandFront(front: seq<Expr>, l: seq<Expr>, d: bool)
    requires IsFront(front)
    ensures Expand(front + l, d) == Expand(front, d) + Expand(l, d)
    decreases |front|
  {
    if front == [] {
      assert front + l == l;
    } else {
      var b, more := TakeFront(front);
      ExpandFront(more, l, d);
      ExpandBlock(b, more, d);
      Regroup(b, more, l);
      ExpandBlock(b, more + l, d);
      Regroup(BlockExpand(b, d), Expand(more, d), Expand(l, d));
    }
  }

  /** Without the extra term per subexpression the expansion stays, with it the expansion shrinks. */
  lemma {:induction false} SplitStepExpand(P: seq<Expr>, e: Expr, Q: seq<Expr>, rest: seq<Expr>)
    requires IsSplit(P, e, Q, rest) && SubsProper(Q)
    ensures var l, s := (P + ([e] + Q)) + rest, IntendedCopies(P, e.items, Q, ClosingRel(e, Q)) + rest;
            Terms(s) == Terms(l) && Weight(s) < Weight(l)
  {
    ExpandSplit(P, e, Q, rest, false);
    ExpandSplitCopies(P, e, Q, rest, false);
    assert ItemExpand(e, false) == Expand(e.items, false);
    ExpandSplit(P, e, Q, rest, true);
    ExpandSplitCopies(P, e, Q, rest, true);
    AtomsHaveOneTerm(P, true);
    ExtraTerm(BlockExpand(P, true), Expand(e.items, true), BlockExpand(Q, true));
    BlockExpandNotEmpty(Q, true);
  }

  lemma {:induction false} ExtraTerm(P: seq<Term>, T: seq<Term>, Q: seq<Term>)
    requires |P| == 1
    ensures |Product(P, Product(T + [{}], Q))| == |Product(P, Product(T, Q))| + |Q|
  {
    ProductAppend(T, [{}], Q);
    ProductSize([{}], Q);
    ProductSize(P, Product(T + [{}], Q));
    ProductSize(P, Product(T, Q));
  }

  lemma {:induction false} BlockExpandNotEmpty(b: seq<Expr>, d: bool)
    requires SubsProper(b)
    ensures BlockExpand(b, d) != []
    decreases b, 0
  {
    if b != [] {
      assert b[0] in b && SubsProper(b[1..]);
      BlockExpandNotEmpty(b[1..], d);
      if b[0].Sub? {
        ExpandNotEmpty(b[0].items, d);
      }
      var i, r := ItemExpand(b[0], d), BlockExpand(b[1..], d);
      assert |Product(i, r)| >= |Scale(i[0], r)|;
    }
  }

  lemma {:induction false} ExpandNotEmpty(l: seq<Expr>, d: bool)
    requires l != [] && SubsProper(l)
    ensures Expand(l, d) != []
    decreases l, 1
  {
    var n := BlockEnd(l);
    assert n == |l| ==> l[..n] == l;
    assert SubsProper(l[..n]);
    BlockExpandNotEmpty(l[..n], d);
  }

  // ----------------------------------------------------------------------------------- intended step

  /** What the rescan lowers: the length of the expansion with an extra term per subexpression. */
  ghost function Weight(l: seq<Expr>): nat {
    |Expand(l, true)|
  }

  /** The intended step keeps the expansion, hence the meaning, of every nested query, and makes
      the query lighter although it copies prefix and suffix. */
  lemma {:induction false} IntendedStepExpand(l: seq<Expr>)
    requires SubsProper(l)
    ensures Terms(IntendedStep(l)) == Terms(l)
    ensures !Flat(l) ==> Weight(IntendedStep(l)) < Weight(l)
  {
    HasSub(l);
    if !Flat(l) {
      var front, P, e, Q, rest := Parts(l);
      PartsSubsProper(l, front, P, e, Q, rest);
      SplitStepExpand(P, e, Q, rest);
      var t, s := (P + ([e] + Q)) + rest, IntendedCopies(P, e.items, Q, ClosingRel(e, Q)) + rest;
      ExpandFront(front, t, false);
      ExpandFront(front, s, false);
      ExpandFront(front, t, true);
      ExpandFront(front, s, true);
    }
  }
}
