/**
  The expansion of a nested query into its conjunctive terms, in the order in which the blocks
  of a fully distributed query would list them.  It is the reference the rewriting is measured
  against: a correct distribution leaves the expansion unchanged.
 */
module QueryTerms {
  import opened Query

  type Term = set<Condition>

  ghost function Scale(t: Term, b: seq<Term>): (r: seq<Term>)
    ensures |r| == |b|
  {
    if b == [] then [] else [t + b[0]] + Scale(t, b[1..])
  }

  ghost function Product(a: seq<Term>, b: seq<Term>): seq<Term> {
    if a == [] then [] else Scale(a[0], b) + Product(a[1..], b)
  }

  /** With `extra` set, every subexpression stands for one more, empty, term than its blocks do:
      the length of that expansion is what the rescan lowers. */
  ghost function ItemExpand(e: Expr, extra: bool): seq<Term>
    decreases e
  {
    match e
    case Atom(c, _) => [{c}]
    case Sub(items, _) => Expand(items, extra) + if extra then [{}] else []
  }

  ghost function BlockExpand(b: seq<Expr>, extra: bool): seq<Term>
    decreases b, 0
  {
    if b == [] then [{}] else Product(ItemExpand(b[0], extra), BlockExpand(b[1..], extra))
  }

  ghost function Expand(l: seq<Expr>, extra: bool): seq<Term>
    decreases l, 1
  {
    if l == [] then []
    else
      var n := BlockEnd(l);
      assert n == |l| ==> l[..n] == l;
      BlockExpand(l[..n], extra) + Expand(l[n..], extra)
  }

  /** The terms of a block, of a query. */
  ghost function BlockTerms(b: seq<Expr>): seq<Term> {
    BlockExpand(b, false)
  }

  ghost function Terms(l: seq<Expr>): seq<Term> {
    Expand(l, false)
  }

  // ------------------------------------------------------------------------- terms give the meaning

  ghost predicate TermHolds(t: Term, v: Condition -> bool) {
    forall c | c in t :: v(c)
  }

  ghost predicate AnyHolds(ts: seq<Term>, v: Condition -> bool) {
    exists t | t in ts :: TermHolds(t, v)
  }

  lemma {:induction false} ScaleHolds(t: Term, b: seq<Term>, v: Condition -> bool)
    ensures AnyHolds(Scale(t, b), v) <==> TermHolds(t, v) && AnyHolds(b, v)
  {
    if b != [] {
      ScaleHolds(t, b[1..], v);
      var s := Scale(t, b);
      assert TermHolds(t + b[0], v) <==> TermHolds(t, v) && TermHolds(b[0], v);
      assert s[0] == t + b[0] && s[1..] == Scale(t, b[1..]);
      AnyHoldsSplit([t + b[0]], s[1..], v);
      AnyHoldsSplit([b[0]], b[1..], v);
      assert b == [b[0]] + b[1..];
      assert AnyHolds([t + b[0]], v) <==> TermHolds(t + b[0], v) by { assert (t + b[0]) in [t + b[0]]; }
      assert AnyHolds([b[0]], v) <==> TermHolds(b[0], v) by { assert b[0] in [b[0]]; }
    }
  }

  lemma {:induction false} AnyHoldsSplit(a: seq<Term>, b: seq<Term>, v: Condition -> bool)
    ensures AnyHolds(a + b, v) <==> AnyHolds(a, v) || AnyHolds(b, v)
  {
    forall t ensures t in a + b <==> t in a || t in b { }
  }

  lemma {:induction false} ProductHolds(a: seq<Term>, b: seq<Term>, v: Condition -> bool)
    ensures AnyHolds(Product(a, b), v) <==> AnyHolds(a, v) && AnyHolds(b, v)
  {
    if a != [] {
      ProductHolds(a[1..], b, v);
      ScaleHolds(a[0], b, v);
      AnyHoldsSplit(Scale(a[0], b), Product(a[1..], b), v);
      AnyHoldsSplit([a[0]], a[1..], v);
      assert a == [a[0]] + a[1..];
      assert AnyHolds([a[0]], v) <==> TermHolds(a[0], v) by { assert a[0] in [a[0]]; }
    }
  }

  lemma {:induction false} ItemTermsHold(e: Expr, v: Condition -> bool)
    ensures AnyHolds(ItemExpand(e, false), v) <==> Holds(e, v)
    decreases e
  {
    match e
    case Atom(c, _) => assert {c} in ItemExpand(e, false); assert TermHolds({c}, v) <==> v(c);
    case Sub(items, _) => TermsHold(items, v); assert ItemExpand(e, false) == Terms(items);
  }

  lemma {:induction false} BlockTermsHold(b: seq<Expr>, v: Condition -> bool)
    ensures AnyHolds(BlockTerms(b), v) <==> AllHold(b, v)
    decreases b, 0
  {
    if b == [] {
      assert {} in BlockTerms(b);
      assert TermHolds({}, v);
    } else {
      ItemTermsHold(b[0], v);
      BlockTermsHold(b[1..], v);
      ProductHolds(ItemExpand(b[0], false), BlockTerms(b[1..]), v);
      assert forall i | 0 < i < |b| :: b[i] == b[1..][i - 1];
    }
  }

  /** The expansion means what the query means. */
  lemma {:induction false} TermsHold(l: seq<Expr>, v: Condition -> bool)
    ensures AnyHolds(Terms(l), v) <==> Eval(l, v)
    decreases l, 1
  {
    if l != [] {
      var n := BlockEnd(l);
      assert n == |l| ==> l[..n] == l;
      BlockTermsHold(l[..n], v);
      TermsHold(l[n..], v);
      AnyHoldsSplit(BlockTerms(l[..n]), Terms(l[n..]), v);
    }
  }

  // ------------------------------------------------------------------------------ algebra of terms

  lemma {:induction false} ScaleAppend(t: Term, x: seq<Term>, y: seq<Term>)
    ensures Scale(t, x + y) == Scale(t, x) + Scale(t, y)
  {
    if x == [] {
      assert x + y == y;
    } else {
      assert (x + y)[1..] == x[1..] + y;
      ScaleAppend(t, x[1..], y);
    }
  }

  lemma {:induction false} ScaleScale(s: Term, t: Term, b: seq<Term>)
    ensures Scale(s, Scale(t, b)) == Scale(s + t, b)
  {
    if b != [] {
      assert Scale(t, b)[1..] == Scale(t, b[1..]);
      assert s + (t + b[0]) == (s + t) + b[0];
      ScaleScale(s, t, b[1..]);
    }
  }

  lemma {:induction false} ProductAppend(x: seq<Term>, y: seq<Term>, b: seq<Term>)
    ensures Product(x + y, b) == Product(x, b) + Product(y, b)
  {
    if x == [] {
      assert x + y == y;
    } else {
      assert (x + y)[1..] == x[1..] + y;
      ProductAppend(x[1..], y, b);
    }
  }

  lemma {:induction false} ScaleProduct(t: Term, a: seq<Term>, b: seq<Term>)
    ensures Product(Scale(t, a), b) == Scale(t, Product(a, b))
  {
    if a != [] {
      assert Scale(t, a)[1..] == Scale(t, a[1..]);
      ScaleProduct(t, a[1..], b);
      ScaleScale(t, a[0], b);
      ScaleAppend(t, Scale(a[0], b), Product(a[1..], b));
    }
  }

  lemma {:induction false} ProductAssociative(a: seq<Term>, b: seq<Term>, c: seq<Term>)
    ensures Product(Product(a, b), c) == Product(a, Product(b, c))
  {
    if a != [] {
      ProductAppend(Scale(a[0], b), Product(a[1..], b), c);
      ScaleProduct(a[0], b, c);
      ProductAssociative(a[1..], b, c);
    }
  }

  lemma {:induction false} ProductUnit(a: seq<Term>)
    ensures Product([{}], a) == a
  {
    ScaleEmpty(a);
    assert Product([{}], a) == Scale({}, a) + Product([{}][1..], a);
  }

  lemma {:induction false} ScaleEmpty(a: seq<Term>)
    ensures Scale({}, a) == a
  {
    if a != [] {
      assert {} + a[0] == a[0];
      ScaleEmpty(a[1..]);
    }
  }

  lemma {:induction false} BlockExpandAppend(x: seq<Expr>, y: seq<Expr>, d: bool)
    ensures BlockExpand(x + y, d) == Product(BlockExpand(x, d), BlockExpand(y, d))
  {
    if x == [] {
      assert x + y == y;
      ProductUnit(BlockExpand(y, d));
    } else {
      assert (x + y)[1..] == x[1..] + y;
      BlockExpandAppend(x[1..], y, d);
      ProductAssociative(ItemExpand(x[0], d), BlockExpand(x[1..], d), BlockExpand(y, d));
    }
  }

  /** A block's terms do not depend on the relations inside it. */
  lemma {:induction false} BlockExpandCong(x: seq<Expr>, y: seq<Expr>, d: bool)
    requires |x| == |y| && forall i | 0 <= i < |x| :: SameItem(x[i], y[i])
    ensures BlockExpand(x, d) == BlockExpand(y, d)
  {
    if x != [] {
      assert SameItem(x[0], y[0]);
      assert ItemExpand(x[0], d) == ItemExpand(y[0], d);
      BlockExpandCong(x[1..], y[1..], d);
    }
  }
}
