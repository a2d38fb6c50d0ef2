/**
  Queries in which no condition occurs twice have an irredundant expansion: their terms are
  pairwise incomparable.
 */
module QueryReadOnce {
  import opened Query
  import opened QueryTerms
  import opened QueryShape
  import opened QueryWritten

  function Conditions(l: seq<Expr>): set<Condition> {
    if l == [] then {} else ItemConditions(l[0]) + Conditions(l[1..])
  }

  function ItemConditions(e: Expr): set<Condition> {
    match e
    case Atom(c, _) => {c}
    case Sub(items, _) => Conditions(items)
  }

  /** No condition occurs twice. */
  predicate ReadOnce(l: seq<Expr>) {
    l != [] ==> ReadOnceItem(l[0]) && ItemConditions(l[0]) !! Conditions(l[1..]) && ReadOnce(l[1..])
  }

  predicate ReadOnceItem(e: Expr) {
    e.Sub? ==> ReadOnce(e.items)
  }

  lemma {:induction false} ReadOnceSplit(l: seq<Expr>, n: nat)
    requires n <= |l|
    ensures Conditions(l) == Conditions(l[..n]) + Conditions(l[n..])
    ensures ReadOnce(l) ==> ReadOnce(l[..n]) && ReadOnce(l[n..]) && Conditions(l[..n]) !! Conditions(l[n..])
  {
    if n > 0 {
      assert l[1..][..n - 1] == l[..n][1..];
      assert l[1..][n - 1..] == l[n..];
      ReadOnceSplit(l[1..], n - 1);
    }
  }

  ghost predicate NotBelow(a: seq<Term>, b: seq<Term>) {
    forall s, t | s in a && t in b :: !(s <= t)
  }

  ghost predicate Over(ts: seq<Term>, cs: set<Condition>) {
    forall t | t in ts :: t <= cs
  }

  ghost predicate NonEmptyTerms(ts: seq<Term>) {
    forall t | t in ts :: t != {}
  }

  lemma {:induction false} IrredundantAppend(a: seq<Term>, b: seq<Term>)
    requires Irredundant(a) && Irredundant(b) && NotBelow(a, b) && NotBelow(b, a)
    ensures Irredundant(a + b)
  {
    var c := a + b;
    forall i, j | 0 <= i < |c| && 0 <= j < |c| && i != j ensures !(c[i] <= c[j]) {
      assert i < |a| ==> c[i] == a[i] && a[i] in a;
      assert j < |a| ==> c[j] == a[j] && a[j] in a;
      assert i >= |a| ==> c[i] == b[i - |a|] && b[i - |a|] in b;
      assert j >= |a| ==> c[j] == b[j - |a|] && b[j - |a|] in b;
    }
  }

  lemma {:induction false} ScaleElements(t: Term, b: seq<Term>)
    ensures forall i | 0 <= i < |b| :: Scale(t, b)[i] == t + b[i]
  {
    if b != [] {
      ScaleElements(t, b[1..]);
    }
  }

  lemma {:induction false} ScaleIrredundant(t: Term, b: seq<Term>, x: set<Condition>, y: set<Condition>)
    requires Irredundant(b) && Over(b, y) && t <= x && x !! y
    ensures Irredundant(Scale(t, b)) && Over(Scale(t, b), x + y)
  {
    var s := Scale(t, b);
    ScaleElements(t, b);
    forall i, j | 0 <= i < |s| && 0 <= j < |s| && i != j ensures !(s[i] <= s[j]) {
      assert b[i] in b && b[j] in b;
      var c :| c in b[i] && c !in b[j];
      assert c in s[i] && c !in s[j];
    }
    forall u | u in s ensures u <= x + y {
      var i :| 0 <= i < |s| && s[i] == u;
      assert b[i] in b;
    }
  }

  lemma {:induction false} ProductElements(a: seq<Term>, b: seq<Term>, u: Term) returns (s: Term, t: Term)
    requires u in Product(a, b)
    ensures s in a && t in b && u == s + t
  {
    if u in Scale(a[0], b) {
      ScaleElements(a[0], b);
      var i :| 0 <= i < |b| && Scale(a[0], b)[i] == u;
      s, t := a[0], b[i];
    } else {
      s, t := ProductElements(a[1..], b, u);
    }
  }

  /** Terms over disjoint conditions multiply without redundancy. */
  lemma {:induction false} ProductIrredundant(a: seq<Term>, b: seq<Term>, x: set<Condition>, y: set<Condition>)
    requires Irredundant(a) && Irredundant(b) && Over(a, x) && Over(b, y) && x !! y
    ensures Irredundant(Product(a, b)) && Over(Product(a, b), x + y)
    decreases |a|
  {
    if a != [] {
      var h, r := Scale(a[0], b), Product(a[1..], b);
      assert Irredundant(a[1..]) && Over(a[1..], x) by {
        assert forall i | 0 <= i < |a| - 1 :: a[1..][i] == a[i + 1];
      }
      ProductIrredundant(a[1..], b, x, y);
      assert a[0] in a;
      ScaleIrredundant(a[0], b, x, y);
      ScaleElements(a[0], b);
      forall u, w | u in h && w in r ensures !(u <= w) && !(w <= u) {
        var i :| 0 <= i < |h| && h[i] == u;
        var s, t := ProductElements(a[1..], b, w);
        var j :| 0 <= j < |a[1..]| && a[1..][j] == s;
        assert !(a[0] <= a[j + 1]) && !(a[j + 1] <= a[0]);
        assert a[j + 1] in a && b[i] in b;
        DisjointUnion(a[0], b[i], s, t, x, y);
      }
      IrredundantAppend(h, r);
    }
  }

  lemma {:induction false} DisjointUnion(p: Term, q: Term, s: Term, t: Term, x: set<Condition>, y: set<Condition>)
    requires p <= x && s <= x && q <= y && t <= y && x !! y && !(p <= s) && !(s <= p)
    ensures !(p + q <= s + t) && !(s + t <= p + q)
  {
    var c :| c in p && c !in s;
    var d :| d in s && d !in p;
    assert c in p + q && c !in s + t;
    assert d in s + t && d !in p + q;
  }

  lemma {:induction false} ReadOnceBlockTerms(b: seq<Expr>)
    requires ReadOnce(b) && SubsProper(b)
    ensures Irredundant(BlockTerms(b)) && Over(BlockTerms(b), Conditions(b))
    ensures b != [] ==> NonEmptyTerms(BlockTerms(b))
    decreases b, 0
  {
    if b != [] {
      var e, r := b[0], b[1..];
      assert SubsProper(r);
      ReadOnceBlockTerms(r);
      if e.Sub? {
        ReadOnceTerms(e.items);
      } else {
        assert ItemExpand(e, false) == [{e.cond}];
      }
      ProductIrredundant(ItemExpand(e, false), BlockTerms(r), ItemConditions(e), Conditions(r));
      forall u | u in BlockTerms(b) ensures u != {} {
        var s, t := ProductElements(ItemExpand(e, false), BlockTerms(r), u);
      }
    }
  }

  /** A query in which no condition occurs twice has an irredundant expansion. */
  lemma {:induction false} ReadOnceTerms(l: seq<Expr>)
    requires ReadOnce(l) && SubsProper(l)
    ensures Irredundant(Terms(l)) && Over(Terms(l), Conditions(l)) && NonEmptyTerms(Terms(l))
    decreases l, 1
  {
    if l != [] {
      var n := BlockEnd(l);
      assert n == |l| ==> l[..n] == l;
      ReadOnceSplit(l, n);
      assert SubsProper(l[..n]) && SubsProper(l[n..]);
      ReadOnceBlockTerms(l[..n]);
      ReadOnceTerms(l[n..]);
      var a, b := BlockTerms(l[..n]), Terms(l[n..]);
      forall s, t | s in a && t in b ensures !(s <= t) && !(t <= s) {
        var c :| c in s;
        var d :| d in t;
        assert c in Conditions(l[..n]) && d in Conditions(l[n..]);
      }
      IrredundantAppend(a, b);
    }
  }
}
