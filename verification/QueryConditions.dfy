/**
  The conditions of a query: a round makes no new ones, and the meaning depends on them only.
 */
module QueryConditions {
  import opened Collections
  import opened Iteration
  import opened Query
  import opened QueryShape
  import opened QueryReadOnce
  import opened QueryWritten

  lemma {:induction false} AppendConditions(a: seq<Expr>, b: seq<Expr>)
    ensures Conditions(a + b) == Conditions(a) + Conditions(b)
  {
    assert (a + b)[..|a|] == a && (a + b)[|a|..] == b;
    ReadOnceSplit(a + b, |a|);
  }

  lemma {:induction false} RelConditions(b: seq<Expr>)
    requires b != []
    ensures Conditions(b[|b| - 1 := b[|b| - 1].(rel := AND)]) == Conditions(b)
  {
    var front, e := b[..|b| - 1], b[|b| - 1];
    assert b == front + [e] && b[|b| - 1 := e.(rel := AND)] == front + [e.(rel := AND)];
    AppendConditions(front, [e]);
    AppendConditions(front, [e.(rel := AND)]);
  }

  lemma {:induction false} CopyConditions(p: seq<Expr>, b: seq<Expr>, q: seq<Expr>)
    requires b != []
    ensures Conditions(Copy(p, b, q)) <= Conditions(p) + Conditions(b) + Conditions(q)
  {
    RelConditions(b);
    var c := b[|b| - 1 := b[|b| - 1].(rel := AND)];
    AppendConditions(p, b);
    AppendConditions(p + c, q);
    AppendConditions(p, c);
  }

  lemma {:induction false} CopiesConditions(p: seq<Expr>, items: seq<Expr>, q: seq<Expr>)
    ensures Conditions(Copies(p, items, q)) <= Conditions(p) + Conditions(items) + Conditions(q)
    decreases |items|
  {
    if items != [] {
      var n := BlockEnd(items);
      CopyConditions(p, items[..n], q);
      CopiesConditions(p, items[n..], q);
      AppendConditions(Copy(p, items[..n], q), Copies(p, items[n..], q));
      AppendConditions(items[..n], items[n..]);
      assert items == items[..n] + items[n..];
    }
  }

  /** A round makes no conditions. */
  lemma {:induction false} StepConditions(l: seq<Expr>)
    requires SubsProper(l)
    ensures Conditions(Step(l)) <= Conditions(l)
  {
    if Flat(l) {
      HasSub(l);
    } else {
      var front, p, e, q, rest := Parts(l);
      CopiesConditions(p, e.items, q);
      AppendConditions(front, Copies(p, e.items, q) + rest);
      AppendConditions(Copies(p, e.items, q), rest);
      AppendConditions(front, (p + ([e] + q)) + rest);
      AppendConditions(p + ([e] + q), rest);
      AppendConditions(p, [e] + q);
      AppendConditions([e], q);
    }
  }

  lemma {:induction false} RunConditions(l: seq<Expr>, n: nat)
    requires SubsProper(l)
    ensures Conditions(Run(l, n)) <= Conditions(l)
    decreases n
  {
    if n > 0 {
      StepConditions(l);
      StepWellFormed(l);
      RunConditions(Step(l), n - 1);
    }
  }

  lemma {:induction false} InConditions(l: seq<Expr>, i: nat)
    requires i < |l|
    ensures ItemConditions(l[i]) <= Conditions(l)
  {
    if i > 0 {
      InConditions(l[1..], i - 1);
    }
  }

  /** The meaning of a query depends on its conditions only. */
  lemma {:induction false} SameEval(l: seq<Expr>, v: Condition -> bool, w: Condition -> bool)
    requires forall c | c in Conditions(l) :: v(c) == w(c)
    ensures Eval(l, v) == Eval(l, w)
    decreases l, 1
  {
    if l != [] {
      var n := BlockEnd(l);
      assert n == |l| ==> l[..n] == l;
      ReadOnceSplit(l, n);
      SameAllHold(l[..n], v, w);
      SameEval(l[n..], v, w);
    }
  }

  lemma {:induction false} SameAllHold(b: seq<Expr>, v: Condition -> bool, w: Condition -> bool)
    requires forall c | c in Conditions(b) :: v(c) == w(c)
    ensures AllHold(b, v) == AllHold(b, w)
    decreases b, 0
  {
    forall i | 0 <= i < |b| ensures Holds(b[i], v) == Holds(b[i], w) {
      InConditions(b, i);
      if b[i].Sub? {
        SameEval(b[i].items, v, w);
      } else {
        assert b[i].cond in ItemConditions(b[i]);
      }
    }
  }
}
