/**
  Queries on which the rescan as written goes wrong.
 */
module QueryFailures {
  import opened Iteration
  import opened Query
  import opened QueryTerms
  import opened QueryShape
  import opened QueryWritten
  import opened QueryRounds
  import opened QueryEnding

  // -------------------------------------------------------------------------------- endless queries

  /** A query that ends with alternatives in two places of its last AND-block, like
      `(a OR b) AND (c OR d)`, keeps the rescan busy for ever. */
  lemma {:induction false} Diverges(a: seq<Expr>, c: seq<Expr>, n: nat)
    requires AllAnd(a + c) && SubsProper(a) && SubsProper(c) && Ways(a) > 1 && Ways(c) > 1
    ensures WellFormed(a + c) && !Ends(a + c) && !Flat(Run(a + c, n))
  {
    var l := a + c;
    ProperParts(a, c);
    assert c != [] && l[|l| - 1] in l;
    BadOfBlock(l);
    DoublesForEver(a, c);
    EndsExact(l);
  }

  lemma {:induction false} TwoChoices(x: Condition, y: Condition, e: Expr)
    requires e.Sub? && e.items == [Atom(x, OR), Atom(y, AND)]
    ensures Proper(e.items) && Ways([e]) == 2
  {
    assert IsBlock([Atom(x, OR)]) && IsBlock([Atom(y, AND)]);
    assert e.items == [Atom(x, OR)] + [Atom(y, AND)];
    ChoicesOfBlock([Atom(x, OR)], [Atom(y, AND)]);
    assert [Atom(y, AND)] + [] == [Atom(y, AND)];
    ChoicesOfBlock([Atom(y, AND)], []);
    assert SubsProper(e.items);
    FlatWays([Atom(x, OR)]);
    FlatWays([Atom(y, AND)]);
    assert [e][1..] == [];
    assert Mul(2, 1) == 1 + Mul(1, 1) && Mul(1, 1) == 1 + Mul(0, 1);
  }

  /** `(x OR y) AND (a OR (v OR w)) OR r`: the alternatives at the end of the first AND-block join one copy
      of themselves to the next one for ever. */
  lemma {:induction false} EndlessInFront(x: Condition, y: Condition, a: Condition, v: Condition, w: Condition,
                                          r: Condition)
    ensures var xy, vw := Sub([Atom(x, OR), Atom(y, AND)], AND), Sub([Atom(v, OR), Atom(w, AND)], AND);
            var l := [xy, Sub([Atom(a, OR), vw], OR), Atom(r, AND)];
            WellFormed(l) && !Ends(l) && !Terminates(l)
  {
    var xy, vw := Sub([Atom(x, OR), Atom(y, AND)], AND), Sub([Atom(v, OR), Atom(w, AND)], AND);
    var s := [Atom(a, OR), vw];
    var e, rest := Sub(s, OR), [Atom(r, AND)];
    TwoChoices(x, y, xy);
    TwoChoices(v, w, vw);
    assert SubsProper(s) && Proper(s);
    assert s == [Atom(a, OR)] + [vw] && IsBlock([vw]) && IsBlock([Atom(a, OR)]);
    FirstJoins([Atom(a, OR)], [vw]);
    BlockIsOne([vw]);
    BadBehindSub([xy], e, rest);
    assert [xy, e, Atom(r, AND)] == ([xy] + [e]) + rest;
    EndsExact([xy, e, Atom(r, AND)]);
  }

  /** `(a OR b) AND (c OR d)` has them. */
  lemma {:induction false} SimplestEndlessQuery(a: Condition, b: Condition, c: Condition, d: Condition)
    ensures var l := [Sub([Atom(a, OR), Atom(b, AND)], AND), Sub([Atom(c, OR), Atom(d, AND)], AND)];
            WellFormed(l) && !Ends(l) && !Terminates(l)
  {
    var ab, cd := Sub([Atom(a, OR), Atom(b, AND)], AND), Sub([Atom(c, OR), Atom(d, AND)], AND);
    TwoChoices(a, b, ab);
    TwoChoices(c, d, cd);
    assert [ab] + [cd] == [ab, cd];
    Diverges([ab], [cd], 0);
    EndsExact([ab, cd]);
  }

  // --------------------------------------------------------------------------------- a lost answer

  lemma {:induction false} EvalAtoms(a: Expr, rest: seq<Expr>, v: Condition -> bool)
    requires a.Atom? && a.rel == OR
    ensures Eval([a] + rest, v) == (v(a.cond) || Eval(rest, v))
  {
    var l := [a] + rest;
    assert l[..1] == [a] && l[1..] == rest;
    assert AllHold([a], v) == Holds([a][0], v);
  }

  lemma {:induction false} EvalLastBlock(l: seq<Expr>, v: Condition -> bool)
    requires IsBlock(l)
    ensures Eval(l, v) == AllHold(l, v)
  {
    BlockEndOf(l, []);
    assert l + [] == l && l[..|l|] == l && l[|l|..] == [];
  }

  lemma {:induction false} RoundOnThree(x: Expr, y: Expr, z: Expr)
    requires x.Atom? && y.Atom? && z.Atom? && x.rel == OR && y.rel == AND && z.rel == AND
    ensures WellFormed([Sub([x, y], OR), z])
    ensures Step([Sub([x, y], OR), z]) == [x, y, z]
  {
    var e := Sub([x, y], OR);
    var l := [e, z];
    assert Proper([x, y]);
    assert FirstSub(l) == 0 && EndFrom(l, 0) == 1;
    assert l[..0] == [] && l[0..0] == [] && l[1..1] == [] && l[1..] == [z];
    assert [x, y][..1] == [x] && [x, y][1..] == [y] && [y][..1] == [y] && [y][1..] == [];
    assert Copies([], [y], []) == Copy([], [y], []) + Copies([], [], []);
    assert Copies([], [x, y], []) == Copy([], [x], []) + Copies([], [y], []);
  }

  lemma {:induction false} FlatMeaning(x: Expr, y: Expr, z: Expr, v: Condition -> bool)
    requires x.Atom? && y.Atom? && z.Atom? && x.rel == OR && y.rel == AND && z.rel == AND
    ensures Eval([x, y, z], v) == (v(x.cond) || (v(y.cond) && v(z.cond)))
    ensures Eval([Sub([x, y], OR), z], v) == (v(x.cond) || v(y.cond) || v(z.cond))
  {
    assert [x, y, z] == [x] + [y, z];
    EvalAtoms(x, [y, z], v);
    EvalLastBlock([y, z], v);
    assert AllHold([y, z], v) == (Holds([y, z][0], v) && Holds([y, z][1], v));
    assert [x, y] == [x] + [y];
    EvalAtoms(x, [y], v);
    EvalLastBlock([y], v);
    assert AllHold([y], v) == Holds([y][0], v);
    var e := Sub([x, y], OR);
    var l := [e, z];
    assert l[..1] == [e] && l[1..] == [z];
    EvalLastBlock([z], v);
    assert AllHold([z], v) == Holds([z][0], v);
    assert AllHold([e], v) == Holds([e][0], v);
  }

  /** `(a OR b) OR c` ends as `a OR b AND c`: the rows with only `b` are missed. */
  lemma {:induction false} LostAnswer(a: Condition, b: Condition, c: Condition)
    requires a != b && b != c
    ensures var l := [Sub([Atom(a, OR), Atom(b, AND)], OR), Atom(c, AND)];
            && WellFormed(l)
            && Run(l, 1) == [Atom(a, OR), Atom(b, AND), Atom(c, AND)]
            && Eval(l, Only({b}))
            && !Eval(Run(l, 1), Only({b}))
  {
    RoundOnThree(Atom(a, OR), Atom(b, AND), Atom(c, AND));
    FlatMeaning(Atom(a, OR), Atom(b, AND), Atom(c, AND), Only({b}));
    var l := [Sub([Atom(a, OR), Atom(b, AND)], OR), Atom(c, AND)];
    IterateLast(Step, l, 0);
  }
}
