/**
  Main results about flattening nested queries.
 */
module QueryExact {
  import opened Iteration
  import opened Query
  import opened QueryTerms
  import opened QueryShape
  import opened QueryRewrite
  import opened QueryWritten
  import opened QuerySafe
  import opened QueryGood
  import opened QueryReadOnce

  // ------------------------------------------------------------------- what one step does, as laws

  /** What the written step guarantees when it turns `l` into `s`. */
  ghost predicate WrittenLaws(l: seq<Expr>, s: seq<Expr>) {
    && WellFormed(s)
    && (forall v :: Eval(s, v) ==> Eval(l, v))
    && (Safe(l) <==> GoodStep(l) && Safe(s))
    && (GoodStep(l) ==> Terms(s) == Terms(l))
    && (GoodStep(l) && !Flat(l) ==> Weight(s) < Weight(l))
    && (!GoodStep(l) && Irredundant(Terms(l)) ==> exists t :: t in Terms(l) && !Eval(s, Only(t)))
  }

  /** What the intended step guarantees. */
  ghost predicate IntendedLaws(l: seq<Expr>, s: seq<Expr>) {
    && SubsProper(s) && (Closed(l) ==> Closed(s))
    && Terms(s) == Terms(l)
    && (!Flat(l) ==> Weight(s) < Weight(l))
  }

  lemma {:induction false} TighterProper(w: seq<Expr>, r: seq<Expr>)
    requires Tighter(w, r) && SubsProper(w)
    ensures SubsProper(r)
  {
    forall e | e in r ensures e.Sub? ==> Proper(e.items) {
      var i :| 0 <= i < |r| && r[i] == e;
      assert SameItem(w[i], r[i]) && w[i] in w;
    }
  }

  lemma {:induction false} ClosedIntended(l: seq<Expr>)
    requires WellFormed(l)
    ensures Closed(IntendedStep(l))
  {
    HasSub(l);
    if !Flat(l) {
      var front, P, e, Q, rest := Parts(l);
      PartsSubsProper(l, front, P, e, Q, rest);
      LastOfCopies(P, e.items, Q, ClosingRel(e, Q));
      var c := IntendedCopies(P, e.items, Q, ClosingRel(e, Q));
      ClosedAppend(c, rest);
      ClosedAppend(front, c + rest);
    }
  }

  lemma {:induction false} StepIsIntended(l: seq<Expr>)
    requires SubsProper(l)
    ensures IntendedLaws(l, IntendedStep(l))
  {
    StepWellFormed(l);
    StepTighter(l);
    TighterProper(Step(l), IntendedStep(l));
    if Closed(l) {
      ClosedIntended(l);
    }
    IntendedStepExpand(l);
  }

  lemma {:induction false} TighterLaws(l: seq<Expr>, s: seq<Expr>, r: seq<Expr>)
    requires Closed(l) && IntendedLaws(l, r) && Tighter(s, r)
    ensures forall v :: Eval(s, v) ==> Eval(l, v)
    ensures s != r && Irredundant(Terms(l)) ==> exists t :: t in Terms(l) && !Eval(s, Only(t))
  {
    forall v | Eval(s, v) ensures Eval(l, v) {
      TighterImplies(s, r, v);
      TermsHold(l, v);
      TermsHold(r, v);
    }
    if s != r && Irredundant(Terms(l)) {
      var t := Lost(s, r);
    }
  }

  lemma {:induction false} StepIsWritten(l: seq<Expr>)
    requires WellFormed(l)
    ensures WrittenLaws(l, Step(l))
  {
    var s, r := Step(l), IntendedStep(l);
    assert IntendedLaws(l, r) by { StepIsIntended(l); }
    assert Tighter(s, r) by { StepTighter(l); }
    assert WellFormed(s) by { StepWellFormed(l); }
    assert Safe(l) <==> GoodStep(l) && Safe(s) by { SafeStep(l); }
    assert s == r <==> GoodStep(l) by { GoodStepExact(l); }
    TighterLaws(l, s, r);
  }

  // ----------------------------------------------------------------------------------- whole runs

  lemma {:induction false} RunImplies(l: seq<Expr>, n: nat, v: Condition -> bool)
    requires WellFormed(l)
    ensures Eval(Run(l, n), v) ==> Eval(l, v)
  {
    var answered := Eval(l, v);
    var ok := x => WellFormed(x) && (Eval(x, v) ==> answered);
    forall x | ok(x) ensures ok(Step(x)) {
      StepIsWritten(x);
    }
    IterateKeeps(Step, ok, l, n);
  }

  lemma {:induction false} IntendedEnds(l: seq<Expr>) returns (n: nat)
    requires SubsProper(l)
    ensures Flat(Iterate(IntendedStep, l, n)) && Terms(Iterate(IntendedStep, l, n)) == Terms(l)
  {
    var terms := Terms(l);
    var ok := x => SubsProper(x) && Terms(x) == terms;
    forall x | ok(x) && !Flat(x) ensures ok(IntendedStep(x)) && Weight(IntendedStep(x)) < Weight(x) {
      StepIsIntended(x);
    }
    n := IterateEnds(IntendedStep, ok, Flat, Weight, l);
  }

  lemma {:induction false} SafeEnds(l: seq<Expr>) returns (n: nat)
    requires WellFormed(l) && Safe(l)
    ensures Flat(Run(l, n)) && Terms(Run(l, n)) == Terms(l)
  {
    var terms := Terms(l);
    var ok := x => WellFormed(x) && Safe(x) && Terms(x) == terms;
    forall x | ok(x) && !Flat(x) ensures ok(Step(x)) && Weight(Step(x)) < Weight(x) {
      StepIsWritten(x);
    }
    n := IterateEnds(Step, ok, Flat, Weight, l);
  }

  /** The run of an unsafe query comes to a bad step while its expansion is still intact. */
  lemma {:induction false} UnsafeMeetsBadStep(l: seq<Expr>) returns (k: nat)
    requires WellFormed(l) && !Safe(l)
    ensures WellFormed(Run(l, k)) && Terms(Run(l, k)) == Terms(l) && !Flat(Run(l, k)) && !GoodStep(Run(l, k))
  {
    var terms := Terms(l);
    var ok := x => WellFormed(x) && !Safe(x) && Terms(x) == terms;
    var bad := x => !GoodStep(x);
    forall x | ok(x) && !bad(x) ensures ok(Step(x)) && Weight(Step(x)) < Weight(x) {
      StepIsWritten(x);
      if Flat(x) {
        FlatIsSafe(x);
      }
    }
    k := IterateEnds(Step, ok, bad, Weight, l);
    if Flat(Run(l, k)) {
      FlatIsSafe(Run(l, k));
    }
  }

  lemma {:induction false} FlatStays(l: seq<Expr>, n: nat)
    requires Flat(l)
    ensures Run(l, n) == l
  {
    var ok := x => x == l;
    HasSub(l);
    IterateKeeps(Step, ok, l, n);
  }

  /** A query without a redundant term that is not safe loses one of its answers for good. */
  lemma {:induction false} UnsafeLoses(l: seq<Expr>) returns (t: Term)
    requires WellFormed(l) && !Safe(l) && Irredundant(Terms(l))
    ensures t in Terms(l)
    ensures forall n: nat | Flat(Run(l, n)) :: !Eval(Run(l, n), Only(t))
  {
    var k := UnsafeMeetsBadStep(l);
    var y;
    t, y := BadStepLoses(l, k);
    forall n: nat | Flat(Run(l, n)) ensures !Eval(Run(l, n), Only(t)) {
      FlatAfter(l, k, n);
      RunImplies(y, n - k - 1, Only(t));
    }
  }

  lemma {:induction false} FlatAfter(l: seq<Expr>, k: nat, n: nat)
    requires Flat(Run(l, n)) && !Flat(Run(l, k))
    ensures k < n
  {
    if n <= k {
      FlatStays(Run(l, n), k - n);
      RunAdds(l, n, k - n);
    }
  }

  lemma {:induction false} RunAdds(l: seq<Expr>, m: nat, n: nat)
    ensures Run(Run(l, m), n) == Run(l, m + n)
  {
    IterateAdd(Step, l, m, n);
  }

  lemma {:induction false} BadStepLoses(l: seq<Expr>, k: nat) returns (t: Term, y: seq<Expr>)
    requires WellFormed(Run(l, k)) && !GoodStep(Run(l, k)) && Irredundant(Terms(Run(l, k)))
    ensures t in Terms(Run(l, k)) && WellFormed(y) && !Eval(y, Only(t))
    ensures forall n: nat | k < n :: Run(l, n) == Run(y, n - k - 1)
  {
    var x := Run(l, k);
    y := Step(x);
    assert WrittenLaws(x, y) by { StepIsWritten(x); }
    t :| t in Terms(x) && !Eval(y, Only(t));
    forall n: nat | k < n ensures Run(l, n) == Run(y, n - k - 1) {
      IterateAfter(Step, l, k, n);
    }
  }

  // --------------------------------------------------------------------------------- main results

  /** `r` is flat and has the answers of `l`. */
  ghost predicate FlatForm(l: seq<Expr>, r: seq<Expr>) {
    Flat(r) && forall v :: Eval(r, v) == Eval(l, v)
  }

  lemma {:induction false} SameTerms(l: seq<Expr>, r: seq<Expr>)
    requires Flat(r) && Terms(r) == Terms(l)
    ensures FlatForm(l, r)
  {
    forall v ensures Eval(r, v) == Eval(l, v) {
      TermsHold(l, v);
      TermsHold(r, v);
    }
  }

  /** With every copy closed as intended, the rescan turns every nested query into an equivalent
      flat one. */
  lemma {:induction false} IntendedFlattens(l: seq<Expr>)
    requires SubsProper(l)
    ensures exists n: nat :: FlatForm(l, Iterate(IntendedStep, l, n))
  {
    var n := IntendedEnds(l);
    SameTerms(l, Iterate(IntendedStep, l, n));
  }

  /** As written, the rescan does so for every safe query. */
  lemma {:induction false} SafeFlattens(l: seq<Expr>)
    requires WellFormed(l) && Safe(l)
    ensures exists n: nat :: FlatForm(l, Run(l, n))
  {
    var n := SafeEnds(l);
    SameTerms(l, Run(l, n));
  }

  /** Whenever the rescan of a safe query has come to its end, the result has the answers of the query. */
  lemma {:induction false} SafeResult(l: seq<Expr>, n: nat)
    requires WellFormed(l) && Safe(l) && Flat(Run(l, n))
    ensures FlatForm(l, Run(l, n))
  {
    var terms := Terms(l);
    var ok := x => WellFormed(x) && Safe(x) && Terms(x) == terms;
    forall x | ok(x) ensures ok(Step(x)) {
      StepIsWritten(x);
      if Flat(x) {
        HasSub(x);
      }
    }
    IterateKeeps(Step, ok, l, n);
    SameTerms(l, Run(l, n));
  }

  /** As written, it never adds an answer, whatever the query. */
  lemma {:induction false} WrittenSound(l: seq<Expr>, n: nat, v: Condition -> bool)
    requires WellFormed(l) && Eval(Run(l, n), v)
    ensures Eval(l, v)
  {
    RunImplies(l, n, v);
  }

  /** Exactly when simplifySubExpressions keeps its promise: for every query whose conditions are
      pairwise distinct, it ends with an equivalent flat query if and only if the query is safe. */
  lemma {:induction false} WrittenExact(l: seq<Expr>)
    requires WellFormed(l) && ReadOnce(l)
    ensures (exists n: nat :: FlatForm(l, Run(l, n))) <==> Safe(l)
  {
    if Safe(l) {
      SafeFlattens(l);
    } else {
      ReadOnceTerms(l);
      var t := UnsafeLoses(l);
      TermGivesAnswer(l, t);
      forall n: nat ensures !FlatForm(l, Run(l, n)) {
        assert Flat(Run(l, n)) ==> Eval(Run(l, n), Only(t)) != Eval(l, Only(t));
      }
    }
  }

  lemma {:induction false} TermGivesAnswer(l: seq<Expr>, t: Term)
    requires t in Terms(l)
    ensures Eval(l, Only(t))
  {
    assert TermHolds(t, Only(t));
    TermsHold(l, Only(t));
  }
}
