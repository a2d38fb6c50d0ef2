/**
  The rescan comes to an end exactly on the queries with a finite count of rounds that are not the
  intended ones, and makes that many of them.
 */
module QueryEnding {
  import opened Iteration
  import opened Query
  import opened QueryShape
  import opened QueryRewrite
  import opened QuerySafe
  import opened QueryExact
  import opened QueryRounds

  /** The rescan of the query comes to an end, as read off the query. */
  predicate Ends(l: seq<Expr>)
    requires SubsProper(l)
  {
    BadRounds(l).Rounds?
  }

  lemma {:induction false} FlatRounds(l: seq<Expr>)
    requires Flat(l)
    ensures BadRounds(l) == Rounds(0)
  {
    FlatTail(l);
    FlatDoubling(Tail(l));
  }

  lemma {:induction false} FlatTail(l: seq<Expr>)
    requires Flat(l)
    ensures Joining(l) == Rounds(0) && Flat(Tail(l))
    decreases |l|
  {
    var n := BlockEnd(l);
    if l != [] && n < |l| {
      assert l[n - 1] in l && Flat(l[n..]);
      FlatTail(l[n..]);
    }
  }

  lemma {:induction false} FlatDoubling(t: seq<Expr>)
    requires Flat(t)
    ensures Doubling(t) == Rounds(0)
  {
    if t != [] {
      assert t[0] in t && Flat(t[1..]);
      FlatDoubling(t[1..]);
    }
  }

  lemma {:induction false} RunToEnd(l: seq<Expr>) returns (n: nat)
    requires WellFormed(l) && Ends(l)
    ensures Flat(Run(l, n))
    decreases BadRounds(l).n, Weight(l)
  {
    n := 0;
    if !Flat(l) {
      StepCount(l);
      StepIsWritten(l);
      n := RunToEnd(Step(l));
      n := n + 1;
    }
  }

  /** Exactly when the rescan comes to an end, for every nested query. */
  lemma {:induction false} EndsExact(l: seq<Expr>)
    requires WellFormed(l)
    ensures Terminates(l) <==> Ends(l)
  {
    if Ends(l) {
      var n := RunToEnd(l);
    } else {
      forall n: nat ensures !Flat(Run(l, n)) {
        RoundsMade(l, n);
        if Flat(Run(l, n)) {
          FlatRounds(Run(l, n));
        }
      }
    }
  }

  /** The rounds among the first `n` that are not the intended ones. */
  ghost function MadeBad(l: seq<Expr>, n: nat): nat
    decreases n
  {
    if n == 0 then 0 else (if GoodStep(l) then 0 else 1) + MadeBad(Step(l), n - 1)
  }

  lemma {:induction false} OneRound(l: seq<Expr>)
    requires WellFormed(l)
    ensures WellFormed(Step(l)) && BadRounds(l) == Plus(Rounds(if GoodStep(l) then 0 else 1), BadRounds(Step(l)))
  {
    StepIsWritten(l);
    if Flat(l) {
      HasSub(l);
    } else {
      StepCount(l);
    }
  }

  /** `x` is left after `n` rounds as far as the counts go. */
  ghost predicate Tracked(l: seq<Expr>, n: nat, x: seq<Expr>)
    requires SubsProper(l)
  {
    WellFormed(x) && BadRounds(l) == Plus(Rounds(MadeBad(l, n)), BadRounds(x))
  }

  lemma {:induction false} TrackedBefore(l: seq<Expr>, n: nat, x: seq<Expr>)
    requires WellFormed(l) && n > 0 && SubsProper(Step(l)) && Tracked(Step(l), n - 1, x)
    ensures Tracked(l, n, x)
  {
    var next := Step(l);
    OneRound(l);
    Counted(if GoodStep(l) then 0 else 1, MadeBad(next, n - 1), BadRounds(l), BadRounds(next), BadRounds(x));
  }

  lemma {:induction false} RoundsMade(l: seq<Expr>, n: nat)
    requires WellFormed(l)
    ensures Tracked(l, n, Run(l, n))
    decreases n
  {
    if n > 0 {
      var next := Step(l);
      assert WellFormed(next) by { OneRound(l); }
      RoundsMade(next, n - 1);
      TrackedBefore(l, n, Run(next, n - 1));
    }
  }

  lemma {:induction false} Counted(a: nat, b: nat, x: Count, y: Count, z: Count)
    requires x == Plus(Rounds(a), y) && y == Plus(Rounds(b), z)
    ensures x == Plus(Rounds(a + b), z)
  {
  }

  /** The count is the number of such rounds, however long the rescan goes on behind its end. */
  lemma {:induction false} CountExact(l: seq<Expr>, n: nat)
    requires WellFormed(l) && Flat(Run(l, n))
    ensures BadRounds(l) == Rounds(MadeBad(l, n))
  {
    RoundsMade(l, n);
    FlatRounds(Run(l, n));
  }

  /** The safe queries are those without such rounds. */
  lemma {:induction false} SafeCount(l: seq<Expr>)
    requires WellFormed(l)
    ensures Safe(l) <==> BadRounds(l) == Rounds(0)
    decreases Weight(l)
  {
    StepIsWritten(l);
    if Flat(l) {
      FlatIsSafe(l);
      FlatRounds(l);
    } else {
      StepCount(l);
      if GoodStep(l) {
        SafeCount(Step(l));
      }
    }
  }
}
