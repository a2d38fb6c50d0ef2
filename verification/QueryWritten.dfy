/**
  The distribution as written against the intended one: it never adds an answer, it coincides with
  the intended step exactly in three syntactic situations, and where it does not coincide it loses
  an answer of every query whose expansion has no redundant term.
 */
module QueryWritten {
  import opened Query
  import opened QueryTerms
  import opened QueryShape
  import opened QueryRewrite

  // --------------------------------------------------------------- written step is a tightening

  /** `w` is `r` with some ORs turned into ANDs. */
  predicate Tighter(w: seq<Expr>, r: seq<Expr>) {
    && |w| == |r|
    && forall i | 0 <= i < |w| :: SameItem(w[i], r[i]) && (r[i].rel == AND ==> w[i].rel == AND)
  }

  lemma {:induction false} TighterAppend(a: seq<Expr>, b: seq<Expr>, c: seq<Expr>, d: seq<Expr>)
    requires Tighter(a, c) && Tighter(b, d)
    ensures Tighter(a + b, c + d)
  {
  }

  lemma {:induction false} SameItemHolds(a: Expr, b: Expr, v: Condition -> bool)
    requires SameItem(a, b)
    ensures Holds(a, v) == Holds(b, v)
  {
  }

  /** A block boundary splits the meaning. */
  lemma {:induction false} EvalFromBoundary(l: seq<Expr>, j: nat, v: Condition -> bool)
    requires 0 < j <= |l| && l[j - 1].rel == OR && Eval(l[j..], v)
    ensures Eval(l, v)
    decreases |l|
  {
    var n := BlockEnd(l);
    InsideBlock(l);
    if n < j {
      assert l[n..][j - n..] == l[j..];
      assert l[n..][j - n - 1] == l[j - 1];
      EvalFromBoundary(l[n..], j - n, v);
    }
  }

  lemma {:induction false} TighterBlock(w: seq<Expr>, r: seq<Expr>)
    requires Tighter(w, r) && w != []
    ensures BlockEnd(r) <= BlockEnd(w)
  {
    var n, m := BlockEnd(r), BlockEnd(w);
    InsideBlock(r);
    assert forall i | 0 <= i < n - 1 :: r[i].rel == AND && w[i].rel == AND;
    assert m < |w| ==> w[m - 1].rel == OR;
  }

  /** Turning an OR into an AND never makes a query hold that did not. */
  lemma {:induction false} TighterImplies(w: seq<Expr>, r: seq<Expr>, v: Condition -> bool)
    requires Tighter(w, r) && Eval(w, v)
    ensures Eval(r, v)
    decreases |w|
  {
    var n, m := BlockEnd(r), BlockEnd(w);
    TighterBlock(w, r);
    if AllHold(w[..m], v) {
      forall i | 0 <= i < n ensures Holds(r[..n][i], v) {
        assert w[..m][i] == w[i];
        SameItemHolds(w[i], r[i], v);
      }
    } else {
      TighterImplies(w[m..], r[m..], v);
      assert r[m - 1].rel == OR;
      EvalFromBoundary(r, m, v);
    }
  }

  lemma {:induction false} CopyTighter(prefix: seq<Expr>, block: seq<Expr>, suffix: seq<Expr>, r: Relation)
    requires block != []
    requires r == AND ==> Copy(prefix, block, suffix)[|prefix| + |block| + |suffix| - 1].rel == AND
    ensures Tighter(Copy(prefix, block, suffix), Close(Copy(prefix, block, suffix), r))
  {
  }

  lemma {:induction false} CopiesTighter(prefix: seq<Expr>, items: seq<Expr>, suffix: seq<Expr>, close: Relation)
    requires Closed(items)
    requires suffix != [] ==> suffix[|suffix| - 1].rel == close
    ensures Tighter(Copies(prefix, items, suffix), IntendedCopies(prefix, items, suffix, close))
    decreases |items|
  {
    if items != [] {
      var n := BlockEnd(items);
      var r := if n == |items| then close else OR;
      CopyTighter(prefix, items[..n], suffix, r);
      CopiesTighter(prefix, items[n..], suffix, close);
      TighterAppend(Copy(prefix, items[..n], suffix), Copies(prefix, items[n..], suffix),
                    Close(Copy(prefix, items[..n], suffix), r), IntendedCopies(prefix, items[n..], suffix, close));
    }
  }

  lemma {:induction false} StepTighter(l: seq<Expr>)
    requires SubsProper(l)
    ensures Tighter(Step(l), IntendedStep(l))
  {
    HasSub(l);
    if !Flat(l) {
      var front, P, e, Q, rest := Parts(l);
      SplitTighter(front, P, e, Q, rest);
    } else {
      SameIsTighter(l);
    }
  }

  lemma {:induction false} SameIsTighter(l: seq<Expr>)
    ensures Tighter(l, l)
  {
  }

  lemma {:induction false} SplitTighter(front: seq<Expr>, P: seq<Expr>, e: Expr, Q: seq<Expr>, rest: seq<Expr>)
    requires IsSplit(P, e, Q, rest)
    ensures Tighter(front + (Copies(P, e.items, Q) + rest),
                    front + (IntendedCopies(P, e.items, Q, ClosingRel(e, Q)) + rest))
  {
    var close := ClosingRel(e, Q);
    CopiesTighter(P, e.items, Q, close);
    var w, r := Copies(P, e.items, Q), IntendedCopies(P, e.items, Q, close);
    SameIsTighter(rest);
    SameIsTighter(front);
    TighterAppend(w, rest, r, rest);
    TighterAppend(front, w + rest, front, r + rest);
  }

  // ---------------------------------------------------------------- well-formedness along a run

  lemma {:induction false} CopiesWellFormed(prefix: seq<Expr>, items: seq<Expr>, suffix: seq<Expr>)
    requires SubsProper(prefix) && SubsProper(suffix) && WellFormed(items) && items != []
    requires Closed(suffix) || suffix[|suffix| - 1].rel == OR
    ensures SubsProper(Copies(prefix, items, suffix))
    ensures var c := Copies(prefix, items, suffix);
            c != [] && c[|c| - 1].rel == if suffix == [] then AND else suffix[|suffix| - 1].rel
    decreases |items|
  {
    var n := BlockEnd(items);
    var c := Copy(prefix, items[..n], suffix);
    forall i | 0 <= i < |c| && c[i].Sub? ensures Proper(c[i].items) {
      if |prefix| + n <= i {
        assert c[i] == suffix[i - |prefix| - n];
      } else if |prefix| <= i {
        assert SameItem(c[i], items[i - |prefix|]);
      } else {
        assert c[i] == prefix[i];
      }
    }
    if n < |items| {
      assert SubsProper(items[n..]);
      CopiesWellFormed(prefix, items[n..], suffix);
    }
  }

  lemma {:induction false} ClosedAppend(a: seq<Expr>, b: seq<Expr>)
    ensures SubsProper(a) && SubsProper(b) ==> SubsProper(a + b)
    ensures Closed(b) && (b == [] ==> Closed(a)) ==> Closed(a + b)
  {
    assert b != [] ==> (a + b)[|a + b| - 1] == b[|b| - 1];
    assert b == [] ==> a + b == a;
  }

  /** A round leaves subexpressions as they should be, and no dangling OR if there was none. */
  lemma {:induction false} StepWellFormed(l: seq<Expr>)
    requires SubsProper(l)
    ensures SubsProper(Step(l)) && (Closed(l) ==> Closed(Step(l)))
  {
    HasSub(l);
    if !Flat(l) {
      var front, P, e, Q, rest := Parts(l);
      PartsSubsProper(l, front, P, e, Q, rest);
      SplitWellFormed(front, P, e, Q, rest);
    }
  }

  lemma {:induction false} SplitWellFormed(front: seq<Expr>, P: seq<Expr>, e: Expr, Q: seq<Expr>, rest: seq<Expr>)
    requires SubsProper(front) && SubsProper(P) && SubsProper(Q) && SubsProper(rest)
    requires IsSplit(P, e, Q, rest)
    ensures var s := front + (Copies(P, e.items, Q) + rest);
            SubsProper(s) && (Closed(rest) && (rest == [] ==> ClosingRel(e, Q) == AND) ==> Closed(s))
  {
    assert WellFormed(e.items);
    CopiesWellFormed(P, e.items, Q);
    var c := Copies(P, e.items, Q);
    ClosedAppend(c, rest);
    ClosedAppend(front, c + rest);
  }

  // -------------------------------------------------------------------------- lost answers

  /** No term of the expansion is implied by another one. */
  ghost predicate Irredundant(ts: seq<Term>) {
    forall i, j | 0 <= i < |ts| && 0 <= j < |ts| && i != j :: !(ts[i] <= ts[j])
  }

  /** The answer in which exactly the conditions of `t` hold. */
  function Only(t: Term): Condition -> bool {
    c => c in t
  }

  lemma {:induction false} NoTermHolds(ts: seq<Term>, t: Term, v: Condition -> bool)
    requires v == Only(t)
    requires forall s | s in ts :: !(s <= t)
    ensures !AnyHolds(ts, v)
  {
    forall s | s in ts ensures !TermHolds(s, v) {
      var c :| c in s && c !in t;
      assert !v(c);
    }
  }

  lemma {:induction false} SubsProperParts(l: seq<Expr>, n: nat)
    requires SubsProper(l) && n <= |l|
    ensures SubsProper(l[..n]) && SubsProper(l[n..])
    ensures Closed(l) ==> Closed(l[n..])
  {
    assert forall x | x in l[..n] || x in l[n..] :: x in l;
    assert n < |l| ==> l[n..][|l| - n - 1] == l[|l| - 1];
  }

  lemma {:induction false} SplitTerms(l: seq<Expr>, t: Term, v: Condition -> bool)
    requires l != [] && SubsProper(l) && Irredundant(Terms(l)) && v == Only(t)
    ensures var n := BlockEnd(l);
            && Irredundant(Terms(l[n..]))
            && (t in Terms(l[n..]) ==> !AllHold(l[..n], v))
            && (t in BlockTerms(l[..n]) ==> !Eval(l[n..], v))
  {
    var n := BlockEnd(l);
    var a, b := BlockTerms(l[..n]), Terms(l[n..]);
    assert Terms(l) == a + b;
    forall i, j | 0 <= i < |b| && 0 <= j < |b| && i != j ensures !(b[i] <= b[j]) {
      assert (a + b)[|a| + i] == b[i] && (a + b)[|a| + j] == b[j];
    }
    if t in b {
      var j :| 0 <= j < |b| && b[j] == t;
      forall s | s in a ensures !(s <= t) {
        var i :| 0 <= i < |a| && a[i] == s;
        assert (a + b)[i] == s && (a + b)[|a| + j] == t;
      }
      NoTermHolds(a, t, v);
      BlockTermsHold(l[..n], v);
    }
    if t in a {
      var i :| 0 <= i < |a| && a[i] == t;
      forall s | s in b ensures !(s <= t) {
        var j :| 0 <= j < |b| && b[j] == s;
        assert (a + b)[i] == t && (a + b)[|a| + j] == s;
      }
      NoTermHolds(b, t, v);
      TermsHold(l[n..], v);
    }
  }

  lemma {:induction false} SameFirstBlock(w: seq<Expr>, r: seq<Expr>)
    requires Tighter(w, r) && r != [] && BlockEnd(w) == BlockEnd(r) && Closed(r)
    ensures var n := BlockEnd(r);
            && w[..n] == r[..n]
            && Tighter(w[n..], r[n..])
            && (w != r ==> w[n..] != r[n..])
  {
    var n := BlockEnd(r);
    InsideBlock(r);
    InsideBlock(w);
    forall i | 0 <= i < n ensures w[i] == r[i] {
      assert SameItem(w[i], r[i]);
      assert w[i].rel == r[i].rel;
    }
    assert w == w[..n] + w[n..] && r == r[..n] + r[n..];
  }

  lemma {:induction false} NextBlockInside(w: seq<Expr>, r: seq<Expr>, n: nat, m: nat)
    requires Tighter(w, r) && 0 < n < m <= |w| && n == BlockEnd(r) && m == BlockEnd(w)
    ensures n + BlockEnd(r[n..]) <= m
  {
    var j := BlockEnd(w[n..]);
    InsideBlock(w[n..]);
    TighterBlock(w[n..], r[n..]);
    assert forall i | 0 <= i < j - 1 :: w[n + i] == w[n..][i];
    assert m < |w| ==> w[m - 1].rel == OR;
  }

  lemma {:induction false} MergedBlockFails(w: seq<Expr>, r: seq<Expr>, n: nat, m: nat, v: Condition -> bool)
    requires Tighter(w, r) && 0 < n < m <= |w| && n == BlockEnd(r) && m == BlockEnd(w)
    requires AllHold(w[..m], v)
    ensures Eval(r[n..], v)
  {
    var rest := r[n..];
    var k := BlockEnd(rest);
    NextBlockInside(w, r, n, m);
    assert AllHold(rest[..k], v) by {
      forall i | 0 <= i < k ensures Holds(rest[i], v) {
        assert rest[i] == r[n + i];
        assert w[..m][n + i] == w[n + i];
        SameItemHolds(w[n + i], r[n + i], v);
      }
    }
  }

  /** A strict tightening of an irredundant query loses the answer given by one of its terms. */
  lemma {:induction false} Lost(w: seq<Expr>, r: seq<Expr>) returns (t: Term)
    requires Tighter(w, r) && w != r && Closed(r) && SubsProper(r) && Irredundant(Terms(r))
    ensures t in Terms(r) && !Eval(w, Only(t))
    decreases |r|
  {
    var n, m := BlockEnd(r), BlockEnd(w);
    TighterBlock(w, r);
    SubsProperParts(r, n);
    if m == n {
      SameFirstBlock(w, r);
      SplitTerms(r, {}, Only({}));
      t := Lost(w[n..], r[n..]);
      SplitTerms(r, t, Only(t));
    } else {
      BlockExpandNotEmpty(r[..n], false);
      t := BlockTerms(r[..n])[0];
      LostToMerge(w, r, t, Only(t));
    }
  }

  lemma {:induction false} LostToMerge(w: seq<Expr>, r: seq<Expr>, t: Term, v: Condition -> bool)
    requires Tighter(w, r) && r != [] && BlockEnd(r) < BlockEnd(w) && SubsProper(r) && Irredundant(Terms(r))
    requires t in BlockTerms(r[..BlockEnd(r)]) && v == Only(t)
    ensures !Eval(w, v)
  {
    var n, m := BlockEnd(r), BlockEnd(w);
    SplitTerms(r, t, v);
    if AllHold(w[..m], v) {
      MergedBlockFails(w, r, n, m, v);
    }
    if Eval(w[m..], v) {
      TighterImplies(w[m..], r[m..], v);
      assert r[n..][m - n..] == r[m..];
      assert r[n..][m - n - 1] == r[m - 1];
      EvalFromBoundary(r[n..], m - n, v);
    }
  }
}
