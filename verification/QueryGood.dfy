/**
  The written step is the intended one exactly in the three situations of GoodStep.
 */
module QueryGood {
  import opened Query
  import opened QueryTerms
  import opened QueryShape
  import opened QueryRewrite
  import opened QueryWritten
  import opened QuerySafe

  // --------------------------------------------------------------------- good steps are intended steps

  lemma {:induction false} GoodCopies(prefix: seq<Expr>, items: seq<Expr>, suffix: seq<Expr>, close: Relation)
    requires Closed(items)
    requires suffix != [] ==> suffix[|suffix| - 1].rel == close
    requires if suffix == [] then close == AND else close == OR || SingleBlock(items)
    ensures Copies(prefix, items, suffix) == IntendedCopies(prefix, items, suffix, close)
    decreases |items|
  {
    if items != [] {
      var n := BlockEnd(items);
      var c := Copy(prefix, items[..n], suffix);
      var r := if n == |items| then close else OR;
      assert c[|c| - 1].rel == r;
      assert Close(c, r) == c;
      GoodCopies(prefix, items[n..], suffix, close);
    }
  }

  lemma {:induction false} LastOfCopies(prefix: seq<Expr>, items: seq<Expr>, suffix: seq<Expr>, close: Relation)
    requires items != []
    ensures var c := IntendedCopies(prefix, items, suffix, close); c != [] && c[|c| - 1].rel == close
    decreases |items|
  {
    var n := BlockEnd(items);
    if n < |items| {
      LastOfCopies(prefix, items[n..], suffix, close);
    }
  }

  lemma {:induction false} BadCopies(prefix: seq<Expr>, items: seq<Expr>, suffix: seq<Expr>, close: Relation)
    requires Proper(items) && SubsProper(prefix) && SubsProper(suffix)
    requires suffix != [] ==> suffix[|suffix| - 1].rel == close
    requires if suffix == [] then close == OR else close == AND && !SingleBlock(items)
    ensures Copies(prefix, items, suffix) != IntendedCopies(prefix, items, suffix, close)
  {
    assert SubsProper(items);
    if suffix == [] {
      CopiesWellFormed(prefix, items, suffix);
      LastOfCopies(prefix, items, suffix, close);
    } else {
      var n := BlockEnd(items);
      var c, w, r := Copy(prefix, items[..n], suffix), Copies(prefix, items[n..], suffix),
          IntendedCopies(prefix, items[n..], suffix, close);
      FirstDiffers(c, w, r);
    }
  }

  lemma {:induction false} FirstDiffers(c: seq<Expr>, w: seq<Expr>, r: seq<Expr>)
    requires c != [] && c[|c| - 1].rel == AND
    ensures c + w != Close(c, OR) + r
  {
    assert (c + w)[|c| - 1].rel == AND && (Close(c, OR) + r)[|c| - 1].rel == OR;
  }

  lemma {:induction false} CopiesExact(prefix: seq<Expr>, e: Expr, suffix: seq<Expr>, rest: seq<Expr>)
    requires IsSplit(prefix, e, suffix, rest) && SubsProper(prefix) && SubsProper(suffix)
    requires rest == [] ==> ClosingRel(e, suffix) == AND
    ensures Copies(prefix, e.items, suffix) == IntendedCopies(prefix, e.items, suffix, ClosingRel(e, suffix))
            <==> if suffix == [] then rest == [] else ClosingRel(e, suffix) == OR || SingleBlock(e.items)
  {
    var close := ClosingRel(e, suffix);
    if suffix != [] {
      SuffixIsBlock(e, suffix);
    }
    if (if suffix == [] then rest == [] else close == OR || SingleBlock(e.items)) {
      GoodCopies(prefix, e.items, suffix, close);
    } else {
      BadCopies(prefix, e.items, suffix, close);
    }
  }

  /** The written step is the intended one exactly in the three situations of GoodStep. */
  lemma {:induction false} GoodStepExact(l: seq<Expr>)
    requires WellFormed(l)
    ensures Step(l) == IntendedStep(l) <==> GoodStep(l)
  {
    HasSub(l);
    if !Flat(l) {
      var front, P, e, Q, rest := Parts(l);
      PartsSubsProper(l, front, P, e, Q, rest);
      var w, r := Copies(P, e.items, Q), IntendedCopies(P, e.items, Q, ClosingRel(e, Q));
      SameHead(front, w + rest, r + rest);
      SameTail(w, r, rest);
      CopiesExact(P, e, Q, rest);
    }
  }

  lemma {:induction false} SameTail(a: seq<Expr>, b: seq<Expr>, rest: seq<Expr>)
    ensures a + rest == b + rest <==> a == b
  {
    if a + rest == b + rest {
      assert |a| == |b|;
      assert a == (a + rest)[..|a|] && b == (b + rest)[..|b|];
    }
  }

  lemma {:induction false} SameHead(h: seq<Expr>, a: seq<Expr>, b: seq<Expr>)
    ensures h + a == h + b <==> a == b
  {
    assert a == (h + a)[|h|..] && b == (h + b)[|h|..];
  }
}
