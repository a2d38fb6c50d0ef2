/**
  Shapes of condition lists: AND-blocks, well-formed queries, the intended distribution step, and
  what both steps do to a list whose first block has been taken apart.
 */
module QueryShape {
  import opened Query

  // ------------------------------------------------------------------------------- intended step

  /** A non-empty run of expressions joined by AND. */
  predicate IsBlock(b: seq<Expr>) {
    b != [] && forall i | 0 <= i < |b| - 1 :: b[i].rel == AND
  }

  function Close(b: seq<Expr>, r: Relation): (c: seq<Expr>)
    requires b != []
    ensures |c| == |b|
  {
    b[|b| - 1 := b[|b| - 1].(rel := r)]
  }

  /** Every copy closes with OR, the last one with the closing relation of the block itself. */
  function IntendedCopies(prefix: seq<Expr>, items: seq<Expr>, suffix: seq<Expr>, close: Relation): seq<Expr> {
    if items == [] then []
    else
      var n := BlockEnd(items);
      Close(Copy(prefix, items[..n], suffix), if n == |items| then close else OR)
      + IntendedCopies(prefix, items[n..], suffix, close)
  }

  /** The relation that ends the block `e suffix`. */
  function ClosingRel(e: Expr, suffix: seq<Expr>): Relation {
    if suffix == [] then e.rel else suffix[|suffix| - 1].rel
  }

  function IntendedStep(l: seq<Expr>): seq<Expr> {
    if FirstSub(l) == |l| then l
    else
      var c := FirstCut(l);
      c.front + (IntendedCopies(c.prefix, c.sub.items, c.suffix, ClosingRel(c.sub, c.suffix)) + c.rest)
  }

  lemma {:induction false} BlockEndOf(b: seq<Expr>, rest: seq<Expr>)
    requires IsBlock(b) && (b[|b| - 1].rel == OR || rest == [])
    ensures BlockEnd(b + rest) == |b|
    ensures (b + rest)[..|b|] == b && (b + rest)[|b|..] == rest
  {
    EndFromIs(b + rest, 0, |b|);
  }

  lemma {:induction false} FirstBlock(l: seq<Expr>)
    requires l != []
    ensures var n := BlockEnd(l);
            IsBlock(l[..n]) && l == l[..n] + l[n..] && (l[n - 1].rel == OR || n == |l|)
  {
    InsideBlock(l);
  }

  lemma {:induction false} TakeBlock(l: seq<Expr>) returns (b: seq<Expr>, rest: seq<Expr>)
    requires l != []
    ensures l == b + rest && |rest| < |l|
    ensures IsBlock(b) && (b[|b| - 1].rel == OR || rest == [])
  {
    FirstBlock(l);
    b, rest := l[..BlockEnd(l)], l[BlockEnd(l)..];
  }

  lemma {:induction false} IntendedCopiesUnfold(prefix: seq<Expr>, b: seq<Expr>, more: seq<Expr>, suffix: seq<Expr>,
                                                close: Relation)
    requires IsBlock(b) && (b[|b| - 1].rel == OR || more == [])
    ensures IntendedCopies(prefix, b + more, suffix, close)
         == Close(Copy(prefix, b, suffix), if more == [] then close else OR)
            + IntendedCopies(prefix, more, suffix, close)
  {
    BlockEndOf(b, more);
  }

  /** The list does not end in a dangling OR. */
  predicate Closed(l: seq<Expr>) {
    l != [] ==> l[|l| - 1].rel == AND
  }

  /** What a query given by a caller looks like: no dangling OR at any level, no empty subexpression. */
  predicate WellFormed(l: seq<Expr>) {
    Closed(l) && SubsProper(l)
  }

  predicate SingleBlock(l: seq<Expr>) {
    BlockEnd(l) == |l|
  }

  /** The situations in which copying the relations verbatim closes every copy as it should. */
  predicate GoodStep(l: seq<Expr>) {
    FirstSub(l) < |l| ==>
      var c := FirstCut(l);
      if c.suffix == [] then c.rest == [] else ClosingRel(c.sub, c.suffix) == OR || SingleBlock(c.sub.items)
  }

  lemma {:induction false} SubItems(l: seq<Expr>, p: nat)
    requires SubsProper(l) && p < |l| && l[p].Sub?
    ensures Proper(l[p].items) && l[p].items != [] && WellFormed(l[p].items)
  {
    assert l[p] in l;
  }

  lemma {:induction false} FlatFirstSub(b: seq<Expr>)
    requires Flat(b)
    ensures FirstSub(b) == |b|
  {
    SubFromIs(b, 0, |b|);
  }

  lemma {:induction false} NoSubIsFlat(b: seq<Expr>)
    requires FirstSub(b) == |b|
    ensures Flat(b)
  {
    BeforeFirstSub(b);
    assert b[..|b|] == b;
  }

  lemma {:induction false} HasSub(l: seq<Expr>)
    ensures Flat(l) <==> FirstSub(l) == |l|
  {
    if Flat(l) {
      FlatFirstSub(l);
    } else if FirstSub(l) == |l| {
      NoSubIsFlat(l);
    }
  }

  /** The AND-blocks in front of the one that is distributed: no subexpressions, closed by an OR. */
  predicate IsFront(front: seq<Expr>) {
    front != [] ==> Flat(front) && front[|front| - 1].rel == OR
  }

  /** The list `prefix e suffix rest`, whose first AND-block is `prefix e suffix`. */
  predicate IsSplit(prefix: seq<Expr>, e: Expr, suffix: seq<Expr>, rest: seq<Expr>) {
    && Flat(prefix) && AllAnd(prefix)
    && e.Sub? && Proper(e.items)
    && IsBlock([e] + suffix)
    && (ClosingRel(e, suffix) == OR || rest == [])
  }

  lemma {:induction false} SplitShape(prefix: seq<Expr>, e: Expr, suffix: seq<Expr>, rest: seq<Expr>)
    requires IsSplit(prefix, e, suffix, rest)
    ensures var b := prefix + ([e] + suffix);
            && IsBlock(b) && b[|b| - 1].rel == ClosingRel(e, suffix)
            && BlockEnd(b + rest) == |b| && (b + rest)[..|b|] == b && (b + rest)[|b|..] == rest
  {
    var b := prefix + ([e] + suffix);
    assert forall i | 0 <= i < |prefix| :: b[i] == prefix[i];
    assert forall i | 0 <= i <= |suffix| :: b[|prefix| + i] == ([e] + suffix)[i];
    BlockEndOf(b, rest);
  }

  lemma {:induction false} SuffixIsBlock(e: Expr, suffix: seq<Expr>)
    requires IsBlock([e] + suffix) && suffix != []
    ensures IsBlock(suffix) && suffix[|suffix| - 1].rel == ClosingRel(e, suffix)
  {
    assert forall i | 0 <= i < |suffix| :: suffix[i] == ([e] + suffix)[i + 1];
  }

  /** A query with a subexpression, taken apart at the block that is distributed next. */
  lemma {:induction false} Parts(l: seq<Expr>)
    returns (front: seq<Expr>, P: seq<Expr>, e: Expr, Q: seq<Expr>, rest: seq<Expr>)
    requires SubsProper(l) && !Flat(l)
    ensures IsFront(front) && IsSplit(P, e, Q, rest)
    ensures l == front + ((P + ([e] + Q)) + rest)
    ensures Step(l) == front + (Copies(P, e.items, Q) + rest)
    ensures IntendedStep(l) == front + (IntendedCopies(P, e.items, Q, ClosingRel(e, Q)) + rest)
    ensures GoodStep(l) <==> if Q == [] then rest == [] else ClosingRel(e, Q) == OR || SingleBlock(e.items)
  {
    HasSub(l);
    var c := FirstCut(l);
    front, P, e, Q, rest := c.front, c.prefix, c.sub, c.suffix, c.rest;
    CutParts(l);
  }

  /** `c` takes `l` apart at the AND-block of a subexpression that has none in front of it. */
  predicate IsCut(l: seq<Expr>, c: Cut) {
    && IsFront(c.front) && IsSplit(c.prefix, c.sub, c.suffix, c.rest)
    && l == c.front + ((c.prefix + ([c.sub] + c.suffix)) + c.rest)
  }

  lemma {:induction false} CutParts(l: seq<Expr>)
    requires SubsProper(l) && FirstSub(l) < |l|
    ensures IsCut(l, FirstCut(l))
  {
    var p := FirstSub(l);
    var b, n := BlockBegin(l, p), EndFrom(l, p);
    PartsAt(l, b, p, n);
    Sliced(l, b, p, n);
    SlicesAreCut(l, b, p, n);
  }

  lemma {:induction false} SlicesAreCut(l: seq<Expr>, b: nat, p: nat, n: nat)
    requires b <= p < n <= |l|
    requires IsFront(l[..b]) && IsSplit(l[b..p], l[p], l[p + 1..n], l[n..])
    requires l == l[..b] + ((l[b..p] + ([l[p]] + l[p + 1..n])) + l[n..])
    ensures IsCut(l, CutAt(l, b, p, n))
  {
  }

  lemma {:induction false} PartsAt(l: seq<Expr>, b: nat, p: nat, n: nat)
    requires SubsProper(l) && p == FirstSub(l) < |l| && b == BlockBegin(l, p) && n == EndFrom(l, p)
    ensures IsFront(l[..b]) && IsSplit(l[b..p], l[p], l[p + 1..n], l[n..])
  {
    assert Flat(l[..b]) && Flat(l[b..p]) by {
      BeforeFirstSub(l);
      FlatParts(l, b, p);
    }
    assert Proper(l[p].items) by { SubItems(l, p); }
    assert AllAnd(l[b..p]) by { InsideBegin(l, p); }
    assert IsBlock([l[p]] + l[p + 1..n]) by { TailIsBlock(l, p, n); }
    LastAt(l, p, n);
  }

  lemma {:induction false} LastAt(l: seq<Expr>, p: nat, n: nat)
    requires p < n <= |l|
    ensures ClosingRel(l[p], l[p + 1..n]) == l[n - 1].rel
  {
  }

  lemma {:induction false} TailIsBlock(l: seq<Expr>, p: nat, n: nat)
    requires p < |l| && n == EndFrom(l, p)
    ensures IsBlock([l[p]] + l[p + 1..n])
  {
    EndFromInside(l, p);
    assert [l[p]] + l[p + 1..n] == l[p..n];
  }

  lemma {:induction false} Sliced<X>(l: seq<X>, b: nat, p: nat, n: nat)
    requires b <= p < n <= |l|
    ensures l == l[..b] + ((l[b..p] + ([l[p]] + l[p + 1..n])) + l[n..])
  {
  }

  lemma {:induction false} FlatParts(l: seq<Expr>, b: nat, p: nat)
    requires b <= p <= |l| && Flat(l[..p])
    ensures Flat(l[..b]) && Flat(l[b..p])
  {
    assert l[..p] == l[..b] + l[b..p];
  }

  lemma {:induction false} PartsSubsProper(l: seq<Expr>, front: seq<Expr>, P: seq<Expr>, e: Expr, Q: seq<Expr>,
                                           rest: seq<Expr>)
    requires SubsProper(l) && l == front + ((P + ([e] + Q)) + rest)
    ensures SubsProper(front) && SubsProper(P) && SubsProper(Q) && SubsProper(rest)
    ensures Closed(l) ==> Closed(rest) && (rest == [] ==> ClosingRel(e, Q) == AND)
  {
    assert forall x | x in front || x in P || x in Q || x in rest :: x in l;
    assert rest != [] ==> l[|l| - 1] == rest[|rest| - 1];
    assert rest == [] ==> l[|l| - 1] == ([e] + Q)[|Q|];
  }

  /** The first AND-block of a front. */
  lemma {:induction false} TakeFront(front: seq<Expr>) returns (b: seq<Expr>, more: seq<Expr>)
    requires IsFront(front) && front != []
    ensures front == b + more && |more| < |front| && IsFront(more)
    ensures IsBlock(b) && Flat(b) && b[|b| - 1].rel == OR
  {
    b, more := TakeBlock(front);
    assert forall x | x in b || x in more :: x in front;
    assert more != [] ==> more[|more| - 1] == front[|front| - 1];
    assert more == [] ==> b == front;
  }
}
