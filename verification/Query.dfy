/**
  Nested condition lists and their in-place flattening
  (libbinom/source/binom_impl/query.cxx, libbinom/include/binom_impl/query.hxx).

  A query is a list of expressions.  Every expression carries the relation to its right-hand
  neighbour, so an OR ends an AND-block.  A query holds when all expressions of one of its
  AND-blocks hold.
 */
module Query {
  import opened Iteration

  datatype Relation = AND | OR

  datatype Operator = Equal | NotEqual | Lower | LowerOrEqual | Higher | HigherOrEqual | Contains

  /** A key value seen through the order of KeyValue::getCompare: null is below all other keys,
      and two non-null keys are equal exactly when their ranks are. */
  datatype Value = Null | Key(rank: int)

  /** One `column op value` condition. */
  datatype Condition = Condition(column: string, op: Operator, value: Value)

  datatype Expr =
    | Atom(cond: Condition, rel: Relation)
    | Sub(items: seq<Expr>, rel: Relation)

  // ------------------------------------------------------------------------------------ meaning

  /** Position behind the first OR at or after `i`, or the length of the list. */
  function EndFrom(l: seq<Expr>, i: nat): (n: nat)
    requires i <= |l|
    ensures i <= n <= |l| && (i < |l| ==> i < n)
    ensures n < |l| ==> l[n - 1].rel == OR
    decreases |l| - i
  {
    if i == |l| then i else if l[i].rel == OR then i + 1 else EndFrom(l, i + 1)
  }

  /** Length of the first AND-block: everything up to and including the first OR. */
  function BlockEnd(l: seq<Expr>): (n: nat)
    ensures n <= |l| && (l != [] ==> 0 < n)
    ensures n < |l| ==> l[n - 1].rel == OR
  {
    EndFrom(l, 0)
  }

  lemma {:induction false} EndFromInside(l: seq<Expr>, i: nat)
    requires i <= |l|
    ensures forall j | i <= j < EndFrom(l, i) - 1 :: l[j].rel == AND
    decreases |l| - i
  {
    if i < |l| && l[i].rel == AND {
      EndFromInside(l, i + 1);
    }
  }

  lemma {:induction false} InsideBlock(l: seq<Expr>)
    ensures forall i | 0 <= i < BlockEnd(l) - 1 :: l[i].rel == AND
  {
    EndFromInside(l, 0);
  }

  /** The end of the first block is where its relations say. */
  lemma {:induction false} EndFromIs(l: seq<Expr>, i: nat, n: nat)
    requires i < n <= |l|
    requires forall j | i <= j < n - 1 :: l[j].rel == AND
    requires n < |l| ==> l[n - 1].rel == OR
    ensures EndFrom(l, i) == n
    decreases |l| - i
  {
    if i < n - 1 {
      EndFromIs(l, i + 1, n);
    }
  }

  lemma {:induction false} EndFromTail(l: seq<Expr>, n: nat, i: nat)
    requires n + i <= |l|
    ensures EndFrom(l[n..], i) + n == EndFrom(l, n + i)
    decreases |l| - i
  {
    if n + i < |l| {
      assert l[n..][i] == l[n + i];
      if l[n + i].rel == AND {
        EndFromTail(l, n, i + 1);
      }
    }
  }

  ghost predicate Holds(e: Expr, v: Condition -> bool)
    decreases e
  {
    match e
    case Atom(c, _) => v(c)
    case Sub(items, _) => Eval(items, v)
  }

  ghost predicate AllHold(b: seq<Expr>, v: Condition -> bool)
    decreases b, 0
  {
    forall i | 0 <= i < |b| :: Holds(b[i], v)
  }

  /** Some AND-block of `l` holds; this is how `find` walks a query. */
  ghost predicate Eval(l: seq<Expr>, v: Condition -> bool)
    decreases l, 1
  {
    && l != []
    && var n := BlockEnd(l);
       assert n == |l| ==> l[..n] == l;
       (AllHold(l[..n], v) || Eval(l[n..], v))
  }

  predicate Flat(l: seq<Expr>) {
    forall e | e in l :: e.Atom?
  }

  /** Equal up to the relation to the right-hand neighbour. */
  predicate SameItem(a: Expr, b: Expr) {
    match a
    case Atom(c, _) => b.Atom? && b.cond == c
    case Sub(items, _) => b.Sub? && b.items == items
  }

  /** A list that can be given as a subexpression: not empty and not ending in a dangling OR. */
  predicate Proper(l: seq<Expr>)
    decreases l
  {
    && l != []
    && l[|l| - 1].rel == AND
    && forall e | e in l :: e.Sub? ==> Proper(e.items)
  }

  predicate SubsProper(l: seq<Expr>) {
    forall e | e in l :: e.Sub? ==> Proper(e.items)
  }

  /** Every expression is followed by AND. */
  predicate AllAnd(l: seq<Expr>) {
    forall e | e in l :: e.rel == AND
  }

  // --------------------------------------------------------------------------- distributing one Sub

  /** Index of the first subexpression at or after `i`, or the length of the list. */
  function SubFrom(l: seq<Expr>, i: nat): (p: nat)
    requires i <= |l|
    ensures i <= p <= |l|
    ensures p < |l| ==> l[p].Sub?
    decreases |l| - i
  {
    if i == |l| || l[i].Sub? then i else SubFrom(l, i + 1)
  }

  function FirstSub(l: seq<Expr>): (p: nat)
    ensures p <= |l|
    ensures p < |l| ==> l[p].Sub?
  {
    SubFrom(l, 0)
  }

  lemma {:induction false} SubFromAtoms(l: seq<Expr>, i: nat)
    requires i <= |l|
    ensures forall j | i <= j < SubFrom(l, i) :: l[j].Atom?
    decreases |l| - i
  {
    if i < |l| && l[i].Atom? {
      SubFromAtoms(l, i + 1);
    }
  }

  lemma {:induction false} BeforeFirstSub(l: seq<Expr>)
    ensures Flat(l[..FirstSub(l)])
  {
    SubFromAtoms(l, 0);
  }

  lemma {:induction false} SubFromIs(l: seq<Expr>, i: nat, p: nat)
    requires i <= p <= |l|
    requires forall j | i <= j < p :: l[j].Atom?
    requires p < |l| ==> l[p].Sub?
    ensures SubFrom(l, i) == p
    decreases |l| - i
  {
    if i < p {
      SubFromIs(l, i + 1, p);
    }
  }

  /** One copy as lines 114-132 write it: the copied relations stay as they are, except that a
      suffix turns the relation before it into AND. */
  function Copy(prefix: seq<Expr>, block: seq<Expr>, suffix: seq<Expr>): seq<Expr>
    requires block != []
  {
    if suffix == [] then prefix + block
    else prefix + block[|block| - 1 := block[|block| - 1].(rel := AND)] + suffix
  }

  /** One copy per AND-block of the subexpression. */
  function Copies(prefix: seq<Expr>, items: seq<Expr>, suffix: seq<Expr>): seq<Expr> {
    if items == [] then []
    else
      var n := BlockEnd(items);
      Copy(prefix, items[..n], suffix) + Copies(prefix, items[n..], suffix)
  }

  /** Position behind the last OR before `p`. */
  function BlockBegin(l: seq<Expr>, p: nat): (b: nat)
    requires p <= |l|
    ensures b <= p && (b > 0 ==> l[b - 1].rel == OR)
  {
    if p == 0 then 0 else if l[p - 1].rel == OR then p else BlockBegin(l, p - 1)
  }

  lemma {:induction false} InsideBegin(l: seq<Expr>, p: nat)
    requires p <= |l|
    ensures forall i | BlockBegin(l, p) <= i < p :: l[i].rel == AND
  {
    if p > 0 && l[p - 1].rel == AND {
      InsideBegin(l, p - 1);
    }
  }

  /** A query around its first subexpression: the AND-blocks in front, the parts of its own
      AND-block, and the blocks behind. */
  datatype Cut = Cut(front: seq<Expr>, prefix: seq<Expr>, sub: Expr, suffix: seq<Expr>, rest: seq<Expr>)

  function CutAt(l: seq<Expr>, b: nat, p: nat, e: nat): Cut
    requires b <= p < e <= |l|
  {
    Cut(l[..b], l[b..p], l[p], l[p + 1..e], l[e..])
  }

  function FirstCut(l: seq<Expr>): (c: Cut)
    requires FirstSub(l) < |l|
    ensures c.sub.Sub?
  {
    var p := FirstSub(l);
    CutAt(l, BlockBegin(l, p), p, EndFrom(l, p))
  }

  /** Distributes the first subexpression of the list over its AND-block, as written. */
  function Step(l: seq<Expr>): seq<Expr> {
    if FirstSub(l) == |l| then l
    else
      var c := FirstCut(l);
      c.front + (Copies(c.prefix, c.sub.items, c.suffix) + c.rest)
  }

  /** The query after `n` rounds of the rescan. */
  function Run(l: seq<Expr>, n: nat): seq<Expr> {
    Iterate(Step, l, n)
  }

  /** The rescan loop of simplifySubExpressions comes to an end. */
  ghost predicate Terminates(l: seq<Expr>) {
    exists n: nat :: Flat(Run(l, n))
  }
}
