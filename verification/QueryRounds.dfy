/**
  Which queries the rescan comes to an end on: the number of its rounds that are not the intended ones,
  read off the nested query.

  A subexpression that ends an AND-block is followed by the next one joins its last block to what
  follows; in the last AND-block of all, the copies of what follows a subexpression are joined to each
  other.  Either may leave more to do than there was before.
 */
module QueryRounds {
  import opened Collections
  import opened Query
  import opened QueryShape
  import opened QuerySafe

  // --------------------------------------------------------------------------------------- counting

  /** A number of rounds. */
  datatype Count = Endless | Rounds(n: nat)

  function Plus(a: Count, b: Count): Count {
    if a.Rounds? && b.Rounds? then Rounds(a.n + b.n) else Endless
  }

  function Times(k: nat, c: Count): Count {
    if k == 0 then Rounds(0) else Plus(c, Times(k - 1, c))
  }

  lemma {:induction false} TimesPlus(a: nat, b: nat, c: Count)
    ensures Times(a + b, c) == Plus(Times(a, c), Times(b, c))
    decreases a
  {
    if a > 0 {
      TimesPlus(a - 1, b, c);
    }
  }

  /** The product, in steps. */
  function Mul(a: nat, b: nat): nat {
    if a == 0 then 0 else b + Mul(a - 1, b)
  }

  lemma {:induction false} Distribute(x: nat, y: nat, z: nat)
    ensures Mul(x + y, z) == Mul(x, z) + Mul(y, z)
  {
    if x > 0 {
      Distribute(x - 1, y, z);
    }
  }

  lemma {:induction false} Associate(x: nat, y: nat, z: nat)
    ensures Mul(Mul(x, y), z) == Mul(x, Mul(y, z))
  {
    if x > 0 {
      Distribute(y, Mul(x - 1, y), z);
      Associate(x - 1, y, z);
    }
  }

  lemma {:induction false} Positive(x: nat, y: nat)
    requires x >= 1 && y >= 1
    ensures Mul(x, y) >= 1 && (Mul(x, y) == 1 <==> x == 1 && y == 1)
    ensures x == 1 ==> Mul(x, y) == y
  {
    if x > 1 {
      Positive(x - 1, y);
    }
  }

  /** The AND-blocks that an expression, the blocks of a list, are distributed to. */
  function Choice(e: Expr): nat
    decreases e
  {
    match e
    case Atom(_, _) => 1
    case Sub(items, _) => Choices(items)
  }

  function Ways(b: seq<Expr>): nat
    decreases b, 0
  {
    if b == [] then 1 else Mul(Choice(b[0]), Ways(b[1..]))
  }

  function Choices(l: seq<Expr>): nat
    decreases l, 1
  {
    if l == [] then 0
    else
      var n := BlockEnd(l);
      assert n == |l| ==> l[..n] == l;
      Ways(l[..n]) + Choices(l[n..])
  }

  lemma {:induction false} WaysAppend(a: seq<Expr>, b: seq<Expr>)
    ensures Ways(a + b) == Mul(Ways(a), Ways(b))
  {
    if a == [] {
      assert a + b == b;
    } else {
      assert (a + b)[1..] == a[1..] + b;
      WaysAppend(a[1..], b);
      Associate(Choice(a[0]), Ways(a[1..]), Ways(b));
    }
  }

  lemma {:induction false} ChoicesPositive(l: seq<Expr>)
    requires l != [] && SubsProper(l)
    ensures Choices(l) >= 1
    decreases l, 1
  {
    var n := BlockEnd(l);
    assert n == |l| ==> l[..n] == l;
    assert SubsProper(l[..n]);
    WaysPositive(l[..n]);
  }

  lemma {:induction false} WaysPositive(b: seq<Expr>)
    requires SubsProper(b)
    ensures Ways(b) >= 1
    decreases b, 0
  {
    if b != [] {
      assert b[0] in b && SubsProper(b[1..]);
      WaysPositive(b[1..]);
      if b[0].Sub? {
        ChoicesPositive(b[0].items);
      }
      Positive(Choice(b[0]), Ways(b[1..]));
    }
  }

  lemma {:induction false} FlatWays(b: seq<Expr>)
    requires Flat(b)
    ensures Ways(b) == 1
  {
    if b != [] {
      assert b[0] in b && Flat(b[1..]);
      FlatWays(b[1..]);
    }
  }

  /** Relations do not count. */
  lemma {:induction false} WaysCong(a: seq<Expr>, b: seq<Expr>)
    requires |a| == |b| && forall i | 0 <= i < |a| :: SameItem(a[i], b[i])
    ensures Ways(a) == Ways(b)
    decreases |a|
  {
    if a != [] {
      assert SameItem(a[0], b[0]);
      assert forall i | 0 <= i < |a[1..]| :: SameItem(a[1..][i], b[1..][i]) by {
        assert forall i | 0 <= i < |a[1..]| :: a[1..][i] == a[i + 1] && b[1..][i] == b[i + 1];
      }
      WaysCong(a[1..], b[1..]);
    }
  }

  lemma {:induction false} WaysOfParts(a: seq<Expr>, b: seq<Expr>)
    requires SubsProper(a) && SubsProper(b)
    ensures Ways(a) >= 1 && Ways(b) >= 1 && Ways(a + b) >= 1
    ensures Ways(a + b) == 1 <==> Ways(a) == 1 && Ways(b) == 1
    ensures Ways(a) == 1 ==> Ways(a + b) == Ways(b)
  {
    WaysAppend(a, b);
    WaysPositive(a);
    WaysPositive(b);
    Positive(Ways(a), Ways(b));
  }

  lemma {:induction false} ChoicesOfBlock(b: seq<Expr>, more: seq<Expr>)
    requires IsBlock(b) && (b[|b| - 1].rel == OR || more == [])
    ensures Choices(b + more) == Ways(b) + Choices(more)
  {
    BlockEndOf(b, more);
  }

  // ---------------------------------------------------------------- what the blocks in front come to

  /** What is left to do behind the first of several AND-blocks: a subexpression at its end, and the
      other blocks behind that. */
  function Merged(l: seq<Expr>): (r: seq<Expr>)
    requires l != [] && BlockEnd(l) < |l|
    ensures NodeCount(r) < NodeCount(l)
  {
    var n := BlockEnd(l);
    NodeCountSplit(l, n);
    if l[n - 1].Atom? then l[n..]
    else
      NodeCountSplit(l[..n], n - 1);
      NodeCountAppend(l[n - 1].items, l[n..]);
      l[n - 1].items + l[n..]
  }

  /** The last AND-block when all others have been distributed, up to conditions in front of it. */
  function Tail(l: seq<Expr>): (t: seq<Expr>)
    ensures NodeCount(t) <= NodeCount(l)
    decreases NodeCount(l)
  {
    if l == [] || BlockEnd(l) == |l| then l else Tail(Merged(l))
  }

  /** `k` AND-blocks that end in a subexpression, with what has to be done behind them: all but the last
      one join the subexpression to another copy of it. */
  function Chain(k: nat, own: Count, open: bool, behind: Count): Count
    requires k >= 1
  {
    if k > 1 && open then Endless else Plus(Times(k - 1, Plus(Rounds(1), own)), Plus(Rounds(1), behind))
  }

  /** The rounds that join an AND-block to the next one. */
  function Joining(l: seq<Expr>): Count
    requires SubsProper(l)
    decreases NodeCount(l)
  {
    if l == [] || BlockEnd(l) == |l| then Rounds(0)
    else
      var n := BlockEnd(l);
      JoinedProper(l);
      if l[n - 1].Atom? then Joining(Merged(l))
      else
        var s := l[n - 1].items;
        EndNodes(l);
        WaysPositive(l[..n - 1]);
        Chain(Ways(l[..n - 1]), Joining(s), Ways(Tail(s)) > 1, Joining(Merged(l)))
  }

  lemma {:induction false} JoinedProper(l: seq<Expr>)
    requires SubsProper(l) && l != [] && BlockEnd(l) < |l|
    ensures var n := BlockEnd(l);
            SubsProper(Merged(l)) && SubsProper(l[..n - 1])
                && (l[n - 1].Sub? ==> Proper(l[n - 1].items) && SubsProper(l[n - 1].items))
  {
    assert l[BlockEnd(l) - 1] in l;
  }

  lemma {:induction false} EndNodes(l: seq<Expr>)
    requires l != [] && BlockEnd(l) < |l| && l[BlockEnd(l) - 1].Sub?
    ensures NodeCount(l[BlockEnd(l) - 1].items) < NodeCount(l)
  {
    var n := BlockEnd(l);
    NodeCountSplit(l, n);
    NodeCountSplit(l[..n], n - 1);
    assert l[..n][n - 1..] == [l[n - 1]];
  }

  function Anded(l: seq<Expr>): (r: seq<Expr>)
    ensures |r| == |l| && NodeCount(r) == NodeCount(l)
  {
    if l == [] then [] else [l[0].(rel := AND)] + Anded(l[1..])
  }

  /** The rounds that join the copies in the last AND-block. */
  function Doubling(t: seq<Expr>): Count
    requires SubsProper(t)
    decreases NodeCount(t), 0
  {
    if t == [] then Rounds(0)
    else if t[0].Atom? then Doubling(t[1..])
    else
      SubItems(t, 0);
      if |t| == 1 then BadRounds(t[0].items)
      else
        var s := t[0].items;
        AndedProper(s);
        NodeCountAppend(Anded(s), t[1..]);
        if SingleBlock(s) then Doubling(Anded(s) + t[1..])
        else if Ways(t[1..]) > 1 then Endless
        else Plus(Rounds(1), Doubling(Anded(s) + t[1..]))
  }

  /** The rounds that are not the intended ones. */
  function BadRounds(l: seq<Expr>): Count
    requires SubsProper(l)
    decreases NodeCount(l), 1
  {
    TailProper(l);
    Plus(Joining(l), Doubling(Tail(l)))
  }

  lemma {:induction false} AndedProper(l: seq<Expr>)
    requires SubsProper(l)
    ensures SubsProper(Anded(l)) && AllAnd(Anded(l))
    ensures forall i | 0 <= i < |l| :: SameItem(l[i], Anded(l)[i])
    ensures Ways(Anded(l)) == Ways(l)
  {
    if l != [] {
      assert l[0] in l && SubsProper(l[1..]);
      AndedProper(l[1..]);
    }
  }

  lemma {:induction false} TailProper(l: seq<Expr>)
    requires SubsProper(l)
    ensures SubsProper(Tail(l))
    decreases NodeCount(l)
  {
    if l != [] && BlockEnd(l) < |l| {
      JoinedProper(l);
      TailProper(Merged(l));
    }
  }

  // ---------------------------------------------------------------------------- appending to a list

  /** The first of several AND-blocks, taken apart. */
  lemma {:induction false} FirstJoins(b: seq<Expr>, rest: seq<Expr>)
    requires IsBlock(b) && b[|b| - 1].rel == OR && rest != [] && SubsProper(b + rest)
    ensures BlockEnd(b + rest) == |b| < |b + rest|
    ensures var x, e := b[..|b| - 1], b[|b| - 1];
            && Merged(b + rest) == (if e.Atom? then rest else e.items + rest)
            && SubsProper(x) && SubsProper(rest) && Ways(x) >= 1
            && Tail(b + rest) == Tail(Merged(b + rest))
            && (e.Atom? ==> Joining(b + rest) == Joining(rest))
            && (e.Sub? ==>
                 && Proper(e.items) && SubsProper(e.items) && SubsProper(e.items + rest)
                 && Joining(b + rest) == Chain(Ways(x), Joining(e.items), Ways(Tail(e.items)) > 1,
                                               Joining(e.items + rest)))
  {
    BlockEndOf(b, rest);
    var l := b + rest;
    assert l[|b| - 1] == b[|b| - 1] && l[..|b| - 1] == b[..|b| - 1];
    JoinedProper(l);
    WaysPositive(b[..|b| - 1]);
    assert forall e | e in rest :: e in l;
  }

  lemma {:induction false} ProperParts(a: seq<Expr>, b: seq<Expr>)
    ensures SubsProper(a + b) <==> SubsProper(a) && SubsProper(b)
  {
    assert forall e | e in a || e in b :: e in a + b;
  }

  lemma {:induction false} PlusMore(a: Count, b: Count, c: Count)
    ensures Plus(Plus(a, b), c) == Plus(a, Plus(b, c))
  {
  }

  lemma {:induction false} ChainMore(k: nat, own: Count, open: bool, behind: Count, more: Count)
    requires k >= 1
    ensures Chain(k, own, open, Plus(behind, more)) == Plus(Chain(k, own, open, behind), more)
  {
    var t := Times(k - 1, Plus(Rounds(1), own));
    PlusMore(t, Plus(Rounds(1), behind), more);
    PlusMore(Rounds(1), behind, more);
  }

  /** Joining the blocks of `l` to each other and then the last one to what follows. */
  ghost predicate JoinsInto(l: seq<Expr>, r: seq<Expr>) {
    && SubsProper(l) && SubsProper(r) && SubsProper(l + r) && SubsProper(Tail(l)) && SubsProper(Tail(l) + r)
    && Joining(l + r) == Plus(Joining(l), Joining(Tail(l) + r))
    && Tail(l + r) == Tail(Tail(l) + r)
  }

  lemma {:induction false} JoinInto(l: seq<Expr>, r: seq<Expr>)
    requires l != [] && Closed(l) && r != [] && SubsProper(l) && SubsProper(r)
    ensures JoinsInto(l, r)
    decreases NodeCount(l)
  {
    ProperParts(l, r);
    var n := BlockEnd(l);
    if n < |l| {
      FirstBlock(l);
      var b, rest := l[..n], l[n..];
      assert rest[|rest| - 1] == l[|l| - 1];
      ProperParts(b, rest);
      FirstJoins(b, rest);
      var e := b[n - 1];
      if e.Atom? {
        JoinInto(rest, r);
        JoinBehindAtom(b, rest, r);
      } else {
        assert (e.items + rest)[|e.items + rest| - 1] == rest[|rest| - 1];
        assert Merged(l) == e.items + rest;
        JoinInto(e.items + rest, r);
        JoinBehindSub(b, rest, r);
      }
    } else {
      TailProper(l);
    }
  }

  lemma {:induction false} JoinBehindAtom(b: seq<Expr>, rest: seq<Expr>, r: seq<Expr>)
    requires IsBlock(b) && b[|b| - 1].Atom? && b[|b| - 1].rel == OR
    requires rest != [] && SubsProper(b) && JoinsInto(rest, r)
    ensures JoinsInto(b + rest, r)
  {
    Regroup(b, rest, r);
    ProperParts(b, rest);
    ProperParts(b, rest + r);
    FirstJoins(b, rest);
    FirstJoins(b, rest + r);
  }

  lemma {:induction false} JoinBehindSub(b: seq<Expr>, rest: seq<Expr>, r: seq<Expr>)
    requires IsBlock(b) && b[|b| - 1].Sub? && b[|b| - 1].rel == OR
    requires rest != [] && SubsProper(b) && SubsProper(rest) && JoinsInto(b[|b| - 1].items + rest, r)
    ensures JoinsInto(b + rest, r)
  {
    Regroup(b, rest, r);
    ProperParts(rest, r);
    ProperParts(b, rest);
    ProperParts(b, rest + r);
    FirstJoins(b, rest);
    FirstJoins(b, rest + r);
    var s := b[|b| - 1].items;
    Regroup(s, rest, r);
    ChainMore(Ways(b[..|b| - 1]), Joining(s), Ways(Tail(s)) > 1, Joining(s + rest), Joining(Tail(s + rest) + r));
  }

  /** The tail of a closed list is an AND-block. */
  lemma {:induction false} TailIsBlock(l: seq<Expr>)
    requires l != [] && Closed(l) && SubsProper(l)
    ensures Tail(l) != [] && AllAnd(Tail(l)) && SubsProper(Tail(l))
    decreases NodeCount(l)
  {
    var n := BlockEnd(l);
    if n < |l| {
      JoinedProper(l);
      var j := Merged(l);
      assert j[|j| - 1] == l[|l| - 1];
      TailIsBlock(j);
    } else {
      InsideBlock(l);
    }
  }

  lemma {:induction false} AndThen(z: seq<Expr>, b: seq<Expr>)
    requires AllAnd(z) && IsBlock(b)
    ensures IsBlock(z + b) && (z + b)[|z + b| - 1] == b[|b| - 1]
  {
    forall i | 0 <= i < |z + b| - 1 ensures (z + b)[i].rel == AND {
      if i < |z| {
        assert (z + b)[i] == z[i];
      } else {
        assert (z + b)[i] == b[i - |z|];
      }
    }
  }

  lemma {:induction false} BadInto(l: seq<Expr>, r: seq<Expr>)
    requires l != [] && Closed(l) && r != [] && SubsProper(l) && SubsProper(r)
    ensures SubsProper(l + r) && SubsProper(Tail(l)) && SubsProper(Tail(l) + r)
    ensures BadRounds(l + r) == Plus(Joining(l), BadRounds(Tail(l) + r))
  {
    JoinInto(l, r);
    TailProper(l + r);
    PlusMore(Joining(l), Joining(Tail(l) + r), Doubling(Tail(l + r)));
  }

  lemma {:induction false} BadBehindAtom(b: seq<Expr>, rest: seq<Expr>)
    requires IsBlock(b) && b[|b| - 1].Atom? && b[|b| - 1].rel == OR && rest != [] && SubsProper(b) && SubsProper(rest)
    ensures SubsProper(b + rest) && BadRounds(b + rest) == BadRounds(rest)
  {
    ProperParts(b, rest);
    FirstJoins(b, rest);
  }

  lemma {:induction false} BadBehindSub(x: seq<Expr>, e: Expr, rest: seq<Expr>)
    requires AllAnd(x) && e.Sub? && e.rel == OR && rest != [] && SubsProper(x) && Proper(e.items) && SubsProper(rest)
    ensures SubsProper((x + [e]) + rest) && SubsProper(e.items) && SubsProper(e.items + rest) && Ways(x) >= 1
    ensures BadRounds((x + [e]) + rest)
            == Chain(Ways(x), Joining(e.items), Ways(Tail(e.items)) > 1, BadRounds(e.items + rest))
  {
    var b := x + [e];
    AndThen(x, [e]);
    ProperParts(x, [e]);
    ProperParts(b, rest);
    FirstJoins(b, rest);
    assert b[..|b| - 1] == x;
    TailProper(e.items + rest);
    ChainMore(Ways(x), Joining(e.items), Ways(Tail(e.items)) > 1, Joining(e.items + rest),
              Doubling(Tail(e.items + rest)));
  }

  // ------------------------------------------------------------------------------ the last AND-block

  lemma {:induction false} DoublingSub(e: Expr, q: seq<Expr>)
    requires e.Sub? && q != [] && SubsProper([e] + q)
    ensures SubsProper(q) && Proper(e.items) && SubsProper(e.items) && SubsProper(Anded(e.items) + q)
    ensures Doubling([e] + q) ==
              if SingleBlock(e.items) then Doubling(Anded(e.items) + q)
              else if Ways(q) > 1 then Endless
              else Plus(Rounds(1), Doubling(Anded(e.items) + q))
  {
    var t := [e] + q;
    assert t[0] == e && t[1..] == q;
    SubItems(t, 0);
    AndedProper(e.items);
    ProperParts(Anded(e.items), q);
    ProperParts([e], q);
  }

  lemma {:induction false} SubNodes(e: Expr, q: seq<Expr>)
    requires e.Sub?
    ensures NodeCount(Anded(e.items) + q) < NodeCount([e] + q)
  {
    NodeCountAppend([e], q);
    NodeCountAppend(Anded(e.items), q);
    assert [e][1..] == [];
  }

  lemma {:induction false} SingleWays(items: seq<Expr>)
    requires Proper(items) && SingleBlock(items)
    ensures Choices(items) == Ways(items)
  {
    assert items[..|items|] == items && items[|items|..] == [];
  }

  /** Parts that are distributed to one AND-block only may be left out in front of something. */
  lemma {:induction false} Dropped(a: seq<Expr>, d: seq<Expr>, c: seq<Expr>)
    requires c != [] && SubsProper(a) && SubsProper(d) && SubsProper(c) && Ways(d) == 1
    ensures SubsProper(a + (d + c)) && SubsProper(a + c)
    ensures Doubling(a + (d + c)) == Doubling(a + c)
    decreases NodeCount(a) + NodeCount(d)
  {
    ProperParts(d, c);
    ProperParts(a, d + c);
    ProperParts(a, c);
    if a != [] {
      var e, more := a[0], a[1..];
      assert e in a && a == [e] + more && SubsProper(more);
      Regroup([e], more, d + c);
      Regroup([e], more, c);
      if e.Atom? {
        assert ([e] + (more + (d + c)))[1..] == more + (d + c);
        assert ([e] + (more + c))[1..] == more + c;
        NodeCountAppend([e], more);
        Dropped(more, d, c);
      } else {
        DroppedBehind(e, more, d, c);
        SubNodes(e, more);
        AndedProper(e.items);
        ProperParts(Anded(e.items), more);
        Dropped(Anded(e.items) + more, d, c);
      }
    } else if d != [] {
      DropFirst(d, c);
      assert [] + (d + c) == d + c && [] + c == c;
    } else {
      assert d + c == c;
    }
  }

  lemma {:induction false} DroppedBehind(e: Expr, more: seq<Expr>, d: seq<Expr>, c: seq<Expr>)
    requires e.Sub? && Proper(e.items) && SubsProper(more)
    requires c != [] && SubsProper(d) && SubsProper(c) && Ways(d) == 1
    ensures var a := Anded(e.items) + more;
            && SubsProper([e] + (more + (d + c))) && SubsProper([e] + (more + c)) && SubsProper(a + (d + c))
               && SubsProper(a + c)
            && (Doubling(a + (d + c)) == Doubling(a + c) ==>
                  Doubling([e] + (more + (d + c))) == Doubling([e] + (more + c)))
  {
    ProperParts(d, c);
    ProperParts(more, d + c);
    ProperParts(more, c);
    ProperParts([e], more + (d + c));
    ProperParts([e], more + c);
    AndedProper(e.items);
    ProperParts(Anded(e.items), more);
    DoublingSub(e, more + (d + c));
    DoublingSub(e, more + c);
    Regroup(Anded(e.items), more, d + c);
    Regroup(Anded(e.items), more, c);
    WaysOfParts(d, c);
    WaysAppend(more, d + c);
    WaysAppend(more, c);
  }

  lemma {:induction false} DropFirst(d: seq<Expr>, c: seq<Expr>)
    requires d != [] && c != [] && SubsProper(d) && SubsProper(c) && Ways(d) == 1
    ensures SubsProper(d + c) && Doubling(d + c) == Doubling(c)
    decreases NodeCount(d)
  {
    ProperParts(d, c);
    var e, more := d[0], d[1..];
    assert e in d && d == [e] + more && SubsProper(more);
    Regroup([e], more, c);
    assert ([e] + (more + c))[1..] == more + c;
    WaysOfParts([e], more);
    var rest := more;
    if e.Sub? {
      OneWay(e, more, c);
      SubNodes(e, more);
      rest := Anded(e.items) + more;
      Regroup(Anded(e.items), more, c);
    } else {
      NodeCountAppend([e], more);
    }
    if rest == [] {
      assert rest + c == c;
    } else {
      DropFirst(rest, c);
    }
  }

  /** A subexpression with one AND-block, in which the same holds. */
  lemma {:induction false} OneWay(e: Expr, more: seq<Expr>, c: seq<Expr>)
    requires e.Sub? && Proper(e.items) && SubsProper(more) && SubsProper(c) && c != [] && Ways([e] + more) == 1
    ensures SubsProper(Anded(e.items) + more) && Ways(Anded(e.items) + more) == 1
    ensures SubsProper([e] + (more + c)) && SubsProper(Anded(e.items) + (more + c))
    ensures Doubling([e] + (more + c)) == Doubling(Anded(e.items) + (more + c))
  {
    ProperParts(more, c);
    ProperParts([e], more + c);
    WaysOfParts([e], more);
    assert Ways([e]) == Mul(Choice(e), Ways([]));
    OneChoice(e.items);
    DoublingSub(e, more + c);
    AndedProper(e.items);
    WaysOfParts(Anded(e.items), more);
    SingleWays(e.items);
    ProperParts(Anded(e.items), more);
  }

  lemma {:induction false} OneChoice(items: seq<Expr>)
    requires Proper(items) && Choices(items) == 1
    ensures SingleBlock(items)
  {
    var n := BlockEnd(items);
    assert SubsProper(items[..n]) && SubsProper(items[n..]);
    WaysPositive(items[..n]);
    if n < |items| {
      ChoicesPositive(items[n..]);
    }
  }

  /** Two parts with alternatives double each other for ever. */
  lemma {:induction false} DoublesForEver(a: seq<Expr>, c: seq<Expr>)
    requires SubsProper(a) && SubsProper(c) && Ways(a) > 1 && Ways(c) > 1
    ensures SubsProper(a + c) && Doubling(a + c) == Endless
    decreases NodeCount(a)
  {
    ProperParts(a, c);
    var e, more := a[0], a[1..];
    assert e in a && a == [e] + more && SubsProper(more);
    Regroup([e], more, c);
    assert ([e] + (more + c))[1..] == more + c;
    WaysAppend([e], more);
    if e.Atom? {
      NodeCountAppend([e], more);
      DoublesForEver(more, c);
    } else {
      assert c != [];
      ProperParts(more, c);
      ProperParts([e], more + c);
      DoublingSub(e, more + c);
      if SingleBlock(e.items) {
        SingleWays(e.items);
        AndedProper(e.items);
        WaysAppend(Anded(e.items), more);
        ProperParts(Anded(e.items), more);
        SubNodes(e, more);
        Regroup(Anded(e.items), more, c);
        DoublesForEver(Anded(e.items) + more, c);
      } else {
        WaysOfParts(more, c);
      }
    }
  }

  // ------------------------------------------------------------------------------------- the copies

  lemma {:induction false} AllAndParts(a: seq<Expr>, b: seq<Expr>)
    ensures AllAnd(a + b) <==> AllAnd(a) && AllAnd(b)
  {
    assert forall e | e in a || e in b :: e in a + b;
  }

  lemma {:induction false} AtLast(b: seq<Expr>)
    requires IsBlock(b)
    ensures b == b[..|b| - 1] + [b[|b| - 1]] && AllAnd(b[..|b| - 1])
  {
  }

  lemma {:induction false} BadOfBlock(t: seq<Expr>)
    requires SubsProper(t) && (t != [] ==> IsBlock(t))
    ensures BadRounds(t) == Doubling(t)
  {
    if t != [] {
      BlockIsOne(t);
    }
  }

  lemma {:induction false} BlockIsOne(t: seq<Expr>)
    requires IsBlock(t)
    ensures BlockEnd(t) == |t|
  {
    BlockEndOf(t, []);
    assert t + [] == t;
  }

  /** Conditions in front of something make no difference. */
  lemma {:induction false} Inserted(z: seq<Expr>, p: seq<Expr>, c: seq<Expr>)
    requires AllAnd(z) && SubsProper(z) && AllAnd(p) && Flat(p) && c != [] && SubsProper(c)
    ensures SubsProper(z + (p + c)) && SubsProper(z + c)
    ensures BadRounds(z + (p + c)) == BadRounds(z + c)
  {
    ProperParts(p, c);
    ProperParts(z, p + c);
    ProperParts(z, c);
    FlatWays(p);
    var n := BlockEnd(c);
    FirstBlock(c);
    if n == |c| {
      AndThen(p, c);
      AndThen(z, p + c);
      AndThen(z, c);
      BadOfBlock(z + (p + c));
      BadOfBlock(z + c);
      Dropped(z, p, c);
    } else {
      var b, rest := c[..n], c[n..];
      ProperParts(b, rest);
      assert z + (p + c) == (z + (p + b)) + rest && z + c == (z + b) + rest;
      InsertedFirst(z, p, b, rest);
    }
  }

  lemma {:induction false} InsertedFirst(z: seq<Expr>, p: seq<Expr>, b: seq<Expr>, rest: seq<Expr>)
    requires AllAnd(z) && SubsProper(z) && AllAnd(p) && Flat(p)
    requires IsBlock(b) && b[|b| - 1].rel == OR && rest != [] && SubsProper(b) && SubsProper(rest)
    ensures SubsProper((z + (p + b)) + rest) && SubsProper((z + b) + rest)
    ensures BadRounds((z + (p + b)) + rest) == BadRounds((z + b) + rest)
  {
    ProperParts(p, b);
    ProperParts(z, p + b);
    ProperParts(z, b);
    AndThen(p, b);
    AndThen(z, p + b);
    AndThen(z, b);
    var e := b[|b| - 1];
    if e.Atom? {
      BadBehindAtom(z + (p + b), rest);
      BadBehindAtom(z + b, rest);
    } else {
      var x := b[..|b| - 1];
      AtLast(b);
      assert e in b && SubsProper(x);
      assert z + (p + b) == (z + (p + x)) + [e] && z + b == (z + x) + [e];
      InsertedWays(z, p, x);
      AllAndParts(p, x);
      AllAndParts(z, p + x);
      AllAndParts(z, x);
      ProperParts(p, x);
      ProperParts(z, p + x);
      ProperParts(z, x);
      BadBehindSub(z + (p + x), e, rest);
      BadBehindSub(z + x, e, rest);
    }
  }

  lemma {:induction false} InsertedWays(z: seq<Expr>, p: seq<Expr>, x: seq<Expr>)
    requires Flat(p)
    ensures Ways(z + (p + x)) == Ways(z + x)
  {
    FlatWays(p);
    WaysAppend(p, x);
    WaysAppend(z, p + x);
    WaysAppend(z, x);
  }

  lemma {:induction false} CopiesUnfold(p: seq<Expr>, b: seq<Expr>, more: seq<Expr>, q: seq<Expr>)
    requires IsBlock(b) && (b[|b| - 1].rel == OR || more == [])
    ensures Copies(p, b + more, q) == Copy(p, b, q) + Copies(p, more, q)
  {
    BlockEndOf(b, more);
  }

  lemma {:induction false} CopiesProper(p: seq<Expr>, items: seq<Expr>, q: seq<Expr>)
    requires Flat(p) && SubsProper(items) && SubsProper(q)
    ensures SubsProper(Copies(p, items, q)) && (items != [] ==> Copies(p, items, q) != [])
    decreases |items|
  {
    if items != [] {
      FirstBlock(items);
      var b, more := items[..BlockEnd(items)], items[BlockEnd(items)..];
      ProperParts(b, more);
      CopiesProper(p, more, q);
      CopiesUnfold(p, b, more, q);
      CopyProper(p, b, q);
      ProperParts(Copy(p, b, q), Copies(p, more, q));
    }
  }

  lemma {:induction false} CopyProper(p: seq<Expr>, b: seq<Expr>, q: seq<Expr>)
    requires Flat(p) && b != [] && SubsProper(b) && SubsProper(q)
    ensures SubsProper(Copy(p, b, q)) && SubsProper(Close(b, AND)) && Ways(Close(b, AND)) == Ways(b)
    ensures q != [] ==> Copy(p, b, q) == p + (Close(b, AND) + q)
  {
    var c := Close(b, AND);
    assert b[|b| - 1] in b;
    forall e | e in c ensures e.Sub? ==> Proper(e.items) {
      var i :| 0 <= i < |c| && c[i] == e;
      assert SameItem(b[i], c[i]) && b[i] in b;
    }
    WaysCong(b, c);
    ProperParts(p, b);
    ProperParts(p, c);
    ProperParts(p + c, q);
    Regroup(p, c, q);
  }

  /** Copies of `p` in front of the blocks of `items` make no difference behind `z`. */
  ghost predicate BareSame(z: seq<Expr>, p: seq<Expr>, items: seq<Expr>, r: seq<Expr>) {
    && SubsProper(z + (Copies(p, items, []) + r)) && SubsProper(z + (items + r))
    && BadRounds(z + (Copies(p, items, []) + r)) == BadRounds(z + (items + r))
  }

  lemma {:induction false} BareCopies(z: seq<Expr>, p: seq<Expr>, items: seq<Expr>, r: seq<Expr>)
    requires AllAnd(z) && SubsProper(z) && AllAnd(p) && Flat(p)
    requires items != [] && Closed(items) && SubsProper(items) && SubsProper(r)
    ensures BareSame(z, p, items, r)
    decreases |items|, 1
  {
    FirstBlock(items);
    var b, more := items[..BlockEnd(items)], items[BlockEnd(items)..];
    ProperParts(b, more);
    assert items == b + more;
    if more == [] {
      assert b == items;
      BareOne(z, p, b, r);
    } else {
      assert Closed(more) by { assert more[|more| - 1] == items[|items| - 1]; }
      BareMore(z, p, b, more, r);
    }
  }

  lemma {:induction false} BareMore(z: seq<Expr>, p: seq<Expr>, b: seq<Expr>, more: seq<Expr>, r: seq<Expr>)
    requires AllAnd(z) && SubsProper(z) && AllAnd(p) && Flat(p)
    requires IsBlock(b) && b[|b| - 1].rel == OR && SubsProper(b) && more != [] && Closed(more) && SubsProper(more)
             && SubsProper(r)
    ensures BareSame(z, p, b + more, r)
    decreases |b| + |more|, 0
  {
    var e := b[|b| - 1];
    if e.Atom? {
      BareCopies([], p, more, r);
      BareBehindAtom(z, p, b, more, r);
    } else {
      assert e in b;
      TailIsBlock(e.items);
      BareCopies(Tail(e.items), p, more, r);
      BareBehindSub(z, p, b, more, r);
    }
  }

  lemma {:induction false} BareOne(z: seq<Expr>, p: seq<Expr>, b: seq<Expr>, r: seq<Expr>)
    requires AllAnd(z) && SubsProper(z) && AllAnd(p) && Flat(p) && IsBlock(b) && SubsProper(b) && SubsProper(r)
    ensures BareSame(z, p, b, r)
  {
    assert b + [] == b;
    CopiesUnfold(p, b, [], []);
    assert Copies(p, b, []) + r == p + (b + r);
    ProperParts(b, r);
    Inserted(z, p, b + r);
  }

  lemma {:induction false} BareParts(z: seq<Expr>, p: seq<Expr>, b: seq<Expr>, more: seq<Expr>, r: seq<Expr>)
    requires AllAnd(z) && SubsProper(z) && AllAnd(p) && Flat(p)
    requires IsBlock(b) && b[|b| - 1].rel == OR && SubsProper(b) && more != [] && SubsProper(more) && SubsProper(r)
    ensures var m := Copies(p, more, []) + r;
            && SubsProper(m) && SubsProper(more + r) && m != []
            && z + (Copies(p, b + more, []) + r) == (z + (p + b)) + m
            && z + ((b + more) + r) == (z + b) + (more + r)
            && SubsProper((z + (p + b)) + m) && SubsProper((z + b) + m) && SubsProper((z + b) + (more + r))
            && BadRounds((z + (p + b)) + m) == BadRounds((z + b) + m)
  {
    var m := Copies(p, more, []) + r;
    CopiesProper(p, more, []);
    ProperParts(Copies(p, more, []), r);
    ProperParts(more, r);
    ProperParts(z, b);
    ProperParts(z + b, more + r);
    InsertedFirst(z, p, b, m);
    CopiesUnfold(p, b, more, []);
    Around(z, p + b, Copies(p, more, []), r);
    Around(z, b, more, r);
  }

  lemma {:induction false} Around<X>(z: seq<X>, b: seq<X>, c: seq<X>, r: seq<X>)
    ensures z + ((b + c) + r) == (z + b) + (c + r)
  {
  }

  lemma {:induction false} BareBehindAtom(z: seq<Expr>, p: seq<Expr>, b: seq<Expr>, more: seq<Expr>, r: seq<Expr>)
    requires AllAnd(z) && SubsProper(z) && AllAnd(p) && Flat(p)
    requires IsBlock(b) && b[|b| - 1].rel == OR && SubsProper(b) && more != [] && SubsProper(more) && SubsProper(r)
    requires b[|b| - 1].Atom? && BareSame([], p, more, r)
    ensures BareSame(z, p, b + more, r)
  {
    BareParts(z, p, b, more, r);
    var m := Copies(p, more, []) + r;
    ProperParts(z, b);
    AndThen(z, b);
    assert [] + m == m && [] + (more + r) == more + r;
    BadBehindAtom(z + b, m);
    BadBehindAtom(z + b, more + r);
  }

  lemma {:induction false} BareBehindSub(z: seq<Expr>, p: seq<Expr>, b: seq<Expr>, more: seq<Expr>, r: seq<Expr>)
    requires AllAnd(z) && SubsProper(z) && AllAnd(p) && Flat(p)
    requires IsBlock(b) && b[|b| - 1].rel == OR && SubsProper(b) && more != [] && SubsProper(more) && SubsProper(r)
    requires b[|b| - 1].Sub? && Proper(b[|b| - 1].items) && BareSame(Tail(b[|b| - 1].items), p, more, r)
    ensures BareSame(z, p, b + more, r)
  {
    BareParts(z, p, b, more, r);
    var m := Copies(p, more, []) + r;
    var x, e := b[..|b| - 1], b[|b| - 1];
    AtLast(b);
    assert SubsProper(x);
    assert z + b == (z + x) + [e];
    AllAndParts(z, x);
    ProperParts(z, x);
    BadBehindSub(z + x, e, m);
    BadBehindSub(z + x, e, more + r);
    BadInto(e.items, m);
    BadInto(e.items, more + r);
  }

  /** The first copy, taken apart; `q` is not empty. */
  lemma {:induction false} FirstCopy(z: seq<Expr>, p: seq<Expr>, b: seq<Expr>, more: seq<Expr>, q: seq<Expr>,
                                     rest: seq<Expr>)
    requires AllAnd(z) && SubsProper(z) && AllAnd(p) && Flat(p) && IsBlock(b) && SubsProper(b)
    requires b[|b| - 1].rel == OR || more == []
    requires IsBlock(q) && SubsProper(q) && SubsProper(more) && SubsProper(rest)
    ensures var c := z + (p + (Close(b, AND) + q));
            var m := Copies(p, more, q) + rest;
            && z + (Copies(p, b + more, q) + rest) == c + m
            && IsBlock(c) && SubsProper(c) && SubsProper(m) && c[|c| - 1] == q[|q| - 1]
  {
    CopyProper(p, b, q);
    CopiesProper(p, more, q);
    ProperParts(Copies(p, more, q), rest);
    CopiesUnfold(p, b, more, q);
    Around(z, Copy(p, b, q), Copies(p, more, q), rest);
    ClosedBlock(b);
    AndThen(Close(b, AND), q);
    AndThen(p, Close(b, AND) + q);
    AndThen(z, p + (Close(b, AND) + q));
    ProperParts(Close(b, AND), q);
    ProperParts(p, Close(b, AND) + q);
    ProperParts(z, p + (Close(b, AND) + q));
  }

  lemma {:induction false} ClosedBlock(b: seq<Expr>)
    requires IsBlock(b)
    ensures AllAnd(Close(b, AND))
  {
    assert forall i | 0 <= i < |b| :: Close(b, AND)[i].rel == AND;
  }

  /** Copies that end in a condition. */
  lemma {:induction false} CopiesBehindAtom(p: seq<Expr>, items: seq<Expr>, q: seq<Expr>, rest: seq<Expr>)
    requires AllAnd(p) && Flat(p) && items != [] && SubsProper(items)
    requires IsBlock(q) && q[|q| - 1].Atom? && q[|q| - 1].rel == OR && SubsProper(q) && rest != [] && SubsProper(rest)
    ensures SubsProper(Copies(p, items, q) + rest) && BadRounds(Copies(p, items, q) + rest) == BadRounds(rest)
    decreases |items|
  {
    FirstBlock(items);
    var b, more := items[..BlockEnd(items)], items[BlockEnd(items)..];
    ProperParts(b, more);
    FirstCopy([], p, b, more, q, rest);
    var c, m := [] + (p + (Close(b, AND) + q)), Copies(p, more, q) + rest;
    assert [] + (Copies(p, b + more, q) + rest) == Copies(p, b + more, q) + rest;
    BadBehindAtom(c, m);
    if more == [] {
      assert m == rest;
    } else {
      CopiesBehindAtom(p, more, q, rest);
    }
  }

  /** A first copy that ends in a subexpression. */
  lemma {:induction false} FirstCopyBehindSub(z: seq<Expr>, p: seq<Expr>, b: seq<Expr>, more: seq<Expr>, q: seq<Expr>,
                                              e: Expr, rest: seq<Expr>)
    requires AllAnd(z) && SubsProper(z) && AllAnd(p) && Flat(p) && IsBlock(b) && SubsProper(b)
    requires b[|b| - 1].rel == OR || more == []
    requires AllAnd(q) && SubsProper(q) && e.Sub? && e.rel == OR && Proper(e.items)
    requires SubsProper(more) && rest != [] && SubsProper(rest)
    ensures var m := Copies(p, more, q + [e]) + rest;
            && SubsProper(z + (Copies(p, b + more, q + [e]) + rest)) && SubsProper(e.items + m) && m != []
               && SubsProper(m)
            && Mul(Ways(z), Mul(Ways(b), Ways(q))) >= 1 && Ways(z) >= 1
            && BadRounds(z + (Copies(p, b + more, q + [e]) + rest))
               == Chain(Mul(Ways(z), Mul(Ways(b), Ways(q))), Joining(e.items), Ways(Tail(e.items)) > 1,
                        BadRounds(e.items + m))
  {
    AndThen(q, [e]);
    ProperParts(q, [e]);
    FirstCopy(z, p, b, more, q + [e], rest);
    var d, m := Close(b, AND), Copies(p, more, q + [e]) + rest;
    CopyProper(p, b, q);
    var x := z + (p + (d + q));
    assert z + (p + (d + (q + [e]))) == x + [e] by {
      Regroup(d, q, [e]);
      Regroup(p, d + q, [e]);
      Regroup(z, p + (d + q), [e]);
    }
    assert AllAnd(x) by { AtLast(x + [e]); assert (x + [e])[..|x|] == x; }
    ProperParts(x, [e]);
    BadBehindSub(x, e, m);
    assert Ways(x) == Mul(Ways(z), Mul(Ways(b), Ways(q))) by {
      InsertedWays(z, p, d + q);
      WaysAppend(z, d + q);
      WaysAppend(d, q);
    }
    WaysPositive(z);
  }

  /** `l` does as `k` AND-blocks in front of `rest` that end in the subexpression `e`. */
  ghost predicate ChainOf(l: seq<Expr>, k: nat, e: Expr, rest: seq<Expr>) {
    && e.Sub? && SubsProper(l) && SubsProper(e.items) && SubsProper(e.items + rest) && k >= 1
    && BadRounds(l) == Chain(k, Joining(e.items), Ways(Tail(e.items)) > 1, BadRounds(e.items + rest))
  }

  lemma {:induction false} FirstPlainCopy(z: seq<Expr>, p: seq<Expr>, b: seq<Expr>, more: seq<Expr>, q: seq<Expr>,
                                          e: Expr, rest: seq<Expr>)
    requires AllAnd(z) && SubsProper(z) && Ways(z) == 1 && AllAnd(p) && Flat(p) && IsBlock(b) && SubsProper(b)
    requires b[|b| - 1].rel == OR || more == []
    requires AllAnd(q) && SubsProper(q) && e.Sub? && e.rel == OR && Proper(e.items)
    requires SubsProper(more) && rest != [] && SubsProper(rest)
    ensures ChainOf(z + (Copies(p, b + more, q + [e]) + rest), Mul(Ways(b), Ways(q)), e,
                    Copies(p, more, q + [e]) + rest)
    ensures SubsProper(Copies(p, more, q + [e]) + rest)
  {
    FirstCopyBehindSub(z, p, b, more, q, e, rest);
    WaysPositive(b);
    WaysPositive(q);
    Positive(Ways(b), Ways(q));
    Positive(Ways(z), Mul(Ways(b), Ways(q)));
  }

  /** Copies that end in a subexpression make a chain of as many AND-blocks as they are distributed to. */
  lemma {:induction false} CopiesChain(z: seq<Expr>, p: seq<Expr>, items: seq<Expr>, q: seq<Expr>, e: Expr,
                                       rest: seq<Expr>)
    requires AllAnd(z) && SubsProper(z) && Ways(z) == 1 && AllAnd(p) && Flat(p)
    requires items != [] && SubsProper(items)
    requires AllAnd(q) && SubsProper(q) && e.Sub? && e.rel == OR && Proper(e.items) && rest != [] && SubsProper(rest)
    ensures ChainOf(z + (Copies(p, items, q + [e]) + rest), Mul(Choices(items), Ways(q)), e, rest)
    decreases |items|
  {
    FirstBlock(items);
    var b, more := items[..BlockEnd(items)], items[BlockEnd(items)..];
    ProperParts(b, more);
    assert items == b + more;
    if more == [] {
      LastCopy(z, p, b, q, e, rest);
    } else {
      TailIsBlock(e.items);
      if Ways(Tail(e.items)) > 1 {
        OpenChain(Tail(e.items), p, more, q, e, rest);
      } else {
        WaysPositive(Tail(e.items));
        CopiesChain(Tail(e.items), p, more, q, e, rest);
      }
      assert Behind(Copies(p, more, q + [e]) + rest, Mul(Choices(more), Ways(q)), e, rest);
      OneMoreCopy(z, p, b, more, q, e, rest);
    }
  }

  /** What follows when the items of `e` are joined to `m`. */
  ghost predicate Behind(m: seq<Expr>, k: nat, e: Expr, rest: seq<Expr>)
    requires e.Sub?
  {
    && SubsProper(Tail(e.items) + m)
    && if Ways(Tail(e.items)) > 1 then BadRounds(Tail(e.items) + m) == Endless
       else ChainOf(Tail(e.items) + m, k, e, rest)
  }

  lemma {:induction false} LastCopy(z: seq<Expr>, p: seq<Expr>, b: seq<Expr>, q: seq<Expr>, e: Expr, rest: seq<Expr>)
    requires AllAnd(z) && SubsProper(z) && Ways(z) == 1 && AllAnd(p) && Flat(p) && IsBlock(b) && SubsProper(b)
    requires AllAnd(q) && SubsProper(q) && e.Sub? && e.rel == OR && Proper(e.items) && rest != [] && SubsProper(rest)
    ensures ChainOf(z + (Copies(p, b + [], q + [e]) + rest), Mul(Choices(b + []), Ways(q)), e, rest)
  {
    FirstPlainCopy(z, p, b, [], q, e, rest);
    assert Copies(p, [], q + [e]) + rest == rest;
    assert Choices(b + []) == Ways(b) by { ChoicesOfBlock(b, []); }
  }

  lemma {:induction false} OneMoreCopy(z: seq<Expr>, p: seq<Expr>, b: seq<Expr>, more: seq<Expr>, q: seq<Expr>, e: Expr,
                                       rest: seq<Expr>)
    requires AllAnd(z) && SubsProper(z) && Ways(z) == 1 && AllAnd(p) && Flat(p) && IsBlock(b) && SubsProper(b)
    requires b[|b| - 1].rel == OR && more != [] && SubsProper(more)
    requires AllAnd(q) && SubsProper(q) && e.Sub? && e.rel == OR && Proper(e.items) && rest != [] && SubsProper(rest)
    requires Behind(Copies(p, more, q + [e]) + rest, Mul(Choices(more), Ways(q)), e, rest)
    ensures ChainOf(z + (Copies(p, b + more, q + [e]) + rest), Mul(Choices(b + more), Ways(q)), e, rest)
  {
    FirstPlainCopy(z, p, b, more, q, e, rest);
    ProductOfSum(b, more, q);
    NextChain(z + (Copies(p, b + more, q + [e]) + rest), Mul(Ways(b), Ways(q)), Mul(Choices(more), Ways(q)),
              Mul(Choices(b + more), Ways(q)), e, Copies(p, more, q + [e]) + rest, rest);
  }

  lemma {:induction false} NextChain(l: seq<Expr>, k: nat, k0: nat, k1: nat, e: Expr, m: seq<Expr>, rest: seq<Expr>)
    requires ChainOf(l, k, e, m) && k0 >= 1 && k1 == k + k0
    requires Proper(e.items) && m != [] && SubsProper(m) && rest != [] && SubsProper(rest)
    requires Behind(m, k0, e, rest)
    ensures ChainOf(l, k1, e, rest)
  {
    assert SubsProper(e.items + rest) by { ProperParts(e.items, rest); }
    var own, open, behind := Joining(e.items), Ways(Tail(e.items)) > 1, BadRounds(e.items + rest);
    var next := BadRounds(Tail(e.items) + m);
    assert BadRounds(e.items + m) == Plus(own, next) by { BadInto(e.items, m); }
    assert next == if open then Endless else Chain(k0, own, false, behind);
    assert Chain(k, own, open, Plus(own, next))
           == Chain(k1, own, open, behind) by { ChainLonger(k, k0, own, open, next, behind); }
  }

  lemma {:induction false} ProductOfSum(b: seq<Expr>, more: seq<Expr>, q: seq<Expr>)
    requires IsBlock(b) && (b[|b| - 1].rel == OR || more == []) && SubsProper(b) && SubsProper(more) && SubsProper(q)
    ensures Mul(Choices(b + more), Ways(q)) == Mul(Ways(b), Ways(q)) + Mul(Choices(more), Ways(q))
    ensures more != [] ==> Mul(Choices(more), Ways(q)) >= 1
  {
    ChoicesOfBlock(b, more);
    Distribute(Ways(b), Choices(more), Ways(q));
    if more != [] {
      ChoicesPositive(more);
      WaysPositive(q);
      Positive(Choices(more), Ways(q));
    }
  }

  /** A copy that is distributed to several AND-blocks is followed by another one. */
  lemma {:induction false} OpenChain(z: seq<Expr>, p: seq<Expr>, items: seq<Expr>, q: seq<Expr>, e: Expr,
                                     rest: seq<Expr>)
    requires AllAnd(z) && SubsProper(z) && Ways(z) > 1 && AllAnd(p) && Flat(p)
    requires items != [] && SubsProper(items)
    requires AllAnd(q) && SubsProper(q) && e.Sub? && e.rel == OR && Proper(e.items) && rest != [] && SubsProper(rest)
    requires Ways(Tail(e.items)) > 1
    ensures SubsProper(z + (Copies(p, items, q + [e]) + rest))
            && BadRounds(z + (Copies(p, items, q + [e]) + rest)) == Endless
  {
    FirstBlock(items);
    var b, more := items[..BlockEnd(items)], items[BlockEnd(items)..];
    ProperParts(b, more);
    FirstCopyBehindSub(z, p, b, more, q, e, rest);
    WaysPositive(b);
    WaysPositive(q);
    Positive(Ways(b), Ways(q));
    Positive(Ways(z), Mul(Ways(b), Ways(q)));
  }

  lemma {:induction false} ChainLonger(k: nat, m: nat, own: Count, open: bool, next: Count, behind: Count)
    requires k >= 1 && m >= 1 && next == if open then Endless else Chain(m, own, false, behind)
    ensures Chain(k, own, open, Plus(own, next)) == Chain(k + m, own, open, behind)
  {
    var c := Plus(Rounds(1), own);
    TimesPlus(k - 1, m, c);
    assert Times(m, c) == Plus(c, Times(m - 1, c));
  }

  // ------------------------------------------------------------------- the copies in the last AND-block

  lemma {:induction false} AndedAppend(a: seq<Expr>, b: seq<Expr>)
    ensures Anded(a + b) == Anded(a) + Anded(b)
  {
    if a == [] {
      assert a + b == b;
    } else {
      assert (a + b)[1..] == a[1..] + b;
      AndedAppend(a[1..], b);
    }
  }

  lemma {:induction false} AndedIs(b: seq<Expr>, c: seq<Expr>)
    requires |b| == |c| && forall i | 0 <= i < |b| :: c[i] == b[i].(rel := AND)
    ensures Anded(b) == c
  {
    if b != [] {
      AndedIs(b[1..], c[1..]);
    }
  }

  lemma {:induction false} AndedBlock(b: seq<Expr>)
    requires IsBlock(b)
    ensures Close(b, AND) == Anded(b)
  {
    AndedIs(b, Close(b, AND));
  }

  lemma {:induction false} AndedSame(b: seq<Expr>)
    requires AllAnd(b)
    ensures Anded(b) == b
  {
    forall i | 0 <= i < |b| ensures b[i] == b[i].(rel := AND) {
      assert b[i] in b;
    }
    AndedIs(b, b);
  }

  lemma {:induction false} AndedCopy(p: seq<Expr>, b: seq<Expr>, more: seq<Expr>, q: seq<Expr>)
    requires Flat(p) && IsBlock(b) && SubsProper(b) && (b[|b| - 1].rel == OR || more == []) && q != [] && SubsProper(q)
    ensures Copies(p, b + more, q) == p + (Anded(b) + (q + Copies(p, more, q)))
  {
    CopyProper(p, b, q);
    AndedBlock(b);
    CopiesUnfold(p, b, more, q);
    var d, k := Anded(b), Copies(p, more, q);
    Regroup(p, d + q, k);
    Regroup(d, q, k);
  }

  /** Copies of something with one AND-block only are left out. */
  lemma {:induction false} LastCopies(z: seq<Expr>, p: seq<Expr>, items: seq<Expr>, q: seq<Expr>)
    requires SubsProper(z) && Flat(p) && items != [] && SubsProper(items) && q != [] && SubsProper(q) && Ways(q) == 1
    ensures SubsProper(z + Copies(p, items, q)) && SubsProper(z + (Anded(items) + q))
    ensures Doubling(z + Copies(p, items, q)) == Doubling(z + (Anded(items) + q))
    decreases |items|
  {
    FirstBlock(items);
    var b, more := items[..BlockEnd(items)], items[BlockEnd(items)..];
    ProperParts(b, more);
    assert items == b + more;
    AndedProper(b);
    ProperParts(z, Anded(b));
    if more == [] {
      assert b == items;
      OnlyCopy(z, p, b, q);
    } else {
      LastCopies(z + Anded(b), p, more, q);
      FirstDropped(z, p, b, more, q);
      assert (z + Anded(b)) + (Anded(more) + q) == z + (Anded(items) + q) by {
        AndedAppend(b, more);
        Around(z, Anded(b), Anded(more), q);
      }
    }
  }

  lemma {:induction false} OnlyCopy(z: seq<Expr>, p: seq<Expr>, b: seq<Expr>, q: seq<Expr>)
    requires SubsProper(z) && Flat(p) && IsBlock(b) && SubsProper(b) && q != [] && SubsProper(q)
    ensures SubsProper(z + Copies(p, b, q)) && SubsProper(z + (Anded(b) + q))
    ensures Doubling(z + Copies(p, b, q)) == Doubling(z + (Anded(b) + q))
  {
    AndedProper(b);
    FlatWays(p);
    assert Copies(p, b, q) == p + (Anded(b) + q) by {
      AndedCopy(p, b, [], q);
      assert b + [] == b && q + Copies(p, [], q) == q;
    }
    ProperParts(Anded(b), q);
    Dropped(z, p, Anded(b) + q);
  }

  lemma {:induction false} FirstDropped(z: seq<Expr>, p: seq<Expr>, b: seq<Expr>, more: seq<Expr>, q: seq<Expr>)
    requires SubsProper(z) && Flat(p) && IsBlock(b) && SubsProper(b) && (b[|b| - 1].rel == OR || more == [])
    requires more != [] && SubsProper(more) && q != [] && SubsProper(q) && Ways(q) == 1
    ensures SubsProper(z + Copies(p, b + more, q)) && SubsProper((z + Anded(b)) + Copies(p, more, q))
    ensures Doubling(z + Copies(p, b + more, q)) == Doubling((z + Anded(b)) + Copies(p, more, q))
  {
    var k := Copies(p, more, q);
    CopiesProper(p, more, q);
    AndedProper(b);
    AndedCopy(p, b, more, q);
    FlatWays(p);
    BothDropped(z, p, Anded(b), q, k);
  }

  lemma {:induction false} BothDropped(z: seq<Expr>, p: seq<Expr>, d: seq<Expr>, q: seq<Expr>, k: seq<Expr>)
    requires SubsProper(z) && SubsProper(p) && SubsProper(d) && SubsProper(q) && SubsProper(k)
    requires k != [] && Ways(p) == 1 && Ways(q) == 1
    ensures SubsProper(z + (p + (d + (q + k)))) && SubsProper((z + d) + k)
    ensures Doubling(z + (p + (d + (q + k)))) == Doubling((z + d) + k)
  {
    ProperParts(q, k);
    ProperParts(d, q + k);
    ProperParts(z, d);
    Dropped(z, p, d + (q + k));
    Regroup(z, d, q + k);
    Dropped(z + d, q, k);
  }

  lemma {:induction false} CopiesWays(p: seq<Expr>, items: seq<Expr>, q: seq<Expr>)
    requires Flat(p) && items != [] && SubsProper(items) && SubsProper(q) && Ways(q) > 1
    ensures SubsProper(Copies(p, items, q)) && Ways(Copies(p, items, q)) > 1
  {
    FirstBlock(items);
    var b, more := items[..BlockEnd(items)], items[BlockEnd(items)..];
    ProperParts(b, more);
    CopiesUnfold(p, b, more, q);
    CopiesProper(p, items, q);
    CopiesProper(p, more, q);
    CopyWays(p, b, q);
    WaysOfParts(Copy(p, b, q), Copies(p, more, q));
  }

  lemma {:induction false} CopyWays(p: seq<Expr>, b: seq<Expr>, q: seq<Expr>)
    requires Flat(p) && b != [] && SubsProper(b) && SubsProper(q) && Ways(q) > 1
    ensures SubsProper(Copy(p, b, q)) && Ways(Copy(p, b, q)) > 1
  {
    CopyProper(p, b, q);
    FlatWays(p);
    WaysOfParts(Close(b, AND), q);
    WaysOfParts(p, Close(b, AND) + q);
  }

  /** Copies of something with alternatives have alternatives in several places. */
  lemma {:induction false} OpenCopies(p: seq<Expr>, items: seq<Expr>, q: seq<Expr>)
    requires Flat(p) && SubsProper(items) && !SingleBlock(items) && SubsProper(q) && Ways(q) > 1
    ensures SubsProper(Copies(p, items, q)) && Doubling(Copies(p, items, q)) == Endless
  {
    FirstBlock(items);
    var b, more := items[..BlockEnd(items)], items[BlockEnd(items)..];
    ProperParts(b, more);
    CopiesUnfold(p, b, more, q);
    CopyWays(p, b, q);
    CopiesWays(p, more, q);
    DoublesForEver(Copy(p, b, q), Copies(p, more, q));
  }

  // ------------------------------------------------------------------------------------- one round

  lemma {:induction false} FrontIsDone(front: seq<Expr>, l: seq<Expr>)
    requires IsFront(front) && l != [] && SubsProper(l)
    ensures SubsProper(front + l) && BadRounds(front + l) == BadRounds(l)
    decreases |front|
  {
    if front == [] {
      assert front + l == l;
    } else {
      var b, more := TakeFront(front);
      FrontIsDone(more, l);
      Regroup(b, more, l);
      assert b[|b| - 1] in b;
      BadBehindAtom(b, more + l);
    }
  }

  /** The block that is distributed has others behind it. */
  lemma {:induction false} MiddleRound(p: seq<Expr>, e: Expr, q: seq<Expr>, rest: seq<Expr>)
    requires IsSplit(p, e, q, rest) && rest != [] && SubsProper(q) && SubsProper(rest)
    ensures SubsProper((p + ([e] + q)) + rest) && SubsProper(Copies(p, e.items, q) + rest)
    ensures BadRounds((p + ([e] + q)) + rest)
         == if q == [] then Plus(Rounds(1), BadRounds(Copies(p, e.items, q) + rest))
             else BadRounds(Copies(p, e.items, q) + rest)
  {
    ProperParts([e], q);
    ProperParts(p, [e] + q);
    ProperParts(p + ([e] + q), rest);
    CopiesProper(p, e.items, q);
    ProperParts(Copies(p, e.items, q), rest);
    if q == [] {
      FlatWays(p);
      assert [e] + q == [e];
      BadBehindSub(p, e, rest);
      BareCopies([], p, e.items, rest);
      assert [] + (Copies(p, e.items, []) + rest) == Copies(p, e.items, []) + rest;
      assert [] + (e.items + rest) == e.items + rest;
    } else {
      SuffixIsBlock(e, q);
      assert ([e] + q)[0] == e;
      MiddleCopies(p, e, q, rest);
    }
  }

  lemma {:induction false} MiddleCopies(p: seq<Expr>, e: Expr, q: seq<Expr>, rest: seq<Expr>)
    requires Flat(p) && AllAnd(p) && e.Sub? && e.rel == AND && Proper(e.items)
    requires IsBlock(q) && q[|q| - 1].rel == OR && SubsProper(q) && rest != [] && SubsProper(rest)
    ensures SubsProper((p + ([e] + q)) + rest) && SubsProper(Copies(p, e.items, q) + rest)
    ensures BadRounds((p + ([e] + q)) + rest) == BadRounds(Copies(p, e.items, q) + rest)
  {
    if q[|q| - 1].Atom? {
      MiddleAtom(p, e, q, rest);
    } else {
      var y, f := q[..|q| - 1], q[|q| - 1];
      AtLast(q);
      assert f in q;
      ProperParts(y, [f]);
      MiddleChain(p, e, y, f, rest);
      Regroup([e], y, [f]);
      Regroup(p, [e] + y, [f]);
    }
  }

  lemma {:induction false} MiddleAtom(p: seq<Expr>, e: Expr, q: seq<Expr>, rest: seq<Expr>)
    requires Flat(p) && AllAnd(p) && e.Sub? && e.rel == AND && Proper(e.items)
    requires IsBlock(q) && q[|q| - 1].Atom? && q[|q| - 1].rel == OR && SubsProper(q) && rest != [] && SubsProper(rest)
    ensures SubsProper((p + ([e] + q)) + rest) && SubsProper(Copies(p, e.items, q) + rest)
    ensures BadRounds((p + ([e] + q)) + rest) == BadRounds(Copies(p, e.items, q) + rest)
  {
    ProperParts([e], q);
    ProperParts(p, [e] + q);
    AndThen([e], q);
    AndThen(p, [e] + q);
    BadBehindAtom(p + ([e] + q), rest);
    CopiesBehindAtom(p, e.items, q, rest);
  }

  lemma {:induction false} MiddleChain(p: seq<Expr>, e: Expr, y: seq<Expr>, f: Expr, rest: seq<Expr>)
    requires Flat(p) && AllAnd(p) && e.Sub? && e.rel == AND && Proper(e.items)
    requires AllAnd(y) && SubsProper(y) && f.Sub? && f.rel == OR && Proper(f.items) && rest != [] && SubsProper(rest)
    ensures var l := ((p + ([e] + y)) + [f]) + rest;
            && SubsProper(l) && SubsProper(Copies(p, e.items, y + [f]) + rest)
            && BadRounds(l) == BadRounds(Copies(p, e.items, y + [f]) + rest)
  {
    CopiesChain([], p, e.items, y, f, rest);
    assert [] + (Copies(p, e.items, y + [f]) + rest) == Copies(p, e.items, y + [f]) + rest;
    AllAndParts([e], y);
    AllAndParts(p, [e] + y);
    ProperParts([e], y);
    ProperParts(p, [e] + y);
    BadBehindSub(p + ([e] + y), f, rest);
    SplitWays(p, e, y);
  }

  lemma {:induction false} SplitWays(p: seq<Expr>, e: Expr, y: seq<Expr>)
    requires Flat(p) && e.Sub?
    ensures Ways(p + ([e] + y)) == Mul(Choices(e.items), Ways(y))
  {
    FlatWays(p);
    WaysAppend(p, [e] + y);
    assert ([e] + y)[1..] == y;
    assert Mul(1, Ways([e] + y)) == Ways([e] + y) + Mul(0, Ways([e] + y));
  }

  lemma {:induction false} LastStripped(p: seq<Expr>, e: Expr, q: seq<Expr>)
    requires IsSplit(p, e, q, []) && SubsProper(q)
    ensures SubsProper(p + ([e] + q)) && SubsProper([e] + q) && BadRounds(p + ([e] + q)) == Doubling([e] + q)
  {
    SplitShape(p, e, q, []);
    ProperParts([e], q);
    ProperParts(p, [e] + q);
    FlatWays(p);
    BadOfBlock(p + ([e] + q));
    Dropped([], p, [e] + q);
    assert [] + (p + ([e] + q)) == p + ([e] + q) && [] + ([e] + q) == [e] + q;
  }

  /** The block that is distributed is the last one. */
  lemma {:induction false} LastRound(p: seq<Expr>, e: Expr, q: seq<Expr>)
    requires IsSplit(p, e, q, []) && ClosingRel(e, q) == AND && SubsProper(q)
    ensures SubsProper(p + ([e] + q)) && SubsProper(Copies(p, e.items, q))
    ensures BadRounds(p + ([e] + q))
         == if q == [] || SingleBlock(e.items) then BadRounds(Copies(p, e.items, q))
             else Plus(Rounds(1), BadRounds(Copies(p, e.items, q)))
  {
    LastStripped(p, e, q);
    CopiesProper(p, e.items, q);
    if q == [] {
      assert [e] + q == [e];
      OnlyLast(p, e);
    } else {
      SuffixIsBlock(e, q);
      DoublingSub(e, q);
      LastCopiesBad(p, e.items, q);
      WaysPositive(q);
    }
  }

  lemma {:induction false} OnlyLast(p: seq<Expr>, e: Expr)
    requires Flat(p) && AllAnd(p) && e.Sub? && Proper(e.items)
    ensures SubsProper(Copies(p, e.items, [])) && SubsProper([e]) && Doubling([e]) == BadRounds(Copies(p, e.items, []))
  {
    CopiesProper(p, e.items, []);
    BareCopies([], p, e.items, []);
    assert [] + (Copies(p, e.items, []) + []) == Copies(p, e.items, []) && [] + (e.items + []) == e.items;
  }

  lemma {:induction false} LastCopiesBad(p: seq<Expr>, items: seq<Expr>, q: seq<Expr>)
    requires Flat(p) && AllAnd(p) && Proper(items) && IsBlock(q) && q[|q| - 1].rel == AND && SubsProper(q)
    ensures SubsProper(Copies(p, items, q)) && SubsProper(Anded(items) + q)
    ensures BadRounds(Copies(p, items, q)) ==
              if SingleBlock(items) || Ways(q) == 1 then Doubling(Anded(items) + q) else Endless
  {
    CopiesProper(p, items, q);
    AndedProper(items);
    ProperParts(Anded(items), q);
    WaysPositive(q);
    BlockIsAnd(q);
    assert IsBlock(Copies(p, items, q)) by { CopiesAnd(p, items, q); }
    BadOfBlock(Copies(p, items, q));
    if SingleBlock(items) {
      SingleCopy(p, items, q);
      InsideBlock(items);
      BlockIsAnd(items);
      AndedSame(items);
      FlatWays(p);
      Dropped([], p, items + q);
      assert [] + (p + (items + q)) == p + (items + q) && [] + (items + q) == items + q;
    } else if Ways(q) == 1 {
      LastCopies([], p, items, q);
      assert [] + Copies(p, items, q) == Copies(p, items, q) && [] + (Anded(items) + q) == Anded(items) + q;
    } else {
      OpenCopies(p, items, q);
    }
  }

  lemma {:induction false} BlockIsAnd(q: seq<Expr>)
    requires IsBlock(q) && q[|q| - 1].rel == AND
    ensures AllAnd(q)
  {
    forall e | e in q ensures e.rel == AND {
      var i :| 0 <= i < |q| && q[i] == e;
    }
  }

  lemma {:induction false} CopiesAnd(p: seq<Expr>, items: seq<Expr>, q: seq<Expr>)
    requires AllAnd(p) && Flat(p) && SubsProper(items) && items != [] && AllAnd(q) && q != [] && SubsProper(q)
    ensures AllAnd(Copies(p, items, q)) && Copies(p, items, q) != []
    decreases |items|
  {
    FirstBlock(items);
    var b, more := items[..BlockEnd(items)], items[BlockEnd(items)..];
    ProperParts(b, more);
    CopiesUnfold(p, b, more, q);
    CopyProper(p, b, q);
    ClosedBlock(b);
    AllAndParts(Close(b, AND), q);
    AllAndParts(p, Close(b, AND) + q);
    if more != [] {
      CopiesAnd(p, more, q);
    }
    AllAndParts(Copy(p, b, q), Copies(p, more, q));
  }

  /** Every round that is not the intended one lowers the count by one, and no other round changes it. */
  lemma {:induction false} StepCount(l: seq<Expr>)
    requires WellFormed(l) && !Flat(l)
    ensures SubsProper(Step(l))
    ensures BadRounds(l) == if GoodStep(l) then BadRounds(Step(l)) else Plus(Rounds(1), BadRounds(Step(l)))
  {
    var front, p, e, q, rest := Parts(l);
    PartsSubsProper(l, front, p, e, q, rest);
    var t, c := (p + ([e] + q)) + rest, Copies(p, e.items, q) + rest;
    if rest == [] {
      LastRound(p, e, q);
      assert t == p + ([e] + q) && c == Copies(p, e.items, q);
    } else {
      MiddleRound(p, e, q, rest);
    }
    CopiesProper(p, e.items, q);
    FrontIsDone(front, t);
    FrontIsDone(front, c);
  }
}
