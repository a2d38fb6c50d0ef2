/**
  The query object and its in-place flattening, statement by statement.  A position of the
  `std::list` is an index; positions in front of an insertion keep their index.
 */
module ConditionQueries {
  import opened Collections
  import opened Iteration
  import opened Query
  import opened QueryShape
  import opened QueryWritten
  import QueryEnding

  lemma {:induction false} SubFromPrefix(l: seq<Expr>, n: nat, i: nat)
    requires i <= n <= |l|
    ensures SubFrom(l[..n], i) == if SubFrom(l, i) < n then SubFrom(l, i) else n
    decreases n - i
  {
    if i < n {
      assert l[..n][i] == l[i];
      if l[i].Atom? {
        SubFromPrefix(l, n, i + 1);
      }
    }
  }

  lemma {:induction false} SubFromSkips(l: seq<Expr>, i: nat, n: nat)
    requires i <= n <= |l| && n <= SubFrom(l, i)
    ensures SubFrom(l, n) == SubFrom(l, i)
    decreases n - i
  {
    if i < n {
      SubFromSkips(l, i + 1, n);
    }
  }

  /** The copies for the AND-blocks of the subexpression from position `i` on. */
  function CopiesFrom(prefix: seq<Expr>, items: seq<Expr>, suffix: seq<Expr>, i: nat): seq<Expr>
    requires i <= |items|
    decreases |items| - i
  {
    if i == |items| then []
    else
      var e := EndFrom(items, i);
      Copy(prefix, items[i..e], suffix) + CopiesFrom(prefix, items, suffix, e)
  }

  lemma {:induction false} CopiesFromIs(prefix: seq<Expr>, items: seq<Expr>, suffix: seq<Expr>, i: nat)
    requires i <= |items|
    ensures CopiesFrom(prefix, items, suffix, i) == Copies(prefix, items[i..], suffix)
    decreases |items| - i
  {
    if i < |items| {
      var e := EndFrom(items, i);
      CopiesFromIs(prefix, items, suffix, e);
      CopiesOfTail(prefix, items, suffix, i, e);
    }
  }

  lemma {:induction false} CopiesOfTail(prefix: seq<Expr>, items: seq<Expr>, suffix: seq<Expr>, i: nat, e: nat)
    requires i < |items| && e == EndFrom(items, i)
    ensures Copies(prefix, items[i..], suffix) == Copy(prefix, items[i..e], suffix) + Copies(prefix, items[e..], suffix)
  {
    var t, n := items[i..], e - i;
    assert n == BlockEnd(t) by { EndFromTail(items, i, 0); }
    TailSlices(items, i, e);
    CopiesUnfold(prefix, t, suffix, items[i..e], items[e..]);
  }

  lemma {:induction false} CopiesUnfold(prefix: seq<Expr>, t: seq<Expr>, suffix: seq<Expr>, b: seq<Expr>,
                                        more: seq<Expr>)
    requires t != [] && b == t[..BlockEnd(t)] && more == t[BlockEnd(t)..]
    ensures Copies(prefix, t, suffix) == Copy(prefix, b, suffix) + Copies(prefix, more, suffix)
  {
  }

  lemma {:induction false} TailSlices<X>(items: seq<X>, i: nat, e: nat)
    requires i <= e <= |items|
    ensures items[i..][..e - i] == items[i..e] && items[i..][e - i..] == items[e..]
  {
  }

  lemma {:induction false} CopiesFromStart(prefix: seq<Expr>, items: seq<Expr>, suffix: seq<Expr>)
    ensures CopiesFrom(prefix, items, suffix, 0) == Copies(prefix, items, suffix)
  {
    CopiesFromIs(prefix, items, suffix, 0);
    assert items[0..] == items;
  }

  ghost predicate AfterRounds(list: seq<Expr>, n: nat, l: seq<Expr>) {
    l == Run(list, n) && WellFormed(l)
  }

  lemma {:induction false} NoRounds(l: seq<Expr>)
    requires WellFormed(l)
    ensures AfterRounds(l, 0, l)
  {
    assert Run(l, 0) == l;
  }

  /** The scan after `n` rounds: no subexpression in front of `it`, whose block begins at `begin`. */
  ghost predicate Scanning(list: seq<Expr>, n: nat, limit: nat, begin: nat, it: nat, l: seq<Expr>) {
    && AfterRounds(list, n, l)
    && n <= limit && Flat(Run(list, limit))
    && it <= |l| && FirstSub(l) == SubFrom(l, it)
    && begin == BlockBegin(l, it)
  }

  lemma {:induction false} ScanNext(list: seq<Expr>, n: nat, limit: nat, begin: nat, it: nat, l: seq<Expr>)
    requires Scanning(list, n, limit, begin, it, l) && it < |l| && l[it].Atom?
    ensures Scanning(list, n, limit, if l[it].rel == OR then it + 1 else begin, it + 1, l)
  {
  }

  lemma {:induction false} ScanFound(list: seq<Expr>, n: nat, limit: nat, begin: nat, pos: nat, l: seq<Expr>)
    requires Scanning(list, n, limit, begin, pos, l) && pos < |l| && l[pos].Sub?
    ensures pos == FirstSub(l) && begin == BlockBegin(l, pos)
    ensures l[pos].items != [] && Closed(l[pos].items)
  {
    SubItems(l, pos);
  }

  lemma {:induction false} ScanAgain(list: seq<Expr>, n: nat, limit: nat, begin: nat, pos: nat,
                                     x: seq<Expr>, c: Cut, y: seq<Expr>)
    requires Scanning(list, n, limit, begin, pos, x) && pos == FirstSub(x) < |x|
    requires c == FirstCut(x) && y == c.front + (Copies(c.prefix, c.sub.items, c.suffix) + c.rest)
    ensures n < limit && Scanning(list, n + 1, limit, begin, begin, y)
  {
    assert y == Step(x);
    assert AfterRounds(list, n + 1, y) by { RoundOfRun(list, n); }
    HasSub(x);
    assert y[..begin] == x[..begin];
    SameFront(x, y, begin, pos);
  }

  lemma {:induction false} RoundOfRun(l: seq<Expr>, n: nat)
    requires WellFormed(Run(l, n))
    ensures Run(l, n + 1) == Step(Run(l, n)) && WellFormed(Step(Run(l, n)))
  {
    IterateLast(Step, l, n);
    StepWellFormed(Run(l, n));
  }

  /** `made` are the copies of the AND-blocks in front of `done`; the list is `l`. */
  ghost predicate CopiedTo(prefix: seq<Expr>, items: seq<Expr>, suffix: seq<Expr>, done: nat,
                           list: seq<Expr>, end: nat, made: seq<Expr>, add: nat, l: seq<Expr>)
  {
    && done <= |items| && end <= |list|
    && add == end + |made| && l == list[..end] + made + list[end..]
    && made + CopiesFrom(prefix, items, suffix, done) == Copies(prefix, items, suffix)
  }

  /** The copying loop at position `it` of the block that begins at `subBegin`. */
  ghost predicate Copying(prefix: seq<Expr>, items: seq<Expr>, suffix: seq<Expr>, subBegin: nat, it: nat,
                          list: seq<Expr>, end: nat, made: seq<Expr>, add: nat, l: seq<Expr>)
  {
    && subBegin <= it < |items|
    && EndFrom(items, subBegin) == EndFrom(items, it)
    && CopiedTo(prefix, items, suffix, subBegin, list, end, made, add, l)
  }

  lemma {:induction false} AppendNothing<X>(a: seq<X>)
    ensures [] + a == a && a + [] == a
  {
  }

  lemma {:induction false} CopyingStart(prefix: seq<Expr>, items: seq<Expr>, suffix: seq<Expr>, list: seq<Expr>,
                                        end: nat)
    requires items != [] && end <= |list|
    ensures Copying(prefix, items, suffix, 0, 0, list, end, [], end, list)
  {
    assert list == list[..end] + [] + list[end..];
    NothingCopied(prefix, items, suffix);
  }

  lemma {:induction false} NothingCopied(prefix: seq<Expr>, items: seq<Expr>, suffix: seq<Expr>)
    ensures [] + CopiesFrom(prefix, items, suffix, 0) == Copies(prefix, items, suffix)
  {
    CopiesFromStart(prefix, items, suffix);
    AppendNothing(CopiesFrom(prefix, items, suffix, 0));
  }

  /** A copy inserted behind the ones that have been made. */
  lemma {:induction false} BlockCopied(prefix: seq<Expr>, items: seq<Expr>, suffix: seq<Expr>, i: nat,
                                       list: seq<Expr>, end: nat, made: seq<Expr>, add: nat, l: seq<Expr>,
                                           copy: seq<Expr>)
    requires CopiedTo(prefix, items, suffix, i, list, end, made, add, l) && i < |items|
    requires copy == Copy(prefix, items[i..EndFrom(items, i)], suffix)
    ensures CopiedTo(prefix, items, suffix, EndFrom(items, i), list, end, made + copy, add + |copy|,
                     l[..add] + copy + l[add..])
  {
    InsertedAfter(list, end, made, copy);
    NextCopy(prefix, items, suffix, i, copy, made);
  }

  lemma {:induction false} NextCopy(prefix: seq<Expr>, items: seq<Expr>, suffix: seq<Expr>, i: nat, copy: seq<Expr>,
                                    made: seq<Expr>)
    requires i < |items| && copy == Copy(prefix, items[i..EndFrom(items, i)], suffix)
    ensures (made + copy) + CopiesFrom(prefix, items, suffix, EndFrom(items, i))
            == made + CopiesFrom(prefix, items, suffix, i)
  {
    Regroup(made, copy, CopiesFrom(prefix, items, suffix, EndFrom(items, i)));
  }

  lemma {:induction false} CopyingSkip(prefix: seq<Expr>, items: seq<Expr>, suffix: seq<Expr>, subBegin: nat, it: nat,
                                       list: seq<Expr>, end: nat, made: seq<Expr>, add: nat, l: seq<Expr>)
    requires Copying(prefix, items, suffix, subBegin, it, list, end, made, add, l)
    requires it + 1 < |items| && items[it].rel == AND
    ensures Copying(prefix, items, suffix, subBegin, it + 1, list, end, made, add, l)
  {
  }

  lemma {:induction false} CopyingNext(prefix: seq<Expr>, items: seq<Expr>, suffix: seq<Expr>, done: nat,
                                       list: seq<Expr>, end: nat, made: seq<Expr>, add: nat, l: seq<Expr>)
    requires CopiedTo(prefix, items, suffix, done, list, end, made, add, l) && done < |items|
    ensures Copying(prefix, items, suffix, done, done, list, end, made, add, l)
  {
  }

  lemma {:induction false} CopyingDone(prefix: seq<Expr>, items: seq<Expr>, suffix: seq<Expr>,
                                       list: seq<Expr>, end: nat, made: seq<Expr>, add: nat, l: seq<Expr>)
    requires CopiedTo(prefix, items, suffix, |items|, list, end, made, add, l)
    ensures l == list[..end] + Copies(prefix, items, suffix) + list[end..]
  {
    AppendNothing(made);
  }

  lemma {:induction false} InsertedAfter(list: seq<Expr>, end: nat, made: seq<Expr>, copy: seq<Expr>)
    requires end <= |list|
    ensures var l := list[..end] + made + list[end..];
      l[..end + |made|] + copy + l[end + |made|..] == list[..end] + (made + copy) + list[end..]
  {
  }

  lemma {:induction false} ErasedBlock(list: seq<Expr>, begin: nat, end: nat, made: seq<Expr>)
    requires begin <= end <= |list|
    ensures var l := list[..end] + made + list[end..]; l[..begin] + l[end..] == list[..begin] + (made + list[end..])
  {
  }

  /** After a round the scan goes on behind an unchanged front without subexpressions. */
  lemma {:induction false} SameFront(x: seq<Expr>, y: seq<Expr>, b: nat, p: nat)
    requires p <= FirstSub(x) && b == BlockBegin(x, p) && b <= |y| && x[..b] == y[..b]
    ensures FirstSub(y) == SubFrom(y, b) && BlockBegin(y, b) == b
  {
    SubFromPrefix(x, b, 0);
    SubFromPrefix(y, b, 0);
    SubFromSkips(y, 0, b);
    assert b > 0 ==> x[..b][b - 1] == x[b - 1] && y[..b][b - 1] == y[b - 1];
  }

  class ConditionQuery {
    var expressions: seq<Expr>

    constructor (expressions: seq<Expr>)
      ensures this.expressions == expressions
    {
      this.expressions := expressions;
    }

    /** `insert` in front of position `at`, once per element. */
    method InsertAll(at: nat, es: seq<Expr>) returns (next: nat)
      requires at <= |expressions|
      modifies this
      ensures expressions == old(expressions)[..at] + es + old(expressions)[at..]
      ensures next == at + |es|
    {
      next := at;
      var i := 0;
      while i < |es|
        invariant i <= |es| && next == at + i
        invariant expressions == old(expressions)[..at] + es[..i] + old(expressions)[at..]
      {
        expressions := expressions[..next] + [es[i]] + expressions[next..];
        next := next + 1;
        i := i + 1;
      }
    }

    /** One pass of the copying loop: prefix, one AND-block of the subexpression, suffix. */
    method InsertCopy(at: nat, prefix: seq<Expr>, block: seq<Expr>, suffix: seq<Expr>) returns (next: nat)
      requires at <= |expressions| && block != []
      modifies this
      ensures expressions == old(expressions)[..at] + Copy(prefix, block, suffix) + old(expressions)[at..]
      ensures next == at + |Copy(prefix, block, suffix)|
    {
      next := InsertAll(at, prefix);
      next := InsertAll(next, block);
      ghost var before := expressions;
      assert before == old(expressions)[..at] + (prefix + block) + old(expressions)[at..];
      if suffix != [] {
        expressions := expressions[next - 1 := expressions[next - 1].(rel := AND)];
        ghost var linked := block[|block| - 1 := block[|block| - 1].(rel := AND)];
        assert expressions == old(expressions)[..at] + (prefix + linked) + old(expressions)[at..];
        next := InsertAll(next, suffix);
        assert expressions == old(expressions)[..at] + (prefix + linked + suffix) + old(expressions)[at..];
      }
    }

    /** What the copying loop does when an AND-block of the subexpression ends behind `it`. */
    method CopyBlock(prefix: seq<Expr>, items: seq<Expr>, suffix: seq<Expr>, subBegin: nat, it: nat,
                     ghost list: seq<Expr>, end: nat, ghost made: seq<Expr>, add: nat)
      returns (next: nat, ghost more: seq<Expr>)
      requires Copying(prefix, items, suffix, subBegin, it, list, end, made, add, expressions)
      requires it < |items| && (items[it].rel == OR || it == |items| - 1)
      modifies this
      ensures CopiedTo(prefix, items, suffix, it + 1, list, end, more, next, expressions)
    {
      var block := items[subBegin..it + 1];
      ghost var l := expressions;
      next := InsertCopy(add, prefix, block, suffix);
      more := made + Copy(prefix, block, suffix);
      assert EndFrom(items, subBegin) == it + 1;
      BlockCopied(prefix, items, suffix, subBegin, list, end, made, add, l, Copy(prefix, block, suffix));
    }

    /** The copying loop: one copy per AND-block of the subexpression, in front of position `end`.
        The source loop runs one round more, which finds the end of the sub-list; that round is
        written behind the loop here. */
    method InsertCopies(prefix: seq<Expr>, items: seq<Expr>, suffix: seq<Expr>, end: nat)
      requires end <= |expressions| && items != [] && Closed(items)
      modifies this
      ensures expressions == old(expressions)[..end] + Copies(prefix, items, suffix) + old(expressions)[end..]
    {
      ghost var list := expressions;
      ghost var made: seq<Expr> := [];
      var subBegin := 0;
      var add := end;
      var it := 0;
      CopyingStart(prefix, items, suffix, list, end);
      while it != |items| - 1
        invariant Copying(prefix, items, suffix, subBegin, it, list, end, made, add, expressions)
      {
        if items[it].rel == OR {
          add, made := CopyBlock(prefix, items, suffix, subBegin, it, list, end, made, add);
          subBegin := it + 1;
          CopyingNext(prefix, items, suffix, subBegin, list, end, made, add, expressions);
        } else {
          CopyingSkip(prefix, items, suffix, subBegin, it, list, end, made, add, expressions);
        }
        it := it + 1;
      }
      add, made := CopyBlock(prefix, items, suffix, subBegin, it, list, end, made, add);
      CopyingDone(prefix, items, suffix, list, end, made, add, expressions);
    }

    /** Replaces the AND-block `begin..end`, whose subexpression stands at `pos`, by its copies;
        returns the position of the first of them. */
    method SimplifyConjunctionBlock(begin: nat, pos: nat, end: nat) returns (next: nat)
      requires begin <= pos < end <= |expressions|
      requires expressions[pos].Sub? && expressions[pos].items != [] && Closed(expressions[pos].items)
      modifies this
      ensures next == begin
      ensures var c := CutAt(old(expressions), begin, pos, end);
              expressions == c.front + (Copies(c.prefix, c.sub.items, c.suffix) + c.rest)
    {
      ghost var list := expressions;
      var items := expressions[pos].items;
      var prefix, suffix := expressions[begin..pos], expressions[pos + 1..end];
      InsertCopies(prefix, items, suffix, end);
      expressions := expressions[..begin] + expressions[end..];
      ErasedBlock(list, begin, end, Copies(prefix, items, suffix));
      return begin;
    }

    /** One round of the rescan: finds the end of the block around the subexpression at `pos` and
        distributes it. */
    method SimplifyBlockAround(begin: nat, pos: nat, ghost list: seq<Expr>, ghost rounds: nat, ghost limit: nat)
      requires Scanning(list, rounds, limit, begin, pos, expressions)
      requires pos < |expressions| && expressions[pos].Sub?
      modifies this
      ensures rounds < limit && Scanning(list, rounds + 1, limit, begin, begin, expressions)
    {
      ghost var before := expressions;
      ScanFound(list, rounds, limit, begin, pos, before);
      var it := pos;
      while it < |expressions| && expressions[it].rel != OR
        invariant pos <= it <= |expressions|
        invariant EndFrom(before, pos) == EndFrom(before, it)
      {
        it := it + 1;
      }
      var end := if it < |expressions| then it + 1 else it;
      ghost var cut := CutAt(before, begin, pos, end);
      it := SimplifyConjunctionBlock(begin, pos, end);
      ScanAgain(list, rounds, limit, begin, pos, before, cut, expressions);
    }

    /** The rescan loop.  It is called for lists on which it comes to an end. */
    method SimplifySubExpressions()
      requires WellFormed(expressions) && QueryEnding.Ends(expressions)
      modifies this
      ensures Flat(expressions)
      ensures exists n: nat :: expressions == Run(old(expressions), n)
    {
      ghost var list := expressions;
      QueryEnding.EndsExact(list);
      ghost var limit: nat :| Flat(Run(list, limit));
      ghost var rounds: nat := 0;
      var begin, it := 0, 0;
      NoRounds(list);
      while it < |expressions|
        invariant Scanning(list, rounds, limit, begin, it, expressions)
        decreases limit - rounds, |expressions| - it
      {
        if expressions[it].Sub? {
          SimplifyBlockAround(begin, it, list, rounds, limit);
          it := begin;
          rounds := rounds + 1;
        } else {
          ScanNext(list, rounds, limit, begin, it, expressions);
          if expressions[it].rel == OR {
            begin := it + 1;
          }
          it := it + 1;
        }
      }
      HasSub(expressions);
    }
  }
}
