/**
  The search in a table: choice of an index, scan or walk over a range, blocks of a query
  (libbinom/source/binom_impl/ram_storage_implementation/table_impl.cxx).
 */
module TableFind {
  import opened Collections
  import opened Query
  import opened TableSearch

  /** The index of a column holds every row that has the column, once, under its value there. */
  ghost predicate IndexOf(x: Index, column: string, rows: seq<Row>) {
    && Ordered(x.entries)
    && (forall i, j | 0 <= i < j < |x.entries| :: x.entries[i].row != x.entries[j].row)
    && (forall y | y in x.entries :: y.row in rows && column in y.row.columns && y.value == y.row.columns[column])
    && (forall r | r in rows && column in r.columns :: Entry(r.columns[column], r) in x.entries)
  }

  predicate Atoms(block: seq<Expr>) {
    forall e | e in block :: e.Atom?
  }

  /** The row satisfies all conditions of the block, except perhaps the one at `skip`. */
  predicate Satisfies(r: Row, block: seq<Expr>, skip: int)
    requires Atoms(block)
  {
    forall i | 0 <= i < |block| && i != skip :: Test(r, block[i].cond)
  }

  // ------------------------------------------------------------------------------ choosing an index

  function OperatorScore(op: Operator): nat {
    match op
    case Equal => 1000
    case Higher => 500
    case HigherOrEqual => 250
    case Lower => 500
    case LowerOrEqual => 250
    case Contains => 10
    case NotEqual => 125
  }

  function Score(op: Operator, x: Index): nat {
    OperatorScore(op) + if x.unique then 1000 else 500
  }

  /** The searches by operator and kind of index, from the best one to the worst. */
  function Grade(op: Operator, unique: bool): nat {
    match op
    case Equal => if unique then 0 else 1
    case Higher => if unique then 1 else 5
    case Lower => if unique then 1 else 5
    case HigherOrEqual => if unique then 2 else 6
    case LowerOrEqual => if unique then 2 else 6
    case NotEqual => if unique then 3 else 7
    case Contains => if unique then 4 else 8
  }

  /** The higher score is the better grade. */
  lemma {:induction false} ScoreGrades(op: Operator, x: Index, op0: Operator, x0: Index)
    ensures Score(op, x) > Score(op0, x0) <==> Grade(op, x.unique) < Grade(op0, x0.unique)
    ensures Score(op, x) > 0
  {
  }

  /** The condition at `p` is preferred to the one at `q`: for its grade, then for fewer entries, then for its
      position. */
  predicate Preferred(block: seq<Expr>, p: nat, q: nat, indexes: map<string, Index>)
    requires Atoms(block) && p < |block| && q < |block| && Indexed(block, p, indexes) && Indexed(block, q, indexes)
  {
    var c, d := block[p].cond, block[q].cond;
    var x, y := indexes[c.column], indexes[d.column];
    var a, b := Grade(c.op, x.unique), Grade(d.op, y.unique);
    a < b || (a == b && (|x.entries| < |y.entries| || (|x.entries| == |y.entries| && p < q)))
  }

  predicate Indexed(block: seq<Expr>, i: nat, indexes: map<string, Index>)
    requires Atoms(block) && i < |block|
  {
    block[i].cond.column in indexes
  }

  /** The condition at `p` is preferred to all others among the first `n`. */
  ghost predicate BestOf(block: seq<Expr>, n: nat, p: nat, indexes: map<string, Index>)
    requires Atoms(block) && n <= |block|
  {
    && p < n && Indexed(block, p, indexes)
    && forall q | 0 <= q < n && q != p && Indexed(block, q, indexes) :: Preferred(block, p, q, indexes)
  }

  /** When the walk over the range of a condition leads to the rows of the table that satisfy it: the
      range must fit, and a row without the column must not satisfy the condition. */
  ghost predicate WalkFits(usesFind: bool, c: Condition, x: Index, rows: seq<Row>) {
    && RangeFits(usesFind, x.entries, c.op, c.value)
    && forall r | r in rows && c.column !in r.columns :: !Test(r, c)
  }

  /** When the walk has an end. */
  predicate WalkEnds(usesFind: bool, c: Condition, x: Index) {
    Visit(usesFind, x.entries, c.op, c.value).Some?
  }

  /** The walk leads to the row by mistake: it is in the index, and higher than an absent key. */
  predicate Extra(usesFind: bool, c: Condition, x: Index, r: Row) {
    && Misses(usesFind, x.entries, c.op, c.value) && c.op == Lower
    && c.column in r.columns && Less(c.value, r.columns[c.column])
  }

  /** The walk leaves the row out by mistake: it is not in the index, or higher than an absent key. */
  predicate Missed(usesFind: bool, c: Condition, x: Index, r: Row) {
    if c.column in r.columns
    then Misses(usesFind, x.entries, c.op, c.value) && c.op == HigherOrEqual && Less(c.value, r.columns[c.column])
    else Test(r, c)
  }

  /** Some entry leads to the row. */
  ghost predicate Leads(e: seq<Entry>, r: Row) {
    exists i | 0 <= i < |e| :: e[i].row == r
  }

  lemma {:induction false} LeadsNext(e: seq<Entry>, n: nat)
    requires n < |e|
    ensures forall r :: Leads(e[..n + 1], r) <==> Leads(e[..n], r) || r == e[n].row
    ensures Leads(e[..n], e[n].row) ==> exists i | 0 <= i < n :: e[i].row == e[n].row
  {
    forall r ensures Leads(e[..n + 1], r) <==> Leads(e[..n], r) || r == e[n].row {
      if Leads(e[..n], r) {
        var i :| 0 <= i < n && e[..n][i].row == r;
        assert e[..n + 1][i].row == r;
      }
      assert e[..n + 1][n] == e[n];
    }
    if Leads(e[..n], e[n].row) {
      var i :| 0 <= i < n && e[..n][i].row == e[n].row;
      assert e[i].row == e[n].row;
    }
  }

  /** The matching entries of an index, each once. */
  lemma {:induction false} MatchingRows(e: seq<Entry>, op: Operator, key: Value)
    ensures forall y :: y in Matching(e, op, key) <==> y in e && Compare(y.value, op, key)
    ensures (forall i, j | 0 <= i < j < |e| :: e[i].row != e[j].row) ==>
              forall i, j | 0 <= i < j < |Matching(e, op, key)| ::
                  Matching(e, op, key)[i].row != Matching(e, op, key)[j].row
  {
    if e != [] {
      var d := e[..|e| - 1];
      MatchingRows(d, op, key);
      assert e == d + [e[|e| - 1]];
      var m := Matching(d, op, key);
      forall i | 0 <= i < |m| && (forall k, j | 0 <= k < j < |e| :: e[k].row != e[j].row)
        ensures m[i].row != e[|e| - 1].row {
        assert m[i] in m;
        var k :| 0 <= k < |d| && d[k] == m[i];
        assert e[k] == d[k];
      }
    }
  }

  lemma {:induction false} LeadsTo(e: seq<Entry>, r: Row)
    ensures Leads(e, r) <==> exists y :: y in e && y.row == r
  {
    if Leads(e, r) {
      var i :| 0 <= i < |e| && e[i].row == r;
      assert e[i] in e;
    }
    if y :| y in e && y.row == r {
      var i :| 0 <= i < |e| && e[i] == y;
    }
  }

  /** The rows that the walk for one condition leads to: those that satisfy it, but for the mistakes. */
  lemma {:induction false} ReachedRow(usesFind: bool, x: Index, c: Condition, rows: seq<Row>, r: Row)
    requires IndexOf(x, c.column, rows)
    ensures Leads(Reached(usesFind, x.entries, c.op, c.value), r) <==>
              r in rows && ((Test(r, c) && !Missed(usesFind, c, x, r)) || Extra(usesFind, c, x, r))
  {
    var e := x.entries;
    LeadsTo(Reached(usesFind, e, c.op, c.value), r);
    MatchingRows(e, c.op, c.value);
    if r in rows && c.column in r.columns {
      var y := Entry(r.columns[c.column], r);
      assert y in e;
      if Misses(usesFind, e, c.op, c.value) {
        assert y.value != c.value;
      }
    }
  }

  /** Exactly when the indexed search for one condition leads to the rows that satisfy it. */
  lemma {:induction false} WalkExact(usesFind: bool, x: Index, c: Condition, rows: seq<Row>)
    requires IndexOf(x, c.column, rows)
    ensures WalkFits(usesFind, c, x, rows) <==>
              && WalkEnds(usesFind, c, x)
              && forall r :: Leads(Visit(usesFind, x.entries, c.op, c.value).value, r) <==> r in rows && Test(r, c)
  {
    VisitExact(usesFind, x.entries, c.op, c.value);
    VisitFails(usesFind, x.entries, c.op, c.value);
    if WalkEnds(usesFind, c, x) {
      forall r ensures Leads(Visit(usesFind, x.entries, c.op, c.value).value, r) <==>
                         r in rows && ((Test(r, c) && !Missed(usesFind, c, x, r)) || Extra(usesFind, c, x, r)) {
        ReachedRow(usesFind, x, c, rows, r);
      }
      if !RangeFits(usesFind, x.entries, c.op, c.value) {
        var y :| y in x.entries && Less(c.value, y.value);
        assert y.row in rows && (Extra(usesFind, c, x, y.row) || Missed(usesFind, c, x, y.row));
      }
    }
  }

  lemma {:induction false} BestIsOne(block: seq<Expr>, p: nat, indexes: map<string, Index>)
    requires Atoms(block) && BestOf(block, |block|, p, indexes)
    ensures forall q | 0 <= q < |block| && BestOf(block, |block|, q, indexes) :: q == p
  {
  }

  /** The search of a block by an index, if there is one, has an end. */
  ghost predicate BlockEnds(usesFind: bool, block: seq<Expr>, indexes: map<string, Index>)
    requires Atoms(block)
  {
    forall p | 0 <= p < |block| && BestOf(block, |block|, p, indexes) ::
      WalkEnds(usesFind, block[p].cond, indexes[block[p].cond.column])
  }

  /** The search of a block finds the row by mistake: it satisfies all other conditions. */
  ghost predicate ExtraIn(usesFind: bool, block: seq<Expr>, indexes: map<string, Index>, r: Row)
    requires Atoms(block)
  {
    exists p | 0 <= p < |block| && BestOf(block, |block|, p, indexes) ::
      Satisfies(r, block, p) && Extra(usesFind, block[p].cond, indexes[block[p].cond.column], r)
  }

  ghost predicate MissedIn(usesFind: bool, block: seq<Expr>, indexes: map<string, Index>, r: Row)
    requires Atoms(block)
  {
    exists p | 0 <= p < |block| && BestOf(block, |block|, p, indexes) ::
      Satisfies(r, block, p) && Missed(usesFind, block[p].cond, indexes[block[p].cond.column], r)
  }

  /** What the search of a block finds: the rows that satisfy it, but for the mistakes. */
  ghost predicate FoundIn(usesFind: bool, block: seq<Expr>, indexes: map<string, Index>, r: Row)
    requires Atoms(block)
  {
    (Satisfies(r, block, -1) && !MissedIn(usesFind, block, indexes, r)) || ExtraIn(usesFind, block, indexes, r)
  }

  /** When the search of a block finds the rows that satisfy it. */
  ghost predicate BlockFits(usesFind: bool, block: seq<Expr>, indexes: map<string, Index>, rows: seq<Row>)
    requires Atoms(block)
  {
    && BlockEnds(usesFind, block, indexes)
    && forall r | r in rows :: !ExtraIn(usesFind, block, indexes, r) && !MissedIn(usesFind, block, indexes, r)
  }

  /** A row that is found by mistake does not satisfy the block, and one that is left out does. */
  lemma {:induction false} MistakesCount(usesFind: bool, block: seq<Expr>, indexes: map<string, Index>, r: Row)
    requires Atoms(block)
    ensures ExtraIn(usesFind, block, indexes, r) ==> !Satisfies(r, block, -1)
    ensures MissedIn(usesFind, block, indexes, r) ==> Satisfies(r, block, -1) && !ExtraIn(usesFind, block, indexes, r)
  {
    forall p | 0 <= p < |block| && BestOf(block, |block|, p, indexes)
      ensures Satisfies(r, block, -1) <==> Satisfies(r, block, p) && Test(r, block[p].cond)
    {
      BestIsOne(block, p, indexes);
    }
  }

  /** From the lower bound on, a search is right for `contains` and for the operators that compare with a key
      from below, and for the others if every row has the column. */
  lemma {:induction false} IntendedFits(block: seq<Expr>, indexes: map<string, Index>, rows: seq<Row>)
    requires Atoms(block) && forall c | c in indexes :: IndexOf(indexes[c], c, rows)
    requires forall p | 0 <= p < |block| && BestOf(block, |block|, p, indexes) ::
               var c := block[p].cond;
               || c.op == Contains
               || ((c.op == Equal || c.op == Higher || c.op == HigherOrEqual) && c.value != Null)
               || forall r | r in rows :: c.column in r.columns
    ensures BlockFits(false, block, indexes, rows)
  {
    forall p | 0 <= p < |block| && BestOf(block, |block|, p, indexes)
      ensures WalkEnds(false, block[p].cond, indexes[block[p].cond.column])
    {
      var c := block[p].cond;
      VisitFails(false, indexes[c.column].entries, c.op, c.value);
    }
  }

  /** The rows that the walk leads to, as far as they satisfy the other conditions. */
  lemma {:induction false} SelectedRows(usesFind: bool, visited: seq<Entry>, block: seq<Expr>, p: nat,
                                        indexes: map<string, Index>, rows: seq<Row>, r: Row)
    requires Atoms(block) && p < |block| && BestOf(block, |block|, p, indexes)
    requires var c := block[p].cond;
             Leads(visited, r) <==>
               r in rows && ((Test(r, c) && !Missed(usesFind, c, indexes[c.column], r))
                             || Extra(usesFind, c, indexes[c.column], r))
    ensures Leads(visited, r) && Satisfies(r, block, p) <==> r in rows && FoundIn(usesFind, block, indexes, r)
  {
    BestIsOne(block, p, indexes);
    assert Satisfies(r, block, -1) <==> Satisfies(r, block, p) && Test(r, block[p].cond);
  }

  /** Without an index there are no mistakes. */
  lemma {:induction false} ScanFinds(usesFind: bool, block: seq<Expr>, indexes: map<string, Index>, r: Row)
    requires Atoms(block) && forall i | 0 <= i < |block| :: !Indexed(block, i, indexes)
    ensures FoundIn(usesFind, block, indexes, r) <==> Satisfies(r, block, -1)
    ensures BlockEnds(usesFind, block, indexes)
  {
  }

  // ----------------------------------------------------------------------- the blocks of a query

  /** The row satisfies some AND-block from position `i` on. */
  ghost predicate AnswersFrom(q: seq<Expr>, i: nat, r: Row)
    requires Flat(q) && i <= |q|
    decreases |q| - i
  {
    i < |q| && (Satisfies(r, q[i..EndFrom(q, i)], -1) || AnswersFrom(q, EndFrom(q, i), r))
  }

  lemma {:induction false} BlockSatisfied(q: seq<Expr>, begin: nat, end: nat, r: Row)
    requires Flat(q) && begin < end <= |q|
    ensures Satisfies(r, q[begin..end], -1) <==> forall k | begin <= k < end :: Test(r, q[k].cond)
  {
    var b := q[begin..end];
    assert forall k | begin <= k < end :: q[k] == b[k - begin];
  }

  /** The meaning of the query for the row. */
  ghost predicate Answers(q: seq<Expr>, r: Row) {
    Eval(q, c => Test(r, c))
  }

  lemma {:induction false} AnswersTail(q: seq<Expr>, i: nat, r: Row)
    requires Flat(q) && i <= |q|
    ensures AnswersFrom(q, i, r) == Answers(q[i..], r)
    decreases |q| - i
  {
    if i < |q| {
      var t, n := q[i..], EndFrom(q, i);
      EndFromTail(q, i, 0);
      AnswersTail(q, n, r);
      assert t[..n - i] == q[i..n] && t[n - i..] == q[n..];
      AtomsHold(q[i..n], r);
    }
  }

  lemma {:induction false} AtomsHold(b: seq<Expr>, r: Row)
    requires Atoms(b)
    ensures AllHold(b, c => Test(r, c)) == Satisfies(r, b, -1)
  {
    var v: Condition -> bool := c => Test(r, c);
    forall i | 0 <= i < |b| ensures Holds(b[i], v) == Test(r, b[i].cond) {
      assert b[i] in b;
    }
  }

  lemma {:induction false} AnswersIs(q: seq<Expr>)
    requires Flat(q)
    ensures forall r :: AnswersFrom(q, 0, r) == Answers(q, r)
  {
    forall r ensures AnswersFrom(q, 0, r) == Answers(q, r) {
      AnswersTail(q, 0, r);
      assert q[0..] == q;
    }
  }

  // The same for the blocks from position `i` on.

  ghost predicate QueryEnds(usesFind: bool, q: seq<Expr>, i: nat, indexes: map<string, Index>)
    requires Flat(q) && i <= |q|
    decreases |q| - i
  {
    i < |q| ==> BlockEnds(usesFind, q[i..EndFrom(q, i)], indexes) && QueryEnds(usesFind, q, EndFrom(q, i), indexes)
  }

  ghost predicate FoundFrom(usesFind: bool, q: seq<Expr>, i: nat, indexes: map<string, Index>, r: Row)
    requires Flat(q) && i <= |q|
    decreases |q| - i
  {
    i < |q| && (FoundIn(usesFind, q[i..EndFrom(q, i)], indexes, r) || FoundFrom(usesFind, q, EndFrom(q, i), indexes, r))
  }

  ghost predicate ExtraFrom(usesFind: bool, q: seq<Expr>, i: nat, indexes: map<string, Index>, r: Row)
    requires Flat(q) && i <= |q|
    decreases |q| - i
  {
    i < |q| && (ExtraIn(usesFind, q[i..EndFrom(q, i)], indexes, r) || ExtraFrom(usesFind, q, EndFrom(q, i), indexes, r))
  }

  ghost predicate MissedFrom(usesFind: bool, q: seq<Expr>, i: nat, indexes: map<string, Index>, r: Row)
    requires Flat(q) && i <= |q|
    decreases |q| - i
  {
    i < |q| && (MissedIn(usesFind, q[i..EndFrom(q, i)], indexes, r)
                || MissedFrom(usesFind, q, EndFrom(q, i), indexes, r))
  }

  lemma {:induction false} MistakesFrom(usesFind: bool, q: seq<Expr>, i: nat, indexes: map<string, Index>, r: Row)
    requires Flat(q) && i <= |q|
    ensures ExtraFrom(usesFind, q, i, indexes, r) ==> FoundFrom(usesFind, q, i, indexes, r)
    ensures MissedFrom(usesFind, q, i, indexes, r) ==> AnswersFrom(q, i, r)
    ensures FoundFrom(usesFind, q, i, indexes, r) ==> AnswersFrom(q, i, r) || ExtraFrom(usesFind, q, i, indexes, r)
    ensures AnswersFrom(q, i, r) ==> FoundFrom(usesFind, q, i, indexes, r) || MissedFrom(usesFind, q, i, indexes, r)
    decreases |q| - i
  {
    if i < |q| {
      MistakesCount(usesFind, q[i..EndFrom(q, i)], indexes, r);
      MistakesFrom(usesFind, q, EndFrom(q, i), indexes, r);
    }
  }

  /** When the search finds the answers of the query: all walks have an end, a row that some block finds by
      mistake satisfies another one, and a row that some block leaves out is found by another one. */
  ghost predicate QueryFits(usesFind: bool, q: seq<Expr>, indexes: map<string, Index>, rows: seq<Row>)
    requires Flat(q)
  {
    && QueryEnds(usesFind, q, 0, indexes)
    && forall r | r in rows ::
         && (ExtraFrom(usesFind, q, 0, indexes, r) ==> AnswersFrom(q, 0, r))
         && (MissedFrom(usesFind, q, 0, indexes, r) ==> FoundFrom(usesFind, q, 0, indexes, r))
  }

  /** The search of every block finds the rows that satisfy it. */
  ghost predicate BlocksFit(usesFind: bool, q: seq<Expr>, i: nat, indexes: map<string, Index>, rows: seq<Row>)
    requires Flat(q) && i <= |q|
    decreases |q| - i
  {
    i < |q| ==>
      && BlockFits(usesFind, q[i..EndFrom(q, i)], indexes, rows)
      && BlocksFit(usesFind, q, EndFrom(q, i), indexes, rows)
  }

  lemma {:induction false} BlocksFitFrom(usesFind: bool, q: seq<Expr>, i: nat, indexes: map<string, Index>,
                                         rows: seq<Row>)
    requires Flat(q) && i <= |q| && BlocksFit(usesFind, q, i, indexes, rows)
    ensures QueryEnds(usesFind, q, i, indexes)
    ensures forall r | r in rows :: !ExtraFrom(usesFind, q, i, indexes, r) && !MissedFrom(usesFind, q, i, indexes, r)
    decreases |q| - i
  {
    if i < |q| {
      BlocksFitFrom(usesFind, q, EndFrom(q, i), indexes, rows);
    }
  }

  /** If all blocks fit, so does the query; it may fit otherwise, since blocks make up for each other. */
  lemma {:induction false} BlocksFitQuery(usesFind: bool, q: seq<Expr>, indexes: map<string, Index>, rows: seq<Row>)
    requires Flat(q) && BlocksFit(usesFind, q, 0, indexes, rows)
    ensures QueryFits(usesFind, q, indexes, rows)
  {
    BlocksFitFrom(usesFind, q, 0, indexes, rows);
  }

  lemma {:induction false} QueryFitsExact(usesFind: bool, q: seq<Expr>, indexes: map<string, Index>, rows: seq<Row>)
    requires Flat(q)
    ensures QueryFits(usesFind, q, indexes, rows) <==>
              && QueryEnds(usesFind, q, 0, indexes)
              && forall r | r in rows :: FoundFrom(usesFind, q, 0, indexes, r) <==> Answers(q, r)
  {
    forall r ensures AnswersFrom(q, 0, r) == Answers(q, r) {
      AnswersTail(q, 0, r);
      assert q[0..] == q;
    }
    forall r | r in rows
      ensures (ExtraFrom(usesFind, q, 0, indexes, r) ==> AnswersFrom(q, 0, r))
              && (MissedFrom(usesFind, q, 0, indexes, r) ==> FoundFrom(usesFind, q, 0, indexes, r))
              <==> (FoundFrom(usesFind, q, 0, indexes, r) <==> Answers(q, r))
    {
      MistakesFrom(usesFind, q, 0, indexes, r);
    }
  }

  /** An index with one entry, on which the walks as written go wrong: two run past the end, one leads to a row
      that does not satisfy the condition, and one leaves a row out that does. */
  lemma {:induction false} OneEntry()
    ensures var r := Row(0, map["a" := Key(5)]);
            var e := [Entry(Key(5), r)];
            && IndexOf(Index(false, e), "a", [r])
            && Visit(true, e, Equal, Key(3)).None? && Visit(true, e, NotEqual, Key(5)).None?
            && Visit(true, e, Lower, Key(3)) == Some(e) && !Test(r, Condition("a", Lower, Key(3)))
            && Visit(true, e, HigherOrEqual, Key(3)) == Some([]) && Test(r, Condition("a", HigherOrEqual, Key(3)))
  {
    var r := Row(0, map["a" := Key(5)]);
    var y := Entry(Key(5), r);
    var e := [y];
    assert y in e && Occurs(e, Key(5)) && !Occurs(e, Key(3)) && HasHigher(e, Key(3));
    VisitFails(true, e, Equal, Key(3));
    VisitFails(true, e, NotEqual, Key(5));
    VisitFails(true, e, Lower, Key(3));
    VisitFails(true, e, HigherOrEqual, Key(3));
    VisitExact(true, e, Lower, Key(3));
    VisitExact(true, e, HigherOrEqual, Key(3));
  }

  /** The search for `a != 5 AND b == 5` goes by the index of `b`, although that of `a` is as good otherwise: the walk
      ends with no row found, while the one by `a` would run past the end. */
  lemma {:induction false} EqualFirst()
    ensures var r := Row(0, map["a" := Key(5), "b" := Key(5)]);
            var x := Index(false, [Entry(Key(5), r)]);
            var indexes := map["a" := x, "b" := x];
            var block := [Atom(Condition("a", NotEqual, Key(5)), AND), Atom(Condition("b", Equal, Key(5)), AND)];
            && IndexOf(x, "a", [r]) && IndexOf(x, "b", [r]) && BestOf(block, 2, 1, indexes)
               && !BestOf(block, 2, 0, indexes)
            && BlockEnds(true, block, indexes) && !FoundIn(true, block, indexes, r)
            && !WalkEnds(true, Condition("a", NotEqual, Key(5)), x)
  {
    var r := Row(0, map["a" := Key(5), "b" := Key(5)]);
    var x := Index(false, [Entry(Key(5), r)]);
    var indexes := map["a" := x, "b" := x];
    var block := [Atom(Condition("a", NotEqual, Key(5)), AND), Atom(Condition("b", Equal, Key(5)), AND)];
    assert x.entries[0] in x.entries && Occurs(x.entries, Key(5)) && !HasHigher(x.entries, Key(5));
    VisitFails(true, x.entries, NotEqual, Key(5));
    VisitFails(true, x.entries, Equal, Key(5));
    assert block[0].cond.op == NotEqual && block[1].cond.op == Equal;
    assert Preferred(block, 1, 0, indexes) && !Preferred(block, 0, 1, indexes);
    assert !Satisfies(r, block, -1) && !Satisfies(r, block, 1) by { assert !Test(r, block[0].cond); }
  }

  /** The early-exit loop at position `i`, in the block that begins at `begin`. */
  ghost predicate Testing(q: seq<Expr>, r: Row, begin: nat, i: nat, result: bool)
    requires Flat(q)
  {
    && begin <= i <= |q| && EndFrom(q, begin) == EndFrom(q, i)
    && (begin < i ==> q[i - 1].rel == AND) && (begin == i && i > 0 ==> q[i - 1].rel == OR)
    && (result <==> forall k | begin <= k < i :: Test(r, q[k].cond))
    && AnswersFrom(q, 0, r) == AnswersFrom(q, begin, r)
  }

  lemma {:induction false} NextTested(q: seq<Expr>, r: Row, begin: nat, i: nat, result: bool)
    requires Flat(q) && Testing(q, r, begin, i, result) && i < |q|
    ensures var next := result && Test(r, q[i].cond);
            if q[i].rel == AND then Testing(q, r, begin, i + 1, next)
            else if next then AnswersFrom(q, 0, r) else Testing(q, r, i + 1, i + 1, true)
  {
    var next := result && Test(r, q[i].cond);
    assert next <==> forall k | begin <= k < i + 1 :: Test(r, q[k].cond);
    if q[i].rel == OR {
      BlockSatisfied(q, begin, i + 1, r);
    }
  }

  lemma {:induction false} TestedAll(q: seq<Expr>, r: Row, begin: nat, result: bool)
    requires Flat(q) && Testing(q, r, begin, |q|, result)
    ensures result <==> AnswersFrom(q, 0, r) || q == [] || q[|q| - 1].rel == OR
  {
    assert EndFrom(q, |q|) == |q| && !AnswersFrom(q, |q|, r);
    if begin < |q| {
      BlockSatisfied(q, begin, |q|, r);
    }
  }

  class Table {
    var rows: seq<Row>
    var indexes: map<string, Index>

    /** Whether ranges begin at `find`, and the walk of `not_equal` jumps without looking for the end, as written;
        or ranges begin at the lower bound, and it does look. */
    const usesFind: bool

    constructor (rows: seq<Row>, indexes: map<string, Index>, usesFind: bool)
      requires NoRepeats(rows) && forall c | c in indexes :: IndexOf(indexes[c], c, rows)
      ensures Valid() && this.rows == rows && this.indexes == indexes && this.usesFind == usesFind
    {
      this.rows, this.indexes, this.usesFind := rows, indexes, usesFind;
    }

    ghost predicate Valid()
      reads this
    {
      NoRepeats(rows) && forall c | c in indexes :: IndexOf(indexes[c], c, rows)
    }

    /** The index to search by: the position of its condition, or -1. */
    method ChooseIndex(block: seq<Expr>) returns (best: int)
      requires Atoms(block)
      ensures -1 <= best < |block|
      ensures best == -1 ==> forall i | 0 <= i < |block| :: !Indexed(block, i, indexes)
      ensures best >= 0 ==> BestOf(block, |block|, best, indexes)
    {
      best := -1;
      var indexScore := 0;
      var i := 0;
      while i < |block|
        invariant 0 <= i <= |block| && -1 <= best < i
        invariant best == -1 ==> indexScore == 0 && forall q | 0 <= q < i :: !Indexed(block, q, indexes)
        invariant best >= 0 ==>
            && BestOf(block, i, best, indexes)
            && indexScore == Score(block[best].cond.op, indexes[block[best].cond.column])
      {
        var c := block[i].cond;
        if c.column in indexes {
          var x := indexes[c.column];
          var current := Score(c.op, x);
          if best >= 0 {
            ScoreGrades(c.op, x, block[best].cond.op, indexes[block[best].cond.column]);
            ScoreGrades(block[best].cond.op, indexes[block[best].cond.column], c.op, x);
          }
          if current > indexScore {
            best, indexScore := i, current;
          } else if current == indexScore {
            // the score is never zero, so that an index has been chosen before
            if |x.entries| < |indexes[block[best].cond.column].entries| {
              best, indexScore := i, current;
            }
          }
        }
        i := i + 1;
      }
    }

    method TestAll(r: Row, block: seq<Expr>, skip: int) returns (result: bool)
      requires Atoms(block)
      ensures result == Satisfies(r, block, skip)
    {
      result := true;
      var i := 0;
      while i < |block|
        invariant 0 <= i <= |block| && result
        invariant forall k | 0 <= k < i && k != skip :: Test(r, block[k].cond)
      {
        if i != skip && !Test(r, block[i].cond) {
          return false;
        }
        i := i + 1;
      }
    }

    /** The rows that satisfy all conditions of a block, but for the mistakes of the walk over an index; false where
        that has no end. */
    method FilterByConjunctionBlock(block: seq<Expr>) returns (ok: bool, found: seq<Row>)
      requires Valid() && Atoms(block)
      ensures ok <==> BlockEnds(usesFind, block, indexes)
      ensures ok ==> NoRepeats(found) && forall r :: r in found <==> r in rows && FoundIn(usesFind, block, indexes, r)
      ensures (ok && forall r :: r in found <==> r in rows && Satisfies(r, block, -1)) <==>
                BlockFits(usesFind, block, indexes, rows)
    {
      BlockFitsExact(block);
      var best := ChooseIndex(block);
      if best == -1 {
        found := Scan(block);
        forall r ensures FoundIn(usesFind, block, indexes, r) <==> Satisfies(r, block, -1) {
          ScanFinds(usesFind, block, indexes, r);
        }
        ok := true;
      } else {
        ok, found := WalkIndex(block, best);
      }
    }

    lemma {:induction false} BlockFitsExact(block: seq<Expr>)
      requires Atoms(block)
      ensures BlockFits(usesFind, block, indexes, rows) <==>
                && BlockEnds(usesFind, block, indexes)
                && forall r | r in rows :: FoundIn(usesFind, block, indexes, r) <==> Satisfies(r, block, -1)
    {
      forall r ensures !ExtraIn(usesFind, block, indexes, r) && !MissedIn(usesFind, block, indexes, r)
                       <==> (FoundIn(usesFind, block, indexes, r) <==> Satisfies(r, block, -1)) {
        MistakesCount(usesFind, block, indexes, r);
      }
    }

    method WalkIndex(block: seq<Expr>, best: nat) returns (ok: bool, found: seq<Row>)
      requires Valid() && Atoms(block) && best < |block| && BestOf(block, |block|, best, indexes)
      ensures ok <==> BlockEnds(usesFind, block, indexes)
      ensures ok ==> NoRepeats(found) && forall r :: r in found <==> r in rows && FoundIn(usesFind, block, indexes, r)
    {
      BestIsOne(block, best, indexes);
      var c := block[best].cond;
      var x := indexes[c.column];
      VisitExact(usesFind, x.entries, c.op, c.value);
      MatchingRows(x.entries, c.op, c.value);
      var visited;
      ok, visited := VisitEntries(usesFind, x.entries, c.op, c.value);
      found := [];
      if ok {
        found := Select(visited, block, best);
        forall r ensures Leads(visited, r) && Satisfies(r, block, best) <==>
            r in rows && FoundIn(usesFind, block, indexes, r) {
          ReachedRow(usesFind, x, c, rows, r);
          SelectedRows(usesFind, visited, block, best, indexes, rows, r);
        }
      }
    }

    // ------------------------------------------------------------------------------------------ find

    /** The rows of all AND-blocks of a flat query; false where some walk has no end. */
    method Find(query: seq<Expr>) returns (ok: bool, result: set<Row>)
      requires Valid() && Flat(query)
      ensures ok <==> QueryEnds(usesFind, query, 0, indexes)
      ensures ok ==> forall r :: r in result <==> r in rows && FoundFrom(usesFind, query, 0, indexes, r)
      ensures (ok && forall r :: r in result <==> r in rows && Answers(query, r)) <==>
                QueryFits(usesFind, query, indexes, rows)
    {
      QueryFitsExact(usesFind, query, indexes, rows);
      ok, result := FindBlocks(query);
    }

    method FindBlocks(query: seq<Expr>) returns (ok: bool, result: set<Row>)
      requires Valid() && Flat(query)
      ensures ok <==> QueryEnds(usesFind, query, 0, indexes)
      ensures ok ==> forall r :: r in result <==> r in rows && FoundFrom(usesFind, query, 0, indexes, r)
    {
      result := {};
      ok := true;
      var andBlockBegin, it := 0, 0;
      while true
        invariant 0 <= andBlockBegin <= it <= |query| && ok
        invariant EndFrom(query, andBlockBegin) == EndFrom(query, it)
        invariant Collecting(query, andBlockBegin, result)
        decreases |query| - it
      {
        if it == |query| || query[it].rel == OR {
          var andBlockEnd := if it == |query| then it else it + 1;
          if andBlockBegin != andBlockEnd {
            ok, result := AddBlock(query, andBlockBegin, andBlockEnd, result);
            if !ok { return; }
          }
          if it == |query| {
            return;
          }
          andBlockBegin := andBlockEnd;
        }
        it := it + 1;
      }
    }

    /** What has been found so far, and what the blocks from `begin` on find. */
    ghost predicate Collecting(query: seq<Expr>, begin: nat, result: set<Row>)
      requires Flat(query) && begin <= |query|
      reads this
    {
      && QueryEnds(usesFind, query, 0, indexes) == QueryEnds(usesFind, query, begin, indexes)
      && forall r :: (r in result || (r in rows && FoundFrom(usesFind, query, begin, indexes, r)))
                     <==> r in rows && FoundFrom(usesFind, query, 0, indexes, r)
    }

    method AddBlock(query: seq<Expr>, begin: nat, end: nat, before: set<Row>) returns (ok: bool, result: set<Row>)
      requires Valid() && Flat(query) && begin < |query| && end == EndFrom(query, begin)
               && Collecting(query, begin, before)
      ensures if ok then Collecting(query, end, result) else !QueryEnds(usesFind, query, 0, indexes)
    {
      var block := query[begin..end];
      var found;
      ok, found := FilterByConjunctionBlock(block);
      result := before + set r | r in found;
    }

    /** `test` of a row against a whole flat query, which checks the constraints of the table.  It agrees
        with `Find` except that an empty query and one that ends in OR are satisfied by every row. */
    method TestQuery(r: Row, query: seq<Expr>) returns (result: bool)
      requires Flat(query)
      ensures result <==> Answers(query, r) || query == [] || query[|query| - 1].rel == OR
    {
      AnswersIs(query);
      result := true;
      var i := 0;
      ghost var begin := 0;
      while i < |query|
        invariant Testing(query, r, begin, i, result)
        decreases |query| - i
      {
        NextTested(query, r, begin, i, result);
        if result {
          result := Test(r, query[i].cond);
        }
        if query[i].rel == OR {
          if result { return true; }
          result := true;
          begin := i + 1;
        }
        i := i + 1;
      }
      TestedAll(query, r, begin, result);
    }

    method Scan(block: seq<Expr>) returns (found: seq<Row>)
      requires NoRepeats(rows) && Atoms(block)
      ensures NoRepeats(found) && forall r :: r in found <==> r in rows && Satisfies(r, block, -1)
    {
      found := [];
      var i := 0;
      while i < |rows|
        invariant 0 <= i <= |rows| && NoRepeats(found)
        invariant forall r :: r in found <==> r in rows[..i] && Satisfies(r, block, -1)
      {
        assert rows[..i + 1] == rows[..i] + [rows[i]];
        var insertThisRow := TestAll(rows[i], block, -1);
        if insertThisRow {
          found := found + [rows[i]];
        }
        i := i + 1;
      }
      assert rows[..|rows|] == rows;
    }

    /** The entries of a range whose rows satisfy the other conditions. */
    method Select(visited: seq<Entry>, block: seq<Expr>, skip: int) returns (found: seq<Row>)
      requires Atoms(block)
      ensures (forall i, j | 0 <= i < j < |visited| :: visited[i].row != visited[j].row) ==> NoRepeats(found)
      ensures forall r :: r in found <==> Leads(visited, r) && Satisfies(r, block, skip)
    {
      found := [];
      var i := 0;
      while i < |visited|
        invariant 0 <= i <= |visited|
        invariant (forall k, j | 0 <= k < j < |visited| :: visited[k].row != visited[j].row) ==> NoRepeats(found)
        invariant forall r :: r in found <==> Leads(visited[..i], r) && Satisfies(r, block, skip)
      {
        LeadsNext(visited, i);
        var insertThisRow := TestAll(visited[i].row, block, skip);
        if insertThisRow {
          found := found + [visited[i].row];
        }
        i := i + 1;
      }
      assert visited[..|visited|] == visited;
    }
  }

  /** The loop over a range, from `first` to `last`; false where it reads behind the last entry. */
  method IterateRange(e: seq<Entry>, first: nat, last: nat) returns (ok: bool, visited: seq<Entry>)
    requires first <= |e| && last <= |e|
    ensures ok == Walk(e, first, last).Some?
    ensures ok ==> visited == Walk(e, first, last).value
  {
    visited := [];
    var it := first;
    while it != last
      invariant first <= it <= |e| && visited == e[first..it]
      invariant first <= last ==> it <= last
      decreases |e| - it
    {
      if it == |e| { return false, visited; }
      visited := visited + [e[it]];
      it := it + 1;
    }
    ok := true;
  }

  /** The loop of `not_equal` over both ranges. */
  method IterateAround(usesFind: bool, e: seq<Entry>, firstEnd: nat, second: nat)
    returns (ok: bool, visited: seq<Entry>)
    requires firstEnd <= second <= |e| || firstEnd == |e|
    requires second <= |e| && (usesFind && firstEnd < |e| ==> firstEnd < second)
    ensures ok == WalkAround(usesFind, e, firstEnd, second).Some?
    ensures ok ==> visited == WalkAround(usesFind, e, firstEnd, second).value
  {
    visited := [];
    var it := 0;
    while it != |e|
      invariant 0 <= it <= |e|
      invariant it <= firstEnd || (firstEnd <= second < it && firstEnd < |e|)
      invariant visited == if it <= firstEnd then e[..it] else e[..firstEnd] + e[second..it]
      decreases |e| - it
    {
      if it == firstEnd {
        it := second;
        if !usesFind && it == |e| { break; }
      }
      if it == |e| { return false, visited; }
      visited := visited + [e[it]];
      it := it + 1;
    }
    ok := true;
  }

  /** The indexed search for one condition. */
  method VisitEntries(usesFind: bool, e: seq<Entry>, op: Operator, key: Value) returns (ok: bool, visited: seq<Entry>)
    requires Ordered(e)
    ensures ok == Visit(usesFind, e, op, key).Some?
    ensures ok ==> visited == Visit(usesFind, e, op, key).value
  {
    ghost var a := TwoBounds(e, key);
    var first, end := First(usesFind, e, key), FindEnd(e, key, 0);
    match op
    case Equal => ok, visited := IterateRange(e, first, end);
    case NotEqual => ok, visited := IterateAround(usesFind, e, first, end);
    case Lower => ok, visited := IterateRange(e, 0, first);
    case LowerOrEqual => ok, visited := IterateRange(e, 0, end);
    case Higher => ok, visited := IterateRange(e, end, |e|);
    case HigherOrEqual => ok, visited := IterateRange(e, first, |e|);
    case Contains => ok, visited := IterateRange(e, 0, |e|);
  }
}
