/**
  The search for a nested query: flattening, then the walk over the blocks
  (libbinom/source/binom_impl/ram_storage_implementation/table_impl.cxx and libbinom/source/binom_impl/query.cxx).
 */
module TableQueries {
  import opened Collections
  import opened Iteration
  import opened Query
  import opened QueryTerms
  import opened QueryWritten
  import opened QueryReadOnce
  import opened QueryConditions
  import QueryShape
  import opened QuerySafe
  import opened QueryExact
  import opened QueryEnding
  import ConditionQueries
  import opened TableSearch
  import opened TableFind

  // ------------------------------------------------------------------------------------ the search

  /** The rows that are answers of a nested query. */
  ghost predicate Answered(result: set<Row>, t: Table, query: seq<Expr>)
    reads t
  {
    forall r :: r in result <==> r in t.rows && Answers(query, r)
  }

  /** What flattening a query ends with. */
  ghost function Flattened(query: seq<Expr>): (q: seq<Expr>)
    requires exists n: nat :: Flat(Run(query, n))
    ensures Flat(q)
  {
    var n: nat :| Flat(Run(query, n));
    Run(query, n)
  }

  lemma {:induction false} SameFlat(query: seq<Expr>, m: nat, n: nat)
    requires m <= n && Flat(Run(query, m))
    ensures Run(query, n) == Run(query, m)
  {
    var k: nat := n - m;
    RunAdds(query, m, k);
    FlatStays(Run(query, m), k);
    assert m + k == n;
  }

  lemma {:induction false} FlattenedIs(query: seq<Expr>, n: nat)
    requires Flat(Run(query, n))
    ensures Flattened(query) == Run(query, n)
  {
    var m: nat :| Flat(Run(query, m)) && Flattened(query) == Run(query, m);
    if m <= n {
      SameFlat(query, m, n);
    } else {
      SameFlat(query, n, m);
    }
  }

  /** The search for a nested query on which flattening comes to an end.  The rows found for a safe query are its
      answers exactly if the flat query fits; for any other query, a fitting one finds answers only. */
  method FindNested(t: Table, query: seq<Expr>) returns (ok: bool, result: set<Row>)
    requires t.Valid() && QueryShape.WellFormed(query) && Ends(query)
    ensures Terminates(query) && (ok <==> QueryEnds(t.usesFind, Flattened(query), 0, t.indexes))
    ensures ok ==>
              forall r :: r in result <==> r in t.rows && FoundFrom(t.usesFind, Flattened(query), 0, t.indexes, r)
    ensures Safe(query) ==>
              (ok && Answered(result, t, query) <==> QueryFits(t.usesFind, Flattened(query), t.indexes, t.rows))
    ensures QueryFits(t.usesFind, Flattened(query), t.indexes, t.rows) ==>
              ok && forall r | r in result :: r in t.rows && Answers(query, r)
  {
    var q := new ConditionQueries.ConditionQuery(query);
    q.SimplifySubExpressions();
    ghost var n: nat :| q.expressions == Run(query, n);
    FlattenedIs(query, n);
    ok, result := t.Find(q.expressions);
    if Safe(query) {
      SafeAnswers(query, n);
    }
    forall r | Answers(Flattened(query), r) ensures Answers(query, r) {
      WrittenSound(query, n, c => Test(r, c));
    }
  }

  lemma {:induction false} SafeAnswers(query: seq<Expr>, n: nat)
    requires QueryShape.WellFormed(query) && Safe(query) && Flat(Run(query, n))
    ensures forall r :: Answers(Run(query, n), r) == Answers(query, r)
  {
    SafeResult(query, n);
  }

  lemma {:induction false} SafeComesToEnd(query: seq<Expr>)
    requires QueryShape.WellFormed(query) && Safe(query)
    ensures Ends(query)
  {
    SafeCount(query);
  }

  /** A safe nested query is answered with exactly the rows under which it holds, if the search of every block of the
      flattened query finds the rows that satisfy it. */
  method FindSafe(t: Table, query: seq<Expr>) returns (ok: bool, result: set<Row>)
    requires t.Valid() && QueryShape.WellFormed(query) && Safe(query)
    requires Terminates(query) ==> BlocksFit(t.usesFind, Flattened(query), 0, t.indexes, t.rows)
    ensures ok && Answered(result, t, query)
  {
    SafeComesToEnd(query);
    ok, result := FindNested(t, query);
    BlocksFitQuery(t.usesFind, Flattened(query), t.indexes, t.rows);
  }

  /** A row with exactly the conditions of a term, among those of the query. */
  predicate OnlyTerm(query: seq<Expr>, t: Term, r: Row) {
    forall c | c in Conditions(query) :: Test(r, c) <==> c in t
  }

  /** An unsafe query without redundant terms has a term such that the rows with only its conditions are answers, and no
      fitting search finds them. */
  lemma {:induction false} LostRows(query: seq<Expr>) returns (t: Term)
    requires QueryShape.WellFormed(query) && !Safe(query) && Irredundant(Terms(query))
    ensures t in Terms(query)
    ensures forall r, n: nat | OnlyTerm(query, t, r) && Flat(Run(query, n)) ::
              Answers(query, r) && !Answers(Run(query, n), r)
  {
    t := UnsafeLoses(query);
    TermGivesAnswer(query, t);
    forall r, n: nat | OnlyTerm(query, t, r) && Flat(Run(query, n))
      ensures Answers(query, r) && !Answers(Run(query, n), r)
    {
      RunConditions(query, n);
      SameEval(query, c => Test(r, c), Only(t));
      SameEval(Run(query, n), c => Test(r, c), Only(t));
    }
  }
}
