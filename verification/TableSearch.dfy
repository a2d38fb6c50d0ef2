/**
  Ranges of an ordered index and the rows they lead to
  (libbinom/source/binom_impl/ram_storage_implementation/index_impl.cxx and table_impl.cxx).

  Rows are map rows.  An index is its entries in the order of their values; an iterator is a position,
  and the number of entries is `end`.  `find` gives the first of several equal entries.
 */
module TableSearch {
  import opened Collections
  import opened Query

  datatype Row = Row(id: nat, columns: map<string, Value>)

  /** A missing column reads as null. */
  function Get(row: Row, column: string): Value {
    if column in row.columns then row.columns[column] else Null
  }

  predicate Less(a: Value, b: Value) {
    match (a, b)
    case (_, Null) => false
    case (Null, Key(_)) => true
    case (Key(x), Key(y)) => x < y
  }

  predicate Compare(a: Value, op: Operator, b: Value) {
    match op
    case Equal => a == b
    case NotEqual => a != b
    case Lower => Less(a, b)
    case LowerOrEqual => !Less(b, a)
    case Higher => Less(b, a)
    case HigherOrEqual => !Less(a, b)
    case Contains => true
  }

  /** `test` of a row against one condition. */
  predicate Test(row: Row, c: Condition) {
    if c.op == Contains then c.column in row.columns else Compare(Get(row, c.column), c.op, c.value)
  }

  // ----------------------------------------------------------------------------------------- index

  datatype Entry = Entry(value: Value, row: Row)

  datatype Index = Index(unique: bool, entries: seq<Entry>)

  predicate Ordered(e: seq<Entry>) {
    forall i, j | 0 <= i < j < |e| :: !Less(e[j].value, e[i].value)
  }

  /** upper_bound: behind the last entry that is not higher than the key. */
  function FindEnd(e: seq<Entry>, key: Value, i: nat): (n: nat)
    requires i <= |e|
    ensures i <= n <= |e|
    decreases |e| - i
  {
    if i == |e| || Less(key, e[i].value) then i else FindEnd(e, key, i + 1)
  }

  /** find: the first entry with the key, or the end. */
  function Find(e: seq<Entry>, key: Value, i: nat): (n: nat)
    requires i <= |e|
    ensures i <= n <= |e|
    decreases |e| - i
  {
    if i == |e| || e[i].value == key then i else Find(e, key, i + 1)
  }

  /** lower_bound: the first entry that is not lower than the key. */
  function FindLower(e: seq<Entry>, key: Value, i: nat): (n: nat)
    requires i <= |e|
    ensures i <= n <= |e|
    decreases |e| - i
  {
    if i == |e| || !Less(e[i].value, key) then i else FindLower(e, key, i + 1)
  }

  /** Where ranges are taken to begin: at `find`, as written (`usesFind`), or at the lower bound. */
  function First(usesFind: bool, e: seq<Entry>, key: Value): (n: nat)
    ensures n <= |e|
  {
    if usesFind then Find(e, key, 0) else FindLower(e, key, 0)
  }

  predicate Occurs(e: seq<Entry>, key: Value) {
    exists x | x in e :: x.value == key
  }

  predicate HasHigher(e: seq<Entry>, key: Value) {
    exists x | x in e :: Less(key, x.value)
  }

  /** What the loop over a range visits.  A range that begins behind its end runs past the last entry. */
  function Walk(e: seq<Entry>, first: nat, last: nat): Option<seq<Entry>>
    requires first <= |e| && last <= |e|
  {
    if first <= last then Some(e[first..last]) else None
  }

  /** The two ranges of `not_equal`: behind the first one the walk jumps to the second one and, as written,
      reads an entry there without looking for the end. */
  function WalkAround(usesFind: bool, e: seq<Entry>, firstEnd: nat, second: nat): Option<seq<Entry>>
    requires firstEnd <= |e| && second <= |e|
  {
    if firstEnd == |e| then Some(e)
    else if usesFind && second == |e| then None
    else Some(e[..firstEnd] + e[second..])
  }

  /** The entries that the indexed search visits for a condition. */
  function Visit(usesFind: bool, e: seq<Entry>, op: Operator, key: Value): Option<seq<Entry>> {
    var first, end := First(usesFind, e, key), FindEnd(e, key, 0);
    match op
    case Equal => Walk(e, first, end)
    case NotEqual => WalkAround(usesFind, e, first, end)
    case Lower => Walk(e, 0, first)
    case LowerOrEqual => Walk(e, 0, end)
    case Higher => Walk(e, end, |e|)
    case HigherOrEqual => Walk(e, first, |e|)
    case Contains => Walk(e, 0, |e|)
  }

  /** The entries that satisfy the condition. */
  function Matching(e: seq<Entry>, op: Operator, key: Value): seq<Entry> {
    if e == [] then []
    else
      var rest := Matching(e[..|e| - 1], op, key);
      if Compare(e[|e| - 1].value, op, key) then rest + [e[|e| - 1]] else rest
  }

  /** When the range of a condition consists of the entries that satisfy it. */
  predicate RangeFits(usesFind: bool, e: seq<Entry>, op: Operator, key: Value) {
    !usesFind ||
    match op
    case Equal => Occurs(e, key) || !HasHigher(e, key)
    case Lower => Occurs(e, key) || !HasHigher(e, key)
    case HigherOrEqual => Occurs(e, key) || !HasHigher(e, key)
    case NotEqual => Occurs(e, key) ==> HasHigher(e, key)
    case _ => true
  }

  /** For an absent key, the range of `lower` is the whole index, and that of `higher_or_equal` is empty. */
  predicate Misses(usesFind: bool, e: seq<Entry>, op: Operator, key: Value) {
    usesFind && (op == Lower || op == HigherOrEqual) && !Occurs(e, key)
  }

  /** The entries of the range of a condition, if the walk over it has an end. */
  function Reached(usesFind: bool, e: seq<Entry>, op: Operator, key: Value): seq<Entry> {
    if Misses(usesFind, e, op, key) then if op == Lower then e else [] else Matching(e, op, key)
  }

  // ------------------------------------------------------------------------------- three parts

  /** In an ordered index, the lower entries come first, then the equal ones, then the higher ones. */
  predicate Parts(e: seq<Entry>, key: Value, a: nat, b: nat) {
    && a <= b <= |e|
    && (forall i | 0 <= i < a :: Less(e[i].value, key))
    && (forall i | a <= i < b :: e[i].value == key)
    && (forall i | b <= i < |e| :: Less(key, e[i].value))
  }

  lemma {:induction false} FindEndIs(e: seq<Entry>, key: Value, i: nat)
    requires Ordered(e) && i <= |e|
    ensures var n := FindEnd(e, key, i);
            && (forall k | i <= k < n :: !Less(key, e[k].value))
            && (forall k | n <= k < |e| :: Less(key, e[k].value))
    decreases |e| - i
  {
    if i < |e| && !Less(key, e[i].value) {
      FindEndIs(e, key, i + 1);
    }
  }

  lemma {:induction false} FindIs(e: seq<Entry>, key: Value, i: nat)
    requires i <= |e|
    ensures var n := Find(e, key, i);
            && (forall k | i <= k < n :: e[k].value != key)
            && (n < |e| ==> e[n].value == key)
    decreases |e| - i
  {
    if i < |e| && e[i].value != key {
      FindIs(e, key, i + 1);
    }
  }

  lemma {:induction false} FindLowerIs(e: seq<Entry>, key: Value, i: nat)
    requires Ordered(e) && i <= |e|
    ensures var n := FindLower(e, key, i);
            && (forall k | i <= k < n :: Less(e[k].value, key))
            && (forall k | n <= k < |e| :: !Less(e[k].value, key))
    decreases |e| - i
  {
    if i < |e| && Less(e[i].value, key) {
      FindLowerIs(e, key, i + 1);
    }
  }

  /** Where `lower_bound`, `find` and `upper_bound` point: an absent key is looked for in vain. */
  lemma {:induction false} TwoBounds(e: seq<Entry>, key: Value) returns (a: nat)
    requires Ordered(e)
    ensures Parts(e, key, a, FindEnd(e, key, 0))
    ensures Occurs(e, key) <==> a < FindEnd(e, key, 0)
    ensures HasHigher(e, key) <==> FindEnd(e, key, 0) < |e|
    ensures Find(e, key, 0) == if Occurs(e, key) then a else |e|
    ensures FindLower(e, key, 0) == a
  {
    var b := FindEnd(e, key, 0);
    FindEndIs(e, key, 0);
    FindIs(e, key, 0);
    FindLowerIs(e, key, 0);
    a := FindLower(e, key, 0);
    LowerThenEqual(e, key, a, b);
    assert Find(e, key, 0) < |e| ==> e[Find(e, key, 0)] in e;
    assert a < b ==> e[a] in e;
    assert b < |e| ==> e[b] in e;
  }

  lemma {:induction false} LowerThenEqual(e: seq<Entry>, key: Value, a: nat, b: nat)
    requires a <= |e| && b <= |e|
    requires (forall k | 0 <= k < a :: Less(e[k].value, key)) && (forall k | a <= k < |e| :: !Less(e[k].value, key))
    requires (forall k | 0 <= k < b :: !Less(key, e[k].value)) && (forall k | b <= k < |e| :: Less(key, e[k].value))
    ensures Parts(e, key, a, b)
  {
    assert b < a ==> !Less(key, e[b].value);
  }

  lemma {:induction false} MatchingAll(e: seq<Entry>, op: Operator, key: Value)
    requires forall x | x in e :: Compare(x.value, op, key)
    ensures Matching(e, op, key) == e
  {
    if e != [] {
      MatchingAll(e[..|e| - 1], op, key);
      assert e == e[..|e| - 1] + [e[|e| - 1]];
    }
  }

  lemma {:induction false} MatchingNone(e: seq<Entry>, op: Operator, key: Value)
    requires forall x | x in e :: !Compare(x.value, op, key)
    ensures Matching(e, op, key) == []
  {
    if e != [] {
      MatchingNone(e[..|e| - 1], op, key);
    }
  }

  lemma {:induction false} MatchingAppend(x: seq<Entry>, y: seq<Entry>, op: Operator, key: Value)
    ensures Matching(x + y, op, key) == Matching(x, op, key) + Matching(y, op, key)
  {
    if y == [] {
      assert x + y == x;
    } else {
      assert (x + y)[..|x + y| - 1] == x + y[..|y| - 1];
      MatchingAppend(x, y[..|y| - 1], op, key);
    }
  }

  /** A part is wholly inside or wholly outside. */
  lemma {:induction false} MatchingPart(e: seq<Entry>, op: Operator, key: Value, inside: bool)
    requires forall x | x in e :: Compare(x.value, op, key) == inside
    ensures Matching(e, op, key) == if inside then e else []
  {
    if inside {
      MatchingAll(e, op, key);
    } else {
      MatchingNone(e, op, key);
    }
  }

  predicate TakesLower(op: Operator) {
    op == Lower || op == LowerOrEqual || op == NotEqual || op == Contains
  }

  predicate TakesEqual(op: Operator) {
    op == Equal || op == LowerOrEqual || op == HigherOrEqual || op == Contains
  }

  predicate TakesHigher(op: Operator) {
    op == Higher || op == HigherOrEqual || op == NotEqual || op == Contains
  }

  /** The lower, the equal and the higher entries. */
  predicate Divided(x: seq<Entry>, y: seq<Entry>, z: seq<Entry>, key: Value) {
    && (forall i | i in x :: Less(i.value, key))
    && (forall i | i in y :: i.value == key)
    && (forall i | i in z :: Less(key, i.value))
  }

  lemma {:induction false} PartSlices(e: seq<Entry>, key: Value, a: nat, b: nat)
    requires Parts(e, key, a, b)
    ensures Divided(e[..a], e[a..b], e[b..], key) && e == e[..a] + e[a..b] + e[b..]
  {
  }

  /** The index taken apart, and where `find` and `upper_bound` point. */
  lemma {:induction false} TakeApart(e: seq<Entry>, key: Value) returns (x: seq<Entry>, y: seq<Entry>, z: seq<Entry>)
    requires Ordered(e)
    ensures e == x + y + z && Divided(x, y, z, key)
    ensures FindEnd(e, key, 0) == |x + y| && FindLower(e, key, 0) == |x|
    ensures Find(e, key, 0) == if y != [] then |x| else |e|
    ensures Occurs(e, key) <==> y != []
    ensures HasHigher(e, key) <==> z != []
  {
    var a := TwoBounds(e, key);
    var b := FindEnd(e, key, 0);
    PartSlices(e, key, a, b);
    x, y, z := e[..a], e[a..b], e[b..];
  }

  /** Which of the three parts satisfy the condition. */
  lemma {:induction false} MatchingParts(x: seq<Entry>, y: seq<Entry>, z: seq<Entry>, op: Operator, key: Value)
    requires Divided(x, y, z, key)
    ensures Matching(x + y + z, op, key) == Taken(x, y, z, op)
  {
    MatchingPart(x, op, key, TakesLower(op));
    MatchingPart(y, op, key, TakesEqual(op));
    MatchingPart(z, op, key, TakesHigher(op));
    MatchingAppend(x + y, z, op, key);
    MatchingAppend(x, y, op, key);
  }

  function Taken(x: seq<Entry>, y: seq<Entry>, z: seq<Entry>, op: Operator): seq<Entry> {
    (if TakesLower(op) then x else []) + (if TakesEqual(op) then y else []) + (if TakesHigher(op) then z else [])
  }

  /** Exactly when the indexed search visits the entries that satisfy its condition, each once and in
      order: in the other cases it runs past the end, or leaves some out, or visits too many.  From the lower
      bound on, it always does. */
  lemma {:induction false} VisitExact(usesFind: bool, e: seq<Entry>, op: Operator, key: Value)
    requires Ordered(e)
    ensures Visit(usesFind, e, op, key) == Some(Matching(e, op, key)) <==> RangeFits(usesFind, e, op, key)
    ensures Visit(usesFind, e, op, key).Some? ==> Visit(usesFind, e, op, key) == Some(Reached(usesFind, e, op, key))
  {
    var x, y, z := TakeApart(e, key);
    MatchingParts(x, y, z, op, key);
    VisitParts(usesFind, e, x, y, z, op, key);
  }

  lemma {:induction false} VisitParts(usesFind: bool, e: seq<Entry>, x: seq<Entry>, y: seq<Entry>, z: seq<Entry>,
                                      op: Operator, key: Value)
    requires e == x + y + z
    requires FindEnd(e, key, 0) == |x + y| && FindLower(e, key, 0) == |x|
    requires Find(e, key, 0) == if y != [] then |x| else |e|
    requires Occurs(e, key) <==> y != []
    requires HasHigher(e, key) <==> z != []
    ensures Visit(usesFind, e, op, key) == Some(Taken(x, y, z, op)) <==> RangeFits(usesFind, e, op, key)
    ensures Visit(usesFind, e, op, key).Some? ==>
              Visit(usesFind, e, op, key) == Some(if Misses(usesFind, e, op, key) then if op == Lower then e else []
                                                  else Taken(x, y, z, op))
  {
    VisitIs(usesFind, e, x, y, z, op, key);
    PartsTaken(x, y, z, op);
    assert y == [] && z == [] ==> e == x;
  }

  /** The walk from part to part. */
  lemma {:induction false} VisitIs(usesFind: bool, e: seq<Entry>, x: seq<Entry>, y: seq<Entry>, z: seq<Entry>,
                                   op: Operator, key: Value)
    requires e == x + y + z
    requires FindEnd(e, key, 0) == |x + y| && FindLower(e, key, 0) == |x|
    requires Find(e, key, 0) == if y != [] then |x| else |e|
    ensures Visit(usesFind, e, op, key) == match op
              case Equal => if usesFind && y == [] then if z == [] then Some([]) else None else Some(y)
              case NotEqual => if usesFind && y != [] && z == [] then None else Some(x + z)
              case Lower => Some(if usesFind && y == [] then e else x)
              case LowerOrEqual => Some(x + y)
              case Higher => Some(z)
              case HigherOrEqual => Some(if usesFind && y == [] then [] else y + z)
              case Contains => Some(e)
  {
    var a, b := |x|, |x + y|;
    assert e[..a] == x && e[..b] == x + y && e[a..b] == y && e[b..] == z && e[a..] == y + z;
    assert e[|e|..] == [] && e[..|e|] == e && |e| == |x| + |y| + |z|;
    assert y == [] ==> e == x + z;
  }

  lemma {:induction false} PartsTaken(x: seq<Entry>, y: seq<Entry>, z: seq<Entry>, op: Operator)
    ensures Taken(x, y, z, op)
         == match op
            case Equal => y
            case NotEqual => x + z
            case Lower => x
            case LowerOrEqual => x + y
            case Higher => z
            case HigherOrEqual => y + z
            case Contains => x + y + z
  {
  }

  /** The searches that run past the end. */
  lemma {:induction false} VisitFails(usesFind: bool, e: seq<Entry>, op: Operator, key: Value)
    requires Ordered(e)
    ensures Visit(usesFind, e, op, key).None? <==>
            usesFind &&
            (|| (op == Equal && !Occurs(e, key) && HasHigher(e, key))
             || (op == NotEqual && Occurs(e, key) && !HasHigher(e, key)))
  {
    var a := TwoBounds(e, key);
  }
}
