/**
  Rows that enter and leave a table: registration of their fields at the indexes, and its rollback
  (libbinom/source/binom_impl/ram_storage_implementation/table_impl.cxx).
 */
module TableRows {
  import opened Collections
  import Query
  import opened TableFields

  /** The index of the column that a field in this state belongs to. */
  ghost function Target(indexes: map<string, Index>, s: FieldState): Option<Index> {
    if exists c :: c in indexes && KeyIs(s, c) then
      var c :| c in indexes && KeyIs(s, c);
      Some(indexes[c])
    else None
  }

  /** The field is not in the index of its column. */
  ghost predicate Outside(indexes: map<string, Index>, s: FieldState) {
    var x := Target(indexes, s);
    x.Some? ==> !At(s, x.value)
  }

  ghost function Entered(indexes: map<string, Index>, s: FieldState): FieldState {
    match Target(indexes, s)
    case None => s
    case Some(x) => Added(s, x)
  }

  ghost function Left(indexes: map<string, Index>, s: FieldState): FieldState {
    match Target(indexes, s)
    case None => s
    case Some(x) => Removed(s, x)
  }

  ghost predicate Columns(indexes: map<string, Index>, all: set<Index>) {
    forall c | c in indexes :: indexes[c] in all && indexes[c].key == c
  }

  lemma {:induction false} TargetIs(indexes: map<string, Index>, s: FieldState, key: string)
    requires KeyIs(s, key)
    ensures Target(indexes, s) == if key in indexes then Some(indexes[key]) else None
  {
    forall c | KeyIs(s, c) ensures c == key {
      OneKey(s, key, c);
    }
  }

  /** Leaving undoes entering, and the key stays the same. */
  lemma {:induction false} EnterLeave(indexes: map<string, Index>, all: set<Index>, s: FieldState, key: string)
    requires Columns(indexes, all) && KeyIs(s, key)
    requires Outside(indexes, s)
    ensures KeyIs(Entered(indexes, s), key)
    ensures Target(indexes, Entered(indexes, s)) == Target(indexes, s)
    ensures Left(indexes, Entered(indexes, s)) == s
    ensures Entered(indexes, s) == s <==> Target(indexes, s).None?
  {
    TargetIs(indexes, s, key);
    if key in indexes {
      AddRemove(s, indexes[key]);
      TargetIs(indexes, Entered(indexes, s), key);
    }
  }

  /** What entering a table means for a field: it is in the index of its column as well, if there is one. */
  ghost predicate Enters(indexes: map<string, Index>, s: FieldState, r: FieldState) {
    && (forall c | c in indexes && KeyIs(s, c) :: Gains(s, r, indexes[c]))
    && ((forall c | c in indexes :: !KeyIs(s, c)) ==> r == s)
  }

  lemma {:induction false} EnteredIs(indexes: map<string, Index>, all: set<Index>, s: FieldState)
    requires Columns(indexes, all)
    ensures Enters(indexes, s, Entered(indexes, s))
  {
    forall c | c in indexes && KeyIs(s, c) ensures Gains(s, Entered(indexes, s), indexes[c]) {
      TargetIs(indexes, s, c);
      AddedIs(s, indexes[c]);
    }
  }

  /** A field that leaves the index of its column has left all indexes of the table. */
  lemma {:induction false} LeftIs(indexes: map<string, Index>, all: set<Index>, s: FieldState, key: string)
    requires Columns(indexes, all) && KeyIs(s, key)
    requires forall c | c in indexes && At(s, indexes[c]) :: KeyIs(s, c)
    ensures Loses(s, Left(indexes, s), indexes.Values)
  {
    TargetIs(indexes, s, key);
    forall c | c in indexes && At(s, indexes[c]) ensures c == key {
      OneKey(s, key, c);
    }
    if key in indexes {
      RemovedIs(s, indexes[key]);
      assert Where(s) - {indexes[key]} == Where(s) - indexes.Values;
    } else {
      assert Where(s) == Where(s) - indexes.Values;
    }
  }

  /** The fields of a row belong to it and to nothing else. */
  ghost predicate RowOk(row: Row, fields: set<Field>)
    reads row`fields
  {
    && (forall i, j | 0 <= i < j < |row.fields| :: row.fields[i] != row.fields[j])
    && (forall f | f in row.fields :: f in fields)
    && (forall f | f in fields :: f in row.fields <==> f.owner == row)
  }

  class Table {
    var rows: set<Row>
    const indexes: map<string, Index>

    /** Whether a failed insertion is undone altogether; as written, its first field stays, and so does the
        table at the row. */
    const undoesAll: bool

    constructor (indexes: map<string, Index>, undoesAll: bool)
      ensures this.indexes == indexes && this.undoesAll == undoesAll && rows == {}
    {
      this.indexes, this.undoesAll, rows := indexes, undoesAll, {};
    }

    /** A field is in the index of a column exactly if its row is in the table and its key names the
        column. */
    ghost predicate Registered(all: set<Index>, fields: set<Field>)
      reads this, fields
    {
      && Columns(indexes, all)
      && forall c, f | c in indexes && f in fields :: At(f.state, indexes[c]) <==> f.owner in rows && KeyIs(f.state, c)
    }

    /** The first `n` fields of the row have entered, everything else is as it was. */
    ghost predicate Partly(row: Row, n: nat, was: map<Field, FieldState>, fields: set<Field>)
      requires n <= |row.fields| && fields <= was.Keys
      reads row`fields, fields
    {
      forall f | f in fields :: f.state == if f in row.fields[..n] then Entered(indexes, was[f]) else was[f]
    }

    /** The row is ready for its fields to enter: every field has a key, and those of the row are not in
        their indexes. */
    ghost predicate Ready(row: Row, was: map<Field, FieldState>, all: set<Index>, fields: set<Field>)
      reads row`fields
    {
      && Columns(indexes, all) && RowOk(row, fields) && was.Keys == fields
      && (forall f | f in row.fields :: Outside(indexes, was[f]))
      && (forall f | f in fields :: exists k :: KeyIs(was[f], k))
    }

    // ------------------------------------------------------------------------- the refused fields

    /** A field other than `f` has its value in the index: from before, or from among the fields of the new
        row in front of it. */
    ghost predicate Clash(f: Field, x: Index, front: seq<Field>, was: map<Field, FieldState>)
    {
      x.unique && exists g | g in was ::
          g.value == f.value && (At(was[g], x) || (g in front && Target(indexes, was[g]) == Some(x)))
    }

    /** The index of its column refuses a field, once those in front of it have entered.  All this is about the
        moment before the insertion. */
    ghost predicate Refused(row: Row, i: nat, was: map<Field, FieldState>)
      requires i < |row.fields| && row.fields[i] in was
      reads row`fields
    {
      var f := row.fields[i];
      match Target(indexes, was[f])
      case None => false
      case Some(x) => f.value.None? || Clash(f, x, row.fields[..i], was)
    }

    /** Some field with the value is in the index, or in front in the row and belongs there. */
    ghost predicate HasValue(v: Option<Query.Value>, x: Index, front: seq<Field>, was: map<Field, FieldState>) {
      exists g ::
        && g in was && g.value == v
        && (At(was[g], x) || (g in front && Target(indexes, was[g]) == Some(x)))
    }

    /** A field is refused by the index of its column if its value is no key, or if the index is unique and the value is
        taken: by a field that is there, or by one in front of it in the row that belongs to the same column. */
    lemma {:induction false} RefusedExact(row: Row, i: nat, was: map<Field, FieldState>)
      requires i < |row.fields| && row.fields[i] in was
      ensures var f := row.fields[i];
              Refused(row, i, was) <==>
                exists c ::
                  && c in indexes && KeyIs(was[f], c)
                  && (f.value.None? || (indexes[c].unique && HasValue(f.value, indexes[c], row.fields[..i], was)))
    {
      var f := row.fields[i];
      forall c | c in indexes && KeyIs(was[f], c) ensures Target(indexes, was[f]) == Some(indexes[c]) {
        TargetIs(indexes, was[f], c);
      }
    }

    /** The first refused field. */
    ghost predicate FirstRefused(row: Row, n: nat, was: map<Field, FieldState>)
      requires forall f | f in row.fields :: f in was
      reads row`fields
    {
      n < |row.fields| && Refused(row, n, was) && forall i | 0 <= i < n :: !Refused(row, i, was)
    }

    function Refusal(f: Field): Error {
      if f.value.None? then InvalidType else KeyUnique
    }

    /** Some entry has the value, told from before the insertion. */
    lemma {:induction false} TakenIs(row: Row, n: nat, x: Index, was: map<Field, FieldState>, all: set<Index>,
                                     fields: set<Field>)
      requires Linked(all, fields) && RowOk(row, fields) && was.Keys == fields && x in all
      requires n < |row.fields| && Partly(row, n, was, fields)
      requires x.unique
      ensures x.Taken(row.fields[n].value) <==> Clash(row.fields[n], x, row.fields[..n], was)
    {
      var f := row.fields[n];
      forall g | g in fields
        ensures g in x.entries <==> At(was[g], x) || (g in row.fields[..n] && Target(indexes, was[g]) == Some(x))
      {
        assert g in x.entries <==> At(g.state, x);
      }
    }

    lemma {:induction false} RefusedIs(row: Row, n: nat, x: Index, was: map<Field, FieldState>, all: set<Index>,
                                       fields: set<Field>)
      requires Linked(all, fields) && RowOk(row, fields) && was.Keys == fields && x in all
      requires n < |row.fields| && Partly(row, n, was, fields) && Target(indexes, was[row.fields[n]]) == Some(x)
      ensures Refused(row, n, was) <==> row.fields[n].value.None? || (x.unique && x.Taken(row.fields[n].value))
    {
      if x.unique {
        TakenIs(row, n, x, was, all, fields);
      }
    }

    /** What `isIndexed` tells behind the first `n` fields: false if none of their columns has an index. */
    ghost predicate Noticed(row: Row, n: nat, isIndexed: bool, was: map<Field, FieldState>)
      requires n <= |row.fields| && forall f | f in row.fields :: f in was
      reads row`fields
    {
      if isIndexed then n > 0 else forall i | 0 <= i < n :: Target(indexes, was[row.fields[i]]).None?
    }

    lemma {:induction false} NoticedNext(row: Row, n: nat, isIndexed: bool, indexed: bool, was: map<Field, FieldState>)
      requires n < |row.fields| && (forall f | f in row.fields :: f in was) && Noticed(row, n, isIndexed, was)
      requires indexed <==> Target(indexes, was[row.fields[n]]).Some?
      ensures Noticed(row, n + 1, isIndexed || indexed, was)
    {
    }

    /** Registers one field, if there is an index for it. */
    method EnterField(row: Row, n: nat, ghost was: map<Field, FieldState>, ghost all: set<Index>,
                      ghost fields: set<Field>)
      returns (e: Error, indexed: bool)
      requires Linked(all, fields) && Ready(row, was, all, fields)
      requires n < |row.fields| && Partly(row, n, was, fields)
      modifies indexes.Values`entries, fields`state
      ensures Linked(all, fields)
      ensures Partly(row, if e == NoError then n + 1 else n, was, fields)
      ensures indexed <==> Target(indexes, was[row.fields[n]]).Some?
      ensures e == if Refused(row, n, was) then Refusal(row.fields[n]) else NoError
    {
      var f := row.fields[n];
      assert f !in row.fields[..n] && row.fields[..n + 1] == row.fields[..n] + [f];
      var key := f.GetKey();
      TargetIs(indexes, was[f], key);
      e := NoError;
      indexed := key in indexes;
      if indexed {
        RefusedIs(row, n, indexes[key], was, all, fields);
        e := indexes[key].Add(f, all, fields);
      }
    }

    /** Takes one field out of its index again. */
    method LeaveField(row: Row, n: nat, ghost was: map<Field, FieldState>, ghost all: set<Index>,
                      ghost fields: set<Field>)
      requires Linked(all, fields) && Ready(row, was, all, fields)
      requires n < |row.fields| && Partly(row, n + 1, was, fields)
      modifies indexes.Values`entries, fields`state
      ensures Linked(all, fields) && Partly(row, n, was, fields)
    {
      var f := row.fields[n];
      assert f !in row.fields[..n] && row.fields[..n + 1] == row.fields[..n] + [f];
      ghost var k :| KeyIs(was[f], k);
      EnterLeave(indexes, all, was[f], k);
      var key := f.GetKey();
      OneKey(f.state, key, k);
      TargetIs(indexes, was[f], k);
      if key in indexes {
        var e := indexes[key].Remove(f, all, fields);
      }
    }

    /** How many fields a failed insertion leaves behind when the one at `stop` is refused. */
    function Kept(stop: nat): nat {
      if undoesAll || stop == 0 then 0 else 1
    }

    /** Takes out the fields in front of the refused one; as written, except the first one. */
    method RollBack(row: Row, stop: nat, isIndexed: bool, ghost was: map<Field, FieldState>, ghost all: set<Index>,
                    ghost fields: set<Field>)
      requires Linked(all, fields) && Ready(row, was, all, fields)
      requires stop < |row.fields| && Partly(row, stop, was, fields)
      requires Noticed(row, stop, isIndexed, was)
      modifies indexes.Values`entries, fields`state
      ensures Linked(all, fields) && Partly(row, Kept(stop), was, fields)
    {
      if isIndexed {
        var it := stop - 1;
        while it != 0
          invariant 0 <= it < stop && Linked(all, fields) && Partly(row, it + 1, was, fields)
        {
          LeaveField(row, it, was, all, fields);
          it := it - 1;
        }
        if undoesAll {
          LeaveField(row, 0, was, all, fields);
        }
      } else {
        NoneEntered(row, stop, Kept(stop), was, fields);
      }
    }

    /** The body of the loop over the fields: registers a field, or takes out those in front of it. */
    method EnterOrRollBack(row: Row, it: nat, isIndexed: bool, ghost was: map<Field, FieldState>, ghost all: set<Index>,
                           ghost fields: set<Field>)
      returns (e: Error, indexed: bool)
      requires Linked(all, fields) && Ready(row, was, all, fields)
      requires it < |row.fields| && Partly(row, it, was, fields)
      requires Noticed(row, it, isIndexed, was)
      modifies indexes.Values`entries, fields`state
      ensures Linked(all, fields)
      ensures Partly(row, if e == NoError then it + 1 else Kept(it), was, fields)
      ensures e == NoError ==> Noticed(row, it + 1, isIndexed || indexed, was)
      ensures e == if Refused(row, it, was) then Refusal(row.fields[it]) else NoError
    {
      e, indexed := EnterField(row, it, was, all, fields);
      if e == NoError {
        NoticedNext(row, it, isIndexed, indexed, was);
      } else {
        RollBack(row, it, isIndexed, was, all, fields);
      }
    }

    /** The loop over the fields of the new row; `stop` is the position of the field that an index has
        refused. */
    method EnterFields(row: Row, ghost was: map<Field, FieldState>, ghost all: set<Index>, ghost fields: set<Field>)
      returns (e: Error, ghost stop: nat)
      requires Linked(all, fields) && Ready(row, was, all, fields)
      requires Partly(row, 0, was, fields)
      modifies indexes.Values`entries, fields`state
      ensures Linked(all, fields)
      ensures e == NoError ==>
                Partly(row, |row.fields|, was, fields) && forall i | 0 <= i < |row.fields| :: !Refused(row, i, was)
      ensures e != NoError ==>
                FirstRefused(row, stop, was) && e == Refusal(row.fields[stop]) && Partly(row, Kept(stop), was, fields)
    {
      var isIndexed := false;
      var it := 0;
      while it < |row.fields|
        invariant 0 <= it <= |row.fields| && Linked(all, fields) && Partly(row, it, was, fields)
        invariant Noticed(row, it, isIndexed, was)
        invariant forall i | 0 <= i < it :: !Refused(row, i, was)
      {
        var indexed;
        e, indexed := EnterOrRollBack(row, it, isIndexed, was, all, fields);
        if e != NoError { return e, it; }
        if indexed {
          isIndexed := true;
        }
        it := it + 1;
      }
      return NoError, 0;
    }

    /** Everything is as it was before. */
    ghost predicate AsBefore(was: map<Field, FieldState>, sets: map<Index, multiset<Field>>, all: set<Index>,
                             fields: set<Field>)
      reads all, fields
    {
      States(fields) == was && Entries(all) == sets
    }

    /** `insert`.  `constraintsHold` is the result of the constraint checks.  The insertion is refused exactly if
        a field is, given those in front of it.  As written, a refusal leaves the table registered at the row, and
        fields and indexes as they were exactly if the very first field is refused or has no index to its column;
        otherwise that field stays in its index, which is not linked to the rows any more. */
    method Insert(row: Row, constraintsHold: bool, ghost all: set<Index>, ghost fields: set<Field>)
      returns (e: Error, ghost stop: nat)
      requires Linked(all, fields) && Registered(all, fields) && RowOk(row, fields)
      modifies this`rows, row`tables, indexes.Values`entries, fields`state
      ensures Linked(all, fields)
      ensures rows == if e == NoError then old(rows) + {row} else old(rows)
      ensures if old(row in rows) || !constraintsHold
              then e == (if old(row in rows) then KeyUnique else ConstraintFailed)
                   && row.tables == old(row.tables) && AsBefore(old(States(fields)), old(Entries(all)), all, fields)
              else row.tables == if e != NoError && undoesAll then old(row.tables) else old(row.tables) + {this}
      ensures old(row !in rows) && constraintsHold ==>
                Inserted(row, e, stop, old(States(fields)), old(Entries(all)), all, fields)
      ensures old(row !in rows) && constraintsHold ==> Outcome(row, e, stop, old(States(fields)), fields)
    {
      stop := 0;
      if row in rows { return KeyUnique, 0; }
      if !constraintsHold { return ConstraintFailed, 0; }
      ghost var was := States(fields);
      e, stop := InsertNew(row, all, fields);
      OutcomeIs(row, e, stop, was, old(Entries(all)), all, fields);
    }

    /** What the insertion of a new row comes to, field by field.  A refused value is no key, or taken. */
    ghost predicate Outcome(row: Row, e: Error, stop: nat, was: map<Field, FieldState>, fields: set<Field>)
      requires was.Keys == fields
      reads row`fields, fields
    {
      && (e != NoError ==> stop < |row.fields| && e == if row.fields[stop].value.None? then InvalidType else KeyUnique)
      && forall f | f in fields ::
           if f in row.fields && (e == NoError || (!undoesAll && stop > 0 && f == row.fields[0]))
           then Enters(indexes, was[f], f.state) else f.state == was[f]
    }

    lemma {:induction false} OutcomeIs(row: Row, e: Error, stop: nat, was: map<Field, FieldState>,
                                       sets: map<Index, multiset<Field>>, all: set<Index>, fields: set<Field>)
      requires was.Keys == fields && RowOk(row, fields) && Columns(indexes, all)
      requires Inserted(row, e, stop, was, sets, all, fields)
      ensures Outcome(row, e, stop, was, fields)
    {
      assert row.fields[..|row.fields|] == row.fields;
      assert |row.fields| > 0 ==> row.fields[..1] == [row.fields[0]];
      forall f | f in fields ensures Enters(indexes, was[f], Entered(indexes, was[f])) {
        EnteredIs(indexes, all, was[f]);
      }
    }

    /** How the insertion of a new row ends. */
    ghost predicate Inserted(row: Row, e: Error, stop: nat, was: map<Field, FieldState>,
                             sets: map<Index, multiset<Field>>,
                             all: set<Index>, fields: set<Field>)
      requires was.Keys == fields && RowOk(row, fields)
      reads this, row`fields, all, fields
    {
      if e == NoError then
        && (forall i | 0 <= i < |row.fields| :: !Refused(row, i, was))
        && Registered(all, fields) && Partly(row, |row.fields|, was, fields)
      else
        && FirstRefused(row, stop, was) && e == Refusal(row.fields[stop])
        && Partly(row, Kept(stop), was, fields)
        && (AsBefore(was, sets, all, fields) <==>
              undoesAll || Refused(row, 0, was) || Target(indexes, was[row.fields[0]]).None?)
        && (Registered(all, fields) <==> AsBefore(was, sets, all, fields))
    }

    method InsertNew(row: Row, ghost all: set<Index>, ghost fields: set<Field>) returns (e: Error, ghost stop: nat)
      requires Linked(all, fields) && Registered(all, fields) && RowOk(row, fields) && row !in rows
      modifies this`rows, row`tables, indexes.Values`entries, fields`state
      ensures Linked(all, fields)
      ensures rows == if e == NoError then old(rows) + {row} else old(rows)
      ensures row.tables == if e != NoError && undoesAll then old(row.tables) else old(row.tables) + {this}
      ensures Inserted(row, e, stop, old(States(fields)), old(Entries(all)), all, fields)
    {
      var registered := this in row.tables;
      ghost var was, sets := States(fields), Entries(all);
      RegisterAt(row, was, sets, all, fields);
      e, stop := TryRegistered(row, registered, was, sets, all, fields);
    }

    /** Behind the registration of the table at the row, which is taken back if that is to be and it is new. */
    method TryRegistered(row: Row, registered: bool, ghost was: map<Field, FieldState>,
                         ghost sets: map<Index, multiset<Field>>, ghost all: set<Index>, ghost fields: set<Field>)
      returns (e: Error, ghost stop: nat)
      requires Linked(all, fields) && Registered(all, fields) && RowOk(row, fields) && row !in rows
      requires AsBefore(was, sets, all, fields)
      modifies this`rows, row`tables, indexes.Values`entries, fields`state
      ensures Linked(all, fields)
      ensures rows == if e == NoError then old(rows) + {row} else old(rows)
      ensures row.tables == if e != NoError && undoesAll && !registered then old(row.tables) - {this}
              else old(row.tables)
      ensures Inserted(row, e, stop, was, sets, all, fields)
    {
      e, stop := TryFields(row, was, sets, all, fields);
      if e != NoError && undoesAll && !registered {
        UnregisterAt(row, e, stop, was, sets, all, fields);
      }
    }

    method RegisterAt(row: Row, ghost was: map<Field, FieldState>, ghost sets: map<Index, multiset<Field>>,
                      ghost all: set<Index>, ghost fields: set<Field>)
      requires Linked(all, fields) && Registered(all, fields) && RowOk(row, fields) && AsBefore(was, sets, all, fields)
      modifies row`tables
      ensures row.tables == old(row.tables) + {this}
      ensures Linked(all, fields) && Registered(all, fields) && RowOk(row, fields)
      ensures AsBefore(was, sets, all, fields)
    {
      row.Register(this, all, fields);
    }

    method UnregisterAt(row: Row, e: Error, ghost stop: nat, ghost was: map<Field, FieldState>,
                        ghost sets: map<Index, multiset<Field>>,
                        ghost all: set<Index>, ghost fields: set<Field>)
      requires Linked(all, fields) && RowOk(row, fields) && was.Keys == fields
               && Inserted(row, e, stop, was, sets, all, fields)
      modifies row`tables
      ensures row.tables == old(row.tables) - {this}
      ensures Linked(all, fields) && RowOk(row, fields) && Inserted(row, e, stop, was, sets, all, fields)
    {
      row.Unregister(this, all, fields);
    }

    /** The fields of the new row, and the row itself if all of them have entered. */
    method TryFields(row: Row, ghost was: map<Field, FieldState>, ghost sets: map<Index, multiset<Field>>,
                     ghost all: set<Index>, ghost fields: set<Field>)
      returns (e: Error, ghost stop: nat)
      requires Linked(all, fields) && Registered(all, fields) && RowOk(row, fields) && row !in rows
      requires AsBefore(was, sets, all, fields)
      modifies this`rows, indexes.Values`entries, fields`state
      ensures Linked(all, fields)
      ensures rows == if e == NoError then old(rows) + {row} else old(rows)
      ensures Inserted(row, e, stop, was, sets, all, fields)
    {
      NotYet(row, all, fields, was);
      LinkedNow(all, fields, was, sets);
      e, stop := EnterFields(row, was, all, fields);
      if e == NoError {
        AddRow(row, was, all, fields);
      } else {
        Restored(row, Kept(stop), was, sets, all, fields);
      }
    }

    /** The row of which all fields have entered. */
    method AddRow(row: Row, ghost was: map<Field, FieldState>, ghost all: set<Index>, ghost fields: set<Field>)
      requires Linked(all, fields) && Ready(row, was, all, fields) && row !in rows
               && Partly(row, |row.fields|, was, fields)
      requires forall c, f | c in indexes && f in fields :: At(was[f], indexes[c]) <==>
                 f.owner in rows && KeyIs(was[f], c)
      modifies this`rows
      ensures rows == old(rows) + {row} && Linked(all, fields) && Registered(all, fields)
    {
      rows := rows + {row};
      AllEntered(row, all, fields, was);
    }

    /** What a failed insertion leaves behind. */
    lemma {:induction false} Restored(row: Row, n: nat, was: map<Field, FieldState>, sets: map<Index, multiset<Field>>,
                                      all: set<Index>, fields: set<Field>)
      requires n <= 1 && |row.fields| > 0 && Ready(row, was, all, fields) && row !in rows
      requires Partly(row, n, was, fields) && Linked(all, fields) && LinkedIn(was, sets) && sets.Keys == all
      requires forall c, f | c in indexes && f in fields :: At(was[f], indexes[c]) <==>
                 f.owner in rows && KeyIs(was[f], c)
      ensures AsBefore(was, sets, all, fields) <==> n == 0 || Target(indexes, was[row.fields[0]]).None?
      ensures Registered(all, fields) <==> AsBefore(was, sets, all, fields)
    {
      var f := row.fields[0];
      var k :| KeyIs(was[f], k);
      EnterLeave(indexes, all, was[f], k);
      TargetIs(indexes, was[f], k);
      assert n == 1 ==> row.fields[..n] == [f];
      assert f in fields && f.owner == row;
      if n == 0 || Target(indexes, was[f]).None? {
        assert forall g | g in fields :: g.state == was[g];
        LinkedNow(all, fields, was, Entries(all));
        EntriesFollow(was, Entries(all), sets);
      } else {
        assert f.state != was[f];
        assert At(f.state, indexes[k]);
      }
    }

    lemma {:induction false} NotYet(row: Row, all: set<Index>, fields: set<Field>, was: map<Field, FieldState>)
      requires Linked(all, fields) && Registered(all, fields) && RowOk(row, fields) && row !in rows
      requires was == States(fields)
      ensures Partly(row, 0, was, fields) && Ready(row, was, all, fields)
    {
    }

    /** Without an index among the first `n` fields it makes no difference how many have entered. */
    lemma {:induction false} NoneEntered(row: Row, n: nat, m: nat, was: map<Field, FieldState>, fields: set<Field>)
      requires m <= n <= |row.fields| && fields <= was.Keys && Partly(row, n, was, fields)
      requires forall f | f in row.fields :: f in fields
      requires Noticed(row, n, false, was)
      ensures Partly(row, m, was, fields)
    {
      forall f | f in fields
        ensures f in row.fields[..n] || f in row.fields[..m] ==> Entered(indexes, was[f]) == was[f]
      {
        if f in row.fields[..n] {
          var i :| 0 <= i < n && row.fields[i] == f;
        }
      }
      assert forall f | f in row.fields[..m] :: f in row.fields[..n];
    }

    lemma {:induction false} AllEntered(row: Row, all: set<Index>, fields: set<Field>, was: map<Field, FieldState>)
      requires Linked(all, fields) && RowOk(row, fields) && Columns(indexes, all) && was.Keys == fields
      requires Partly(row, |row.fields|, was, fields) && row in rows
      requires forall f | f in fields :: exists k :: KeyIs(was[f], k)
      requires forall c, f | c in indexes && f in fields :: At(was[f], indexes[c]) <==>
                 f.owner in rows - {row} && KeyIs(was[f], c)
      ensures Registered(all, fields)
    {
      assert row.fields[..|row.fields|] == row.fields;
      forall c, f | c in indexes && f in fields
        ensures At(f.state, indexes[c]) <==> f.owner in rows && KeyIs(f.state, c)
      {
        if f in row.fields {
          var k :| KeyIs(was[f], k);
          TargetIs(indexes, was[f], k);
          EnterLeave(indexes, all, was[f], k);
          OneKey(f.state, k, c);
          OneKey(was[f], k, c);
        }
      }
    }

    // ------------------------------------------------------------------------------ remove and clear

    /** The first `n` fields of the row have left, everything else is as it was. */
    ghost predicate PartlyLeft(row: Row, n: nat, was: map<Field, FieldState>, fields: set<Field>)
      requires n <= |row.fields| && fields <= was.Keys
      reads row`fields, fields
    {
      forall f | f in fields :: f.state == if f in row.fields[..n] then Left(indexes, was[f]) else was[f]
    }

    /** `remove`: the fields leave the indexes of the table, whatever other indexes they are in. */
    method Remove(row: Row, ghost all: set<Index>, ghost fields: set<Field>) returns (e: Error)
      requires Linked(all, fields) && Registered(all, fields) && RowOk(row, fields)
      modifies this`rows, row`tables, indexes.Values`entries, fields`state
      ensures Linked(all, fields) && Registered(all, fields) && rows == old(rows) - {row}
      ensures e == if old(row in rows) then NoError else OutOfRange
      ensures row.tables == if old(row in rows) then old(row.tables) - {this} else old(row.tables)
      ensures if old(row in rows) then PartlyLeft(row, |row.fields|, old(States(fields)), fields)
              else States(fields) == old(States(fields))
      ensures old(row in rows) ==> LeftBy(row, old(States(fields)), fields)
    {
      if row !in rows { return OutOfRange; }
      ghost var was := States(fields);
      row.Unregister(this, all, fields);
      LeaveFields(row, was, all, fields);
      rows := rows - {row};
      AllLeft(row, all, fields, was);
      LeftWith(row, all, fields, was);
      return NoError;
    }

    method LeaveFields(row: Row, ghost was: map<Field, FieldState>, ghost all: set<Index>, ghost fields: set<Field>)
      requires Linked(all, fields) && Columns(indexes, all) && RowOk(row, fields)
      requires was == States(fields)
      requires forall f, x | f in row.fields && Target(indexes, was[f]) == Some(x) :: At(was[f], x)
      modifies indexes.Values`entries, fields`state
      ensures Linked(all, fields) && PartlyLeft(row, |row.fields|, was, fields)
    {
      var it := 0;
      while it < |row.fields|
        invariant 0 <= it <= |row.fields| && Linked(all, fields) && PartlyLeft(row, it, was, fields)
      {
        var f := row.fields[it];
        assert f !in row.fields[..it] && row.fields[..it + 1] == row.fields[..it] + [f];
        ghost var k :| KeyIs(was[f], k);
        TargetIs(indexes, was[f], k);
        if f.state.Indexed? {
          var key := f.GetKey();
          OneKey(f.state, key, k);
          if key in indexes {
            var e := indexes[key].Remove(f, all, fields);
          }
        }
        it := it + 1;
      }
    }

    lemma {:induction false} AllLeft(row: Row, all: set<Index>, fields: set<Field>, was: map<Field, FieldState>)
      requires RowOk(row, fields) && Columns(indexes, all) && was.Keys == fields
      requires PartlyLeft(row, |row.fields|, was, fields) && row !in rows
      requires forall f | f in fields :: exists k :: KeyIs(was[f], k)
      requires forall c, f | c in indexes && f in fields :: At(was[f], indexes[c]) <==>
                 f.owner in rows + {row} && KeyIs(was[f], c)
      ensures Registered(all, fields)
    {
      assert row.fields[..|row.fields|] == row.fields;
      forall c, f | c in indexes && f in fields
        ensures At(f.state, indexes[c]) <==> f.owner in rows && KeyIs(f.state, c)
      {
        if f in row.fields {
          var k :| KeyIs(was[f], k);
          TargetIs(indexes, was[f], k);
          OneKey(was[f], k, c);
        } else if f.owner in rows {
          assert f.owner in rows + {row};
        }
      }
    }

    /** The fields of the row have left all indexes of the table and have their keys; all others are as before. */
    ghost predicate LeftBy(row: Row, was: map<Field, FieldState>, fields: set<Field>)
      requires fields <= was.Keys
      reads fields
    {
      forall f | f in fields ::
        if f.owner == row then Loses(was[f], f.state, indexes.Values) else f.state == was[f]
    }

    lemma {:induction false} LeftWith(row: Row, all: set<Index>, fields: set<Field>, was: map<Field, FieldState>)
      requires RowOk(row, fields) && Columns(indexes, all) && was.Keys == fields
      requires PartlyLeft(row, |row.fields|, was, fields)
      requires forall f | f in fields :: exists k :: KeyIs(was[f], k)
      requires forall c, f | c in indexes && f in fields && At(was[f], indexes[c]) :: KeyIs(was[f], c)
      ensures LeftBy(row, was, fields)
    {
      assert row.fields[..|row.fields|] == row.fields;
      forall f | f in fields && f.owner == row ensures Loses(was[f], f.state, indexes.Values) {
        var k :| KeyIs(was[f], k);
        LeftIs(indexes, all, was[f], k);
      }
    }

    /** All fields have left these indexes. */
    ghost predicate AllLose(was: map<Field, FieldState>, gone: set<Index>, fields: set<Field>)
      requires fields <= was.Keys
      reads fields
    {
      forall f | f in fields :: Loses(was[f], f.state, gone)
    }

    method ClearIndex(c: string, ghost was: map<Field, FieldState>, ghost gone: set<Index>, ghost all: set<Index>,
                      ghost fields: set<Field>)
      requires Linked(all, fields) && Columns(indexes, all) && c in indexes
      requires fields <= was.Keys && AllLose(was, gone, fields)
      modifies {indexes[c]}`entries, fields`state
      ensures Linked(all, fields) && indexes[c].entries == multiset{} && AllLose(was, gone + {indexes[c]}, fields)
    {
      forall f | f in fields
        ensures Loses(was[f], if At(f.state, indexes[c]) then Removed(f.state, indexes[c])
                      else f.state, gone + {indexes[c]})
      {
        LosesMore(was[f], f.state, gone, indexes[c]);
      }
      assert forall f | f in fields :: f in indexes[c].entries <==> At(f.state, indexes[c]);
      indexes[c].Clear(all, fields);
    }

    /** `clear` empties every index and the table; every field has left the indexes of the table and has its key. */
    method Clear(ghost all: set<Index>, ghost fields: set<Field>)
      requires Linked(all, fields) && Registered(all, fields)
      modifies this`rows, indexes.Values`entries, fields`state
      ensures Linked(all, fields) && Registered(all, fields) && rows == {}
      ensures forall c | c in indexes :: indexes[c].entries == multiset{}
      ensures forall f | f in fields :: Loses(old(f.state), f.state, indexes.Values)
    {
      var todo := indexes.Keys;
      ghost var was := States(fields);
      assert indexes.Keys - todo == {};
      while todo != {}
        invariant Linked(all, fields) && Clearing(todo, was, fields)
        decreases todo
      {
        todo := ClearNext(todo, was, all, fields);
      }
      rows := {};
      AllCleared(was, all, fields);
    }

    function IndexesOf(columns: set<string>): set<Index>
      requires columns <= indexes.Keys
    {
      set c | c in columns :: indexes[c]
    }

    /** The indexes of the columns that are not left to do are empty. */
    ghost predicate Clearing(todo: set<string>, was: map<Field, FieldState>, fields: set<Field>)
      requires fields <= was.Keys
      reads indexes.Values, fields
    {
      && todo <= indexes.Keys
      && (forall c | c in indexes && c !in todo :: indexes[c].entries == multiset{})
      && AllLose(was, IndexesOf(indexes.Keys - todo), fields)
    }

    method ClearNext(todo: set<string>, ghost was: map<Field, FieldState>, ghost all: set<Index>,
                     ghost fields: set<Field>) returns (rest: set<string>)
      requires Linked(all, fields) && Columns(indexes, all) && fields <= was.Keys
      requires todo != {} && Clearing(todo, was, fields)
      modifies indexes.Values`entries, fields`state
      ensures Linked(all, fields) && rest < todo && Clearing(rest, was, fields)
    {
      var c :| c in todo;
      rest := todo - {c};
      assert IndexesOf(indexes.Keys - rest) == IndexesOf(indexes.Keys - todo) + {indexes[c]} by {
        assert indexes.Keys - rest == indexes.Keys - todo + {c};
      }
      ClearIndex(c, was, IndexesOf(indexes.Keys - todo), all, fields);
    }

    lemma {:induction false} AllCleared(was: map<Field, FieldState>, all: set<Index>, fields: set<Field>)
      requires fields <= was.Keys && Linked(all, fields) && Columns(indexes, all) && Clearing({}, was, fields)
               && rows == {}
      ensures Registered(all, fields) && AllLose(was, indexes.Values, fields)
    {
      assert indexes.Keys - {} == indexes.Keys;
      assert IndexesOf(indexes.Keys) == indexes.Values;
      forall c, f | c in indexes && f in fields ensures !At(f.state, indexes[c]) {
        assert indexes[c].entries[f] == 0;
      }
    }
  }

  /** A new row of two fields whose second value is taken: as written, the first one stays in its index. */
  lemma {:induction false} OrphanEntry(t: Table, row: Row, f: Field, g: Field, h: Field, x: Index, y: Index,
                                       was: map<Field, FieldState>, fields: set<Field>)
    requires t.indexes == map["a" := x, "b" := y] && x.key == "a" && y.key == "b" && !x.unique && y.unique
    requires row.fields == [f, g] && fields == {f, g, h} && f != h && g != h && RowOk(row, fields)
    requires was == map[f := Local("a"), g := Local("b"), h := Indexed({y})]
    requires f.value == Some(Query.Key(1)) && g.value == h.value == Some(Query.Key(2))
    ensures t.FirstRefused(row, 1, was) && t.Refusal(g) == KeyUnique
    ensures !t.undoesAll && t.Partly(row, t.Kept(1), was, fields) ==> f.state == Indexed({x}) && g.state == Local("b")
  {
    TargetIs(t.indexes, was[f], "a");
    TargetIs(t.indexes, was[g], "b");
    assert row.fields[0] == f && row.fields[1] == g && g != f && g != h;
    assert At(was[h], y);
    assert t.Clash(g, y, row.fields[..1], was);
    assert row.fields[..1] == [f];
  }

  /** The insertion of such a row into a table that holds `h`. */
  method InsertTaken(t: Table, row: Row, f: Field, g: Field, h: Field, x: Index, y: Index) returns (e: Error)
    requires t.indexes == map["a" := x, "b" := y] && x.key == "a" && y.key == "b" && !x.unique && y.unique && x != y
    requires row.fields == [f, g] && f != h && g != h && RowOk(row, {f, g, h}) && row !in t.rows
    requires States({f, g, h}) == map[f := Local("a"), g := Local("b"), h := Indexed({y})]
    requires f.value == Some(Query.Key(1)) && g.value == h.value == Some(Query.Key(2))
    requires Linked({x, y}, {f, g, h}) && t.Registered({x, y}, {f, g, h})
    modifies t`rows, row`tables, x`entries, y`entries, f`state, g`state, h`state
    ensures e == KeyUnique && row !in t.rows
    ensures if t.undoesAll then x.entries == old(x.entries) else f in x.entries && t in row.tables
  {
    ghost var all, fields, was, sets := {x, y}, {f, g, h}, States({f, g, h}), Entries({x, y});
    ghost var stop;
    e, stop := t.Insert(row, true, all, fields);
    TakenInserted(t, row, f, g, h, x, y, e, stop, was, sets);
  }

  lemma {:induction false} TakenInserted(t: Table, row: Row, f: Field, g: Field, h: Field, x: Index, y: Index, e: Error,
                                         stop: nat,
                                         was: map<Field, FieldState>, sets: map<Index, multiset<Field>>)
    requires t.indexes == map["a" := x, "b" := y] && x.key == "a" && y.key == "b" && !x.unique && y.unique
    requires row.fields == [f, g] && f != h && g != h && RowOk(row, {f, g, h})
    requires was == map[f := Local("a"), g := Local("b"), h := Indexed({y})] && sets.Keys == {x, y}
    requires f.value == Some(Query.Key(1)) && g.value == h.value == Some(Query.Key(2))
    requires Linked({x, y}, {f, g, h}) && t.Inserted(row, e, stop, was, sets, {x, y}, {f, g, h})
    ensures e == KeyUnique && if t.undoesAll then x.entries == sets[x] else f in x.entries
  {
    OrphanEntry(t, row, f, g, h, x, y, was, {f, g, h});
    assert stop == 1;
    if t.undoesAll {
      assert Entries({x, y})[x] == x.entries;
    } else {
      assert At(f.state, x);
    }
  }
}
