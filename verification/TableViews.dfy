/**
  The rows and indexes that a search sees are those that registration keeps
  (libbinom/source/binom_impl/ram_storage_implementation/table_impl.cxx).
 */
module TableViews {
  import opened Collections
  import TableFields
  import TableRows
  import opened TableSearch
  import TableFind

  /** The search sees a row object as its identity and its key values by column. */
  ghost predicate Shows(r: TableFields.Row, v: Row)
    reads r, r.fields
  {
    && (forall f, k | f in r.fields && f.value.Some? && TableFields.KeyIs(f.state, k) ::
          k in v.columns && v.columns[k] == f.value.value)
    && (forall k | k in v.columns :: HasColumn(r, k))
  }

  ghost predicate HasColumn(r: TableFields.Row, k: string)
    reads r, r.fields
  {
    exists f :: f in r.fields && f.value.Some? && TableFields.KeyIs(f.state, k)
  }

  /** The rows of a table of maps: no column occurs twice in a row, and different rows are seen as different. */
  ghost predicate Seen(rows: set<TableFields.Row>, view: map<TableFields.Row, Row>, fields: set<TableFields.Field>)
    reads rows, fields
  {
    && rows <= view.Keys
    && (forall r | r in rows :: TableRows.RowOk(r, fields) && Shown(r, view[r], fields))
    && (forall r, s | r in rows && s in rows && view[r] == view[s] :: r == s)
  }

  ghost predicate Shown(r: TableFields.Row, v: Row, fields: set<TableFields.Field>)
    requires TableRows.RowOk(r, fields)
    reads r, fields
  {
    && Shows(r, v)
    && forall f, g, k | f in r.fields && g in r.fields && TableFields.KeyIs(f.state, k)
       && TableFields.KeyIs(g.state, k) :: f == g
  }

  /** The fields of an index in their order there. */
  ghost predicate Listed(order: seq<TableFields.Field>, x: TableFields.Index)
    reads x
  {
    && multiset(order) == x.entries
    && forall i, j | 0 <= i < j < |order| && order[i].value.Some? && order[j].value.Some? ::
         !Less(order[j].value.value, order[i].value.value)
  }

  ghost function EntryOf(f: TableFields.Field, view: map<TableFields.Row, Row>): Entry
    requires f.value.Some? && f.owner != null && f.owner in view
  {
    Entry(f.value.value, view[f.owner])
  }

  ghost function EntriesOf(order: seq<TableFields.Field>, view: map<TableFields.Row, Row>): (e: seq<Entry>)
    requires forall f | f in order :: f.value.Some? && f.owner != null && f.owner in view
    ensures |e| == |order| && forall i | 0 <= i < |e| :: e[i] == EntryOf(order[i], view)
  {
    seq(|order|, i requires 0 <= i < |order| => EntryOf(order[i], view))
  }

  /** Every field of an index is there once, and belongs to a row of the table that has the column. */
  ghost predicate Member(t: TableRows.Table, c: string, f: TableFields.Field, fields: set<TableFields.Field>)
    requires c in t.indexes
    reads t, f
  {
    && f in fields && TableFields.At(f.state, t.indexes[c]) && TableFields.KeyIs(f.state, c)
    && f.value.Some? && f.owner != null && f.owner in t.rows
  }

  lemma {:induction false} OnceEach(t: TableRows.Table, c: string, all: set<TableFields.Index>,
                                    fields: set<TableFields.Field>, order: seq<TableFields.Field>)
    requires TableFields.Linked(all, fields) && t.Registered(all, fields) && c in t.indexes
    requires multiset(order) == t.indexes[c].entries
    ensures forall i, j | 0 <= i < j < |order| :: order[i] != order[j]
    ensures forall f | f in order :: Member(t, c, f, fields)
    ensures forall f | f in fields && TableFields.At(f.state, t.indexes[c]) :: f in order
  {
    var x := t.indexes[c];
    forall f | f in order ensures Member(t, c, f, fields) {
      assert f in multiset(order);
      assert f in x.entries;
      assert x.entries[f] > 0;
    }
    forall f | f in fields && TableFields.At(f.state, x) ensures f in order {
      assert x.entries[f] == 1;
      assert f in multiset(order);
    }
    forall i, j | 0 <= i < j < |order| ensures order[i] != order[j] {
      assert order[i] in order;
      if order[i] == order[j] {
        Twice(order, i, j);
      }
    }
  }

  lemma {:induction false} Twice<T>(s: seq<T>, i: nat, j: nat)
    requires i < j < |s| && s[i] == s[j]
    ensures multiset(s)[s[i]] >= 2
  {
    assert s == s[..j] + [s[j]] + s[j + 1..];
    assert s[i] in s[..j];
  }

  /** The index of a registered table, in its order, is an index as the search needs it. */
  lemma {:induction false} IndexShown(t: TableRows.Table, c: string, all: set<TableFields.Index>,
                                      fields: set<TableFields.Field>,
                                      view: map<TableFields.Row, Row>, order: seq<TableFields.Field>, rows: seq<Row>)
    requires TableFields.Linked(all, fields) && t.Registered(all, fields) && Seen(t.rows, view, fields)
    requires c in t.indexes && Listed(order, t.indexes[c])
    requires forall v :: v in rows <==> exists r :: r in t.rows && view[r] == v
    ensures forall f | f in order :: f.value.Some? && f.owner != null && f.owner in view
    ensures TableFind.IndexOf(Index(t.indexes[c].unique, EntriesOf(order, view)), c, rows)
  {
    OnceEach(t, c, all, fields, order);
    var e := EntriesOf(order, view);
    forall i | 0 <= i < |e| ensures e[i].row in rows && c in e[i].row.columns && e[i].value == e[i].row.columns[c] {
      EntryShown(t, c, order[i], fields, view);
    }
    forall i, j | 0 <= i < j < |e| ensures e[i].row != e[j].row {
      RowsDiffer(t, c, order[i], order[j], fields, view);
    }
    forall v | v in rows && c in v.columns ensures Entry(v.columns[c], v) in e {
      var r :| r in t.rows && view[r] == v;
      RowShown(t, c, r, all, fields, view, order);
    }
  }

  lemma {:induction false} EntryShown(t: TableRows.Table, c: string, f: TableFields.Field,
                                      fields: set<TableFields.Field>, view: map<TableFields.Row, Row>)
    requires c in t.indexes && Member(t, c, f, fields) && Seen(t.rows, view, fields)
    ensures var v := view[f.owner]; c in v.columns && v.columns[c] == f.value.value
  {
    assert Shown(f.owner, view[f.owner], fields) && f in f.owner.fields;
  }

  lemma {:induction false} RowsDiffer(t: TableRows.Table, c: string, f: TableFields.Field, g: TableFields.Field,
                                      fields: set<TableFields.Field>, view: map<TableFields.Row, Row>)
    requires c in t.indexes && Member(t, c, f, fields) && Member(t, c, g, fields) && f != g
             && Seen(t.rows, view, fields)
    ensures view[f.owner] != view[g.owner]
  {
    assert Shown(f.owner, view[f.owner], fields) && f in f.owner.fields && g in g.owner.fields;
  }

  lemma {:induction false} RowShown(t: TableRows.Table, c: string, r: TableFields.Row, all: set<TableFields.Index>,
                                    fields: set<TableFields.Field>,
                                    view: map<TableFields.Row, Row>, order: seq<TableFields.Field>)
    requires t.Registered(all, fields) && Seen(t.rows, view, fields) && r in t.rows && c in t.indexes
             && c in view[r].columns
    requires forall f | f in order :: f.value.Some? && f.owner != null && f.owner in view
    requires forall f | f in fields && TableFields.At(f.state, t.indexes[c]) :: f in order
    ensures Entry(view[r].columns[c], view[r]) in EntriesOf(order, view)
  {
    assert Shown(r, view[r], fields) && HasColumn(r, c);
    var f :| f in r.fields && f.value.Some? && TableFields.KeyIs(f.state, c);
    assert TableFields.At(f.state, t.indexes[c]) && f in order;
    var i :| 0 <= i < |order| && order[i] == f;
    assert EntriesOf(order, view)[i] == Entry(view[r].columns[c], view[r]);
  }
}
