/**
  Fields, the indexes they are registered at, and the back-pointers between them
  (libbinom/source/binom_impl/ram_storage_implementation/index_impl.cxx).

  An iterator into an index identifies a field, so the back-pointer map of a field is the set of the
  indexes it is registered at.  While a field is registered, its key is only kept by these indexes.
 */
module TableFields {
  import opened Collections
  import opened Query

  datatype Error = NoError | InvalidData | InvalidType | KeyUnique | OutOfRange | ConstraintFailed

  datatype FieldState = Local(key: string) | Indexed(at: set<Index>)

  /** The state after a registration at `x`. */
  function Added(s: FieldState, x: Index): FieldState {
    if s.Local? then Indexed({x}) else Indexed(s.at + {x})
  }

  /** The state after the registration at `x` is gone; the last index gives the key back. */
  function Removed(s: FieldState, x: Index): FieldState {
    if s.Indexed? then if s.at == {x} then Local(x.key) else Indexed(s.at - {x}) else s
  }

  /** The key that a field has in a state. */
  ghost predicate KeyIs(s: FieldState, key: string) {
    match s
    case Local(k) => k == key
    case Indexed(at) => at != {} && forall x | x in at :: x.key == key
  }

  /** Registering a field at an index of its column and removing it again changes nothing, and neither
      step changes the key. */
  lemma {:induction false} AddRemove(s: FieldState, x: Index)
    requires KeyIs(s, x.key) && (s.Indexed? ==> x !in s.at)
    ensures Removed(Added(s, x), x) == s
    ensures KeyIs(Added(s, x), x.key)
  {
    if s.Indexed? {
      assert s.at + {x} != {x};
      assert s.at + {x} - {x} == s.at;
    }
  }

  /** The indexes at which a field is registered. */
  function Where(s: FieldState): set<Index> {
    if s.Local? then {} else s.at
  }

  /** What a registration changes: one index more, and the same key. */
  ghost predicate Gains(s: FieldState, r: FieldState, x: Index) {
    && Where(r) == Where(s) + {x}
    && forall k :: KeyIs(r, k) <==> KeyIs(s, k)
  }

  /** What the end of registrations changes: the indexes are gone, and the key is the same. */
  ghost predicate Loses(s: FieldState, r: FieldState, gone: set<Index>) {
    && Where(r) == Where(s) - gone
    && forall k :: KeyIs(r, k) <==> KeyIs(s, k)
  }

  lemma {:induction false} AddedIs(s: FieldState, x: Index)
    requires KeyIs(s, x.key)
    ensures Gains(s, Added(s, x), x)
  {
    forall k ensures KeyIs(Added(s, x), k) <==> KeyIs(s, k) {
      OneKey(s, x.key, k);
      assert At(Added(s, x), x);
    }
  }

  lemma {:induction false} RemovedIs(s: FieldState, x: Index)
    requires KeyIs(s, x.key)
    ensures Loses(s, Removed(s, x), {x})
  {
    if At(s, x) {
      RemovedKey(s, x, x.key);
    }
    forall k ensures KeyIs(Removed(s, x), k) <==> KeyIs(s, k) {
      OneKey(s, x.key, k);
      OneKey(Removed(s, x), x.key, k);
    }
  }

  lemma {:induction false} LosesMore(s: FieldState, r: FieldState, gone: set<Index>, x: Index)
    requires Loses(s, r, gone) && (At(r, x) ==> KeyIs(r, x.key))
    ensures Loses(s, if At(r, x) then Removed(r, x) else r, gone + {x})
  {
    if At(r, x) {
      RemovedIs(r, x);
    }
    assert Where(r) - {x} == Where(s) - (gone + {x});
  }

  lemma {:induction false} RemovedKey(s: FieldState, x: Index, key: string)
    requires KeyIs(s, key) && s.Indexed? && x in s.at
    ensures KeyIs(Removed(s, x), key)
  {
    if s.at != {x} {
      assert s.at - {x} != {} by {
        assert exists y :: y in s.at && y != x;
      }
    }
  }

  function AddedAll(s: FieldState, xs: seq<Index>): FieldState
    decreases |xs|
  {
    if xs == [] then s else AddedAll(Added(s, xs[0]), xs[1..])
  }

  function RemovedAll(s: FieldState, xs: seq<Index>): FieldState
    decreases |xs|
  {
    if xs == [] then s else RemovedAll(Removed(s, xs[0]), xs[1..])
  }

  lemma {:induction false} AddedAllIs(s: FieldState, xs: seq<Index>)
    requires xs != []
    ensures AddedAll(s, xs) == Indexed((if s.Local? then {} else s.at) + Members(xs))
    decreases |xs|
  {
    assert Members(xs) == {xs[0]} + Members(xs[1..]);
    if |xs| > 1 {
      AddedAllIs(Added(s, xs[0]), xs[1..]);
    } else {
      assert Members(xs[1..]) == {};
    }
  }

  lemma {:induction false} RemovedAllIs(at: set<Index>, xs: seq<Index>, key: string)
    requires xs != [] && NoRepeats(xs) && Members(xs) <= at && forall x | x in at :: x.key == key
    ensures RemovedAll(Indexed(at), xs) == if at == Members(xs) then Local(key) else Indexed(at - Members(xs))
    decreases |xs|
  {
    var x, rest := xs[0], xs[1..];
    assert Members(xs) == {x} + Members(rest);
    assert x in xs && x !in rest;
    if rest == [] {
      assert Members(rest) == {};
    } else {
      assert rest[0] in Members(rest);
      assert at != {x};
      RemovedAllIs(at - {x}, rest, key);
      assert at - {x} - Members(rest) == at - Members(xs);
      assert at - {x} == Members(rest) <==> at == Members(xs);
    }
  }

  lemma {:induction false} NoMembers(xs: seq<Index>)
    ensures Members(xs) == {} <==> xs == []
  {
    if xs != [] {
      assert xs[0] in Members(xs);
    }
  }

  /** Registering a field at any indexes of its column and removing it from all of them, in any order,
      restores its state. */
  lemma {:induction false} AddAllRemoveAll(s: FieldState, xs: seq<Index>, ys: seq<Index>, key: string)
    requires KeyIs(s, key) && forall x | x in xs :: x.key == key && !At(s, x)
    requires NoRepeats(ys) && Members(xs) == Members(ys)
    ensures KeyIs(AddedAll(s, xs), key) && RemovedAll(AddedAll(s, xs), ys) == s
  {
    if xs == [] {
      NoMembers(xs);
      NoMembers(ys);
    } else {
      assert xs[0] in Members(xs);
      AddedAllIs(s, xs);
      var before := if s.Local? then {} else s.at;
      var at := before + Members(xs);
      RemovedAllIs(at, ys, key);
      assert at - Members(ys) == before;
    }
  }

  // -------------------------------------------------------------------- all fields and all indexes

  predicate At(s: FieldState, x: Index) {
    s.Indexed? && x in s.at
  }

  /** An index has a field as an entry, once, exactly if the field is registered there. */
  ghost predicate Mutual(all: set<Index>, fields: set<Field>)
    reads all, fields
  {
    && (forall x, f | x in all && f in fields :: x.entries[f] == if At(f.state, x) then 1 else 0)
    && (forall x, f | x in all && f in x.entries :: f in fields)
  }

  /** Every field has a key, on which all of its indexes agree, and is in an index only if its value is a
      key value. */
  ghost predicate Keyed(all: set<Index>, fields: set<Field>)
    reads fields
  {
    forall f | f in fields ::
      (exists k :: KeyIs(f.state, k)) && (f.state.Indexed? ==> f.state.at <= all && f.value.Some?)
  }

  /** A unique index holds no value twice. */
  ghost predicate Unique(all: set<Index>)
    reads all
  {
    forall x, f, g | x in all && x.unique && f in x.entries && g in x.entries && f != g :: f.value != g.value
  }

  /** Fields and indexes point at each other. */
  ghost predicate Linked(all: set<Index>, fields: set<Field>)
    reads all, fields
  {
    Mutual(all, fields) && Keyed(all, fields) && Unique(all)
  }

  // The same in values, to speak about two moments.

  ghost function States(fields: set<Field>): map<Field, FieldState>
    reads fields
  {
    map f | f in fields :: f.state
  }

  ghost function Entries(all: set<Index>): map<Index, multiset<Field>>
    reads all
  {
    map x | x in all :: x.entries
  }

  ghost predicate LinkedIn(states: map<Field, FieldState>, entries: map<Index, multiset<Field>>) {
    && (forall x, f | x in entries && f in states :: entries[x][f] == if At(states[f], x) then 1 else 0)
    && (forall x, f | x in entries && f in entries[x] :: f in states)
    && (forall f | f in states ::
         (exists k :: KeyIs(states[f], k)) && (states[f].Indexed? ==> states[f].at <= entries.Keys && f.value.Some?))
    && (forall x, f, g | x in entries && x.unique && f in entries[x] && g in entries[x] && f != g :: f.value != g.value)
  }

  lemma {:induction false} LinkedNow(all: set<Index>, fields: set<Field>, states: map<Field, FieldState>,
                                     entries: map<Index, multiset<Field>>)
    requires states.Keys == fields && entries.Keys == all
    requires forall f | f in fields :: states[f] == f.state
    requires forall x | x in all :: entries[x] == x.entries
    ensures Linked(all, fields) <==> LinkedIn(states, entries)
  {
  }

  lemma {:induction false} AddedLinked(states: map<Field, FieldState>, entries: map<Index, multiset<Field>>, f: Field,
                                       x: Index)
    requires LinkedIn(states, entries) && f in states && x in entries && !At(states[f], x)
    requires KeyIs(states[f], x.key) && f.value.Some?
    requires x.unique ==> forall g | g in entries[x] :: g.value != f.value
    ensures LinkedIn(states[f := Added(states[f], x)], entries[x := entries[x] + multiset{f}])
  {
    AddRemove(states[f], x);
  }

  lemma {:induction false} RemovedLinked(states: map<Field, FieldState>, entries: map<Index, multiset<Field>>, f: Field,
                                         x: Index)
    requires LinkedIn(states, entries) && f in states && x in entries && At(states[f], x)
    ensures LinkedIn(states[f := Removed(states[f], x)], entries[x := entries[x] - multiset{f}])
  {
    var k :| KeyIs(states[f], k);
    RemovedKey(states[f], x, k);
  }

  /** The entries are determined by the fields. */
  lemma {:induction false} EntriesFollow(states: map<Field, FieldState>, a: map<Index, multiset<Field>>,
                                         b: map<Index, multiset<Field>>)
    requires LinkedIn(states, a) && LinkedIn(states, b) && a.Keys == b.Keys
    ensures a == b
  {
    forall x | x in a ensures a[x] == b[x] {
      forall f: Field ensures a[x][f] == b[x][f] {
        if f !in states {
          assert f !in a[x] && f !in b[x];
        }
      }
    }
  }

  class Row {
    var fields: seq<Field>
    var tables: set<object>

    method Register(table: object, ghost all: set<Index>, ghost fields: set<Field>)
      modifies this`tables
      ensures tables == old(tables) + {table}
      ensures Linked(all, fields) == old(Linked(all, fields))
      ensures States(fields) == old(States(fields)) && Entries(all) == old(Entries(all))
    {
      tables := tables + {table};
    }

    method Unregister(table: object, ghost all: set<Index>, ghost fields: set<Field>)
      modifies this`tables
      ensures tables == old(tables) - {table}
      ensures Linked(all, fields) == old(Linked(all, fields))
      ensures States(fields) == old(States(fields)) && Entries(all) == old(Entries(all))
    {
      tables := tables - {table};
    }
  }

  class Field {
    var state: FieldState
    const value: Option<Value>
    const owner: Row?

    constructor (key: string, value: Option<Value>, owner: Row?)
      ensures state == Local(key) && this.value == value && this.owner == owner
    {
      this.state, this.value, this.owner := Local(key), value, owner;
    }

    predicate CanBeIndexed()
      reads this
    {
      state.Indexed? || value.Some?
    }

    /** The key, asked from an arbitrary one of the indexes if there are any. */
    method GetKey() returns (key: string)
      requires exists k :: KeyIs(state, k)
      ensures KeyIs(state, key)
    {
      match state {
        case Local(k) => key := k;
        case Indexed(at) =>
          var x :| x in at;
          key := x.key;
      }
    }
  }

  class Index {
    const key: string
    const unique: bool
    var entries: multiset<Field>

    constructor (key: string, unique: bool)
      ensures this.key == key && this.unique == unique && entries == multiset{}
    {
      this.key, this.unique, entries := key, unique, multiset{};
    }

    /** Some entry has the value. */
    ghost predicate Taken(v: Option<Value>)
      reads this
    {
      exists g | g in entries :: g.value == v
    }

    /** Both sides of a link at once. */
    method Change(f: Field, es: multiset<Field>, s: FieldState, ghost all: set<Index>, ghost fields: set<Field>,
                  ghost states: map<Field, FieldState>, ghost sets: map<Index, multiset<Field>>)
      requires this in all && f in fields && states == States(fields) && sets == Entries(all)
      requires LinkedIn(states[f := s], sets[this := es])
      modifies this`entries, f`state
      ensures entries == es && f.state == s && Linked(all, fields)
    {
      entries := es;
      f.state := s;
      LinkedNow(all, fields, states[f := s], sets[this := es]);
    }

    /** The new entry and the pointer back to this index. */
    method Enter(f: Field, ghost all: set<Index>, ghost fields: set<Field>)
      requires Linked(all, fields) && this in all && f in fields && !At(f.state, this)
      requires KeyIs(f.state, key) && f.value.Some? && (unique ==> !Taken(f.value))
      modifies this`entries, f`state
      ensures entries == old(entries) + multiset{f} && f.state == Added(old(f.state), this)
      ensures Linked(all, fields)
    {
      ghost var states, sets := States(fields), Entries(all);
      LinkedNow(all, fields, states, sets);
      AddedLinked(states, sets, f, this);
      Change(f, entries + multiset{f}, Added(f.state, this), all, fields, states, sets);
    }

    /** A field that an index without unique values already has as an entry becomes one twice. */
    method Add(f: Field, ghost all: set<Index>, ghost fields: set<Field>) returns (e: Error)
      requires Linked(all, fields) && this in all && f in fields
      modifies this`entries, f`state
      ensures e == if !KeyIs(old(f.state), key) then InvalidData
                   else if f.value.None? then InvalidType
                   else if unique && old(Taken(f.value)) then KeyUnique
                   else NoError
      ensures e == NoError ==> entries == old(entries) + multiset{f} && f.state == Added(old(f.state), this)
      ensures e != NoError ==> entries == old(entries) && f.state == old(f.state)
      ensures Linked(all, fields) <==> e != NoError || !old(At(f.state, this))
    {
      var k := f.GetKey();
      OneKey(f.state, k, key);
      if key != k { return InvalidData; }
      if !f.CanBeIndexed() { return InvalidType; }
      if unique {
        if exists g | g in entries :: g.value == f.value {
          return KeyUnique;
        }
      }
      if f.state.Indexed? && this in f.state.at {
        assert entries[f] == 1;
        assert unique ==> f in entries;
        assert Added(f.state, this) == f.state by { assert f.state.at + {this} == f.state.at; }
        entries := entries + multiset{f};
      } else {
        Enter(f, all, fields);
      }
      return NoError;
    }

    /** Takes back the entry and the pointer to this index. */
    method Withdraw(f: Field, ghost all: set<Index>, ghost fields: set<Field>)
      requires Linked(all, fields) && this in all && f in fields && At(f.state, this)
      modifies this`entries, f`state
      ensures entries == old(entries) - multiset{f} && f.state == Removed(old(f.state), this)
      ensures Linked(all, fields)
    {
      ghost var states, sets := States(fields), Entries(all);
      LinkedNow(all, fields, states, sets);
      RemovedLinked(states, sets, f, this);
      Change(f, entries - multiset{f}, Removed(f.state, this), all, fields, states, sets);
    }

    method Remove(f: Field, ghost all: set<Index>, ghost fields: set<Field>) returns (e: Error)
      requires Linked(all, fields) && this in all && f in fields
      modifies this`entries, f`state
      ensures e == if At(old(f.state), this) then NoError else OutOfRange
      ensures e == NoError ==> entries == old(entries) - multiset{f} && f.state == Removed(old(f.state), this)
      ensures e != NoError ==> entries == old(entries) && f.state == old(f.state)
      ensures Linked(all, fields)
    {
      if f.state.Local? || this !in f.state.at { return OutOfRange; }
      Withdraw(f, all, fields);
      return NoError;
    }

    /** Takes out one entry after the other; each removal finds its entry because the field points back. */
    method Clear(ghost all: set<Index>, ghost fields: set<Field>)
      requires Linked(all, fields) && this in all
      modifies this`entries, fields`state
      ensures entries == multiset{} && Linked(all, fields)
      ensures forall f | f in fields :: f.state == if f in old(entries) then Removed(old(f.state), this)
              else old(f.state)
    {
      while entries != multiset{}
        invariant Linked(all, fields) && entries <= old(entries)
        invariant forall f | f in fields ::
            f.state == if f in old(entries) && f !in entries then Removed(old(f.state), this) else old(f.state)
        decreases |entries|
      {
        var f :| f in entries;
        assert f in fields && At(f.state, this) && entries[f] == 1;
        var e := Remove(f, all, fields);
      }
    }
  }

  lemma {:induction false} OneKey(s: FieldState, a: string, b: string)
    requires KeyIs(s, a)
    ensures KeyIs(s, b) <==> a == b
  {
    if s.Indexed? {
      var x :| x in s.at;
    }
  }
}
