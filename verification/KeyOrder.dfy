/**
  The order of keys: KeyValue::getCompare (libbinom/source/variables/key_value.cxx) over the comparison
  operators of libbinom/include/utils/generic_arithmetic.hxx, for integral keys.
 */
module KeyOrder {
  datatype IntType = Bool | UI8 | SI8 | UI16 | SI16 | UI32 | SI32 | UI64 | SI64

  /** A bit array is an array of Bool. */
  datatype Key = Null | Number(t: IntType, value: int) | Array(t: IntType, items: seq<int>)

  /** `PastEnd`: the comparison reads behind the end of an array. */
  datatype Result = Lower | Equal | Higher | PastEnd

  predicate Signed(t: IntType) {
    t == SI8 || t == SI16 || t == SI32 || t == SI64
  }

  function Bound(t: IntType): int {
    match t
    case Bool => 2
    case UI8 => 0x100
    case SI8 => 0x80
    case UI16 => 0x1_0000
    case SI16 => 0x8000
    case UI32 => 0x1_0000_0000
    case SI32 => 0x8000_0000
    case UI64 => 0x1_0000_0000_0000_0000
    case SI64 => 0x8000_0000_0000_0000
  }

  predicate InRange(t: IntType, v: int) {
    (if Signed(t) then -Bound(t) else 0) <= v < Bound(t)
  }

  predicate Valid(k: Key) {
    match k
    case Null => true
    case Number(t, v) => InRange(t, v)
    case Array(t, items) => forall v | v in items :: InRange(t, v)
  }

  /** Type codes; those of the arrays are in the same order. */
  function Code(t: IntType): int {
    match t
    case Bool => 0x02
    case UI8 => 0x03
    case SI8 => 0x04
    case UI16 => 0x05
    case SI16 => 0x06
    case UI32 => 0x07
    case SI32 => 0x08
    case UI64 => 0x0A
    case SI64 => 0x0B
  }

  function ClassOf(k: Key): int {
    match k
    case Null => 1
    case Number(_, _) => 2
    case Array(t, _) => if t == Bool then 3 else 4
  }

  function Sign(a: int, b: int): Result {
    if a > b then Higher else if a < b then Lower else Equal
  }

  // ------------------------------------------------------------------------------- as written

  /** `>` of two generic values: false if an unsigned value meets a negative one on either side. */
  predicate Greater(t: IntType, a: int, u: IntType, b: int) {
    if !Signed(t) && Signed(u) then b >= 0 && a > b
    else if Signed(t) && !Signed(u) then a >= 0 && a > b
    else a > b
  }

  predicate GreaterOrEqual(t: IntType, a: int, u: IntType, b: int) {
    if !Signed(t) && Signed(u) then b >= 0 && a >= b
    else if Signed(t) && !Signed(u) then a >= 0 && a >= b
    else a >= b
  }

  function CompareValues(t: IntType, a: int, u: IntType, b: int): Result {
    if Greater(t, a, u, b) then Higher else if !GreaterOrEqual(t, a, u, b) then Lower else Equal
  }

  /** The loop over two arrays from position `i` on.  The end of the first array is looked for with the end
      of the second one. */
  function CompareItems(t: IntType, a: seq<int>, u: IntType, b: seq<int>, i: nat): Result
    requires i <= |a| && i <= |b|
    decreases |a| - i
  {
    if i == |a| && i == |b| then Sign(Code(t), Code(u))
    else if i == |b| then Higher
    else if i == |a| then PastEnd
    else if CompareValues(t, a[i], u, b[i]) != Equal then CompareValues(t, a[i], u, b[i])
    else CompareItems(t, a, u, b, i + 1)
  }

  function Compare(x: Key, y: Key): Result {
    if ClassOf(x) != ClassOf(y) then Sign(ClassOf(x), ClassOf(y))
    else
      match x
      case Null => Equal
      case Number(t, a) =>
        if CompareValues(t, a, y.t, y.value) != Equal then CompareValues(t, a, y.t, y.value)
            else Sign(Code(t), Code(y.t))
      case Array(t, a) => CompareItems(t, a, y.t, y.items, 0)
  }

  method GetCompare(x: Key, y: Key) returns (r: Result)
    ensures r == Compare(x, y)
  {
    if ClassOf(x) > ClassOf(y) { return Higher; }
    if ClassOf(x) < ClassOf(y) { return Lower; }
    match x {
      case Null => return Equal;
      case Number(t, a) =>
        if Greater(t, a, y.t, y.value) { return Higher; }
        if !GreaterOrEqual(t, a, y.t, y.value) { return Lower; }
        return Sign(Code(t), Code(y.t));
      case Array(t, a) =>
        var b := y.items;
        var it := 0;
        while true
          invariant it <= |a| && it <= |b|
          invariant CompareItems(t, a, y.t, b, it) == CompareItems(t, a, y.t, b, 0)
          decreases |a| - it
        {
          if it == |a| && it == |b| { return Sign(Code(t), Code(y.t)); }
          if it == |b| { return Higher; }
          if it == |a| { return PastEnd; }
          if Greater(t, a[it], y.t, b[it]) { return Higher; }
          if !GreaterOrEqual(t, a[it], y.t, b[it]) { return Lower; }
          it := it + 1;
        }
    }
  }

  // ---------------------------------------------------------------------------------- as intended

  /** Lexicographic; a proper prefix is lower. */
  function OrderItems(t: IntType, a: seq<int>, u: IntType, b: seq<int>, i: nat): Result
    requires i <= |a| && i <= |b|
    decreases |a| - i
  {
    if i == |a| && i == |b| then Sign(Code(t), Code(u))
    else if i == |b| then Higher
    else if i == |a| then Lower
    else if a[i] != b[i] then Sign(a[i], b[i])
    else OrderItems(t, a, u, b, i + 1)
  }

  function Order(x: Key, y: Key): Result {
    if ClassOf(x) != ClassOf(y) then Sign(ClassOf(x), ClassOf(y))
    else
      match x
      case Null => Equal
      case Number(t, a) => if a != y.value then Sign(a, y.value) else Sign(Code(t), Code(y.t))
      case Array(t, a) => OrderItems(t, a, y.t, y.items, 0)
  }

  function Flip(r: Result): Result {
    match r
    case Lower => Higher
    case Higher => Lower
    case _ => r
  }

  lemma {:induction false} ItemsSwap(t: IntType, a: seq<int>, u: IntType, b: seq<int>, i: nat)
    requires i <= |a| && i <= |b|
    ensures OrderItems(u, b, t, a, i) == Flip(OrderItems(t, a, u, b, i))
    decreases |a| - i
  {
    if i < |a| && i < |b| && a[i] == b[i] {
      ItemsSwap(t, a, u, b, i + 1);
    }
  }

  lemma {:induction false} ItemsEqual(t: IntType, a: seq<int>, u: IntType, b: seq<int>, i: nat)
    requires i <= |a| && i <= |b| && a[..i] == b[..i]
    ensures OrderItems(t, a, u, b, i) != PastEnd
    ensures OrderItems(t, a, u, b, i) == Equal <==> t == u && a == b
    decreases |a| - i
  {
    if i < |a| && i < |b| && a[i] == b[i] {
      assert a[..i + 1] == a[..i] + [a[i]] && b[..i + 1] == b[..i] + [b[i]];
      ItemsEqual(t, a, u, b, i + 1);
    } else if i == |a| && i == |b| {
      assert a == a[..i] && b == b[..i];
    }
  }

  lemma {:induction false} ItemsTransitive(t: IntType, a: seq<int>, u: IntType, b: seq<int>, v: IntType, c: seq<int>,
                                           i: nat)
    requires i <= |a| && i <= |b| && i <= |c|
    requires OrderItems(t, a, u, b, i) == Lower && OrderItems(u, b, v, c, i) == Lower
    ensures OrderItems(t, a, v, c, i) == Lower
    decreases |a| - i
  {
    if i < |a| && i < |b| && i < |c| && a[i] == b[i] == c[i] {
      ItemsTransitive(t, a, u, b, v, c, i + 1);
    }
  }

  /** The intended order is a total order on all keys: it never fails, it is antisymmetric and transitive,
      and keys are equal in it only if type and content coincide. */
  lemma {:induction false} TotalOrder(x: Key, y: Key, z: Key)
    ensures Order(x, y) != PastEnd && Order(y, x) == Flip(Order(x, y))
    ensures Order(x, y) == Equal <==> x == y
    ensures Order(x, y) == Lower && Order(y, z) == Lower ==> Order(x, z) == Lower
  {
    if x.Array? && y.Array? {
      ItemsSwap(x.t, x.items, y.t, y.items, 0);
      ItemsEqual(x.t, x.items, y.t, y.items, 0);
      if z.Array? && OrderItems(x.t, x.items, y.t, y.items, 0) == Lower
          && OrderItems(y.t, y.items, z.t, z.items, 0) == Lower {
        ItemsTransitive(x.t, x.items, y.t, y.items, z.t, z.items, 0);
      }
    }
  }

  // ---------------------------------------------------------------------------- when they agree

  /** An unsigned value is compared with a negative one. */
  predicate Crossing(t: IntType, u: IntType, b: int) {
    !Signed(t) && Signed(u) && b < 0
  }

  /** Up to the first difference no unsigned item meets a negative one, and the first array is not
      exhausted before the second. */
  predicate ItemsSound(t: IntType, a: seq<int>, u: IntType, b: seq<int>, i: nat)
    requires i <= |a| && i <= |b|
    decreases |a| - i
  {
    if i == |b| then true
    else if i == |a| then false
    else !Crossing(t, u, b[i]) && (a[i] == b[i] ==> ItemsSound(t, a, u, b, i + 1))
  }

  predicate Sound(x: Key, y: Key) {
    ClassOf(x) == ClassOf(y) ==>
      match x
      case Null => true
      case Number(t, _) => !Crossing(t, y.t, y.value)
      case Array(t, a) => ItemsSound(t, a, y.t, y.items, 0)
  }

  lemma {:induction false} ValuesExact(t: IntType, a: int, u: IntType, b: int)
    requires InRange(t, a) && InRange(u, b)
    ensures CompareValues(t, a, u, b) == Sign(a, b) <==> !Crossing(t, u, b)
  {
  }

  lemma {:induction false} ItemsExact(t: IntType, a: seq<int>, u: IntType, b: seq<int>, i: nat)
    requires i <= |a| && i <= |b|
    requires (forall v | v in a :: InRange(t, v)) && forall v | v in b :: InRange(u, v)
    ensures CompareItems(t, a, u, b, i) == OrderItems(t, a, u, b, i) <==> ItemsSound(t, a, u, b, i)
    decreases |a| - i
  {
    if i < |a| && i < |b| {
      assert a[i] in a && b[i] in b;
      ValuesExact(t, a[i], u, b[i]);
      if a[i] == b[i] {
        ItemsExact(t, a, u, b, i + 1);
      }
    }
  }

  /** Exactly when the comparison, as written, gives the intended order. */
  lemma {:induction false} CompareExact(x: Key, y: Key)
    requires Valid(x) && Valid(y)
    ensures Compare(x, y) == Order(x, y) <==> Sound(x, y)
  {
    if ClassOf(x) == ClassOf(y) {
      match x
      case Null =>
      case Number(t, a) => ValuesExact(t, a, y.t, y.value);
      case Array(t, a) => ItemsExact(t, a, y.t, y.items, 0);
    }
  }

  /** An unsigned number and a negative one are each lower than the other. */
  lemma {:induction false} BothLower(x: Key, y: Key)
    requires x.Number? && y.Number? && Valid(x) && Valid(y) && !Signed(x.t) && y.value < 0
    ensures Compare(x, y) == Lower && Compare(y, x) == Lower
  {
    assert Signed(y.t);
  }

  /** Keys of one signedness, none of which is a proper prefix of the other, are ordered as intended. */
  lemma {:induction false} SameSignSound(x: Key, y: Key)
    requires ClassOf(x) == ClassOf(y) && !x.Null? && (Signed(x.t) || !Signed(y.t))
    requires x.Array? ==> !(x.items < y.items)
    ensures Sound(x, y)
  {
    if x.Array? {
      PrefixSound(x.t, x.items, y.t, y.items, 0);
    }
  }

  lemma {:induction false} PrefixSound(t: IntType, a: seq<int>, u: IntType, b: seq<int>, i: nat)
    requires i <= |a| && i <= |b| && a[..i] == b[..i] && (Signed(t) || !Signed(u)) && !(a < b)
    ensures ItemsSound(t, a, u, b, i)
    decreases |a| - i
  {
    if i == |a| {
      assert a == a[..i];
    } else if i < |b| && a[i] == b[i] {
      assert a[..i + 1] == a[..i] + [a[i]] && b[..i + 1] == b[..i] + [b[i]];
      PrefixSound(t, a, u, b, i + 1);
    }
  }

  // ------------------------------------------------------------------------ the order, told in full

  /** The types in the order in which they break ties between equal values. */
  function Types(): seq<IntType> {
    [Bool, UI8, SI8, UI16, SI16, UI32, SI32, UI64, SI64]
  }

  /** The values of each type, and so which types are signed. */
  lemma {:induction false} RangeIs(t: IntType, v: int)
    ensures InRange(t, v) <==>
              match t
              case Bool => 0 <= v <= 1
              case UI8 => 0 <= v <= 255
              case SI8 => -128 <= v <= 127
              case UI16 => 0 <= v <= 65535
              case SI16 => -32768 <= v <= 32767
              case UI32 => 0 <= v <= 4294967295
              case SI32 => -2147483648 <= v <= 2147483647
              case UI64 => 0 <= v <= 18446744073709551615
              case SI64 => -9223372036854775808 <= v <= 9223372036854775807
    ensures Signed(t) <==> InRange(t, -1)
    ensures Valid(Null) && (Valid(Number(t, v)) <==> InRange(t, v)) && (Valid(Array(t, [v])) <==> InRange(t, v))
  {
    assert v in [v];
  }

  predicate IsBits(k: Key) {
    k.Array? && k.t == Bool
  }

  /** Null is below all other keys, numbers are below arrays, and bit arrays are below other arrays. */
  lemma {:induction false} KindsOrder(x: Key, y: Key)
    ensures x.Null? && !y.Null? ==> Compare(x, y) == Lower && Compare(y, x) == Higher
    ensures x.Number? && y.Array? ==> Compare(x, y) == Lower && Compare(y, x) == Higher
    ensures IsBits(x) && y.Array? && !IsBits(y) ==> Compare(x, y) == Lower && Compare(y, x) == Higher
    ensures x.Null? && y.Null? ==> Compare(x, y) == Equal
  {
  }

  /** A greater number is higher, whatever the types, unless an unsigned one meets a negative one. */
  lemma {:induction false} NumbersOrder(x: Key, y: Key)
    requires x.Number? && y.Number? && Valid(x) && Valid(y) && (InRange(x.t, -1) || y.value >= 0)
    ensures x.value < y.value ==> Compare(x, y) == Lower
    ensures x.value > y.value ==> Compare(x, y) == Higher
  {
  }

  /** Equal numbers and equal arrays are ordered by their types. */
  lemma {:induction false} TiesOrder(i: nat, j: nat, v: int, items: seq<int>)
    requires i < |Types()| && j < |Types()|
    requires InRange(Types()[i], v) && InRange(Types()[j], v)
    requires forall w | w in items :: InRange(Types()[i], w) && InRange(Types()[j], w)
    ensures Compare(Number(Types()[i], v), Number(Types()[j], v)) == Sign(i, j)
    ensures Compare(Array(Types()[i], items), Array(Types()[j], items)) == Sign(i, j)
  {
    SameItems(Types()[i], Types()[j], items, 0);
  }

  lemma {:induction false} SameItems(t: IntType, u: IntType, items: seq<int>, k: nat)
    requires k <= |items| && forall w | w in items :: InRange(t, w) && InRange(u, w)
    ensures CompareItems(t, items, u, items, k) == Sign(Code(t), Code(u))
    decreases |items| - k
  {
    if k < |items| {
      assert items[k] in items;
      SameItems(t, u, items, k + 1);
    }
  }

  /** The first difference decides between two arrays of one kind, and a proper prefix is lower than the array, but only
      if the array comes first. */
  lemma {:induction false} ArraysOrder(x: Key, y: Key, k: nat)
    requires x.Array? && y.Array? && (IsBits(x) <==> IsBits(y)) && Valid(x) && Valid(y)
    requires k <= |x.items| && k <= |y.items| && x.items[..k] == y.items[..k]
    requires InRange(x.t, -1) || forall w | w in y.items :: w >= 0
    ensures k < |x.items| && k < |y.items| && x.items[k] != y.items[k] ==> Compare(x, y) == Sign(x.items[k], y.items[k])
    ensures k < |x.items| && k == |y.items| ==> Compare(x, y) == Higher
    ensures k == |x.items| && k < |y.items| ==> Compare(x, y) == PastEnd
  {
    SkipSame(x.t, x.items, y.t, y.items, 0, k);
    if k < |x.items| && k < |y.items| {
      assert x.items[k] in x.items && y.items[k] in y.items;
    }
  }

  lemma {:induction false} SkipSame(t: IntType, a: seq<int>, u: IntType, b: seq<int>, i: nat, k: nat)
    requires i <= k <= |a| && k <= |b| && a[..k] == b[..k]
    requires (forall v | v in a :: InRange(t, v)) && forall v | v in b :: InRange(u, v)
    ensures CompareItems(t, a, u, b, i) == CompareItems(t, a, u, b, k)
    decreases k - i
  {
    if i < k {
      assert a[i] == a[..k][i] == b[..k][i] == b[i];
      assert a[i] in a && b[i] in b;
      SkipSame(t, a, u, b, i + 1, k);
    }
  }
}
