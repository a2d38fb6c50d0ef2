/**
  When keys can be seen as numbers: the trees and the indexes take a key for its rank, which is possible for exactly
  those sets of keys on which the written comparison is an order.
 */
module KeyRanks {
  import opened KeyOrder
  import Query
  import TableSearch

  /** The comparison of the keys is that of their ranks. */
  predicate Agrees(rank: map<Key, int>, keys: set<Key>)
    requires keys <= rank.Keys
  {
    forall x, y | x in keys && y in keys :: Compare(x, y) == Sign(rank[x], rank[y])
  }

  ghost predicate HasRanks(keys: set<Key>) {
    exists rank: map<Key, int> :: keys <= rank.Keys && Agrees(rank, keys)
  }

  predicate AllSound(keys: set<Key>) {
    forall x, y | x in keys && y in keys :: Sound(x, y)
  }

  function Below(keys: set<Key>, x: Key): set<Key> {
    set y | y in keys && Order(y, x) == Lower
  }

  function Ranks(keys: set<Key>): map<Key, int> {
    map x | x in keys :: |Below(keys, x)|
  }

  lemma {:induction false} Smaller<T>(a: set<T>, b: set<T>, x: T)
    requires a <= b && x in b && x !in a
    ensures |a| < |b|
  {
    Subset(a, b - {x});
  }

  lemma {:induction false} Subset<T>(a: set<T>, b: set<T>)
    requires a <= b
    ensures |a| <= |b|
  {
    if x :| x in a {
      Subset(a - {x}, b - {x});
    }
  }

  lemma {:induction false} LowerRank(keys: set<Key>, x: Key, y: Key)
    requires x in keys && y in keys && Order(x, y) == Lower
    ensures |Below(keys, x)| < |Below(keys, y)|
  {
    forall z | z in Below(keys, x) ensures z in Below(keys, y) {
      TotalOrder(z, x, y);
    }
    TotalOrder(x, x, x);
    Smaller(Below(keys, x), Below(keys, y), x);
  }

  lemma {:induction false} RanksOrder(keys: set<Key>, x: Key, y: Key)
    requires x in keys && y in keys
    ensures Order(x, y) == Sign(Ranks(keys)[x], Ranks(keys)[y])
  {
    TotalOrder(x, y, x);
    match Order(x, y)
    case Lower => LowerRank(keys, x, y);
    case Higher => LowerRank(keys, y, x);
    case _ =>
  }

  /** Where an unsigned item meets a negative one, both directions answer lower. */
  lemma {:induction false} UnsoundItems(t: IntType, a: seq<int>, u: IntType, b: seq<int>, i: nat)
    requires i <= |a| && i <= |b| && !ItemsSound(t, a, u, b, i)
    requires (forall v | v in a :: InRange(t, v)) && forall v | v in b :: InRange(u, v)
    ensures || CompareItems(t, a, u, b, i) == PastEnd
            || (CompareItems(t, a, u, b, i) == Lower && CompareItems(u, b, t, a, i) == Lower)
    decreases |a| - i
  {
    if i < |a| && i < |b| {
      assert a[i] in a && b[i] in b;
      if !Crossing(t, u, b[i]) {
        UnsoundItems(t, a, u, b, i + 1);
      }
    }
  }

  lemma {:induction false} Unsound(x: Key, y: Key)
    requires Valid(x) && Valid(y) && !Sound(x, y)
    ensures Compare(x, y) == PastEnd || (Compare(x, y) == Lower && Compare(y, x) == Lower)
  {
    if x.Array? {
      UnsoundItems(x.t, x.items, y.t, y.items, 0);
    } else {
      BothLower(x, y);
    }
  }

  /** Numbers that agree with the written comparison exist for exactly the sets of keys that are pairwise sound. */
  lemma {:induction false} RanksExact(keys: set<Key>)
    requires forall x | x in keys :: Valid(x)
    ensures HasRanks(keys) <==> AllSound(keys)
  {
    if AllSound(keys) {
      forall x, y | x in keys && y in keys ensures Compare(x, y) == Sign(Ranks(keys)[x], Ranks(keys)[y]) {
        CompareExact(x, y);
        RanksOrder(keys, x, y);
      }
      assert Agrees(Ranks(keys), keys);
    } else {
      var x, y :| x in keys && y in keys && !Sound(x, y);
      Unsound(x, y);
      forall rank: map<Key, int> | keys <= rank.Keys ensures !Agrees(rank, keys) {
        assert Compare(x, y) != Sign(rank[x], rank[y]) || Compare(y, x) != Sign(rank[y], rank[x]);
      }
    }
  }

  /** A key as the searches see it. */
  function SeenAs(rank: map<Key, int>, k: Key): Query.Value
    requires k in rank
  {
    if k.Null? then Query.Null else Query.Key(rank[k])
  }

  /** Ranks that agree with the written comparison put null first, so that the order of the searches, in which null is
      below everything else, is that of the comparison. */
  lemma {:induction false} SeenOrder(keys: set<Key>, rank: map<Key, int>, x: Key, y: Key)
    requires keys <= rank.Keys && Agrees(rank, keys) && x in keys && y in keys
    ensures x.Null? && !y.Null? ==> rank[x] < rank[y]
    ensures Compare(x, y) == Lower <==> TableSearch.Less(SeenAs(rank, x), SeenAs(rank, y))
    ensures Compare(x, y) == Higher <==> TableSearch.Less(SeenAs(rank, y), SeenAs(rank, x))
    ensures Compare(x, y) == Equal <==> SeenAs(rank, x) == SeenAs(rank, y)
  {
    KindsOrder(x, y);
    KindsOrder(y, x);
  }
}
