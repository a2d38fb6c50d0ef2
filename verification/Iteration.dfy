/** Repeating one step, for any state type. */
module Iteration {

  function Iterate<S>(f: S -> S, s: S, n: nat): S
    decreases n
  {
    if n == 0 then s else Iterate(f, f(s), n - 1)
  }

  lemma {:induction false} IterateAdd<S>(f: S -> S, s: S, m: nat, n: nat)
    ensures Iterate(f, s, m + n) == Iterate(f, Iterate(f, s, m), n)
    decreases m
  {
    if m > 0 {
      IterateAdd(f, f(s), m - 1, n);
    }
  }

  lemma {:induction false} IterateLast<S>(f: S -> S, s: S, n: nat)
    ensures Iterate(f, s, n + 1) == f(Iterate(f, s, n))
  {
    IterateAdd(f, s, n, 1);
    assert Iterate(f, f(Iterate(f, s, n)), 0) == f(Iterate(f, s, n));
  }

  lemma {:induction false} IterateAfter<S>(f: S -> S, s: S, k: nat, n: nat)
    requires k < n
    ensures Iterate(f, s, n) == Iterate(f, f(Iterate(f, s, k)), n - k - 1)
  {
    IterateAdd(f, s, k, n - k);
  }

  /** A property kept by every step holds after any number of steps. */
  lemma {:induction false} IterateKeeps<S(!new)>(f: S -> S, ok: S -> bool, s: S, n: nat)
    requires ok(s) && forall x | ok(x) :: ok(f(x))
    ensures ok(Iterate(f, s, n))
    decreases n
  {
    if n > 0 {
      IterateKeeps(f, ok, f(s), n - 1);
    }
  }

  /** Steps that lower a measure until the state is done reach a state that is done. */
  lemma {:induction false} IterateEnds<S(!new)>(f: S -> S, ok: S -> bool, done: S -> bool, w: S -> nat, s: S)
    returns (n: nat)
    requires ok(s) && forall x | ok(x) && !done(x) :: ok(f(x)) && w(f(x)) < w(x)
    ensures ok(Iterate(f, s, n)) && done(Iterate(f, s, n))
    decreases w(s)
  {
    n := 0;
    if !done(s) {
      var k := IterateEnds(f, ok, done, w, f(s));
      n := k + 1;
    }
  }
}
