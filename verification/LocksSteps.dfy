/**
  What every step does to the thread that takes it, and what a whole transaction amounts to.
 */
module LocksSteps {
  import opened Collections
  import opened Locks
  import opened LocksSafety
  import opened LocksTransactions

  // ------------------------------------------------------------------------------- lock by lock

  /** One lock of the kind more, and the others as before. */
  predicate OneMore(v: Live, w: Live, kind: Mode) {
    && w.idle == v.idle + (if kind == Unlocked then 1 else 0)
    && w.shared == v.shared + (if kind == SharedLocked then 1 else 0)
    && w.unique == v.unique + (if kind == UniqueLocked then 1 else 0)
  }

  /** A thread with shared locks alone gives up the mutex to make a unique one. */
  predicate ChangesUp(v: Live, kind: Mode) {
    kind == UniqueLocked && v.unique == 0 && v.shared > 0
  }

  /** A thread gives up its last unique lock and has shared ones left. */
  predicate ChangesDown(v: Live, kind: Mode) {
    kind == UniqueLocked && v.unique == 1 && v.shared > 0
  }

  /** The mutex cannot be had in the mode asked for, by a thread that has no lock on it. */
  ghost predicate Taken(s: State, m: Mutex, kind: Mode) {
    || (kind == UniqueLocked && exists a :: s.cell(a, m).held != Unlocked)
    || (kind == SharedLocked && exists a :: s.cell(a, m).held == UniqueLocked)
  }

  predicate NoLock(v: Live) {
    v.shared == 0 && v.unique == 0
  }

  /** The thread has only changed at one mutex. */
  ghost predicate Only(s: State, r: State, t: Thread, m: Mutex) {
    forall x: Mutex | x != m :: r.cell(t, x) == s.cell(t, x)
  }

  /** A lock is made: the thread waits, or goes through the gap, or has one lock more. */
  lemma {:induction false} CreateExact(s: State, t: Thread, m: Mutex, kind: Mode)
    requires Safe(s) && s.task(t) == Idle
    ensures var v, r := s.cell(t, m).live, Step(s, t, Create(m, kind));
            && (r.None? <==> NoLock(v) && Taken(s, m, kind))
            && (r.Some? ==>
                 && Only(s, r.value, t, m)
                 && if ChangesUp(v, kind) then r.value.task(t) == Upgrade(m, Idle) && r.value.cell(t, m).live == v
                    else r.value.task(t) == Idle && OneMore(v, r.value.cell(t, m).live, kind))
  {
    assert CellOk(s.cell(t, m), InGap(s.task(t), m));
    MakeOk(s.cell(t, m), kind, Look(s, m));
  }

  /** A lock is destroyed: the thread has one lock less, if it had it, and may have to go through the gap. */
  lemma {:induction false} DeleteExact(s: State, t: Thread, m: Mutex, kind: Mode)
    requires Safe(s) && s.task(t) == Idle
    ensures var v, r := s.cell(t, m).live, Step(s, t, Delete(m, kind));
            && (r.None? <==> if kind == Unlocked then v.idle == 0
                             else if kind == SharedLocked then v.shared == 0 else v.unique == 0)
            && (r.Some? ==>
                 && Only(s, r.value, t, m) && OneMore(r.value.cell(t, m).live, v, kind)
                 && r.value.task(t) == if ChangesDown(v, kind) then Downgrade(m, Idle) else Idle)
  {
    assert CellOk(s.cell(t, m), InGap(s.task(t), m));
    if Count(s.cell(t, m).live, kind) > 0 {
      DestroyOk(s.cell(t, m), kind, Look(s, m));
    }
  }

  /** Behind the gaps, the thread waits for the mode that it needs and gets it. */
  lemma {:induction false} GapExact(s: State, t: Thread, lucky: bool)
    requires Safe(s) && (s.task(t).Upgrade? || s.task(t).Downgrade?)
    ensures var k, r := s.task(t), Step(s, t, Continue(lucky));
            && (r.None? <==> Taken(s, k.m, if k.Upgrade? then UniqueLocked else SharedLocked))
            && (r.Some? ==>
                 && Only(s, r.value, t, k.m) && r.value.task(t) == k.next
                 && r.value.cell(t, k.m).held == (if k.Upgrade? then UniqueLocked else SharedLocked)
                 && if k.Upgrade? then OneMore(s.cell(t, k.m).live, r.value.cell(t, k.m).live, UniqueLocked)
                    else r.value.cell(t, k.m).live == s.cell(t, k.m).live)
  {
    var k := s.task(t);
    assert CellOk(s.cell(t, k.m), InGap(k, k.m));
    if k.Upgrade? {
      FinishMakeOk(s.cell(t, k.m), Look(s, k.m));
    } else {
      FinishDestroyOk(s.cell(t, k.m), Look(s, k.m));
    }
  }

  /** A lock on the mutex, of either kind. */
  predicate HasLock(c: Cell) {
    c.live.shared > 0 || c.live.unique > 0
  }

  /** A thread that has a lock on a mutex before and after a step holds the mutex after it, unless the step is its own
      and changes its mode there through the gap. */
  lemma {:induction false} StaysHeld(s: State, t: Thread, a: Action, u: Thread, m: Mutex)
    requires Safe(s) && Step(s, t, a).Some? && s.cell(u, m).held != Unlocked
    requires HasLock(s.cell(u, m)) && HasLock(Step(s, t, a).value.cell(u, m))
    ensures var r := Step(s, t, a).value;
            r.cell(u, m).held == Unlocked ==>
              && u == t && InGap(r.task(t), m) && s.cell(t, m).live.shared > 0
              && if r.task(t).Upgrade? then s.cell(t, m).live.unique == 0
                 else s.cell(t, m).live.unique == 1 && r.cell(t, m).live.unique == 0
  {
    var r := Step(s, t, a).value;
    StepSafe(s, t, a);
    StepLocal(s, t, a);
    assert CellOk(s.cell(u, m), InGap(s.task(u), m)) && CellOk(r.cell(u, m), InGap(r.task(u), m));
    if u == t && r.cell(t, m).held == Unlocked {
      GapBegins(s, t, a, m);
    }
  }

  /** How a thread comes into a gap. */
  lemma {:induction false} GapBegins(s: State, t: Thread, a: Action, m: Mutex)
    requires Safe(s) && Step(s, t, a).Some? && InGap(Step(s, t, a).value.task(t), m) && !InGap(s.task(t), m)
    ensures var r := Step(s, t, a).value;
            && s.cell(t, m).live.shared > 0
            && if r.task(t).Upgrade? then s.cell(t, m).live.unique == 0
               else s.cell(t, m).live.unique == 1 && r.cell(t, m).live.unique == 0
  {
    var k := s.task(t);
    assert TaskOk(k);
    match a
    case Create(x, kind) => CreateExact(s, t, x, kind);
    case Delete(x, kind) => DeleteExact(s, t, x, kind);
    case Begin(_, _) =>
    case Continue(lucky) =>
      match k
      case Take(kind, ms, n, _) =>
        if n < |ms| {
          TakeExact(s, t, lucky);
        }
      case Undo(kind, ms, n, _) =>
        if n > 0 {
          UndoExact(s, t, lucky);
        }
      case _ => GapExact(s, t, lucky);
  }

  // -------------------------------------------------------------------------------- transactions

  /** The constructor begins with what the thread has; an empty set and no lock asked for are through at once. */
  lemma {:induction false} BeginExact(s: State, t: Thread, ms: seq<Mutex>, kind: Mode)
    requires s.task(t) == Idle
    ensures var r := Step(s, t, Begin(ms, kind));
            && (r.Some? <==> Ascending(ms))
            && (r.Some? ==>
                 && (forall m: Mutex :: r.value.cell(t, m) == s.cell(t, m))
                 && if ms == [] || kind == Unlocked then r.value == s
                    else
                      && Inside(r.value.task(t), kind, ms, r.value.task(t).base) && r.value.task(t).Take?
                      && r.value.task(t).n == 0 && forall m: Mutex :: r.value.task(t).base(m) == s.cell(t, m).live)
  {
  }

  /** The next mutex of the set: the first one is waited for, and any other one is only tried; if the attempt fails,
      those taken so far are given back. */
  lemma {:induction false} TakeExact(s: State, t: Thread, lucky: bool)
    requires Safe(s) && s.task(t).Take? && s.task(t).n < |s.task(t).mutexes|
    ensures var k := s.task(t);
            var m := k.mutexes[k.n];
            var v, r := s.cell(t, m).live, Step(s, t, Continue(lucky));
            var failed := NoLock(v) && (Taken(s, m, k.kind) || (k.n > 0 && !lucky && k.kind != Unlocked));
            && (r.None? <==> k.n == 0 && failed)
            && (r.Some? ==>
                 && Only(s, r.value, t, m)
                 && if failed then r.value.task(t) == Undo(k.kind, k.mutexes, k.n, k.base) && r.value.cell(t, m)
                    == s.cell(t, m)
                    else if ChangesUp(v, k.kind) then
                      && r.value.task(t) == Upgrade(m, Take(k.kind, k.mutexes, k.n + 1, k.base))
                      && r.value.cell(t, m).live == v
                    else
                      && r.value.task(t) == Take(k.kind, k.mutexes, k.n + 1, k.base)
                      && OneMore(v, r.value.cell(t, m).live, k.kind))
  {
    var k := s.task(t);
    var m := k.mutexes[k.n];
    assert CellOk(s.cell(t, m), InGap(k, m));
    MakeOk(s.cell(t, m), k.kind, Look(s, m));
    TryOk(s.cell(t, m), k.kind, Look(s, m), lucky);
  }

  /** Behind the last mutex, the constructor is through. */
  lemma {:induction false} ThroughExact(s: State, t: Thread, lucky: bool)
    requires s.task(t).Take? && s.task(t).n >= |s.task(t).mutexes|
    ensures var r := Step(s, t, Continue(lucky));
            r.Some? && r.value.task(t) == Idle && forall m: Mutex :: r.value.cell(t, m) == s.cell(t, m)
  {
  }

  /** The mutexes taken are given back from the last one to the first; then the next round begins. */
  lemma {:induction false} UndoExact(s: State, t: Thread, lucky: bool)
    requires Safe(s) && s.task(t).Undo? && 0 < s.task(t).n
    ensures var k, r := s.task(t), Step(s, t, Continue(lucky));
            r.Some? ==>
              && k.n <= |k.mutexes|
              && var m := k.mutexes[k.n - 1];
                 && Only(s, r.value, t, m) && OneMore(r.value.cell(t, m).live, s.cell(t, m).live, k.kind)
                 && var rest := Undo(k.kind, k.mutexes, k.n - 1, k.base);
                    r.value.task(t) == if ChangesDown(s.cell(t, m).live, k.kind) then Downgrade(m, rest) else rest
  {
    var k := s.task(t);
    if k.n <= |k.mutexes| && Count(s.cell(t, k.mutexes[k.n - 1]).live, k.kind) > 0 {
      var m := k.mutexes[k.n - 1];
      assert CellOk(s.cell(t, m), InGap(k, m));
      DestroyOk(s.cell(t, m), k.kind, Look(s, m));
    }
  }

  lemma {:induction false} AgainExact(s: State, t: Thread, lucky: bool)
    requires s.task(t).Undo? && s.task(t).n == 0
    ensures var k, r := s.task(t), Step(s, t, Continue(lucky));
            && r.Some? && r.value.task(t) == Take(k.kind, k.mutexes, 0, k.base)
            && forall m: Mutex :: r.value.cell(t, m) == s.cell(t, m)
  {
  }

  /** Turning back never waits. */
  lemma {:induction false} UndoGoesOn(s: State, t: Thread, lucky: bool)
    requires AllOk(s) && s.task(t).Undo?
    ensures Step(s, t, Continue(lucky)).Some?
  {
    var k := s.task(t);
    assert TransactionOk(s, t);
    if k.n > 0 {
      TakenOne(k.mutexes, k.n - 1);
      var m := k.mutexes[k.n - 1];
      assert CellOk(s.cell(t, m), InGap(k, m));
      DestroyOk(s.cell(t, m), k.kind, Look(s, m));
    }
  }

  /** The thread is inside the constructor for these mutexes, gaps included. */
  ghost predicate Inside(k: Task, kind: Mode, ms: seq<Mutex>, base: Mutex -> Live) {
    match k
    case Idle => false
    case Upgrade(_, next) => Inside(next, kind, ms, base)
    case Downgrade(_, next) => Inside(next, kind, ms, base)
    case Take(q, x, _, b) => q == kind && x == ms && b == base
    case Undo(q, x, _, b) => q == kind && x == ms && b == base
  }

  /** A step leaves the constructor only when it is through. */
  lemma {:induction false} InsideStays(s: State, t: Thread, a: Action, kind: Mode, ms: seq<Mutex>, base: Mutex -> Live)
    requires AllOk(s) && Step(s, t, a).Some? && Inside(s.task(t), kind, ms, base)
    ensures var k, r := s.task(t), Step(s, t, a).value;
            if k.Take? && k.n == |k.mutexes| then r.task(t) == Idle && forall m: Mutex :: r.cell(t, m) == s.cell(t, m)
            else Inside(r.task(t), kind, ms, base)
  {
    var k := s.task(t);
    assert TransactionOk(s, t);
    match k
    case Take(_, _, n, _) =>
      if n < |ms| {
        TakeExact(s, t, a.lucky);
      } else {
        ThroughExact(s, t, a.lucky);
      }
    case Undo(_, _, n, _) =>
      if n > 0 {
        UndoExact(s, t, a.lucky);
      } else {
        AgainExact(s, t, a.lucky);
      }
    case Upgrade(_, _) => GapExact(s, t, a.lucky);
    case Downgrade(_, _) => GapExact(s, t, a.lucky);
    case Idle =>
  }

  /** A thread that is idle has, of a mutex, what its live locks say. */
  lemma {:induction false} IdleCell(s: State, t: Thread, m: Mutex)
    requires Safe(s) && s.task(t) == Idle
    ensures var c := s.cell(t, m);
            && c.counters == Counters(c.live.idle + c.live.shared + c.live.unique, c.live.shared, c.live.unique)
            && (c.held == UniqueLocked <==> c.live.unique > 0)
            && (c.held == Unlocked <==> NoLock(c.live))
  {
    assert CellOk(s.cell(t, m), InGap(s.task(t), m));
    HeldIs(s.cell(t, m));
  }

  /** The thread begins a transaction at `i` and is idle next at `j`. */
  ghost predicate IsTransaction(run: seq<State>, threads: seq<Thread>, actions: seq<Action>, t: Thread, i: nat, j: nat)
    requires |run| == |threads| + 1 && |actions| == |threads|
  {
    && i < |threads| && i + 1 < j < |run| && threads[i] == t && actions[i].Begin?
    && actions[i].mutexes != [] && actions[i].kind != Unlocked
    && run[j].task(t) == Idle && forall k | i < k < j :: run[k].task(t) != Idle
  }

  /** Until then, it is inside the constructor. */
  lemma {:induction false} InsideUntil(run: seq<State>, threads: seq<Thread>, actions: seq<Action>, t: Thread, i: nat,
                                       j: nat, k: nat)
    requires IsRun(run, threads, actions) && IsTransaction(run, threads, actions, t, i, j) && i < k < j
    ensures run[i].task(t) == Idle
            && Inside(run[k].task(t), actions[i].kind, actions[i].mutexes, run[i + 1].task(t).base)
    ensures run[i + 1].task(t).Take? && forall m: Mutex :: run[i + 1].task(t).base(m) == run[i].cell(t, m).live
  {
    if k == i + 1 {
      assert Step(run[i], threads[i], actions[i]) == Some(run[k]);
      BeginExact(run[i], t, actions[i].mutexes, actions[i].kind);
    } else {
      InsideUntil(run, threads, actions, t, i, j, k - 1);
      StepInside(run, threads, actions, t, k - 1, actions[i].kind, actions[i].mutexes, run[i + 1].task(t).base);
    }
  }

  /** One step of a run seen from a thread inside the constructor, whoever takes it. */
  lemma {:induction false} StepInside(run: seq<State>, threads: seq<Thread>, actions: seq<Action>, t: Thread, k: nat,
                                      kind: Mode, ms: seq<Mutex>, base: Mutex -> Live)
    requires IsRun(run, threads, actions) && k < |threads| && Inside(run[k].task(t), kind, ms, base)
    ensures if run[k + 1].task(t) == Idle then
              && run[k].task(t) == Take(kind, ms, |ms|, base)
              && forall m: Mutex :: run[k + 1].cell(t, m) == run[k].cell(t, m)
            else Inside(run[k + 1].task(t), kind, ms, base)
  {
    RunOk(run, threads, actions, k);
    assert Step(run[k], threads[k], actions[k]) == Some(run[k + 1]);
    StepLocal(run[k], threads[k], actions[k]);
    if threads[k] == t {
      InsideStays(run[k], t, actions[k], kind, ms, base);
    }
  }

  /** All or nothing, over whole runs: a thread that begins a transaction and is idle again has one lock more on each
      mutex of the set, held in the mode asked for or a stronger one, and everything else as before. */
  lemma {:induction false} TransactionExact(run: seq<State>, threads: seq<Thread>, actions: seq<Action>, t: Thread,
                                            i: nat, j: nat, m: Mutex)
    requires IsRun(run, threads, actions) && IsTransaction(run, threads, actions, t, i, j)
    ensures var before, after, kind := run[i].cell(t, m), run[j].cell(t, m), actions[i].kind;
            if m !in actions[i].mutexes then after == before
            else
              && OneMore(before.live, after.live, kind)
              && (kind == UniqueLocked ==> after.held == UniqueLocked)
              && (kind == SharedLocked ==> after.held != Unlocked)
  {
    var base := LastStep(run, threads, actions, t, i, j, m);
    RunOk(run, threads, actions, j - 1);
    AllTaken(run[j - 1], t, m);
    if m !in actions[i].mutexes {
      SameLocks(run, threads, actions, t, i, j, m);
    }
  }

  /** The last step of a transaction comes behind the last mutex of its set. */
  lemma {:induction false} LastStep(run: seq<State>, threads: seq<Thread>, actions: seq<Action>, t: Thread, i: nat,
                                    j: nat, m: Mutex) returns (base: Mutex -> Live)
    requires IsRun(run, threads, actions) && IsTransaction(run, threads, actions, t, i, j)
    ensures run[j - 1].task(t) == Take(actions[i].kind, actions[i].mutexes, |actions[i].mutexes|, base)
    ensures base(m) == run[i].cell(t, m).live && run[j].cell(t, m) == run[j - 1].cell(t, m)
    ensures run[i].task(t) == Idle
  {
    base := run[i + 1].task(t).base;
    InsideUntil(run, threads, actions, t, i, j, j - 1);
    StepInside(run, threads, actions, t, j - 1, actions[i].kind, actions[i].mutexes, base);
  }

  lemma {:induction false} SameLocks(run: seq<State>, threads: seq<Thread>, actions: seq<Action>, t: Thread, i: nat,
                                     j: nat, m: Mutex)
    requires IsRun(run, threads, actions) && i < |run| && j < |run|
    requires run[i].task(t) == Idle && run[j].task(t) == Idle && run[i].cell(t, m).live == run[j].cell(t, m).live
    ensures run[i].cell(t, m) == run[j].cell(t, m)
  {
    RunSafe(run, threads, actions, i);
    RunSafe(run, threads, actions, j);
    IdleCell(run[i], t, m);
    IdleCell(run[j], t, m);
  }
}
