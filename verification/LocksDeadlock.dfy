/**
  Why a transaction should begin empty-handed: `tryLock` on a mutex that the thread already holds
  shared gives that up and waits, with the mutexes taken so far in its hands.
 */
module LocksDeadlock {
  import opened Collections
  import opened Locks
  import opened LocksSafety
  import opened LocksTransactions

  const EMPTY := Cell(Unlocked, Counters(0, 0, 0), Live(0, 0, 0))
  const SHARED := Cell(SharedLocked, Counters(1, 1, 0), Live(0, 1, 0))
  const UNIQUE := Cell(UniqueLocked, Counters(1, 0, 1), Live(0, 0, 1))
  const WAITING := Cell(Unlocked, Counters(2, 1, 0), Live(0, 1, 0))

  /** Two threads at two mutexes; nobody else does anything. */
  ghost predicate Shape(s: State, c00: Cell, c01: Cell, c10: Cell, c11: Cell) {
    && !s.misused
    && s.cell(0, 0) == c00 && s.cell(0, 1) == c01 && s.cell(1, 0) == c10 && s.cell(1, 1) == c11
    && forall t: Thread, m: Mutex | t > 1 || m > 1 :: s.cell(t, m) == EMPTY
  }

  function Start(): State {
    State((t: Thread, m: Mutex) => EMPTY, (t: Thread) => Idle, false)
  }

  lemma {:induction false} ReadBoth(s: State) returns (r: State, q: State)
    requires Shape(s, EMPTY, EMPTY, EMPTY, EMPTY) && s.task(0) == Idle && s.task(1) == Idle
    ensures Step(s, 0, Create(1, SharedLocked)) == Some(r) && Step(r, 1, Create(1, SharedLocked)) == Some(q)
    ensures Shape(q, EMPTY, SHARED, EMPTY, SHARED) && q.task(0) == Idle && q.task(1) == Idle
  {
    assert Look(s, 1).open;
    assert Make(s.cell(0, 1), SharedLocked, Look(s, 1)) == Done(SHARED);
    r := Put(s, 0, 1, SHARED, Idle);
    assert Shape(r, EMPTY, SHARED, EMPTY, EMPTY);
    assert Look(r, 1).open;
    assert Make(r.cell(1, 1), SharedLocked, Look(r, 1)) == Done(SHARED);
    q := Put(r, 1, 1, SHARED, Idle);
  }

  lemma {:induction false} BeginBoth(s: State) returns (r: State, q: State)
    requires Shape(s, EMPTY, SHARED, EMPTY, SHARED) && s.task(0) == Idle && s.task(1) == Idle
    ensures Step(s, 0, Begin([0, 1], UniqueLocked)) == Some(r) && Step(r, 1, Begin([0, 1], UniqueLocked)) == Some(q)
    ensures Shape(q, EMPTY, SHARED, EMPTY, SHARED)
    ensures q.task(0).Take? && q.task(0).kind == UniqueLocked && q.task(0).mutexes == [0, 1] && q.task(0).n == 0
    ensures q.task(1).Take? && q.task(1).kind == UniqueLocked && q.task(1).mutexes == [0, 1] && q.task(1).n == 0
  {
    r := Step(s, 0, Begin([0, 1], UniqueLocked)).value;
    q := Step(r, 1, Begin([0, 1], UniqueLocked)).value;
  }

  lemma {:induction false} TakeAndGiveUp(s: State) returns (r: State, q: State)
    requires Shape(s, EMPTY, SHARED, EMPTY, SHARED)
    requires s.task(0).Take? && s.task(0).kind == UniqueLocked && s.task(0).mutexes == [0, 1] && s.task(0).n == 0
    ensures Step(s, 0, Continue(true)) == Some(r) && Step(r, 0, Continue(true)) == Some(q)
    ensures Shape(q, UNIQUE, WAITING, EMPTY, SHARED)
    ensures q.task(0).Upgrade? && q.task(0).m == 1 && q.task(1) == s.task(1)
  {
    var k := s.task(0);
    assert Look(s, 0).free;
    assert Make(s.cell(0, 0), UniqueLocked, Look(s, 0)) == Done(UNIQUE);
    r := Put(s, 0, 0, UNIQUE, Take(k.kind, k.mutexes, 1, k.base));
    assert Shape(r, UNIQUE, SHARED, EMPTY, SHARED);
    assert Try(r.cell(0, 1), UniqueLocked, Look(r, 1), true) == Gap(WAITING);
    q := Put(r, 0, 1, WAITING, Upgrade(1, Take(k.kind, k.mutexes, 2, k.base)));
  }

  lemma {:induction false} FirstWaits(s: State, plan: Plan)
    requires Shape(s, UNIQUE, WAITING, EMPTY, SHARED)
    requires s.task(0).Upgrade? && s.task(0).m == 1
    ensures WaitsFor(s, plan, 0, 1, 1)
  {
    assert !Look(s, 1).free by { assert s.cell(1, 1).held != Unlocked; }
    assert FinishMake(s.cell(0, 1), Look(s, 1)) == Blocked;
    assert Step(s, 0, Continue(true)).None?;
  }

  lemma {:induction false} SecondWaits(s: State, plan: Plan)
    requires Shape(s, UNIQUE, WAITING, EMPTY, SHARED)
    requires s.task(1).Take? && s.task(1).kind == UniqueLocked && s.task(1).mutexes == [0, 1] && s.task(1).n == 0
    ensures WaitsFor(s, plan, 1, 0, 0)
  {
    assert !Look(s, 0).free by { assert s.cell(0, 0).held != Unlocked; }
    assert Make(s.cell(1, 0), UniqueLocked, Look(s, 0)) == Blocked;
    assert Step(s, 1, Continue(true)).None?;
  }

  lemma {:induction false} SixSteps(run: seq<State>, threads: seq<Thread>, actions: seq<Action>)
    requires |run| == 7 && |threads| == |actions| == 6 && Initial(run[0])
    requires Step(run[0], threads[0], actions[0]) == Some(run[1])
    requires Step(run[1], threads[1], actions[1]) == Some(run[2])
    requires Step(run[2], threads[2], actions[2]) == Some(run[3])
    requires Step(run[3], threads[3], actions[3]) == Some(run[4])
    requires Step(run[4], threads[4], actions[4]) == Some(run[5])
    requires Step(run[5], threads[5], actions[5]) == Some(run[6])
    ensures IsRun(run, threads, actions)
  {
    forall i | 0 <= i < 6 ensures Step(run[i], threads[i], actions[i]) == Some(run[i + 1]) {
      assert i == 0 || i == 1 || i == 2 || i == 3 || i == 4 || i == 5;
    }
  }

  /** Two threads that read the second mutex and begin a transaction on both end up waiting for each
      other. */
  lemma {:induction false} Deadlock(plan: Plan) returns (run: seq<State>, threads: seq<Thread>, actions: seq<Action>)
    ensures IsRun(run, threads, actions) && run != []
    ensures var s := run[|run| - 1]; WaitsFor(s, plan, 0, 1, 1) && WaitsFor(s, plan, 1, 0, 0)
  {
    var s0 := Start();
    var s1, s2 := ReadBoth(s0);
    var s3, s4 := BeginBoth(s2);
    var s5, s6 := TakeAndGiveUp(s4);
    run := [s0, s1, s2, s3, s4, s5, s6];
    threads := [0, 1, 0, 1, 0, 0];
    actions := [Create(1, SharedLocked), Create(1, SharedLocked), Begin([0, 1], UniqueLocked),
                Begin([0, 1], UniqueLocked),
                Continue(true), Continue(true)];
    SixSteps(run, threads, actions);
    FirstWaits(s6, plan);
    SecondWaits(s6, plan);
  }
}
