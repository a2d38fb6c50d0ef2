/**
  Safety of the recursive locks, over every interleaving.
 */
module LocksSafety {
  import opened Collections
  import opened Locks

  // ------------------------------------------------------------------------------------- one cell

  /** The counters equal the live locks of each kind and agree with the mode in which the thread holds
      the mutex; in a gap there is one wrapper more, and the thread holds nothing. */
  predicate CellOk(c: Cell, gap: bool) {
    && c.counters.shared == c.live.shared && c.counters.unique == c.live.unique
    && c.counters.wrappers == c.live.idle + c.live.shared + c.live.unique + (if gap then 1 else 0)
    && if gap then c.held == Unlocked && LockType(c.counters) == SharedLocked else c.held == LockType(c.counters)
  }

  /** A change of the held mode that the mutex allows. */
  predicate HeldOk(before: Mode, after: Mode, o: Around) {
    || after == before || after == Unlocked
    || (after == UniqueLocked && o.free) || (after == SharedLocked && o.open)
  }

  /** What an operation may do to a cell that was fine. */
  predicate OutcomeOk(c: Cell, r: Outcome, made: Live, o: Around) {
    match r
    case Blocked => true
    case Misuse => false
    case Done(d) => CellOk(d, false) && d.live == made && HeldOk(c.held, d.held, o)
    case Gap(d) => CellOk(d, true) && HeldOk(c.held, d.held, o)
    case Refused(d) => d == c
  }

  /** The mode in which a thread holds a mutex is that of its live locks. */
  lemma {:induction false} HeldIs(c: Cell)
    requires CellOk(c, false)
    ensures c.held == UniqueLocked <==> c.live.unique > 0
    ensures c.held == SharedLocked <==> c.live.unique == 0 && c.live.shared > 0
    ensures c.held == Unlocked <==> c.live.unique == 0 && c.live.shared == 0
  {
  }

  /** A thread without a lock waits for a mutex that it cannot have; only one with shared locks alone that makes a
      unique one goes through the gap. */
  lemma {:induction false} MakeOk(c: Cell, kind: Mode, o: Around)
    requires CellOk(c, false)
    ensures OutcomeOk(c, Make(c, kind, o), Made(c, kind).live, o)
    ensures Make(c, kind, o).Gap? <==> kind == UniqueLocked && c.live.unique == 0 && c.live.shared > 0
    ensures Make(c, kind, o).Gap? ==> Make(c, kind, o).cell.live == c.live
    ensures Make(c, kind, o).Blocked? <==>
              && c.live.unique == 0 && c.live.shared == 0
              && ((kind == UniqueLocked && !o.free) || (kind == SharedLocked && !o.open))
    ensures !Make(c, kind, o).Refused?
  {
  }

  lemma {:induction false} TryOk(c: Cell, kind: Mode, o: Around, lucky: bool)
    requires CellOk(c, false)
    ensures OutcomeOk(c, Try(c, kind, o, lucky), Made(c, kind).live, o)
    ensures Try(c, kind, o, lucky).Gap? <==> kind == UniqueLocked && c.live.unique == 0 && c.live.shared > 0
    ensures Try(c, kind, o, lucky).Gap? ==> Try(c, kind, o, lucky).cell.live == c.live
    ensures Try(c, kind, o, lucky).Refused? <==>
              && c.live.unique == 0 && c.live.shared == 0
              && ((kind == UniqueLocked && !(o.free && lucky)) || (kind == SharedLocked && !(o.open && lucky)))
    ensures !Try(c, kind, o, lucky).Blocked?
  {
  }

  lemma {:induction false} FinishMakeOk(c: Cell, o: Around)
    requires CellOk(c, true)
    ensures OutcomeOk(c, FinishMake(c, o), Made(c, UniqueLocked).live, o)
    ensures FinishMake(c, o).Blocked? <==> !o.free
    ensures !FinishMake(c, o).Gap? && !FinishMake(c, o).Refused?
  {
  }

  /** Only the last unique lock of a thread that has shared ones too is given up through the gap. */
  lemma {:induction false} DestroyOk(c: Cell, kind: Mode, o: Around)
    requires CellOk(c, false) && Count(c.live, kind) > 0
    ensures OutcomeOk(c, Destroy(c, kind), Unmade(c, kind).live, o)
    ensures Destroy(c, kind).Gap? <==> kind == UniqueLocked && c.live.unique == 1 && c.live.shared > 0
    ensures Destroy(c, kind).Gap? ==> Destroy(c, kind).cell.live == Unmade(c, kind).live
    ensures !Destroy(c, kind).Blocked? && !Destroy(c, kind).Refused?
  {
  }

  /** Without a lock of the kind, the two releases do nothing. */
  lemma {:induction false} NothingToRelease(c: Cell)
    requires CellOk(c, false)
    ensures c.live.unique == 0 ==> Unlock(c) == Done(c)
    ensures c.live.shared == 0 ==> UnlockShared(c) == Done(c)
  {
  }

  lemma {:induction false} FinishDestroyOk(c: Cell, o: Around)
    requires CellOk(c, true)
    ensures OutcomeOk(c, FinishDestroy(c, o), c.live, o)
    ensures FinishDestroy(c, o).Blocked? <==> !o.open
    ensures !FinishDestroy(c, o).Gap? && !FinishDestroy(c, o).Refused?
  {
  }

  /** The last plain wrapper of a thread releases the mutex in the mode in which it is held, except when
      both kinds of locks are left: then the second release is a misuse. */
  lemma {:induction false} DropWrapperExact(c: Cell)
    requires c.held == LockType(c.counters) && c.counters.wrappers == 1
    requires c.counters.shared >= 0 && c.counters.unique >= 0
    ensures DropWrapper(c).Misuse? <==> c.counters.shared > 0 && c.counters.unique > 0
    ensures !DropWrapper(c).Misuse? ==> DropWrapper(c).Done? && DropWrapper(c).cell.held == Unlocked
  {
  }

  // -------------------------------------------------------------------------------- the whole state

  predicate InGap(k: Task, m: Mutex) {
    (k.Upgrade? || k.Downgrade?) && k.m == m
  }

  ghost predicate CellsOk(s: State) {
    forall t: Thread, m: Mutex :: CellOk(s.cell(t, m), InGap(s.task(t), m))
  }

  /** Who holds a mutex exclusively holds it alone. */
  ghost predicate Exclusive(s: State) {
    forall a: Thread, b: Thread, m: Mutex ::
      a != b && s.cell(a, m).held == UniqueLocked ==> s.cell(b, m).held == Unlocked
  }

  /** A gap leads back to a task that is not a gap. */
  predicate TaskOk(k: Task) {
    k.Upgrade? || k.Downgrade? ==> !k.next.Upgrade? && !k.next.Downgrade?
  }

  ghost predicate Safe(s: State) {
    !s.misused && CellsOk(s) && Exclusive(s) && forall t: Thread :: TaskOk(s.task(t))
  }

  ghost predicate Initial(s: State) {
    && !s.misused
    && (forall t: Thread, m: Mutex :: s.cell(t, m) == Cell(Unlocked, Counters(0, 0, 0), Live(0, 0, 0)))
    && (forall t: Thread :: s.task(t) == Idle)
  }

  lemma {:induction false} PutSafe(s: State, t: Thread, m: Mutex, c: Cell, k: Task)
    requires Safe(s) && TaskOk(k)
    requires forall b: Mutex | b != m :: !InGap(s.task(t), b) && !InGap(k, b)
    requires CellOk(c, InGap(k, m)) && HeldOk(s.cell(t, m).held, c.held, Look(s, m))
    ensures Safe(Put(s, t, m, c, k))
  {
    var r := Put(s, t, m, c, k);
    forall a: Thread, b: Mutex ensures CellOk(r.cell(a, b), InGap(r.task(a), b)) {
      assert CellOk(s.cell(a, b), InGap(s.task(a), b));
    }
    forall a: Thread, b: Thread, x: Mutex | a != b && r.cell(a, x).held == UniqueLocked
      ensures r.cell(b, x).held == Unlocked
    {
      assert s.cell(a, x).held == UniqueLocked ==> s.cell(b, x).held == Unlocked;
      assert s.cell(b, x).held == UniqueLocked ==> s.cell(a, x).held == Unlocked;
    }
  }

  lemma {:induction false} AfterSafe(s: State, t: Thread, m: Mutex, o: Outcome, made: Live, done: Task, gap: Task,
                                     refused: Task)
    requires Safe(s) && TaskOk(done) && TaskOk(gap) && TaskOk(refused)
    requires forall b: Mutex | b != m :: !InGap(s.task(t), b)
    requires OutcomeOk(s.cell(t, m), o, made, Look(s, m))
    requires o.Done? ==> forall b: Mutex :: !InGap(done, b)
    requires o.Gap? ==> forall b: Mutex :: InGap(gap, b) <==> b == m
    requires o.Refused? ==> !InGap(s.task(t), m) && forall b: Mutex :: !InGap(refused, b)
    ensures var r := After(s, t, m, o, done, gap, refused); r.Some? ==> Safe(r.value)
  {
    match o
    case Done(c) => PutSafe(s, t, m, c, done);
    case Gap(c) => PutSafe(s, t, m, c, gap);
    case Refused(c) =>
      assert CellOk(s.cell(t, m), InGap(s.task(t), m));
      PutSafe(s, t, m, c, refused);
    case _ =>
  }

  /** A misuse is kept in the state. */
  lemma {:induction false} MisuseShows(s: State, t: Thread, m: Mutex, o: Outcome, done: Task, gap: Task, refused: Task)
    requires !s.misused
    ensures var r := After(s, t, m, o, done, gap, refused);
            && (r.Some? && r.value.misused <==> o.Misuse?)
            && (r.None? <==> o.Blocked?)
  {
  }

  lemma {:induction false} BusySafe(s: State, t: Thread, k: Task)
    requires Safe(s) && TaskOk(k) && forall b: Mutex :: !InGap(s.task(t), b) && !InGap(k, b)
    ensures Safe(Busy(s, t, k))
  {
    var r := Busy(s, t, k);
    forall a: Thread, b: Mutex ensures CellOk(r.cell(a, b), InGap(r.task(a), b)) {
      assert CellOk(s.cell(a, b), InGap(s.task(a), b));
    }
    forall a: Thread, b: Thread, x: Mutex | a != b && r.cell(a, x).held == UniqueLocked
      ensures r.cell(b, x).held == Unlocked
    {
      assert s.cell(a, x).held == UniqueLocked ==> s.cell(b, x).held == Unlocked;
    }
  }

  /** Every step keeps the counters, the held modes and the exclusion right, and never uses a mutex
      against its rules. */
  lemma {:induction false} StepSafe(s: State, t: Thread, a: Action)
    requires Safe(s)
    ensures var r := Step(s, t, a); r.Some? ==> Safe(r.value)
  {
    var k := s.task(t);
    assert TaskOk(k);
    assert forall m: Mutex :: CellOk(s.cell(t, m), InGap(k, m));
    match a
    case Create(m, kind) =>
      if k == Idle {
        MakeOk(s.cell(t, m), kind, Look(s, m));
        AfterSafe(s, t, m, Make(s.cell(t, m), kind, Look(s, m)), Made(s.cell(t, m), kind).live, Idle, Upgrade(m, Idle),
                  Idle);
      }
    case Delete(m, kind) =>
      if k == Idle && Count(s.cell(t, m).live, kind) > 0 {
        DestroyOk(s.cell(t, m), kind, Look(s, m));
        AfterSafe(s, t, m, Destroy(s.cell(t, m), kind), Unmade(s.cell(t, m), kind).live, Idle, Downgrade(m, Idle),
                  Idle);
      }
    case Begin(ms, kind) =>
      if k == Idle {
        BusySafe(s, t, Take(kind, ms, 0, (m: Mutex) => s.cell(t, m).live));
      }
    case Continue(lucky) => ContinueSafe(s, t, lucky);
  }

  lemma {:induction false} ContinueSafe(s: State, t: Thread, lucky: bool)
    requires Safe(s)
    ensures var r := Step(s, t, Continue(lucky)); r.Some? ==> Safe(r.value)
  {
    match s.task(t)
    case Idle =>
    case Upgrade(_, _) => GapSafe(s, t, lucky);
    case Downgrade(_, _) => GapSafe(s, t, lucky);
    case Take(kind, ms, n, base) =>
      if n < |ms| {
        TakeSafe(s, t, lucky);
      } else {
        TurnSafe(s, t, Idle);
      }
    case Undo(kind, ms, n, base) =>
      if n == 0 {
        TurnSafe(s, t, Take(kind, ms, 0, base));
      } else if n <= |ms| && Count(s.cell(t, ms[n - 1]).live, kind) > 0 {
        UndoSafe(s, t, lucky);
      }
  }

  /** Between two operations on mutexes. */
  lemma {:induction false} TurnSafe(s: State, t: Thread, next: Task)
    requires Safe(s) && (s.task(t).Take? || s.task(t).Undo?) && (next.Idle? || next.Take?)
    ensures Safe(Busy(s, t, next))
  {
    BusySafe(s, t, next);
  }

  lemma {:induction false} GapSafe(s: State, t: Thread, lucky: bool)
    requires Safe(s) && (s.task(t).Upgrade? || s.task(t).Downgrade?)
    ensures var r := Step(s, t, Continue(lucky)); r.Some? ==> Safe(r.value)
  {
    var k := s.task(t);
    var c, o := s.cell(t, k.m), Look(s, k.m);
    assert TaskOk(k) && CellOk(c, InGap(k, k.m));
    if k.Upgrade? {
      FinishMakeOk(c, o);
      AfterSafe(s, t, k.m, FinishMake(c, o), Made(c, UniqueLocked).live, k.next, k, k);
    } else {
      FinishDestroyOk(c, o);
      AfterSafe(s, t, k.m, FinishDestroy(c, o), c.live, k.next, k, k);
    }
  }

  lemma {:induction false} TakeSafe(s: State, t: Thread, lucky: bool)
    requires Safe(s) && s.task(t).Take? && s.task(t).n < |s.task(t).mutexes|
    ensures var r := Step(s, t, Continue(lucky)); r.Some? ==> Safe(r.value)
  {
    var k := s.task(t);
    var m := k.mutexes[k.n];
    var c, o := s.cell(t, m), Look(s, m);
    assert CellOk(c, InGap(k, m));
    var next := Take(k.kind, k.mutexes, k.n + 1, k.base);
    var r := TakeOutcome(c, k.kind, k.n, o, lucky);
    AfterSafe(s, t, m, r, Made(c, k.kind).live, next, Upgrade(m, next), Undo(k.kind, k.mutexes, k.n, k.base));
  }

  /** The first mutex is waited for, the others are tried. */
  lemma {:induction false} TakeOutcome(c: Cell, kind: Mode, n: nat, o: Around, lucky: bool) returns (r: Outcome)
    requires CellOk(c, false)
    ensures r == if n == 0 then Make(c, kind, o) else Try(c, kind, o, lucky)
    ensures OutcomeOk(c, r, Made(c, kind).live, o)
  {
    MakeOk(c, kind, o);
    TryOk(c, kind, o, lucky);
    r := if n == 0 then Make(c, kind, o) else Try(c, kind, o, lucky);
  }

  lemma {:induction false} UndoSafe(s: State, t: Thread, lucky: bool)
    requires Safe(s) && s.task(t).Undo? && 0 < s.task(t).n <= |s.task(t).mutexes|
    requires var k := s.task(t); Count(s.cell(t, k.mutexes[k.n - 1]).live, k.kind) > 0
    ensures var r := Step(s, t, Continue(lucky)); r.Some? ==> Safe(r.value)
  {
    var k := s.task(t);
    var m := k.mutexes[k.n - 1];
    var c := s.cell(t, m);
    assert CellOk(c, InGap(k, m));
    var rest := Undo(k.kind, k.mutexes, k.n - 1, k.base);
    DestroyOk(c, k.kind, Look(s, m));
    AfterSafe(s, t, m, Destroy(c, k.kind), Unmade(c, k.kind).live, rest, Downgrade(m, rest), rest);
  }

  // ------------------------------------------------------------------------------------ whole runs

  /** Any interleaving: at every moment some thread takes an enabled step. */
  ghost predicate IsRun(run: seq<State>, threads: seq<Thread>, actions: seq<Action>) {
    && |run| == |threads| + 1 && |actions| == |threads|
    && Initial(run[0])
    && forall i | 0 <= i < |threads| :: Step(run[i], threads[i], actions[i]) == Some(run[i + 1])
  }

  lemma {:induction false} RunSafe(run: seq<State>, threads: seq<Thread>, actions: seq<Action>, k: nat)
    requires IsRun(run, threads, actions) && k < |run|
    ensures Safe(run[k])
  {
    if k > 0 {
      RunSafe(run, threads, actions, k - 1);
      StepSafe(run[k - 1], threads[k - 1], actions[k - 1]);
    }
  }
}
