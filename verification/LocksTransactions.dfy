/**
  TransactionLock: all or nothing, and no waiting while holding.
 */
module LocksTransactions {
  import opened Collections
  import opened Locks
  import opened LocksSafety

  /** One lock of the kind more. */
  function More(v: Live, kind: Mode): Live {
    match kind
    case Unlocked => v.(idle := v.idle + 1)
    case SharedLocked => v.(shared := v.shared + 1)
    case UniqueLocked => v.(unique := v.unique + 1)
  }

  /** The thread has what it had before, and one lock more on each of the first `n` mutexes. */
  ghost predicate Holding(s: State, t: Thread, kind: Mode, ms: seq<Mutex>, n: nat, base: Mutex -> Live) {
    && n <= |ms|
    && forall m: Mutex :: s.cell(t, m).live == if m in ms[..n] then More(base(m), kind) else base(m)
  }

  /** What is true of a thread inside the constructor of a TransactionLock. */
  ghost predicate TransactionOk(s: State, t: Thread) {
    match s.task(t)
    case Idle => true
    case Take(kind, ms, n, base) => Ascending(ms) && Holding(s, t, kind, ms, n, base)
    case Undo(kind, ms, n, base) => Ascending(ms) && Holding(s, t, kind, ms, n, base)
    case Upgrade(m, next) =>
      next.Take? ==>
        && 0 < next.n <= |next.mutexes| && m == next.mutexes[next.n - 1] && next.kind == UniqueLocked
        && Ascending(next.mutexes) && Holding(s, t, next.kind, next.mutexes, next.n - 1, next.base)
    case Downgrade(m, next) =>
      next.Undo? ==>
        && next.n < |next.mutexes| && m == next.mutexes[next.n]
        && Ascending(next.mutexes) && Holding(s, t, next.kind, next.mutexes, next.n, next.base)
  }

  /** No other continuation occurs. */
  predicate NextOk(k: Task) {
    && (k.Upgrade? ==> k.next.Idle? || k.next.Take?)
    && (k.Downgrade? ==> k.next.Idle? || k.next.Undo?)
  }

  ghost predicate AllOk(s: State) {
    Safe(s) && forall t: Thread :: TransactionOk(s, t) && NextOk(s.task(t))
  }

  lemma {:induction false} TakenOne(ms: seq<Mutex>, n: nat)
    requires Ascending(ms) && n < |ms|
    ensures ms[n] !in ms[..n] && forall m: Mutex :: m in ms[..n + 1] <==> m in ms[..n] || m == ms[n]
  {
    assert ms[..n + 1] == ms[..n] + [ms[n]];
  }

  /** Steps of other threads do not matter. */
  lemma {:induction false} OthersOk(s: State, r: State, t: Thread)
    requires AllOk(s) && Safe(r)
    requires forall a: Thread, m: Mutex | a != t :: r.cell(a, m) == s.cell(a, m)
    requires forall a: Thread | a != t :: r.task(a) == s.task(a)
    requires TransactionOk(r, t) && NextOk(r.task(t))
    ensures AllOk(r)
  {
    forall a: Thread ensures TransactionOk(r, a) && NextOk(r.task(a)) {
      if a != t {
        assert TransactionOk(s, a) && NextOk(s.task(a));
        assert forall m: Mutex :: r.cell(a, m) == s.cell(a, m);
      }
    }
  }

  lemma {:induction false} HoldingMore(s: State, r: State, t: Thread, kind: Mode, ms: seq<Mutex>, n: nat,
                                       base: Mutex -> Live)
    requires Ascending(ms) && n < |ms| && Holding(s, t, kind, ms, n, base)
    requires forall m: Mutex | m != ms[n] :: r.cell(t, m).live == s.cell(t, m).live
    requires r.cell(t, ms[n]).live == More(s.cell(t, ms[n]).live, kind)
    ensures Holding(r, t, kind, ms, n + 1, base)
  {
    TakenOne(ms, n);
  }

  lemma {:induction false} HoldingLess(s: State, r: State, t: Thread, kind: Mode, ms: seq<Mutex>, n: nat,
                                       base: Mutex -> Live)
    requires Ascending(ms) && 0 < n <= |ms| && Holding(s, t, kind, ms, n, base)
    requires forall m: Mutex | m != ms[n - 1] :: r.cell(t, m).live == s.cell(t, m).live
    requires More(r.cell(t, ms[n - 1]).live, kind) == s.cell(t, ms[n - 1]).live
    ensures Holding(r, t, kind, ms, n - 1, base)
  {
    TakenOne(ms, n - 1);
  }

  lemma {:induction false} HoldingSame(s: State, r: State, t: Thread, kind: Mode, ms: seq<Mutex>, n: nat,
                                       base: Mutex -> Live)
    requires Holding(s, t, kind, ms, n, base)
    requires forall m: Mutex :: r.cell(t, m).live == s.cell(t, m).live
    ensures Holding(r, t, kind, ms, n, base)
  {
  }

  lemma {:induction false} StepLocal(s: State, t: Thread, a: Action)
    requires Step(s, t, a).Some?
    ensures var r := Step(s, t, a).value;
            && (forall b: Thread, m: Mutex | b != t :: r.cell(b, m) == s.cell(b, m))
            && (forall b: Thread | b != t :: r.task(b) == s.task(b))
  {
  }

  lemma {:induction false} StepTransactions(s: State, t: Thread, a: Action)
    requires AllOk(s) && Step(s, t, a).Some?
    ensures AllOk(Step(s, t, a).value)
  {
    var r := Step(s, t, a).value;
    StepSafe(s, t, a);
    StepLocal(s, t, a);
    assert TransactionOk(s, t) && NextOk(s.task(t));
    OwnStep(s, t, a);
    OthersOk(s, r, t);
  }

  lemma {:induction false} OwnStep(s: State, t: Thread, a: Action)
    requires AllOk(s) && Step(s, t, a).Some? && Safe(Step(s, t, a).value)
    ensures var r := Step(s, t, a).value; TransactionOk(r, t) && NextOk(r.task(t))
  {
    var r := Step(s, t, a).value;
    var k := s.task(t);
    assert TransactionOk(s, t) && NextOk(k);
    assert forall m: Mutex :: CellOk(s.cell(t, m), InGap(k, m));
    if k == Idle {
      assert r.task(t).Upgrade? || r.task(t).Downgrade? ==> r.task(t).next == Idle;
    } else {
      match k
      case Upgrade(m, next) =>
        OwnUpgrade(s, t, a);
      case Downgrade(m, next) =>
        OwnDowngrade(s, t, a);
      case Take(kind, ms, n, base) =>
        if n < |ms| {
          OwnTake(s, t, a);
        }
      case Undo(kind, ms, n, base) =>
        if n > 0 {
          OwnUndo(s, t, a);
        }
    }
  }

  lemma {:induction false} OwnUpgrade(s: State, t: Thread, a: Action)
    requires AllOk(s) && Step(s, t, a).Some? && s.task(t).Upgrade?
    ensures var r := Step(s, t, a).value; TransactionOk(r, t) && NextOk(r.task(t))
  {
    var r := Step(s, t, a).value;
    var k := s.task(t);
    assert TransactionOk(s, t) && NextOk(k) && CellOk(s.cell(t, k.m), InGap(k, k.m));
    FinishMakeOk(s.cell(t, k.m), Look(s, k.m));
    if k.next.Take? {
      HoldingMore(s, r, t, k.next.kind, k.next.mutexes, k.next.n - 1, k.next.base);
    }
  }

  lemma {:induction false} OwnDowngrade(s: State, t: Thread, a: Action)
    requires AllOk(s) && Step(s, t, a).Some? && s.task(t).Downgrade?
    ensures var r := Step(s, t, a).value; TransactionOk(r, t) && NextOk(r.task(t))
  {
    var r := Step(s, t, a).value;
    var k := s.task(t);
    assert TransactionOk(s, t) && NextOk(k) && CellOk(s.cell(t, k.m), InGap(k, k.m));
    FinishDestroyOk(s.cell(t, k.m), Look(s, k.m));
    if k.next.Undo? {
      HoldingSame(s, r, t, k.next.kind, k.next.mutexes, k.next.n, k.next.base);
    }
  }

  lemma {:induction false} OwnTake(s: State, t: Thread, a: Action)
    requires AllOk(s) && Step(s, t, a).Some? && s.task(t).Take? && s.task(t).n < |s.task(t).mutexes|
    ensures var r := Step(s, t, a).value; TransactionOk(r, t) && NextOk(r.task(t))
  {
    var k := s.task(t);
    assert TransactionOk(s, t);
    assert CellOk(s.cell(t, k.mutexes[k.n]), InGap(k, k.mutexes[k.n]));
    var c, o := s.cell(t, k.mutexes[k.n]), Look(s, k.mutexes[k.n]);
    MakeOk(c, k.kind, o);
    TryOk(c, k.kind, o, a.Continue? && a.lucky);
    TakeStep(s, Step(s, t, a).value, t, k.kind, k.mutexes, k.n, k.base);
  }

  lemma {:induction false} OwnUndo(s: State, t: Thread, a: Action)
    requires AllOk(s) && Step(s, t, a).Some? && s.task(t).Undo? && s.task(t).n > 0
    ensures var r := Step(s, t, a).value; TransactionOk(r, t) && NextOk(r.task(t))
  {
    var k := s.task(t);
    assert TransactionOk(s, t);
    var m := k.mutexes[k.n - 1];
    assert CellOk(s.cell(t, m), InGap(k, m));
    DestroyOk(s.cell(t, m), k.kind, Look(s, m));
    HoldingLess(s, Step(s, t, a).value, t, k.kind, k.mutexes, k.n, k.base);
  }

  lemma {:induction false} TakeStep(s: State, r: State, t: Thread, kind: Mode, ms: seq<Mutex>, n: nat,
                                    base: Mutex -> Live)
    requires Ascending(ms) && n < |ms| && Holding(s, t, kind, ms, n, base)
    requires forall m: Mutex | m != ms[n] :: r.cell(t, m).live == s.cell(t, m).live
    requires var k := r.task(t);
             || (k == Take(kind, ms, n + 1, base) && r.cell(t, ms[n]).live == More(s.cell(t, ms[n]).live, kind))
             || (k == Upgrade(ms[n], Take(kind, ms, n + 1, base)) && kind == UniqueLocked
                 && r.cell(t, ms[n]).live == s.cell(t, ms[n]).live)
             || (k == Undo(kind, ms, n, base) && r.cell(t, ms[n]) == s.cell(t, ms[n]))
    ensures TransactionOk(r, t) && NextOk(r.task(t))
  {
    if r.task(t).Take? {
      HoldingMore(s, r, t, kind, ms, n, base);
    } else {
      assert forall m: Mutex :: r.cell(t, m).live == s.cell(t, m).live;
      HoldingSame(s, r, t, kind, ms, n, base);
    }
  }

  // --------------------------------------------------------------------------------- main results

  lemma {:induction false} RunOk(run: seq<State>, threads: seq<Thread>, actions: seq<Action>, k: nat)
    requires IsRun(run, threads, actions) && k < |run|
    ensures AllOk(run[k])
  {
    if k > 0 {
      RunOk(run, threads, actions, k - 1);
      assert Step(run[k - 1], threads[k - 1], actions[k - 1]) == Some(run[k]);
      StepTransactions(run[k - 1], threads[k - 1], actions[k - 1]);
    } else {
      RunSafe(run, threads, actions, 0);
      forall t: Thread ensures TransactionOk(run[0], t) && NextOk(run[0].task(t)) {
        assert run[0].task(t) == Idle;
      }
    }
  }

  /** All or nothing: when the constructor is through, every mutex of the set is held in the mode asked for
      or a stronger one, with one lock more than before on each of them and nothing changed elsewhere. */
  lemma {:induction false} AllTaken(s: State, t: Thread, m: Mutex)
    requires AllOk(s) && s.task(t).Take? && s.task(t).n == |s.task(t).mutexes|
    ensures var k := s.task(t);
            && s.cell(t, m).live == (if m in k.mutexes then More(k.base(m), k.kind) else k.base(m))
            && (m in k.mutexes && k.kind == UniqueLocked ==> s.cell(t, m).held == UniqueLocked)
            && (m in k.mutexes && k.kind == SharedLocked ==> s.cell(t, m).held != Unlocked)
  {
    var k := s.task(t);
    assert TransactionOk(s, t);
    assert k.mutexes[..k.n] == k.mutexes;
    assert CellOk(s.cell(t, m), InGap(k, m));
  }

  /** A round that has failed leaves the counters of the thread as they were at the start. */
  lemma {:induction false} RoundRestored(s: State, t: Thread, m: Mutex)
    requires AllOk(s) && s.task(t).Take? && s.task(t).n == 0
    ensures var v := s.task(t).base(m);
            && s.cell(t, m).live == v
            && s.cell(t, m).counters == Counters(v.idle + v.shared + v.unique, v.shared, v.unique)
  {
    assert TransactionOk(s, t);
    assert CellOk(s.cell(t, m), InGap(s.task(t), m));
  }

  lemma {:induction false} MakeWaits(c: Cell, kind: Mode, o: Around)
    ensures Make(c, kind, o).Blocked? ==> c.held == Unlocked && !(o.free && o.open)
  {
  }

  lemma {:induction false} TryNeverWaits(c: Cell, kind: Mode, o: Around, lucky: bool)
    requires CellOk(c, false)
    ensures !Try(c, kind, o, lucky).Blocked?
  {
  }

  lemma {:induction false} FinishWaits(c: Cell, o: Around)
    ensures FinishMake(c, o).Blocked? || FinishDestroy(c, o).Blocked? ==> c.held == Unlocked && !(o.free && o.open)
  {
  }

  /** The thread is inside an operation and cannot take its next step. */
  ghost predicate Waits(s: State, t: Thread) {
    s.task(t) != Idle && exists lucky :: Step(s, t, Continue(lucky)).None?
  }

  /** The thread held nothing when it began; it may have had lock objects that are unlocked. */
  predicate CameEmpty(k: Task, m: Mutex) {
    match k
    case Take(_, _, _, base) => base(m).shared == 0 && base(m).unique == 0
    case Undo(_, _, _, base) => base(m).shared == 0 && base(m).unique == 0
    case Upgrade(_, next) => CameEmpty(next, m)
    case Downgrade(_, next) => CameEmpty(next, m)
    case Idle => false
  }

  /** A thread that began holding nothing has no shared lock to give up. */
  lemma {:induction false} NoGap(s: State, t: Thread)
    requires AllOk(s) && forall x: Mutex :: CameEmpty(s.task(t), x)
    ensures s.task(t).Take? || s.task(t).Undo?
  {
    var k := s.task(t);
    assert TransactionOk(s, t) && NextOk(k);
    assert CameEmpty(k, 0);
    if k.Upgrade? || k.Downgrade? {
      assert CameEmpty(k, k.m) && CameEmpty(k.next, k.m) && CameEmpty(k.next, 0);
      assert CellOk(s.cell(t, k.m), true);
      TakenOne(k.next.mutexes, if k.Upgrade? then k.next.n - 1 else k.next.n);
    }
  }

  /** Outside the gaps, only the first mutex of a set is waited for. */
  lemma {:induction false} WaitsAtStart(s: State, t: Thread)
    requires AllOk(s) && Waits(s, t) && (s.task(t).Take? || s.task(t).Undo?)
    ensures s.task(t).Take? && s.task(t).n == 0
  {
    var k := s.task(t);
    assert TransactionOk(s, t);
    var lucky :| Step(s, t, Continue(lucky)).None?;
    var m := Wanted(k);
    assert CellOk(s.cell(t, m), InGap(k, m));
    if k.Take? {
      TryNeverWaits(s.cell(t, m), k.kind, Look(s, m), lucky);
    } else if k.n > 0 {
      TakenOne(k.mutexes, k.n - 1);
      DestroyOk(s.cell(t, m), k.kind, Look(s, m));
    }
  }

  /** A thread that began its transaction holding nothing waits only while it holds nothing. */
  lemma {:induction false} WaitsEmptyHanded(s: State, t: Thread, m: Mutex)
    requires AllOk(s) && Waits(s, t) && forall x: Mutex :: CameEmpty(s.task(t), x)
    ensures s.cell(t, m).held == Unlocked
  {
    NoGap(s, t);
    WaitsAtStart(s, t);
    assert TransactionOk(s, t) && CameEmpty(s.task(t), m) && CellOk(s.cell(t, m), InGap(s.task(t), m));
  }

  /** The mutex that the next step of a busy thread is about. */
  function Wanted(k: Task): Mutex {
    match k
    case Upgrade(m, _) => m
    case Downgrade(m, _) => m
    case Take(_, ms, n, _) => if n < |ms| then ms[n] else 0
    case Undo(_, ms, n, _) => if 0 < n <= |ms| then ms[n - 1] else 0
    case Idle => 0
  }

  /** The plain lock that a thread outside any operation is about to make, if any. */
  type Plan = Thread -> Option<(Mutex, Mode)>

  /** The thread waits for the mutex, inside an operation or in the constructor of a plain lock. */
  ghost predicate WaitsOn(s: State, plan: Plan, t: Thread, m: Mutex) {
    if s.task(t) == Idle then plan(t).Some? && plan(t).value.0 == m && Step(s, t, Create(m, plan(t).value.1)).None?
    else Waits(s, t) && m == Wanted(s.task(t))
  }

  ghost predicate WaitsFor(s: State, plan: Plan, a: Thread, b: Thread, m: Mutex) {
    a != b && WaitsOn(s, plan, a, m) && s.cell(b, m).held != Unlocked
  }

  /** A thread that began holding nothing does not wait while somebody waits for it, whatever the other
      threads do, so it is in no circle of threads that wait for each other; and whoever waits, waits for
      somebody. */
  lemma {:induction false} NoWaitCycle(s: State, plan: Plan, a: Thread, b: Thread, m: Mutex, x: Mutex)
    requires AllOk(s)
    ensures WaitsFor(s, plan, a, b, m) && (forall y: Mutex :: CameEmpty(s.task(b), y)) ==> !WaitsOn(s, plan, b, x)
    ensures WaitsOn(s, plan, a, m) ==> exists c: Thread :: WaitsFor(s, plan, a, c, m)
  {
    if WaitsFor(s, plan, a, b, m) && WaitsOn(s, plan, b, x) && forall y: Mutex :: CameEmpty(s.task(b), y) {
      assert CameEmpty(s.task(b), 0);
      WaitsEmptyHanded(s, b, m);
    }
    if WaitsOn(s, plan, a, m) {
      SomebodyHolds(s, plan, a, m);
    }
  }

  lemma {:induction false} SomebodyHolds(s: State, plan: Plan, a: Thread, m: Mutex)
    requires AllOk(s) && WaitsOn(s, plan, a, m)
    ensures exists c: Thread :: WaitsFor(s, plan, a, c, m)
  {
    if s.task(a) == Idle {
      MakeWaits(s.cell(a, m), plan(a).value.1, Look(s, m));
    } else {
      WaitsUnlocked(s, a);
    }
    var c: Thread :| s.cell(c, m).held != Unlocked;
    assert WaitsFor(s, plan, a, c, m);
  }

  /** A thread that waits does not hold the mutex that it waits for, and somebody does. */
  lemma {:induction false} WaitsUnlocked(s: State, a: Thread)
    requires AllOk(s) && Waits(s, a)
    ensures var m := Wanted(s.task(a)); s.cell(a, m).held == Unlocked && !(Look(s, m).free && Look(s, m).open)
  {
    var k := s.task(a);
    var m := Wanted(k);
    var lucky :| Step(s, a, Continue(lucky)).None?;
    if k.Take? || k.Undo? {
      WaitsAtStart(s, a);
      MakeWaits(s.cell(a, m), k.kind, Look(s, m));
    } else {
      FinishWaits(s.cell(a, m), Look(s, m));
    }
  }
}
