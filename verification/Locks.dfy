/**
  Recursive shared locks over std::shared_mutex
  (libbinom/source/utils/shared_recursive_mutex_wrapper.cxx) as steps of threads.

  Everything a thread does between two operations on the mutex itself is local to it, so one step is
  one such operation with the counter updates around it.  `lock()` on a mutex that the thread holds
  shared gives it up and then waits for the exclusive mode; `unlock()` with shared locks left gives it up
  and then waits for the shared mode.  In these two gaps the thread holds nothing.
 */
module Locks {
  import opened Collections
  type Thread = nat
  type Mutex = nat

  datatype Mode = Unlocked | SharedLocked | UniqueLocked

  /** The counters that a thread keeps for a mutex. */
  datatype Counters = Counters(wrappers: int, shared: int, unique: int)

  /** The lock objects of a thread that are alive on a mutex, by the mode they were made with. */
  datatype Live = Live(idle: nat, shared: nat, unique: nat)

  /** One thread at one mutex. */
  datatype Cell = Cell(held: Mode, counters: Counters, live: Live)

  /** How an operation on a cell goes on: it waits; it uses the mutex against its rules; it is through; it
      is in a gap; its attempt has failed. */
  datatype Outcome = Blocked | Misuse | Done(cell: Cell) | Gap(cell: Cell) | Refused(cell: Cell)

  // ----------------------------------------------------------------------------- std::shared_mutex

  /** `free`: nobody holds the mutex; `open`: nobody holds it exclusively.  A thread that owns the mutex
      in any mode must not lock it, and it must release it in the mode in which it owns it. */
  datatype Around = Around(free: bool, open: bool)

  function MutexLock(c: Cell, o: Around): Outcome {
    if c.held != Unlocked then Misuse else if o.free then Done(c.(held := UniqueLocked)) else Blocked
  }

  function MutexLockShared(c: Cell, o: Around): Outcome {
    if c.held != Unlocked then Misuse else if o.open then Done(c.(held := SharedLocked)) else Blocked
  }

  function MutexUnlock(c: Cell): Outcome {
    if c.held == UniqueLocked then Done(c.(held := Unlocked)) else Misuse
  }

  function MutexUnlockShared(c: Cell): Outcome {
    if c.held == SharedLocked then Done(c.(held := Unlocked)) else Misuse
  }

  // ------------------------------------------------------------------- SharedRecursiveMutexWrapper

  function LockType(c: Counters): Mode {
    if c.unique != 0 then UniqueLocked else if c.shared != 0 then SharedLocked else Unlocked
  }

  function AddUnique(c: Cell): Cell {
    c.(counters := c.counters.(unique := c.counters.unique + 1))
  }

  function AddShared(c: Cell): Cell {
    c.(counters := c.counters.(shared := c.counters.shared + 1))
  }

  function Then(o: Outcome, f: Cell -> Cell): Outcome {
    if o.Done? then Done(f(o.cell)) else o
  }

  /** `lock`, up to the gap if there is one. */
  function Lock(c: Cell, o: Around): Outcome {
    match LockType(c.counters)
    case Unlocked => Then(MutexLock(c, o), AddUnique)
    case SharedLocked => (var r := MutexUnlockShared(c); if r.Done? then Gap(r.cell) else r)
    case UniqueLocked => Done(AddUnique(c))
  }

  function LockShared(c: Cell, o: Around): Outcome {
    match LockType(c.counters)
    case Unlocked => Then(MutexLockShared(c, o), AddShared)
    case _ => Done(AddShared(c))
  }

  /** `unlock`, up to the gap if there is one. */
  function Unlock(c: Cell): Outcome {
    if LockType(c.counters) != UniqueLocked then Done(c)
    else
      var d := c.(counters := c.counters.(unique := c.counters.unique - 1));
      if d.counters.unique != 0 then Done(d)
      else if d.counters.shared == 0 then MutexUnlock(d)
      else
        var r := MutexUnlock(d);
        if r.Done? then Gap(r.cell) else r
  }

  function UnlockShared(c: Cell): Outcome {
    match LockType(c.counters)
    case Unlocked => Done(c)
    case SharedLocked =>
      (var d := c.(counters := c.counters.(shared := c.counters.shared - 1));
       if d.counters.shared != 0 then Done(d) else MutexUnlockShared(d))
    case UniqueLocked =>
      if c.counters.shared != 0 then Done(c.(counters := c.counters.(shared := c.counters.shared - 1))) else Done(c)
  }

  /** `tryLock` asks the mutex without waiting only if the thread does not hold it. */
  function TryLock(c: Cell, o: Around, lucky: bool): Outcome {
    if LockType(c.counters) != Unlocked then Lock(c, o)
    else
      var r := Lock(c, o.(free := o.free && lucky));
      if r.Blocked? then Refused(c) else r
  }

  function TryLockShared(c: Cell, o: Around, lucky: bool): Outcome {
    if LockType(c.counters) != Unlocked then LockShared(c, o)
    else
      var r := LockShared(c, o.(open := o.open && lucky));
      if r.Blocked? then Refused(c) else r
  }

  /** createCountersRef. */
  function AddWrapper(c: Cell): Cell {
    c.(counters := c.counters.(wrappers := c.counters.wrappers + 1))
  }

  /** deleteCounterRef: the last wrapper releases what the counters say and drops them. */
  function DropWrapper(c: Cell): Outcome {
    var d := c.(counters := c.counters.(wrappers := c.counters.wrappers - 1));
    if d.counters.wrappers != 0 then Done(d)
    else
      var r := if d.counters.unique != 0 then MutexUnlock(d) else Done(d);
      if !r.Done? then r
      else
        var q := if d.counters.shared != 0 then MutexUnlockShared(r.cell) else r;
        Then(q, (e: Cell) => e.(counters := Counters(0, 0, 0)))
  }

  // ---------------------------------------------------------------------- locks made and destroyed

  function Made(c: Cell, kind: Mode): Cell {
    match kind
    case Unlocked => c.(live := c.live.(idle := c.live.idle + 1))
    case SharedLocked => c.(live := c.live.(shared := c.live.shared + 1))
    case UniqueLocked => c.(live := c.live.(unique := c.live.unique + 1))
  }

  function Count(v: Live, kind: Mode): nat {
    match kind
    case Unlocked => v.idle
    case SharedLocked => v.shared
    case UniqueLocked => v.unique
  }

  function Unmade(c: Cell, kind: Mode): Cell
    requires Count(c.live, kind) > 0
  {
    match kind
    case Unlocked => c.(live := c.live.(idle := c.live.idle - 1))
    case SharedLocked => c.(live := c.live.(shared := c.live.shared - 1))
    case UniqueLocked => c.(live := c.live.(unique := c.live.unique - 1))
  }

  /** The constructor of a lock. */
  function Make(c: Cell, kind: Mode, o: Around): Outcome {
    var d := AddWrapper(c);
    match kind
    case Unlocked => Done(Made(d, kind))
    case SharedLocked => Then(LockShared(d, o), (e: Cell) => Made(e, kind))
    case UniqueLocked => Then(Lock(d, o), (e: Cell) => Made(e, kind))
  }

  /** A wrapper that only tries; if it fails, it is popped and destroyed at once. */
  function Try(c: Cell, kind: Mode, o: Around, lucky: bool): Outcome {
    var d := AddWrapper(c);
    var r := match kind
             case Unlocked => Done(d)
             case SharedLocked => TryLockShared(d, o, lucky)
             case UniqueLocked => TryLock(d, o, lucky);
    if r.Refused? then
      var q := DropWrapper(r.cell);
      if q.Done? then Refused(q.cell) else q
    else Then(r, (e: Cell) => Made(e, kind))
  }

  /** Behind the gap of `lock`. */
  function FinishMake(c: Cell, o: Around): Outcome {
    Then(MutexLock(c, o), (e: Cell) => Made(AddUnique(e), UniqueLocked))
  }

  /** The destructor of a lock. */
  function Destroy(c: Cell, kind: Mode): Outcome
    requires Count(c.live, kind) > 0
  {
    var d := Unmade(c, kind);
    var r := match kind
             case Unlocked => Done(d)
             case SharedLocked => UnlockShared(d)
             case UniqueLocked => Unlock(d);
    if r.Done? then DropWrapper(r.cell) else r
  }

  /** Behind the gap of `unlock`. */
  function FinishDestroy(c: Cell, o: Around): Outcome {
    var r := MutexLockShared(c, o);
    if r.Done? then DropWrapper(r.cell) else r
  }

  // --------------------------------------------------------------------------------------- threads

  /** What a thread is busy with.  `Take` and `Undo` are the two loops of the TransactionLock
      constructor: the first `n` mutexes of the set are locked; `base` is what the thread had before. */
  datatype Task =
    | Idle
    | Upgrade(m: Mutex, next: Task)
    | Downgrade(m: Mutex, next: Task)
    | Take(kind: Mode, mutexes: seq<Mutex>, n: nat, base: Mutex -> Live)
    | Undo(kind: Mode, mutexes: seq<Mutex>, n: nat, base: Mutex -> Live)

  datatype State = State(cell: (Thread, Mutex) -> Cell, task: Thread -> Task, misused: bool)

  datatype Action =
    | Create(m: Mutex, kind: Mode)
    | Delete(m: Mutex, kind: Mode)
    | Begin(mutexes: seq<Mutex>, kind: Mode)
    | Continue(lucky: bool)

  function Put(s: State, t: Thread, m: Mutex, c: Cell, k: Task): State {
    State((a: Thread, b: Mutex) => if a == t && b == m then c else s.cell(a, b),
          (a: Thread) => if a == t then k else s.task(a), s.misused)
  }

  function Busy(s: State, t: Thread, k: Task): State {
    State(s.cell, (a: Thread) => if a == t then k else s.task(a), s.misused)
  }

  ghost function Look(s: State, m: Mutex): Around {
    Around(forall a :: s.cell(a, m).held == Unlocked, forall a :: s.cell(a, m).held != UniqueLocked)
  }

  /** The state after an operation of `t` on `m`; nothing if the thread has to wait. */
  function After(s: State, t: Thread, m: Mutex, o: Outcome, done: Task, gap: Task, refused: Task): Option<State> {
    match o
    case Blocked => None
    case Misuse => Some(s.(misused := true))
    case Done(c) => Some(Put(s, t, m, c, done))
    case Gap(c) => Some(Put(s, t, m, c, gap))
    case Refused(c) => Some(Put(s, t, m, c, refused))
  }

  /** A std::set: ascending, without repetition. */
  predicate Ascending(ms: seq<Mutex>) {
    forall i, j | 0 <= i < j < |ms| :: ms[i] < ms[j]
  }

  ghost function Step(s: State, t: Thread, a: Action): Option<State> {
    var k := s.task(t);
    match a
    case Create(m, kind) =>
      if k != Idle then None
      else After(s, t, m, Make(s.cell(t, m), kind, Look(s, m)), Idle, Upgrade(m, Idle), Idle)
    case Delete(m, kind) =>
      if k != Idle || Count(s.cell(t, m).live, kind) == 0 then None
      else After(s, t, m, Destroy(s.cell(t, m), kind), Idle, Downgrade(m, Idle), Idle)
    case Begin(ms, kind) =>
      if k != Idle || !Ascending(ms) then None
      else if ms == [] || kind == Unlocked then Some(s)
      else Some(Busy(s, t, Take(kind, ms, 0, (m: Mutex) => s.cell(t, m).live)))
    case Continue(lucky) =>
      match k
      case Idle => None
      case Upgrade(m, next) => After(s, t, m, FinishMake(s.cell(t, m), Look(s, m)), next, k, k)
      case Downgrade(m, next) => After(s, t, m, FinishDestroy(s.cell(t, m), Look(s, m)), next, k, k)
      case Take(kind, ms, n, base) =>
        if n >= |ms| then Some(Busy(s, t, Idle))
        else
          var m := ms[n];
          var c, o := s.cell(t, m), Look(s, m);
          After(s, t, m, if n == 0 then Make(c, kind, o) else Try(c, kind, o, lucky),
                Take(kind, ms, n + 1, base), Upgrade(m, Take(kind, ms, n + 1, base)), Undo(kind, ms, n, base))
      case Undo(kind, ms, n, base) =>
        if n == 0 then Some(Busy(s, t, Take(kind, ms, 0, base)))
        else if n > |ms| || Count(s.cell(t, ms[n - 1]).live, kind) == 0 then None
        else
          var m := ms[n - 1];
          var rest := Undo(kind, ms, n - 1, base);
          After(s, t, m, Destroy(s.cell(t, m), kind), rest, Downgrade(m, rest), rest)
  }
}
