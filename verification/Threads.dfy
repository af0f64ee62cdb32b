/** Threads, the run queue, semaphores, locks and condition variables as one
    transition system.  One transition is one stretch of code that nothing can
    interrupt: a section that runs with interrupts off, or the plain stores
    between two such sections.  Any other thread, or an interrupt handler, may
    run between two transitions, whatever the interrupted thread is doing. */
module Threads {
  import opened Options
  import opened Seqs

  type Tid = nat
  type LockId = nat
  type CondId = nat

  datatype Status = Running | Ready | Blocked | Dying

  /** One call of cond_wait: its `semaphore_elem` lives on the waiting thread's
      stack.  Tickets number the calls on one condition variable. */
  datatype Waiter = Waiter(thread: Tid, cond: CondId, ticket: nat)

  datatype SemaId =
    | Plain(id: nat)
    | OfLock(lock: LockId)
    | OfWaiter(waiter: Waiter)

  /** Whether a cond_signal was called by cond_broadcast; `upto` records how many
      waits had been made on the variable when the broadcast began. */
  datatype Caller = ByClient | ByBroadcast(upto: nat)

  /** Where a thread is inside the kernel's synchronization code. */
  datatype Pc =
    | Client                                      // outside of it
    | Parked                                      // called thread_block itself
    | Embryo                                      // created, not yet on the run queue
    | Down(sema: SemaId, slept: bool)             // about to test the value in sema_down
    | TakeHold(lock: LockId)                      // lock_acquire: down done, holder not stored
    | GiveUp(lock: LockId, wait: Option<Waiter>)  // lock_release: holder cleared, up to come
    | Unlock(waiter: Waiter)                      // cond_wait: queued, lock_release to come
    | SigTest(cond: CondId, caller: Caller)       // cond_signal: about to test for waiters
    | SigPop(cond: CondId, caller: Caller)        // ... saw a waiter, about to pop it
    | SigUp(cond: CondId, waiter: Waiter, caller: Caller)  // ... about to up its semaphore
    | BcTest(cond: CondId, upto: nat)             // cond_broadcast: about to test for waiters
    | IdleStart                                   // idle: idle_thread not yet stored
    | IdleUp                                      // idle: stored, sema_up to come
    | IdleLoop                                    // idle: in its endless loop

  /** `init`, `ups` and `downs` are history: the initial value and how many
      operations completed since. */
  datatype Sema = Sema(value: nat, waiters: seq<Tid>, init: nat, ups: nat, downs: nat)

  /** `waits` and `signals` are history: how many waiters were ever queued on the
      variable and how many were ever taken off it. */
  datatype Cond = Cond(lock: LockId, queue: seq<Waiter>, waits: nat, signals: nat)

  /** `dispatches` is history: how many times schedule() has run. */
  datatype State = State(
    status: map<Tid, Status>,
    pc: map<Tid, Pc>,
    current: Tid,
    ready: seq<Tid>,
    all: seq<Tid>,
    idle: Option<Tid>,
    idler: Tid,        // the thread created by thread_start to run idle()
    main: Tid,         // initial_thread
    semas: map<SemaId, Sema>,
    holder: map<LockId, Option<Tid>>,
    conds: map<CondId, Cond>,
    dispatches: nat)

  const IDLE_STARTED := Plain(0)

  /** thread_start has created the idle thread and is about to let it run. */
  predicate Init(s: State) {
    && s.main != s.idler
    && s.status == map[s.main := Running, s.idler := Ready]
    && s.pc == map[s.main := Client, s.idler := IdleStart]
    && s.current == s.main
    && s.ready == [s.idler]
    && s.all == [s.main, s.idler]
    && s.idle == None
    && s.semas == map[IDLE_STARTED := Sema(0, [], 0, 0, 0)]
    && s.holder == map[]
    && s.conds == map[]
    && s.dispatches == 0
  }

  /** What the running thread, or an interrupt handler on top of it, does next.
      Yield, Wake, Up and TryDown may come from a handler, so at any point. */
  datatype Action =
    | Yield
    | Park
    | Wake(t: Tid)
    | Create(t: Tid)
    | Launch(t: Tid)
    | Exit
    | SemaInit(id: nat, value: nat)
    | CallDown(id: nat)
    | TryDown(id: nat)
    | Up(id: nat)
    | LockInit(lock: LockId)
    | CallAcquire(lock: LockId)
    | TryAcquire(lock: LockId)
    | CallRelease(lock: LockId)
    | CondInit(cond: CondId, lock: LockId)
    | CallWait(cond: CondId)
    | CallSignal(cond: CondId)
    | CallBroadcast(cond: CondId)
    | Continue    // the next section of the operation the current thread is inside

  predicate AtClient(s: State) {
    s.current in s.pc && s.pc[s.current] == Client
  }

  predicate Holds(s: State, l: LockId) {
    l in s.holder && s.holder[l] == Some(s.current)
  }

  ghost predicate HoldsNothing(holder: map<LockId, Option<Tid>>, t: Tid) {
    forall l :: l in holder ==> holder[l] != Some(t)
  }

  /** What the documentation of each operation demands of its caller. */
  ghost predicate Enabled(s: State, a: Action) {
    match a
    case Yield => true
    case Park => AtClient(s)
    case Wake(t) => t in s.pc && s.pc[t] == Parked
    case Create(t) => AtClient(s) && t !in s.pc
    case Launch(t) => AtClient(s) && t in s.pc && s.pc[t] == Embryo
    case Exit => AtClient(s) && HoldsNothing(s.holder, s.current)
    case SemaInit(id, _) => Plain(id) !in s.semas
    case CallDown(id) => AtClient(s) && Plain(id) in s.semas
    case TryDown(id) => Plain(id) in s.semas
    case Up(id) => Plain(id) in s.semas
    case LockInit(l) => l !in s.holder
    case CallAcquire(l) => AtClient(s) && l in s.holder && !Holds(s, l)
    case TryAcquire(l) => AtClient(s) && l in s.holder && !Holds(s, l)
    case CallRelease(l) => AtClient(s) && Holds(s, l)
    case CondInit(c, l) => c !in s.conds && l in s.holder
    case CallWait(c) => AtClient(s) && c in s.conds && Holds(s, s.conds[c].lock)
    case CallSignal(c) => AtClient(s) && c in s.conds && Holds(s, s.conds[c].lock)
    case CallBroadcast(c) => AtClient(s) && c in s.conds && Holds(s, s.conds[c].lock)
    case Continue => !AtClient(s)
  }

  /** Panic is a failed ASSERT or the use of an object that no longer exists. */
  datatype Outcome = Ok(state: State) | Panic {
    predicate IsFailure() { Panic? }
    function PropagateFailure(): Outcome requires Panic? { Panic }
    function Extract(): State requires Ok? { state }
  }

  // ----- thread.c

  /** thread_current checks that the caller is a running thread. */
  predicate CurrentOk(s: State) {
    s.current in s.status && s.status[s.current] == Running && s.current in s.pc
  }

  function SetPc(s: State, pc: Pc): State {
    s.(pc := s.pc[s.current := pc])
  }

  function SetStatus(s: State, t: Tid, st: Status): State {
    s.(status := s.status[t := st])
  }

  function NextThreadToRun(s: State): Option<Tid> {
    if s.ready == [] then s.idle else Some(s.ready[0])
  }

  /** schedule() and thread_schedule_tail(): the current thread has already left
      the running state; a dying one other than the initial thread is destroyed. */
  function Schedule(s: State): Outcome {
    var next := NextThreadToRun(s);
    if s.current !in s.status || s.status[s.current] == Running
       || next == None || next.value !in s.status then Panic
    else
      var prev := s.current;
      var destroy := s.status[prev] == Dying && prev != s.main;
      if destroy && next.value == prev then Panic
      else
        var status := s.status[next.value := Running];
        Ok(s.(current := next.value,
              ready := if s.ready == [] then [] else s.ready[1..],
              status := if destroy then status - {prev} else status,
              pc := if destroy then s.pc - {prev} else s.pc,
              dispatches := s.dispatches + 1))
  }

  function ThreadBlock(s: State): Outcome {
    if !CurrentOk(s) then Panic else Schedule(SetStatus(s, s.current, Blocked))
  }

  function ThreadUnblock(s: State, t: Tid): Outcome {
    if t !in s.status || s.status[t] != Blocked then Panic
    else Ok(SetStatus(s.(ready := s.ready + [t]), t, Ready))
  }

  function ThreadYield(s: State): Outcome {
    if !CurrentOk(s) then Panic
    else
      var s1 := if s.idle != Some(s.current) then s.(ready := s.ready + [s.current]) else s;
      Schedule(SetStatus(s1, s.current, Ready))
  }

  function ThreadExit(s: State): Outcome {
    if !CurrentOk(s) || s.current !in s.all then Panic
    else Schedule(SetStatus(s.(all := Removed(s.all, s.current)), s.current, Dying))
  }

  // ----- synch.c

  /** Where a thread goes once its sema_down has taken the semaphore. */
  function AfterDown(s: State, x: SemaId): Outcome {
    match x
    case Plain(_) => Ok(SetPc(s, Client))
    case OfLock(l) => Ok(SetPc(s, TakeHold(l)))
    case OfWaiter(w) =>
      // The wait is over: the semaphore is never touched again.
      if w.cond !in s.conds || Holds(s, s.conds[w.cond].lock) then Panic
      else Ok(SetPc(s.(semas := s.semas - {x}), Down(OfLock(s.conds[w.cond].lock), false)))
  }

  /** One iteration of the loop in sema_down, and the decrement after it. */
  function DownAttempt(s: State, x: SemaId): Outcome {
    if x !in s.semas || !CurrentOk(s) then Panic
    else
      var m := s.semas[x];
      if m.value == 0 then
        var m' := m.(waiters := m.waiters + [s.current]);
        ThreadBlock(SetPc(s.(semas := s.semas[x := m']), Down(x, true)))
      else
        AfterDown(s.(semas := s.semas[x := m.(value := m.value - 1, downs := m.downs + 1)]), x)
  }

  function SemaUp(s: State, x: SemaId): Outcome {
    if x !in s.semas then Panic
    else
      var m := s.semas[x];
      if m.waiters == [] then
        Ok(s.(semas := s.semas[x := m.(value := m.value + 1, ups := m.ups + 1)]))
      else
        var s1 :- ThreadUnblock(s, m.waiters[0]);
        Ok(s1.(semas := s1.semas[x := m.(value := m.value + 1, ups := m.ups + 1,
                                         waiters := m.waiters[1..])]))
  }

  function SemaTryDown(s: State, x: SemaId): Outcome {
    if x !in s.semas then Panic
    else
      var m := s.semas[x];
      if m.value == 0 then Ok(s)
      else Ok(s.(semas := s.semas[x := m.(value := m.value - 1, downs := m.downs + 1)]))
  }

  function SetHolder(s: State, l: LockId, t: Option<Tid>): State {
    s.(holder := s.holder[l := t])
  }

  function LockTryAcquire(s: State, l: LockId): Outcome {
    if OfLock(l) !in s.semas then Panic
    else
      var got := s.semas[OfLock(l)].value > 0;
      var s1 :- SemaTryDown(s, OfLock(l));
      Ok(if got then SetPc(s1, TakeHold(l)) else s1)
  }

  /** sema_init of the waiter's own semaphore and the push onto the queue. */
  function CondQueue(s: State, c: CondId): Outcome {
    if c !in s.conds then Panic
    else
      var v := s.conds[c];
      var w := Waiter(s.current, c, v.waits);
      Ok(SetPc(s.(conds := s.conds[c := v.(queue := v.queue + [w], waits := v.waits + 1)],
                  semas := s.semas[OfWaiter(w) := Sema(0, [], 0, 0, 0)]),
               Unlock(w)))
  }

  function AfterSignal(s: State, c: CondId, caller: Caller): State {
    match caller
    case ByClient => SetPc(s, Client)
    case ByBroadcast(upto) => SetPc(s, BcTest(c, upto))
  }

  /** Runs the next section of whatever the current thread is inside. */
  function ContinueFrom(s: State, pc: Pc): Outcome {
    match pc
    case Client => Panic
    case Parked => Panic
    case Embryo => Panic
    case Down(x, _) => DownAttempt(s, x)
    case TakeHold(l) =>
      if l !in s.holder then Panic else Ok(SetPc(SetHolder(s, l, Some(s.current)), Client))
    case GiveUp(l, wait) =>
      var s1 :- SemaUp(s, OfLock(l));
      Ok(SetPc(s1, if wait == None then Client else Down(OfWaiter(wait.value), false)))
    case Unlock(w) =>
      if w.cond !in s.conds || !Holds(s, s.conds[w.cond].lock) then Panic
      else Ok(SetPc(SetHolder(s, s.conds[w.cond].lock, None),
                    GiveUp(s.conds[w.cond].lock, Some(w))))
    case SigTest(c, caller) =>
      if c !in s.conds || !Holds(s, s.conds[c].lock) then Panic
      else if s.conds[c].queue == [] then Ok(AfterSignal(s, c, caller))
      else Ok(SetPc(s, SigPop(c, caller)))
    case SigPop(c, caller) =>
      if c !in s.conds || s.conds[c].queue == [] then Panic
      else
        var v := s.conds[c];
        Ok(SetPc(s.(conds := s.conds[c := v.(queue := v.queue[1..], signals := v.signals + 1)]),
                 SigUp(c, v.queue[0], caller)))
    case SigUp(c, w, caller) =>
      var s1 :- SemaUp(s, OfWaiter(w));
      Ok(AfterSignal(s1, c, caller))
    case BcTest(c, upto) =>
      if c !in s.conds then Panic
      else if s.conds[c].queue == [] then Ok(SetPc(s, Client))
      else Ok(SetPc(s, SigTest(c, ByBroadcast(upto))))
    case IdleStart => Ok(SetPc(s.(idle := Some(s.current)), IdleUp))
    case IdleUp =>
      var s1 :- SemaUp(s, IDLE_STARTED);
      Ok(SetPc(s1, IdleLoop))
    case IdleLoop => ThreadBlock(s)
  }

  function Step(s: State, a: Action): Outcome
    requires Enabled(s, a)
  {
    if !CurrentOk(s) then Panic else
    match a
    case Yield => ThreadYield(s)
    case Park => ThreadBlock(SetPc(s, Parked))
    case Wake(t) =>
      var s1 :- ThreadUnblock(s, t);
      Ok(s1.(pc := s1.pc[t := Client]))
    case Create(t) =>
      Ok(s.(status := s.status[t := Blocked], pc := s.pc[t := Embryo], all := s.all + [t]))
    case Launch(t) =>
      var s1 :- ThreadUnblock(s, t);
      Ok(s1.(pc := s1.pc[t := Client]))
    case Exit => ThreadExit(s)
    case SemaInit(id, v) => Ok(s.(semas := s.semas[Plain(id) := Sema(v, [], v, 0, 0)]))
    case CallDown(id) => Ok(SetPc(s, Down(Plain(id), false)))
    case TryDown(id) => SemaTryDown(s, Plain(id))
    case Up(id) => SemaUp(s, Plain(id))
    case LockInit(l) =>
      Ok(s.(holder := s.holder[l := None], semas := s.semas[OfLock(l) := Sema(1, [], 1, 0, 0)]))
    case CallAcquire(l) => Ok(SetPc(s, Down(OfLock(l), false)))
    case TryAcquire(l) => LockTryAcquire(s, l)
    case CallRelease(l) => Ok(SetPc(SetHolder(s, l, None), GiveUp(l, None)))
    case CondInit(c, l) => Ok(s.(conds := s.conds[c := Cond(l, [], 0, 0)]))
    case CallWait(c) => CondQueue(s, c)
    case CallSignal(c) => Ok(SetPc(s, SigTest(c, ByClient)))
    case CallBroadcast(c) => Ok(SetPc(s, BcTest(c, s.conds[c].waits)))
    case Continue => ContinueFrom(s, s.pc[s.current])
  }
}
