/** Every transition of the thread system succeeds and keeps the invariant. */
module ThreadsActions {
  import opened Options
  import opened Seqs
  import opened Threads
  import opened ThreadsInvariant
  import opened ThreadsSteps
  import opened ThreadsMonitors

  // ----- Scheduling

  lemma CurrentFacts(s: State)
    requires SchedOk(s)
    ensures CurrentOk(s)
  {
  }

  lemma AsleepFacts(s: State, t: Tid)
    requires SchedOk(s) && t in s.pc && (s.pc[t].Parked? || s.pc[t].Embryo?)
    ensures t in s.status && s.status[t] == Blocked && t != s.idler
  {
  }

  /** Thread t takes status st and moves to p. */
  lemma SetThread(status: map<Tid, Status>, pc: map<Tid, Pc>, all: seq<Tid>, idle: Option<Tid>,
                  idler: Tid, t: Tid, st: Status, p: Pc)
    requires StatusOk(status, pc) && IdleOk(status, pc, idle, idler) && AllOk(status, all)
    requires t in status && status[t] != Dying && st != Dying
    requires IdlePc(p) <==> t == idler
    requires t == idler ==> (p == IdleStart <==> pc[t] == IdleStart)
    requires st == Blocked ==> MayBlock(p)
    requires p.Parked? || p.Embryo? ==> st == Blocked
    ensures StatusOk(status[t := st], pc[t := p])
    ensures IdleOk(status[t := st], pc[t := p], idle, idler)
    ensures AllOk(status[t := st], all)
  {
  }

  lemma QueueAppend(status: map<Tid, Status>, ready: seq<Tid>, idle: Option<Tid>, t: Tid)
    requires QueueOk(status, ready, idle) && t in status && status[t] != Ready && idle != Some(t)
    ensures QueueOk(status[t := Ready], ready + [t], idle)
  {
    NoDupAppend(ready, t);
  }

  lemma QueueKeep(status: map<Tid, Status>, ready: seq<Tid>, idle: Option<Tid>, t: Tid, st: Status)
    requires QueueOk(status, ready, idle) && t in status && status[t] != Ready
    requires st != Ready || idle == Some(t)
    ensures QueueOk(status[t := st], ready, idle)
  {
  }

  /** A status change that the wait lists do not see. */
  lemma WaitStatus(status: map<Tid, Status>, pc: map<Tid, Pc>, semas: map<SemaId, Sema>, t: Tid, st: Status)
    requires WaitOk(status, pc, semas) && t in pc && t in status
    requires pc[t].Down? ==> status[t] != Blocked && st != Blocked
    ensures WaitOk(status[t := st], pc, semas)
  {
    WaitFrame(status, status[t := st], pc, semas);
  }

  lemma LeaveOne(status: map<Tid, Status>, main: Tid, t: Tid, st: Status)
    requires RunningOk(status, t) && DyingOk(status, main, main) && st != Running
    ensures NoneRunning(status[t := st]) && DyingOk(status[t := st], main, t)
    ensures st != Dying ==> DyingOk(status[t := st], main, main)
  {
  }

  /** schedule() finds a thread and leaves a good state, whatever the current
      thread left the running state for. */
  lemma ScheduleInv(s: State)
    requires Left(s) && WaitOk(s.status, s.pc, s.semas) && SyncOk(s)
    requires s.status[s.current] == Dying ==> HoldsNothing(s.holder, s.current)
    ensures Schedule(s).Ok? && Inv(Schedule(s).state)
  {
    NextExists(s);
    ScheduleKeeps(s);
    var next := NextThreadToRun(s).value;
    var status := s.status[next := Running];
    ScheduleWait(s.status, s.pc, s.semas, s.idle, s.idler, next);
    if s.status[s.current] == Dying && s.current != s.main {
      WaitDrop(status, s.pc, s.semas, s.current);
      DropSync(s, s.current);
    }
  }

  lemma ScheduleWait(status: map<Tid, Status>, pc: map<Tid, Pc>, semas: map<SemaId, Sema>,
                     idle: Option<Tid>, idler: Tid, next: Tid)
    requires WaitOk(status, pc, semas) && StatusOk(status, pc) && IdleOk(status, pc, idle, idler)
    requires next in status && (status[next] == Ready || idle == Some(next))
    ensures WaitOk(status[next := Running], pc, semas)
  {
    WaitStatus(status, pc, semas, next, Running);
  }

  lemma DropSync(s: State, t: Tid)
    requires SyncOk(s) && t in s.pc && s.pc[t] == Client
    requires HoldsNothing(s.holder, t)
    ensures SyncOk(s.(pc := s.pc - {t}))
  {
    var pc' := s.pc - {t};
    CountFrame(s.pc, pc', s.semas);
    LockFrame(s.pc, pc', s.semas, s.semas, s.holder);
    CondFrame(s.pc, pc', s.semas, s.semas, s.holder, s.conds);
  }

  /** What a thread may be before and after a move nobody else can observe. */
  predicate Neutral(p: Pc) {
    View(p) == None && !LockPc(p) && (p.Down? ==> !p.slept)
  }

  lemma MoveSync(s: State, t: Tid, p: Pc)
    requires SyncOk(s) && t in s.pc && Neutral(s.pc[t]) && Neutral(p)
    ensures SyncOk(s.(pc := s.pc[t := p]))
  {
    var pc' := s.pc[t := p];
    CountFrame(s.pc, pc', s.semas);
    LockFrame(s.pc, pc', s.semas, s.semas, s.holder);
    CondFrame(s.pc, pc', s.semas, s.semas, s.holder, s.conds);
  }

  lemma BlockLeft(s: State, p: Pc)
    requires SchedOk(s) && MayBlock(p) && (IdlePc(s.pc[s.current]) <==> p == IdleLoop)
    requires p == IdleLoop ==> s.pc[s.current] == IdleLoop
    ensures Left(SetStatus(SetPc(s, p), s.current, Blocked))
  {
    SetThread(s.status, s.pc, s.all, s.idle, s.idler, s.current, Blocked, p);
    QueueKeep(s.status, s.ready, s.idle, s.current, Blocked);
    LeaveOne(s.status, s.main, s.current, Blocked);
  }

  lemma YieldKeeps(s: State)
    requires Inv(s)
    ensures ThreadYield(s).Ok? && Inv(ThreadYield(s).state)
  {
    hide StatusOk, DyingOk, RunningOk, QueueOk, IdleOk, AllOk, WaitOk, CountOk, LockOk, CondOk;
    CurrentFacts(s);
    var s1 := if s.idle != Some(s.current) then s.(ready := s.ready + [s.current]) else s;
    var s2 := SetStatus(s1, s.current, Ready);
    YieldLeft(s, s2);
    WaitStatus(s.status, s.pc, s.semas, s.current, Ready);
    ScheduleInv(s2);
  }

  lemma YieldLeft(s: State, s2: State)
    requires SchedOk(s)
    requires s2 == SetStatus(if s.idle != Some(s.current) then s.(ready := s.ready + [s.current]) else s,
                             s.current, Ready)
    ensures Left(s2)
  {
    SetThread(s.status, s.pc, s.all, s.idle, s.idler, s.current, Ready, s.pc[s.current]);
    assert s.pc[s.current := s.pc[s.current]] == s.pc;
    if s.idle != Some(s.current) {
      QueueAppend(s.status, s.ready, s.idle, s.current);
    } else {
      QueueKeep(s.status, s.ready, s.idle, s.current, Ready);
    }
    LeaveOne(s.status, s.main, s.current, Ready);
  }

  lemma ExitKeeps(s: State)
    requires Inv(s) && AtClient(s) && HoldsNothing(s.holder, s.current)
    ensures ThreadExit(s).Ok? && Inv(ThreadExit(s).state)
  {
    hide StatusOk, DyingOk, RunningOk, QueueOk, IdleOk, AllOk, WaitOk, CountOk, LockOk, CondOk;
    CurrentFacts(s);
    var s2 := SetStatus(s.(all := Removed(s.all, s.current)), s.current, Dying);
    ExitLeft(s, s2);
    WaitStatus(s.status, s.pc, s.semas, s.current, Dying);
    ScheduleInv(s2);
  }

  lemma ExitLeft(s: State, s2: State)
    requires SchedOk(s) && AtClient(s)
    requires s2 == SetStatus(s.(all := Removed(s.all, s.current)), s.current, Dying)
    ensures s.current in s.all && Left(s2)
  {
    ExitParts(s.status, s.pc, s.all, s.idle, s.idler, s.current);
    QueueKeep(s.status, s.ready, s.idle, s.current, Dying);
    LeaveOne(s.status, s.main, s.current, Dying);
  }

  lemma ExitParts(status: map<Tid, Status>, pc: map<Tid, Pc>, all: seq<Tid>, idle: Option<Tid>,
                  idler: Tid, t: Tid)
    requires StatusOk(status, pc) && IdleOk(status, pc, idle, idler) && AllOk(status, all)
    requires t in status && status[t] == Running && pc[t] == Client
    ensures StatusOk(status[t := Dying], pc) && IdleOk(status[t := Dying], pc, idle, idler)
    ensures AllOk(status[t := Dying], Removed(all, t))
  {
    NoDupRemoved(all, t);
  }

  lemma ParkKeeps(s: State)
    requires Inv(s) && AtClient(s)
    ensures ThreadBlock(SetPc(s, Parked)).Ok? && Inv(ThreadBlock(SetPc(s, Parked)).state)
  {
    hide StatusOk, DyingOk, RunningOk, QueueOk, IdleOk, AllOk, WaitOk, CountOk, LockOk, CondOk;
    CurrentFacts(s);
    var s1 := SetPc(s, Parked);
    var s2 := SetStatus(s1, s.current, Blocked);
    BlockLeft(s, Parked);
    MoveSync(s, s.current, Parked);
    WaitMove(s.status, s.pc, s.semas, s.current, Parked);
    WaitStatus(s.status, s1.pc, s.semas, s.current, Blocked);
    ScheduleInv(s2);
  }

  lemma IdleBlockKeeps(s: State)
    requires Inv(s) && s.pc[s.current] == IdleLoop
    ensures ThreadBlock(s).Ok? && Inv(ThreadBlock(s).state)
  {
    hide StatusOk, DyingOk, RunningOk, QueueOk, IdleOk, AllOk, WaitOk, CountOk, LockOk, CondOk;
    CurrentFacts(s);
    var s2 := SetStatus(s, s.current, Blocked);
    assert SetPc(s, IdleLoop) == s;
    BlockLeft(s, IdleLoop);
    WaitStatus(s.status, s.pc, s.semas, s.current, Blocked);
    ScheduleInv(s2);
  }

  /** thread_unblock, of a thread that leaves its place for p. */
  lemma UnblockSched(s: State, t: Tid, p: Pc)
    requires SchedOk(s) && t in s.status && s.status[t] == Blocked && t != s.idler
    requires !IdlePc(p) && !p.Parked? && !p.Embryo?
    ensures ThreadUnblock(s, t).Ok?
    ensures var s1 := ThreadUnblock(s, t).state; SchedOk(s1.(pc := s1.pc[t := p]))
  {
    SetThread(s.status, s.pc, s.all, s.idle, s.idler, t, Ready, p);
    QueueAppend(s.status, s.ready, s.idle, t);
    assert RunningOk(s.status[t := Ready], s.current);
  }

  lemma WakeKeeps(s: State, t: Tid)
    requires Inv(s) && t in s.pc && (s.pc[t] == Parked || s.pc[t] == Embryo)
    ensures ThreadUnblock(s, t).Ok?
    ensures var s1 := ThreadUnblock(s, t).state; Inv(s1.(pc := s1.pc[t := Client]))
  {
    hide StatusOk, DyingOk, RunningOk, QueueOk, IdleOk, AllOk, WaitOk, CountOk, LockOk, CondOk;
    AsleepFacts(s, t);
    UnblockSched(s, t, Client);
    WakeWait(s.status, s.pc, s.semas, t);
    MoveSync(s, t, Client);
  }

  lemma WakeWait(status: map<Tid, Status>, pc: map<Tid, Pc>, semas: map<SemaId, Sema>, t: Tid)
    requires WaitOk(status, pc, semas) && t in pc && t in status && !pc[t].Down?
    ensures WaitOk(status[t := Ready], pc[t := Client], semas)
  {
    WaitStatus(status, pc, semas, t, Ready);
    WaitMove(status[t := Ready], pc, semas, t, Client);
  }

  lemma CreateKeeps(s: State, t: Tid)
    requires Inv(s) && t !in s.pc
    ensures Inv(s.(status := s.status[t := Blocked], pc := s.pc[t := Embryo], all := s.all + [t]))
  {
    assert t !in s.status;
    assert RunningOk(s.status[t := Blocked], s.current);
    assert DyingOk(s.status[t := Blocked], s.main, s.main);
    assert QueueOk(s.status[t := Blocked], s.ready, s.idle);
    hide StatusOk, DyingOk, RunningOk, QueueOk, IdleOk, AllOk, WaitOk, CountOk, LockOk, CondOk;
    CreateParts(s.status, s.pc, s.all, s.idle, s.idler, t);
    CreateWait(s.status, s.pc, s.semas, t);
    CreateSync(s, t);
  }

  lemma CreateParts(status: map<Tid, Status>, pc: map<Tid, Pc>, all: seq<Tid>, idle: Option<Tid>,
                    idler: Tid, t: Tid)
    requires StatusOk(status, pc) && IdleOk(status, pc, idle, idler) && AllOk(status, all)
    requires t !in status
    ensures StatusOk(status[t := Blocked], pc[t := Embryo])
    ensures IdleOk(status[t := Blocked], pc[t := Embryo], idle, idler)
    ensures AllOk(status[t := Blocked], all + [t])
  {
    NoDupAppend(all, t);
  }

  lemma CreateWait(status: map<Tid, Status>, pc: map<Tid, Pc>, semas: map<SemaId, Sema>, t: Tid)
    requires WaitOk(status, pc, semas) && t !in pc
    ensures WaitOk(status[t := Blocked], pc[t := Embryo], semas)
  {
  }

  lemma CreateSync(s: State, t: Tid)
    requires SyncOk(s) && t !in s.pc
    ensures SyncOk(s.(pc := s.pc[t := Embryo]))
  {
    var pc' := s.pc[t := Embryo];
    CountFrame(s.pc, pc', s.semas);
    LockFrame(s.pc, pc', s.semas, s.semas, s.holder);
    CondFrame(s.pc, pc', s.semas, s.semas, s.holder, s.conds);
  }

  /** The running thread moves to p. */
  lemma MoveSched(s: State, p: Pc)
    requires SchedOk(s) && !IdlePc(s.pc[s.current]) && !IdlePc(p) && !p.Parked? && !p.Embryo?
    ensures SchedOk(SetPc(s, p))
  {
  }

  lemma MoveKeeps(s: State, p: Pc)
    requires Inv(s) && Neutral(s.pc[s.current]) && Neutral(p)
    requires !IdlePc(s.pc[s.current]) && !IdlePc(p) && !p.Parked? && !p.Embryo?
    requires p.Down? ==> p.sema in s.semas
    ensures Inv(SetPc(s, p))
  {
    MoveSched(s, p);
    MoveSync(s, s.current, p);
    WaitMove(s.status, s.pc, s.semas, s.current, p);
  }

  // ----- Semaphores

  /** sema_up as the scheduler and the wait lists see it. */
  lemma UpFacts(s: State, x: SemaId)
    requires SchedOk(s) && WaitOk(s.status, s.pc, s.semas) && x in s.semas
    ensures SemaUp(s, x).Ok?
    ensures var s1 := SemaUp(s, x).state;
      && s1 == s.(status := s1.status, ready := s1.ready, semas := s.semas[x := Upped(s.semas[x])])
      && SchedOk(s1) && WaitOk(s1.status, s1.pc, s1.semas)
  {
    hide StatusOk, DyingOk, RunningOk, QueueOk, IdleOk, AllOk, WaitOk, CountOk, LockOk, CondOk;
    var m := s.semas[x];
    if m.waiters == [] {
      assert m.waiters == Upped(m).waiters;
      WaitCounters(s.status, s.pc, s.semas, x, Upped(m));
    } else {
      FrontFacts(s, x);
      UnblockSched(s, m.waiters[0], s.pc[m.waiters[0]]);
      assert s.pc[m.waiters[0] := s.pc[m.waiters[0]]] == s.pc;
      WaitUp(s.status, s.pc, s.semas, x);
    }
  }

  lemma FrontFacts(s: State, x: SemaId)
    requires WaitOk(s.status, s.pc, s.semas) && IdleOk(s.status, s.pc, s.idle, s.idler)
    requires x in s.semas && s.semas[x].waiters != []
    ensures var t := s.semas[x].waiters[0];
      && t in s.status && s.status[t] == Blocked && t != s.idler
      && t in s.pc && s.pc[t].Down?
  {
    assert s.semas[x].waiters[0] in s.semas[x].waiters;
  }

  lemma UpKeeps(s: State, x: SemaId)
    requires Inv(s) && x in s.semas && x.Plain?
    ensures SemaUp(s, x).Ok? && Inv(SemaUp(s, x).state)
  {
    hide StatusOk, DyingOk, RunningOk, QueueOk, IdleOk, AllOk, WaitOk, CountOk, LockOk, CondOk;
    UpFacts(s, x);
    CountUp(s.status, s.pc, s.semas, x);
    PlainSync(s, x, Upped(s.semas[x]));
  }

  /** Locks and condition variables do not see the plain semaphores. */
  lemma PlainSync(s: State, x: SemaId, m: Sema)
    requires x.Plain?
    requires LockOk(s.pc, s.semas, s.holder) && CondOk(s.pc, s.semas, s.holder, s.conds)
    ensures LockOk(s.pc, s.semas[x := m], s.holder) && CondOk(s.pc, s.semas[x := m], s.holder, s.conds)
  {
    LockFrame(s.pc, s.pc, s.semas, s.semas[x := m], s.holder);
    CondFrame(s.pc, s.pc, s.semas, s.semas[x := m], s.holder, s.conds);
  }

  lemma TryDownKeeps(s: State, x: SemaId)
    requires Inv(s) && x in s.semas && x.Plain?
    ensures SemaTryDown(s, x).Ok? && Inv(SemaTryDown(s, x).state)
  {
    hide StatusOk, DyingOk, RunningOk, QueueOk, IdleOk, AllOk, WaitOk, CountOk, LockOk, CondOk;
    if s.semas[x].value > 0 {
      CountTry(s.pc, s.semas, x);
      PlainSync(s, x, Downed(s.semas[x]));
      WaitCounters(s.status, s.pc, s.semas, x, Downed(s.semas[x]));
    }
  }

  lemma SemaInitKeeps(s: State, x: SemaId, v: nat)
    requires Inv(s) && x !in s.semas && x.Plain?
    ensures Inv(s.(semas := s.semas[x := Sema(v, [], v, 0, 0)]))
  {
    hide StatusOk, DyingOk, RunningOk, QueueOk, IdleOk, AllOk, WaitOk, CountOk, LockOk, CondOk;
    CountAdd(s.pc, s.semas, x, v);
    PlainSync(s, x, Sema(v, [], v, 0, 0));
    WaitAdd(s.status, s.pc, s.semas, x, v);
  }

  /** sema_down finds the value at zero. */
  lemma SleepKeeps(s: State, x: SemaId)
    requires Inv(s) && x in s.semas && s.semas[x].value == 0
    requires s.pc[s.current].Down? && s.pc[s.current].sema == x
    ensures DownAttempt(s, x).Ok? && Inv(DownAttempt(s, x).state)
  {
    hide StatusOk, DyingOk, RunningOk, QueueOk, IdleOk, AllOk, WaitOk, CountOk, LockOk, CondOk;
    CurrentFacts(s);
    NotIdle(s);
    var m := s.semas[x].(waiters := s.semas[x].waiters + [s.current]);
    var s1 := SetPc(s.(semas := s.semas[x := m]), Down(x, true));
    var s2 := SetStatus(s1, s.current, Blocked);
    BlockLeft(s, Down(x, true));
    CountSleep(s.pc, s.semas, x, s.current);
    SleepSync(s, x, m);
    WaitSleep(s.status, s.pc, s.semas, x, s.current);
    ScheduleInv(s2);
  }

  lemma NotIdle(s: State)
    requires SchedOk(s) && !IdlePc(s.pc[s.current])
    ensures s.current != s.idler && s.idle != Some(s.current)
  {
  }

  lemma SleepSync(s: State, x: SemaId, m: Sema)
    requires LockOk(s.pc, s.semas, s.holder) && CondOk(s.pc, s.semas, s.holder, s.conds)
    requires x in s.semas && m.value == s.semas[x].value
    requires s.current in s.pc && s.pc[s.current].Down? && s.pc[s.current].sema == x
    ensures LockOk(s.pc[s.current := Down(x, true)], s.semas[x := m], s.holder)
    ensures CondOk(s.pc[s.current := Down(x, true)], s.semas[x := m], s.holder, s.conds)
  {
    hide LockOk, CondOk;
    SleepLock(s.pc, s.semas, s.holder, s.current, x, m);
    CondFrame(s.pc, s.pc[s.current := Down(x, true)], s.semas, s.semas[x := m], s.holder, s.conds);
  }

  lemma SleepLock(pc: map<Tid, Pc>, semas: map<SemaId, Sema>, holder: map<LockId, Option<Tid>>, t: Tid,
                  x: SemaId, m: Sema)
    requires LockOk(pc, semas, holder) && x in semas && m.value == semas[x].value
    requires t in pc && pc[t].Down? && pc[t].sema == x
    ensures LockOk(pc[t := Down(x, true)], semas[x := m], holder)
  {
    LockFrame(pc, pc[t := Down(x, true)], semas, semas[x := m], holder);
  }

  /** sema_down takes a plain semaphore. */
  lemma TakePlainKeeps(s: State, x: SemaId)
    requires Inv(s) && x in s.semas && s.semas[x].value > 0 && x.Plain?
    requires s.pc[s.current].Down? && s.pc[s.current].sema == x
    ensures DownAttempt(s, x).Ok? && Inv(DownAttempt(s, x).state)
  {
    hide StatusOk, DyingOk, RunningOk, QueueOk, IdleOk, AllOk, WaitOk, CountOk, LockOk, CondOk;
    CurrentFacts(s);
    CountTake(s.pc, s.semas, x, s.current, Client);
    TakeWait(s, x, Client);
    MovePlain(s, x);
    PlainSync(SetPc(s, Client), x, Downed(s.semas[x]));
    MoveSched(s, Client);
  }

  lemma MovePlain(s: State, x: SemaId)
    requires LockOk(s.pc, s.semas, s.holder) && CondOk(s.pc, s.semas, s.holder, s.conds)
    requires s.current in s.pc && s.pc[s.current].Down? && s.pc[s.current].sema == x && x.Plain?
    ensures LockOk(s.pc[s.current := Client], s.semas, s.holder)
    ensures CondOk(s.pc[s.current := Client], s.semas, s.holder, s.conds)
  {
    var pc' := s.pc[s.current := Client];
    LockFrame(s.pc, pc', s.semas, s.semas, s.holder);
    CondFrame(s.pc, pc', s.semas, s.semas, s.holder, s.conds);
  }

  lemma TakeWait(s: State, x: SemaId, p: Pc)
    requires WaitOk(s.status, s.pc, s.semas) && CurrentOk(s) && x in s.semas && s.semas[x].value > 0
    requires !p.Down?
    ensures WaitOk(s.status, s.pc[s.current := p], s.semas[x := Downed(s.semas[x])])
  {
    WaitMove(s.status, s.pc, s.semas, s.current, p);
    WaitCounters(s.status, s.pc[s.current := p], s.semas, x, Downed(s.semas[x]));
  }

  // ----- Locks

  /** Condition variables do not see a lock's semaphore, nor its TakeHold. */
  lemma LockCond(s: State, l: LockId, m: Sema, p: Pc)
    requires CondOk(s.pc, s.semas, s.holder, s.conds) && s.current in s.pc
    requires OfLock(l) in s.semas && View(s.pc[s.current]) == None && View(p) == None
    ensures CondOk(s.pc[s.current := p], s.semas[OfLock(l) := m], s.holder, s.conds)
  {
    CondFrame(s.pc, s.pc[s.current := p], s.semas, s.semas[OfLock(l) := m], s.holder, s.conds);
  }

  lemma TakeLockKeeps(s: State, l: LockId)
    requires Inv(s) && OfLock(l) in s.semas && s.semas[OfLock(l)].value > 0
    requires s.pc[s.current].Down? && s.pc[s.current].sema == OfLock(l)
    ensures DownAttempt(s, OfLock(l)).Ok? && Inv(DownAttempt(s, OfLock(l)).state)
  {
    hide StatusOk, DyingOk, RunningOk, QueueOk, IdleOk, AllOk, WaitOk, CountOk, LockOk, CondOk;
    CurrentFacts(s);
    LockExists(s, l);
    CountTake(s.pc, s.semas, OfLock(l), s.current, TakeHold(l));
    LockTake(s.pc, s.semas, s.holder, l, s.current);
    LockCond(s, l, Downed(s.semas[OfLock(l)]), TakeHold(l));
    TakeWait(s, OfLock(l), TakeHold(l));
    MoveSched(s, TakeHold(l));
  }

  lemma LockExists(s: State, l: LockId)
    requires LockOk(s.pc, s.semas, s.holder)
    ensures l in s.holder <==> OfLock(l) in s.semas
  {
  }

  lemma TryAcquireKeeps(s: State, l: LockId)
    requires Inv(s) && AtClient(s) && l in s.holder
    ensures LockTryAcquire(s, l).Ok? && Inv(LockTryAcquire(s, l).state)
  {
    hide StatusOk, DyingOk, RunningOk, QueueOk, IdleOk, AllOk, WaitOk, CountOk, LockOk, CondOk;
    CurrentFacts(s);
    LockExists(s, l);
    if s.semas[OfLock(l)].value > 0 {
      CountTry(s.pc, s.semas, OfLock(l));
      TryCount(s.pc, s.semas[OfLock(l) := Downed(s.semas[OfLock(l)])], s.current, l);
      LockTake(s.pc, s.semas, s.holder, l, s.current);
      LockCond(s, l, Downed(s.semas[OfLock(l)]), TakeHold(l));
      TakeWait(s, OfLock(l), TakeHold(l));
      MoveSched(s, TakeHold(l));
    }
  }

  lemma TryCount(pc: map<Tid, Pc>, semas: map<SemaId, Sema>, t: Tid, l: LockId)
    requires CountOk(pc, semas) && t in pc && pc[t] == Client
    ensures CountOk(pc[t := TakeHold(l)], semas)
  {
    CountFrame(pc, pc[t := TakeHold(l)], semas);
  }

  lemma LockInitKeeps(s: State, l: LockId)
    requires Inv(s) && l !in s.holder
    ensures Inv(s.(holder := s.holder[l := None], semas := s.semas[OfLock(l) := Sema(1, [], 1, 0, 0)]))
  {
    hide StatusOk, DyingOk, RunningOk, QueueOk, IdleOk, AllOk, WaitOk, CountOk, LockOk, CondOk;
    LockExists(s, l);
    CountAdd(s.pc, s.semas, OfLock(l), 1);
    LockAdd(s.pc, s.semas, s.holder, l);
    LockInitCond(s, l);
    WaitAdd(s.status, s.pc, s.semas, OfLock(l), 1);
  }

  lemma LockInitCond(s: State, l: LockId)
    requires CondOk(s.pc, s.semas, s.holder, s.conds) && l !in s.holder
    ensures CondOk(s.pc, s.semas[OfLock(l) := Sema(1, [], 1, 0, 0)], s.holder[l := None], s.conds)
  {
    CondFrame(s.pc, s.pc, s.semas, s.semas[OfLock(l) := Sema(1, [], 1, 0, 0)], s.holder, s.conds);
    forall t | t in s.pc
      ensures MonitorOk(s.pc[t], t, s.semas[OfLock(l) := Sema(1, [], 1, 0, 0)], s.holder[l := None], s.conds)
    {
      assert MonitorOk(s.pc[t], t, s.semas, s.holder, s.conds);
    }
  }

  /** The thread that took the semaphore stores itself as the holder. */
  lemma TakeHoldKeeps(s: State, l: LockId)
    requires Inv(s) && s.pc[s.current] == TakeHold(l)
    ensures l in s.holder && Inv(SetPc(SetHolder(s, l, Some(s.current)), Client))
  {
    hide StatusOk, DyingOk, RunningOk, QueueOk, IdleOk, AllOk, WaitOk, CountOk, LockOk, CondOk;
    CurrentFacts(s);
    HoldFacts(s, l);
    CountLock(s.pc, s.semas, s.current, Client);
    LockSetHolder(s.pc, s.semas, s.holder, l, s.current, Some(s.current), Client);
    CondHold(s, l);
    WaitMove(s.status, s.pc, s.semas, s.current, Client);
    MoveSched(s, Client);
  }

  lemma HoldFacts(s: State, l: LockId)
    requires LockOk(s.pc, s.semas, s.holder) && s.current in s.pc
    requires LockPc(s.pc[s.current]) && s.pc[s.current].lock == l
    ensures l in s.holder && s.holder[l] == None && OfLock(l) in s.semas
  {
  }

  lemma CountLock(pc: map<Tid, Pc>, semas: map<SemaId, Sema>, t: Tid, p: Pc)
    requires CountOk(pc, semas) && t in pc && (pc[t].Down? ==> !pc[t].slept) && (p.Down? ==> !p.slept)
    ensures CountOk(pc[t := p], semas)
  {
    CountFrame(pc, pc[t := p], semas);
  }

  lemma CondHold(s: State, l: LockId)
    requires CondOk(s.pc, s.semas, s.holder, s.conds) && s.current in s.pc
    requires l in s.holder && s.holder[l] == None && s.pc[s.current] == TakeHold(l)
    ensures CondOk(s.pc[s.current := Client], s.semas, s.holder[l := Some(s.current)], s.conds)
  {
    var pc' := s.pc[s.current := Client];
    CondFrame(s.pc, pc', s.semas, s.semas, s.holder, s.conds);
    forall u | u in pc' && WorksOn(pc'[u]).Some?
      ensures WorksOn(pc'[u]).value in s.conds && s.conds[WorksOn(pc'[u]).value].lock != l
    {
      assert MonitorOk(pc'[u], u, s.semas, s.holder, s.conds);
    }
    CondSetHolder(pc', s.semas, s.holder, s.conds, l, Some(s.current));
  }

  lemma ReleaseKeeps(s: State, l: LockId)
    requires Inv(s) && AtClient(s) && Holds(s, l)
    ensures Inv(SetPc(SetHolder(s, l, None), GiveUp(l, None)))
  {
    hide StatusOk, DyingOk, RunningOk, QueueOk, IdleOk, AllOk, WaitOk, CountOk, LockOk, CondOk;
    CurrentFacts(s);
    var p := GiveUp(l, None);
    CountLock(s.pc, s.semas, s.current, p);
    LockSetHolder(s.pc, s.semas, s.holder, l, s.current, None, p);
    CondRelease(s, l, p);
    WaitMove(s.status, s.pc, s.semas, s.current, p);
    MoveSched(s, p);
  }

  /** Clearing the holder, from client code or from inside cond_wait. */
  lemma CondRelease(s: State, l: LockId, p: Pc)
    requires CondOk(s.pc, s.semas, s.holder, s.conds) && s.current in s.pc && Holds(s, l)
    requires s.pc[s.current] == Client || s.pc[s.current].Unlock?
    requires p.GiveUp? && p.lock == l && p.wait == WaitsFor(s.pc[s.current])
    requires p.wait.Some? ==> p.wait.value.cond in s.conds && s.conds[p.wait.value.cond].lock == l
    ensures CondOk(s.pc[s.current := p], s.semas, s.holder[l := None], s.conds)
  {
    assert MonitorOk(s.pc[s.current], s.current, s.semas, s.holder, s.conds);
    CondMove(s.pc, s.semas, s.holder, s.conds, s.current, p);
    var pc' := s.pc[s.current := p];
    forall u | u in pc' && WorksOn(pc'[u]).Some?
      ensures WorksOn(pc'[u]).value in s.conds && s.conds[WorksOn(pc'[u]).value].lock != l
    {
      OneWorker(pc', s.semas, s.holder, s.conds, s.current, u);
    }
    CondSetHolder(pc', s.semas, s.holder, s.conds, l, None);
  }

  lemma UnlockKeeps(s: State, w: Waiter)
    requires Inv(s) && s.pc[s.current] == Unlock(w)
    ensures w.cond in s.conds && Holds(s, s.conds[w.cond].lock)
    ensures var l := s.conds[w.cond].lock;
      Inv(SetPc(SetHolder(s, l, None), GiveUp(l, Some(w))))
  {
    hide StatusOk, DyingOk, RunningOk, QueueOk, IdleOk, AllOk, WaitOk, CountOk, LockOk, CondOk;
    CurrentFacts(s);
    WorkFacts(s);
    var l := s.conds[w.cond].lock;
    var p := GiveUp(l, Some(w));
    CountLock(s.pc, s.semas, s.current, p);
    LockSetHolder(s.pc, s.semas, s.holder, l, s.current, None, p);
    CondRelease(s, l, p);
    WaitMove(s.status, s.pc, s.semas, s.current, p);
    MoveSched(s, p);
  }

  lemma WorkFacts(s: State)
    requires CondOk(s.pc, s.semas, s.holder, s.conds) && s.current in s.pc
    ensures MonitorOk(s.pc[s.current], s.current, s.semas, s.holder, s.conds)
  {
  }

  /** The up at the end of lock_release, after which a waiter goes to sleep. */
  lemma GiveUpKeeps(s: State, l: LockId, wait: Option<Waiter>)
    requires Inv(s) && s.pc[s.current] == GiveUp(l, wait)
    ensures SemaUp(s, OfLock(l)).Ok?
    ensures Inv(SetPc(SemaUp(s, OfLock(l)).state, if wait == None then Client else Down(OfWaiter(wait.value), false)))
  {
    hide StatusOk, DyingOk, RunningOk, QueueOk, IdleOk, AllOk, WaitOk, CountOk, LockOk, CondOk;
    CurrentFacts(s);
    HoldFacts(s, l);
    WorkFacts(s);
    var p := if wait == None then Client else Down(OfWaiter(wait.value), false);
    UpFacts(s, OfLock(l));
    var s1 := SemaUp(s, OfLock(l)).state;
    CountUp(s.status, s.pc, s.semas, OfLock(l));
    CountLock(s.pc, s1.semas, s.current, p);
    LockUp(s.pc, s.semas, s.holder, l, s.current, p);
    CondMove(s.pc, s.semas, s.holder, s.conds, s.current, p);
    GiveUpCond(s.pc[s.current := p], s.semas, s.holder, s.conds, l, Upped(s.semas[OfLock(l)]));
    CurrentFacts(s1);
    WaitMove(s1.status, s1.pc, s1.semas, s1.current, p);
    MoveSched(s1, p);
  }

  lemma GiveUpCond(pc: map<Tid, Pc>, semas: map<SemaId, Sema>, holder: map<LockId, Option<Tid>>,
                   conds: map<CondId, Cond>, l: LockId, m: Sema)
    requires CondOk(pc, semas, holder, conds) && OfLock(l) in semas
    ensures CondOk(pc, semas[OfLock(l) := m], holder, conds)
  {
    CondFrame(pc, pc, semas, semas[OfLock(l) := m], holder, conds);
  }

  // ----- Condition variables

  /** Plain semaphores and locks do not see a move inside a monitor. */
  lemma MonitorMove(s: State, p: Pc)
    requires SchedOk(s) && WaitOk(s.status, s.pc, s.semas)
    requires CountOk(s.pc, s.semas) && LockOk(s.pc, s.semas, s.holder)
    requires Quiet(s.pc[s.current]) && Quiet(p)
    ensures SchedOk(SetPc(s, p)) && WaitOk(s.status, s.pc[s.current := p], s.semas)
    ensures CountOk(s.pc[s.current := p], s.semas) && LockOk(s.pc[s.current := p], s.semas, s.holder)
  {
    hide StatusOk, DyingOk, RunningOk, QueueOk, IdleOk, AllOk, WaitOk, CountOk, LockOk, CondOk;
    CurrentFacts(s);
    MoveSched(s, p);
    WaitMove(s.status, s.pc, s.semas, s.current, p);
    CountLock(s.pc, s.semas, s.current, p);
    QuietLock(s.pc, s.semas, s.holder, s.current, p);
  }

  predicate Quiet(p: Pc) {
    !LockPc(p) && !p.Down? && !IdlePc(p) && !p.Parked? && !p.Embryo?
  }

  lemma QuietLock(pc: map<Tid, Pc>, semas: map<SemaId, Sema>, holder: map<LockId, Option<Tid>>, t: Tid, p: Pc)
    requires LockOk(pc, semas, holder) && t in pc && Quiet(pc[t]) && Quiet(p)
    ensures LockOk(pc[t := p], semas, holder)
  {
    LockFrame(pc, pc[t := p], semas, semas, holder);
  }

  lemma CondInitKeeps(s: State, c: CondId, l: LockId)
    requires Inv(s) && c !in s.conds && l in s.holder
    ensures Inv(s.(conds := s.conds[c := Cond(l, [], 0, 0)]))
  {
    hide StatusOk, DyingOk, RunningOk, QueueOk, IdleOk, AllOk, WaitOk, CountOk, LockOk, CondOk;
    CondAdd(s.pc, s.semas, s.holder, s.conds, c, l);
  }

  lemma CallMonitorKeeps(s: State, p: Pc)
    requires Inv(s) && WaitsFor(p) == WaitsFor(s.pc[s.current]) == None
    requires Quiet(s.pc[s.current]) && Quiet(p) && !p.SigUp? && !s.pc[s.current].SigUp?
    requires MonitorOk(p, s.current, s.semas, s.holder, s.conds)
    ensures Inv(SetPc(s, p))
  {
    hide StatusOk, DyingOk, RunningOk, QueueOk, IdleOk, AllOk, WaitOk, CountOk, LockOk, CondOk;
    CurrentFacts(s);
    MonitorMove(s, p);
    CondMove(s.pc, s.semas, s.holder, s.conds, s.current, p);
  }

  lemma QueueKeeps(s: State, c: CondId)
    requires Inv(s) && AtClient(s) && c in s.conds && Holds(s, s.conds[c].lock)
    ensures CondQueue(s, c).Ok? && Inv(CondQueue(s, c).state)
  {
    hide StatusOk, DyingOk, RunningOk, QueueOk, IdleOk, AllOk, WaitOk, CountOk, LockOk, CondOk;
    CurrentFacts(s);
    var w := Waiter(s.current, c, s.conds[c].waits);
    CondQueueKeeps(s.pc, s.semas, s.holder, s.conds, c, s.current, w);
    MonitorMove(s, Unlock(w));
    var pc' := s.pc[s.current := Unlock(w)];
    CountAdd(pc', s.semas, OfWaiter(w), 0);
    WaitAdd(s.status, pc', s.semas, OfWaiter(w), 0);
    WaiterLock(pc', s.semas, s.holder, w, Sema(0, [], 0, 0, 0));
  }

  lemma WaiterLock(pc: map<Tid, Pc>, semas: map<SemaId, Sema>, holder: map<LockId, Option<Tid>>, w: Waiter, m: Sema)
    requires LockOk(pc, semas, holder)
    ensures LockOk(pc, semas[OfWaiter(w) := m], holder)
  {
    LockFrame(pc, pc, semas, semas[OfWaiter(w) := m], holder);
  }

  lemma PopKeeps(s: State, c: CondId, caller: Caller)
    requires Inv(s) && s.pc[s.current] == SigPop(c, caller)
    ensures c in s.conds && s.conds[c].queue != []
    ensures Inv(SetPc(s.(conds := s.conds[c := Popped(s.conds[c])]), SigUp(c, s.conds[c].queue[0], caller)))
  {
    hide StatusOk, DyingOk, RunningOk, QueueOk, IdleOk, AllOk, WaitOk, CountOk, LockOk, CondOk;
    CurrentFacts(s);
    WorkFacts(s);
    CondPopKeeps(s.pc, s.semas, s.holder, s.conds, c, s.current, caller);
    MonitorMove(s, SigUp(c, s.conds[c].queue[0], caller));
  }

  lemma SigUpKeeps(s: State, c: CondId, w: Waiter, caller: Caller)
    requires Inv(s) && s.pc[s.current] == SigUp(c, w, caller)
    ensures SemaUp(s, OfWaiter(w)).Ok? && Inv(AfterSignal(SemaUp(s, OfWaiter(w)).state, c, caller))
  {
    hide StatusOk, DyingOk, RunningOk, QueueOk, IdleOk, AllOk, WaitOk, CountOk, LockOk, CondOk;
    CurrentFacts(s);
    var p := match caller case ByClient => Client case ByBroadcast(n) => BcTest(c, n);
    CondUpKeeps(s.pc, s.semas, s.holder, s.conds, s.current, p);
    UpFacts(s, OfWaiter(w));
    var s1 := SemaUp(s, OfWaiter(w)).state;
    CountUp(s.status, s.pc, s.semas, OfWaiter(w));
    WaiterLock(s.pc, s.semas, s.holder, w, Upped(s.semas[OfWaiter(w)]));
    CurrentFacts(s1);
    MonitorMove(s1, p);
  }

  /** A signalled waiter takes its semaphore and goes on to reacquire the lock. */
  lemma TakeWaiterKeeps(s: State, w: Waiter)
    requires Inv(s) && OfWaiter(w) in s.semas && s.semas[OfWaiter(w)].value > 0
    requires s.pc[s.current].Down? && s.pc[s.current].sema == OfWaiter(w)
    ensures DownAttempt(s, OfWaiter(w)).Ok? && Inv(DownAttempt(s, OfWaiter(w)).state)
  {
    hide StatusOk, DyingOk, RunningOk, QueueOk, IdleOk, AllOk, WaitOk, CountOk, LockOk, CondOk;
    CurrentFacts(s);
    WorkFacts(s);
    var x := OfWaiter(w);
    var l := s.conds[w.cond].lock;
    var p := Down(OfLock(l), false);
    var m := Downed(s.semas[x]);
    var pc' := s.pc[s.current := p];
    LockExists(s, l);
    CountTake(s.pc, s.semas, x, s.current, p);
    CountDrop(pc', s.semas[x := m], x);
    WaiterLockDrop(s.pc, s.semas, s.holder, s.current, w, l);
    CondDoneKeeps(s.pc, s.semas, s.holder, s.conds, s.current, w, p);
    WaitMove(s.status, s.pc, s.semas, s.current, p);
    OnlyWaiter(s.pc, s.semas, s.holder, s.conds, s.current, w, pc');
    WaitRemove(s.status, pc', s.semas, x);
    MoveSched(s, p);
    assert s.semas[x := m] - {x} == s.semas - {x};
  }

  lemma OnlyWaiter(pc: map<Tid, Pc>, semas: map<SemaId, Sema>, holder: map<LockId, Option<Tid>>,
                   conds: map<CondId, Cond>, t: Tid, w: Waiter, pc': map<Tid, Pc>)
    requires CondOk(pc, semas, holder, conds) && t in pc && pc[t].Down? && pc[t].sema == OfWaiter(w)
    requires t in pc' && pc' == pc[t := pc'[t]] && (pc'[t].Down? ==> pc'[t].sema != OfWaiter(w))
    ensures forall u :: u in pc' && pc'[u].Down? ==> pc'[u].sema != OfWaiter(w)
  {
    assert MonitorOk(pc[t], t, semas, holder, conds);
    forall u | u in pc && pc[u].Down? && pc[u].sema == OfWaiter(w)
      ensures u == t
    {
      assert MonitorOk(pc[u], u, semas, holder, conds);
    }
  }

  lemma WaiterLockDrop(pc: map<Tid, Pc>, semas: map<SemaId, Sema>, holder: map<LockId, Option<Tid>>, t: Tid,
                       w: Waiter, l: LockId)
    requires LockOk(pc, semas, holder) && t in pc && pc[t].Down?
    ensures LockOk(pc[t := Down(OfLock(l), false)], semas - {OfWaiter(w)}, holder)
  {
    LockFrame(pc, pc[t := Down(OfLock(l), false)], semas, semas - {OfWaiter(w)}, holder);
  }

  // ----- The idle thread

  lemma IdleSched(s: State, p: Pc)
    requires SchedOk(s) && IdlePc(s.pc[s.current]) && (p == IdleUp || p == IdleLoop)
    ensures SchedOk(SetPc(s.(idle := Some(s.current)), p))
  {
    IdleParts(s.status, s.pc, s.ready, s.idle, s.idler, s.current, p);
  }

  lemma IdleParts(status: map<Tid, Status>, pc: map<Tid, Pc>, ready: seq<Tid>, idle: Option<Tid>,
                  idler: Tid, t: Tid, p: Pc)
    requires StatusOk(status, pc) && QueueOk(status, ready, idle) && IdleOk(status, pc, idle, idler)
    requires t in status && status[t] == Running && IdlePc(pc[t]) && (p == IdleUp || p == IdleLoop)
    ensures StatusOk(status, pc[t := p]) && QueueOk(status, ready, Some(t))
    ensures IdleOk(status, pc[t := p], Some(t), idler)
  {
  }

  lemma IdleStartKeeps(s: State)
    requires Inv(s) && s.pc[s.current] == IdleStart
    ensures Inv(SetPc(s.(idle := Some(s.current)), IdleUp))
  {
    hide StatusOk, DyingOk, RunningOk, QueueOk, IdleOk, AllOk, WaitOk, CountOk, LockOk, CondOk;
    CurrentFacts(s);
    IdleSched(s, IdleUp);
    WaitMove(s.status, s.pc, s.semas, s.current, IdleUp);
    MoveSync(s, s.current, IdleUp);
  }

  lemma IdleUpKeeps(s: State)
    requires Inv(s) && s.pc[s.current] == IdleUp
    ensures SemaUp(s, IDLE_STARTED).Ok? && Inv(SetPc(SemaUp(s, IDLE_STARTED).state, IdleLoop))
  {
    hide StatusOk, DyingOk, RunningOk, QueueOk, IdleOk, AllOk, WaitOk, CountOk, LockOk, CondOk;
    CurrentFacts(s);
    IdleFacts(s);
    UpKeeps(s, IDLE_STARTED);
    UpFacts(s, IDLE_STARTED);
    var s1 := SemaUp(s, IDLE_STARTED).state;
    CurrentFacts(s1);
    IdleSched(s1, IdleLoop);
    WaitMove(s1.status, s1.pc, s1.semas, s1.current, IdleLoop);
    MoveSync(s1, s1.current, IdleLoop);
  }

  lemma IdleFacts(s: State)
    requires Inv(s) && s.pc[s.current] == IdleUp
    ensures IDLE_STARTED in s.semas && s.idle == Some(s.current)
  {
  }

  // ----- Everything together

  lemma DownKeeps(s: State, x: SemaId)
    requires Inv(s) && s.pc[s.current].Down? && s.pc[s.current].sema == x
    ensures DownAttempt(s, x).Ok? && Inv(DownAttempt(s, x).state)
  {
    assert x in s.semas;
    hide StatusOk, DyingOk, RunningOk, QueueOk, IdleOk, AllOk, WaitOk, CountOk, LockOk, CondOk;
    if s.semas[x].value == 0 {
      SleepKeeps(s, x);
    } else {
      match x
      case Plain(_) => TakePlainKeeps(s, x);
      case OfLock(l) => TakeLockKeeps(s, l);
      case OfWaiter(w) => TakeWaiterKeeps(s, w);
    }
  }

  /** Every section of code that an operation consists of succeeds and keeps the
      invariant. */
  lemma ContinueKeeps(s: State)
    requires Inv(s) && Enabled(s, Continue)
    ensures ContinueFrom(s, s.pc[s.current]).Ok? && Inv(ContinueFrom(s, s.pc[s.current]).state)
  {
    hide StatusOk, DyingOk, RunningOk, QueueOk, IdleOk, AllOk, WaitOk, CountOk, LockOk, CondOk;
    CurrentFacts(s);
    WorkFacts(s);
    match s.pc[s.current]
    case Client =>
    case Parked => AsleepFacts(s, s.current);
    case Embryo => AsleepFacts(s, s.current);
    case Down(x, _) => DownKeeps(s, x);
    case TakeHold(l) => TakeHoldKeeps(s, l);
    case GiveUp(l, wait) => GiveUpKeeps(s, l, wait);
    case Unlock(w) => UnlockKeeps(s, w);
    case SigTest(c, caller) => SigTestKeeps(s, c, caller);
    case SigPop(c, caller) => PopKeeps(s, c, caller);
    case SigUp(c, w, caller) => SigUpKeeps(s, c, w, caller);
    case BcTest(c, upto) =>
      CallMonitorKeeps(s, if s.conds[c].queue == [] then Client else SigTest(c, ByBroadcast(upto)));
    case IdleStart => IdleStartKeeps(s);
    case IdleUp => IdleUpKeeps(s);
    case IdleLoop => IdleBlockKeeps(s);
  }

  lemma SigTestKeeps(s: State, c: CondId, caller: Caller)
    requires Inv(s) && s.pc[s.current] == SigTest(c, caller)
    ensures ContinueFrom(s, SigTest(c, caller)).Ok? && Inv(ContinueFrom(s, SigTest(c, caller)).state)
  {
    hide StatusOk, DyingOk, RunningOk, QueueOk, IdleOk, AllOk, WaitOk, CountOk, LockOk, CondOk;
    CurrentFacts(s);
    WorkFacts(s);
    if s.conds[c].queue == [] {
      match caller
      case ByClient => CallMonitorKeeps(s, Client);
      case ByBroadcast(n) => CallMonitorKeeps(s, BcTest(c, n));
    } else {
      CallMonitorKeeps(s, SigPop(c, caller));
    }
  }

  /** No transition panics, and every transition keeps the invariant. */
  lemma StepKeeps(s: State, a: Action)
    requires Inv(s) && Enabled(s, a)
    ensures Step(s, a).Ok? && Inv(Step(s, a).state)
  {
    hide StatusOk, DyingOk, RunningOk, QueueOk, IdleOk, AllOk, WaitOk, CountOk, LockOk, CondOk;
    hide ThreadYield, ThreadBlock, ThreadExit, ThreadUnblock, SemaUp, SemaTryDown, LockTryAcquire, CondQueue, ContinueFrom;
    CurrentFacts(s);
    match a
    case Yield => YieldKeeps(s);
    case Park => ParkKeeps(s);
    case Wake(t) => WakeKeeps(s, t);
    case Create(t) => CreateKeeps(s, t);
    case Launch(t) => WakeKeeps(s, t);
    case Exit => ExitKeeps(s);
    case SemaInit(id, v) => SemaInitKeeps(s, Plain(id), v);
    case CallDown(id) => MoveKeeps(s, Down(Plain(id), false));
    case TryDown(id) => TryDownKeeps(s, Plain(id));
    case Up(id) => UpKeeps(s, Plain(id));
    case LockInit(l) => LockInitKeeps(s, l);
    case CallAcquire(l) => LockExists(s, l); MoveKeeps(s, Down(OfLock(l), false));
    case TryAcquire(l) => TryAcquireKeeps(s, l);
    case CallRelease(l) => ReleaseKeeps(s, l);
    case CondInit(c, l) => CondInitKeeps(s, c, l);
    case CallWait(c) => QueueKeeps(s, c);
    case CallSignal(c) => CallMonitorKeeps(s, SigTest(c, ByClient));
    case CallBroadcast(c) => CallMonitorKeeps(s, BcTest(c, s.conds[c].waits));
    case Continue => ContinueKeeps(s);
  }
}
