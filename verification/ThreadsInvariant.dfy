/** What every transition of the thread system keeps. */
module ThreadsInvariant {
  import opened Options
  import opened Seqs
  import opened Threads

  predicate IdlePc(pc: Pc) {
    pc.IdleStart? || pc.IdleUp? || pc.IdleLoop?
  }

  /** A blocked thread is asleep in sema_down, parked, not yet launched, or idle. */
  predicate MayBlock(pc: Pc) {
    pc.Parked? || pc.Embryo? || pc.IdleLoop? || (pc.Down? && pc.slept)
  }

  /** The run queue holds exactly the ready threads other than the idle thread. */
  ghost predicate QueueOk(status: map<Tid, Status>, ready: seq<Tid>, idle: Option<Tid>) {
    && NoDup(ready)
    && (forall t :: t in ready ==> t in status && status[t] == Ready && idle != Some(t))
    && (forall t :: t in status && status[t] == Ready ==> t in ready || idle == Some(t))
  }

  ghost predicate IdleOk(status: map<Tid, Status>, pc: map<Tid, Pc>, idle: Option<Tid>, idler: Tid) {
    && idler in pc && idler in status
    && (forall t :: t in pc ==> (IdlePc(pc[t]) <==> t == idler))
    && (idle == if pc[idler] == IdleStart then None else Some(idler))
    && status[idler] != Dying
  }

  ghost predicate AllOk(status: map<Tid, Status>, all: seq<Tid>) {
    && NoDup(all)
    && (forall t :: t in all <==> t in status && status[t] != Dying)
  }

  ghost predicate StatusOk(status: map<Tid, Status>, pc: map<Tid, Pc>) {
    && (forall t :: t in status <==> t in pc)
    && (forall t :: t in status && status[t] == Blocked ==> MayBlock(pc[t]))
    && (forall t :: t in status && (pc[t].Parked? || pc[t].Embryo?) ==> status[t] == Blocked)
    && (forall t :: t in status && status[t] == Dying ==> pc[t] == Client)
  }

  /** Only the initial thread outlives its exit, and `prev` on its way out. */
  ghost predicate DyingOk(status: map<Tid, Status>, main: Tid, prev: Tid) {
    forall t :: t in status && status[t] == Dying ==> t == main || t == prev
  }

  /** Exactly one thread runs. */
  ghost predicate RunningOk(status: map<Tid, Status>, current: Tid) {
    && current in status && status[current] == Running
    && (forall t :: t in status && status[t] == Running ==> t == current)
  }

  ghost predicate SchedOk(s: State) {
    && StatusOk(s.status, s.pc)
    && DyingOk(s.status, s.main, s.main)
    && RunningOk(s.status, s.current)
    && QueueOk(s.status, s.ready, s.idle)
    && IdleOk(s.status, s.pc, s.idle, s.idler)
    && AllOk(s.status, s.all)
  }

  /** A thread is on a semaphore's wait list exactly when it is blocked in
      sema_down on that semaphore, so it is on at most one. */
  ghost predicate WaitOk(status: map<Tid, Status>, pc: map<Tid, Pc>, semas: map<SemaId, Sema>) {
    && (forall x :: x in semas ==> NoDup(semas[x].waiters))
    && (forall x, t :: x in semas && t in semas[x].waiters ==>
          t in pc && pc[t] == Down(x, true) && t in status && status[t] == Blocked)
    && (forall t :: t in pc && pc[t].Down? ==> pc[t].sema in semas)
    && (forall t :: t in pc && pc[t].Down? && t in status && status[t] == Blocked ==>
          t in semas[pc[t].sema].waiters)
    && IDLE_STARTED in semas
  }

  /** Threads that slept on x, were woken, and have not yet tested the value again. */
  ghost function Woken(pc: map<Tid, Pc>, semas: map<SemaId, Sema>, x: SemaId): set<Tid>
    requires x in semas
  {
    set t | t in pc && pc[t] == Down(x, true) && t !in semas[x].waiters
  }

  /** Conservation, and no lost wakeup. */
  ghost predicate CountOk(pc: map<Tid, Pc>, semas: map<SemaId, Sema>) {
    && (forall x :: x in semas ==>
          semas[x].value + semas[x].downs == semas[x].init + semas[x].ups)
    && (forall x :: x in semas && semas[x].waiters != [] ==>
          semas[x].value <= |Woken(pc, semas, x)|)
  }

  /** t is between lock_acquire's down and lock_release's up on l. */
  ghost predicate InSection(pc: map<Tid, Pc>, holder: map<LockId, Option<Tid>>, l: LockId, t: Tid)
    requires l in holder && t in pc
  {
    holder[l] == Some(t) || pc[t] == TakeHold(l) || (pc[t].GiveUp? && pc[t].lock == l)
  }

  ghost function Section(pc: map<Tid, Pc>, holder: map<LockId, Option<Tid>>, l: LockId): set<Tid>
    requires l in holder
  {
    set t | t in pc && InSection(pc, holder, l, t)
  }

  ghost predicate LockOk(pc: map<Tid, Pc>, semas: map<SemaId, Sema>, holder: map<LockId, Option<Tid>>) {
    && (forall l :: l in holder <==> OfLock(l) in semas)
    && (forall l :: l in holder ==> semas[OfLock(l)].value + |Section(pc, holder, l)| == 1)
    && (forall l :: l in holder && holder[l].Some? ==> holder[l].value in pc)
    && (forall t :: t in pc && (pc[t].TakeHold? || pc[t].GiveUp?) ==>
          pc[t].lock in holder && holder[pc[t].lock] == None)
  }

  function WaitsFor(pc: Pc): Option<Waiter> {
    match pc
    case Unlock(w) => Some(w)
    case GiveUp(_, wait) => wait
    case Down(OfWaiter(w), _) => Some(w)
    case _ => None
  }

  /** The condition variable whose monitor a thread is working in. */
  function WorksOn(pc: Pc): Option<CondId> {
    match pc
    case Unlock(w) => Some(w.cond)
    case SigTest(c, _) => Some(c)
    case SigPop(c, _) => Some(c)
    case SigUp(c, _, _) => Some(c)
    case BcTest(c, _) => Some(c)
    case _ => None
  }

  function Upto(pc: Pc): Option<nat> {
    match pc
    case SigTest(_, ByBroadcast(n)) => Some(n)
    case SigPop(_, ByBroadcast(n)) => Some(n)
    case SigUp(_, _, ByBroadcast(n)) => Some(n)
    case BcTest(_, n) => Some(n)
    case _ => None
  }

  /** Some thread has popped w and is about to up its semaphore. */
  ghost predicate Raised(pc: map<Tid, Pc>, w: Waiter) {
    exists u :: u in pc && pc[u].SigUp? && pc[u].waiter == w
  }

  /** The queue holds the tickets from `signals` up to `waits`, in order. */
  ghost predicate TicketsOk(semas: map<SemaId, Sema>, c: CondId, v: Cond) {
    && |v.queue| == v.waits - v.signals
    && (forall i :: 0 <= i < |v.queue| ==>
          v.queue[i].ticket == v.signals + i && v.queue[i].cond == c && OfWaiter(v.queue[i]) in semas)
  }

  /** A waiter's semaphore is up exactly when its ticket has been signalled and
      the signaller is past its sema_up. */
  ghost predicate WaiterOk(pc: map<Tid, Pc>, semas: map<SemaId, Sema>, conds: map<CondId, Cond>, w: Waiter)
    requires OfWaiter(w) in semas
  {
    && w.thread in pc && WaitsFor(pc[w.thread]) == Some(w)
    && w.cond in conds
    && w.ticket < conds[w.cond].waits
    && (Raised(pc, w) ==> w.ticket < conds[w.cond].signals)
    && semas[OfWaiter(w)].value
       == (if w.ticket < conds[w.cond].signals && !Raised(pc, w) then 1 else 0)
    && (w.ticket >= conds[w.cond].signals ==>
          w.ticket - conds[w.cond].signals < |conds[w.cond].queue|
          && conds[w.cond].queue[w.ticket - conds[w.cond].signals] == w)
  }

  ghost predicate MonitorOk(pc: Pc, t: Tid, semas: map<SemaId, Sema>,
                            holder: map<LockId, Option<Tid>>, conds: map<CondId, Cond>)
  {
    && (WorksOn(pc).Some? ==>
          var c := WorksOn(pc).value;
          && c in conds && conds[c].lock in holder && holder[conds[c].lock] == Some(t)
          && (pc.SigPop? ==> conds[c].queue != [])
          && (pc.SigUp? ==> pc.waiter.cond == c && OfWaiter(pc.waiter) in semas)
          && (Upto(pc).Some? ==> Upto(pc).value == conds[c].waits))
    && (WaitsFor(pc).Some? ==>
          var w := WaitsFor(pc).value;
          && w.thread == t && OfWaiter(w) in semas && w.cond in conds
          && (pc.GiveUp? ==> pc.lock == conds[w.cond].lock)
          && (pc.Down? ==> conds[w.cond].lock in holder && holder[conds[w.cond].lock] != Some(t)))
  }

  ghost predicate CondOk(pc: map<Tid, Pc>, semas: map<SemaId, Sema>,
                         holder: map<LockId, Option<Tid>>, conds: map<CondId, Cond>)
  {
    && (forall c :: c in conds ==> conds[c].lock in holder && TicketsOk(semas, c, conds[c]))
    && (forall w :: OfWaiter(w) in semas ==> WaiterOk(pc, semas, conds, w))
    && (forall t :: t in pc ==> MonitorOk(pc[t], t, semas, holder, conds))
  }

  /** The part of the invariant that does not mention the scheduler. */
  ghost predicate SyncOk(s: State) {
    && CountOk(s.pc, s.semas)
    && LockOk(s.pc, s.semas, s.holder)
    && CondOk(s.pc, s.semas, s.holder, s.conds)
  }

  ghost predicate Inv(s: State) {
    && SchedOk(s)
    && WaitOk(s.status, s.pc, s.semas)
    && SyncOk(s)
  }


  // ----- Scheduling

  /** The state schedule() expects: the current thread has left the running state. */
  ghost predicate Left(s: State) {
    && StatusOk(s.status, s.pc)
    && s.current in s.status
    && DyingOk(s.status, s.main, s.current)
    && NoneRunning(s.status)
    && QueueOk(s.status, s.ready, s.idle)
    && IdleOk(s.status, s.pc, s.idle, s.idler)
    && AllOk(s.status, s.all)
  }

  ghost predicate NoneRunning(status: map<Tid, Status>) {
    forall t :: t in status ==> status[t] != Running
  }

  lemma NextExists(s: State)
    requires Left(s)
    ensures NextThreadToRun(s).Some?
    ensures var n := NextThreadToRun(s).value;
      n in s.status && s.status[n] != Dying && (s.status[n] == Ready || s.idle == Some(n))
  {
    assert s.idler in s.status && s.idler in s.pc;
  }

  /** Marking the next thread running keeps everything but its own status. */
  lemma DispatchKeeps(status: map<Tid, Status>, pc: map<Tid, Pc>, ready: seq<Tid>, all: seq<Tid>,
                      idle: Option<Tid>, idler: Tid, next: Tid)
    requires StatusOk(status, pc) && QueueOk(status, ready, idle)
    requires IdleOk(status, pc, idle, idler) && AllOk(status, all)
    requires next in status && status[next] != Dying && (status[next] == Ready || idle == Some(next))
    requires if ready == [] then idle == Some(next) else next == ready[0]
    ensures var status' := status[next := Running];
      && StatusOk(status', pc) && IdleOk(status', pc, idle, idler) && AllOk(status', all)
      && QueueOk(status', if ready == [] then [] else ready[1..], idle)
  {
    if ready != [] {
      assert forall t :: t in ready <==> t == next || t in ready[1..];
    }
  }

  lemma DispatchOne(status: map<Tid, Status>, main: Tid, prev: Tid, next: Tid)
    requires NoneRunning(status) && DyingOk(status, main, prev)
    requires prev in status && next in status && status[next] != Dying
    ensures var status' := status[next := Running];
      && RunningOk(status', next)
      && DyingOk(status', main, prev)
      && (status[prev] != Dying ==> DyingOk(status', main, main))
      && (status[prev] == Dying ==> RunningOk(status' - {prev}, next) && DyingOk(status' - {prev}, main, main))
  {
  }

  /** Destroying a thread that is dying keeps everything about the others. */
  lemma DestroyKeeps(status: map<Tid, Status>, pc: map<Tid, Pc>, ready: seq<Tid>, all: seq<Tid>,
                     idle: Option<Tid>, idler: Tid, t: Tid)
    requires StatusOk(status, pc) && QueueOk(status, ready, idle)
    requires IdleOk(status, pc, idle, idler) && AllOk(status, all)
    requires t in status && status[t] == Dying
    ensures var status', pc' := status - {t}, pc - {t};
      && StatusOk(status', pc') && QueueOk(status', ready, idle)
      && IdleOk(status', pc', idle, idler) && AllOk(status', all)
  {
  }

  lemma ScheduleKeeps(s: State)
    requires Left(s)
    ensures Schedule(s).Ok? && SchedOk(Schedule(s).state)
  {
    NextExists(s);
    var next := NextThreadToRun(s).value;
    DispatchKeeps(s.status, s.pc, s.ready, s.all, s.idle, s.idler, next);
    DispatchOne(s.status, s.main, s.current, next);
    if s.status[s.current] == Dying && s.current != s.main {
      DestroyKeeps(s.status[next := Running], s.pc, Schedule(s).state.ready, s.all, s.idle, s.idler, s.current);
    }
  }

  // ----- What does not depend on the scheduler

  /** The wait lists care about a thread's status only as far as it is blocked
      inside sema_down. */
  lemma WaitFrame(status: map<Tid, Status>, status': map<Tid, Status>, pc: map<Tid, Pc>,
                  semas: map<SemaId, Sema>)
    requires WaitOk(status, pc, semas)
    requires forall t :: t in pc && pc[t].Down? ==>
      ((t in status && status[t] == Blocked) <==> (t in status' && status'[t] == Blocked))
    ensures WaitOk(status', pc, semas)
  {
  }

  lemma WaitDrop(status: map<Tid, Status>, pc: map<Tid, Pc>, semas: map<SemaId, Sema>, t: Tid)
    requires WaitOk(status, pc, semas) && t in pc && !pc[t].Down?
    ensures WaitOk(status - {t}, pc - {t}, semas)
  {
  }

  /** Moving a thread that is not blocked from one place to another. */
  lemma WaitMove(status: map<Tid, Status>, pc: map<Tid, Pc>, semas: map<SemaId, Sema>, t: Tid, p: Pc)
    requires WaitOk(status, pc, semas) && t in pc
    requires pc[t].Down? ==> t in status && status[t] != Blocked
    requires p.Down? ==> p.sema in semas && t in status && status[t] != Blocked
    ensures WaitOk(status, pc[t := p], semas)
  {
  }

  lemma CountFrame(pc: map<Tid, Pc>, pc': map<Tid, Pc>, semas: map<SemaId, Sema>)
    requires CountOk(pc, semas)
    requires forall t, x :: (t in pc && pc[t] == Down(x, true)) <==> (t in pc' && pc'[t] == Down(x, true))
    ensures CountOk(pc', semas)
  {
    forall x | x in semas
      ensures Woken(pc, semas, x) == Woken(pc', semas, x)
    {
    }
  }

  predicate LockPc(p: Pc) { p.TakeHold? || p.GiveUp? }

  lemma LockFrame(pc: map<Tid, Pc>, pc': map<Tid, Pc>, semas: map<SemaId, Sema>, semas': map<SemaId, Sema>,
                  holder: map<LockId, Option<Tid>>)
    requires LockOk(pc, semas, holder)
    requires forall l :: (OfLock(l) in semas <==> OfLock(l) in semas')
    requires forall l :: OfLock(l) in semas ==> semas'[OfLock(l)].value == semas[OfLock(l)].value
    requires forall t :: t in pc && LockPc(pc[t]) ==> t in pc' && pc'[t] == pc[t]
    requires forall t :: t in pc' && LockPc(pc'[t]) ==> t in pc && pc'[t] == pc[t]
    requires forall l :: l in holder && holder[l].Some? ==> holder[l].value in pc'
    ensures LockOk(pc', semas', holder)
  {
    forall l | l in holder
      ensures Section(pc, holder, l) == Section(pc', holder, l)
    {
    }
  }

  /** What the condition variables see of a thread's place. */
  function View(p: Pc): Option<Pc> {
    if WorksOn(p).Some? then Some(p)
    else if WaitsFor(p).Some? then Some(if p.Down? then p.(slept := false) else p)
    else None
  }

  /** pc and pc' look the same to the condition variables. */
  ghost predicate SameViews(pc: map<Tid, Pc>, pc': map<Tid, Pc>) {
    && (forall t :: t in pc && View(pc[t]).Some? ==> t in pc' && View(pc'[t]) == View(pc[t]))
    && (forall t :: t in pc' && View(pc'[t]).Some? ==> t in pc && View(pc'[t]) == View(pc[t]))
  }

  /** semas and semas' hold the same waiters' semaphores with the same values. */
  ghost predicate SameWaiters(semas: map<SemaId, Sema>, semas': map<SemaId, Sema>) {
    && (forall w :: OfWaiter(w) in semas <==> OfWaiter(w) in semas')
    && (forall w :: OfWaiter(w) in semas ==> semas'[OfWaiter(w)].value == semas[OfWaiter(w)].value)
  }

  lemma RaisedFrame(pc: map<Tid, Pc>, pc': map<Tid, Pc>, w: Waiter)
    requires SameViews(pc, pc') && Raised(pc, w)
    ensures Raised(pc', w)
  {
    var u :| u in pc && pc[u].SigUp? && pc[u].waiter == w;
    assert u in pc' && pc'[u] == pc[u];
  }

  lemma WaiterFrame(pc: map<Tid, Pc>, pc': map<Tid, Pc>, semas: map<SemaId, Sema>, semas': map<SemaId, Sema>,
                    conds: map<CondId, Cond>, w: Waiter)
    requires SameViews(pc, pc') && SameWaiters(semas, semas')
    requires OfWaiter(w) in semas && WaiterOk(pc, semas, conds, w)
    ensures WaiterOk(pc', semas', conds, w)
  {
    if Raised(pc, w) { RaisedFrame(pc, pc', w); }
    if Raised(pc', w) { RaisedFrame(pc', pc, w); }
  }

  lemma MonitorFrame(p: Pc, p': Pc, t: Tid, semas: map<SemaId, Sema>, semas': map<SemaId, Sema>,
                     holder: map<LockId, Option<Tid>>, conds: map<CondId, Cond>)
    requires MonitorOk(p, t, semas, holder, conds) && View(p) == View(p') && SameWaiters(semas, semas')
    ensures MonitorOk(p', t, semas', holder, conds)
  {
  }

  lemma CondFrame(pc: map<Tid, Pc>, pc': map<Tid, Pc>, semas: map<SemaId, Sema>, semas': map<SemaId, Sema>,
                  holder: map<LockId, Option<Tid>>, conds: map<CondId, Cond>)
    requires CondOk(pc, semas, holder, conds)
    requires SameViews(pc, pc') && SameWaiters(semas, semas')
    ensures CondOk(pc', semas', holder, conds)
  {
    forall w | OfWaiter(w) in semas
      ensures WaiterOk(pc', semas', conds, w)
    {
      WaiterFrame(pc, pc', semas, semas', conds, w);
    }
    forall t | t in pc'
      ensures MonitorOk(pc'[t], t, semas', holder, conds)
    {
      if View(pc'[t]).Some? {
        MonitorFrame(pc[t], pc'[t], t, semas, semas', holder, conds);
      }
    }
    forall c | c in conds
      ensures TicketsOk(semas', c, conds[c])
    {
      assert TicketsOk(semas, c, conds[c]);
    }
  }
}
