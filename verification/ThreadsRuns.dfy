/** What holds in every state of every run of the thread system. */
module ThreadsRuns {
  import opened Options
  import opened Seqs
  import opened Threads
  import opened ThreadsInvariant
  import opened ThreadsSteps
  import opened ThreadsActions

  /** A run: each state follows from the one before by the action beside it. */
  ghost predicate IsRun(states: seq<State>, actions: seq<Action>) {
    && |states| == |actions| + 1
    && Init(states[0])
    && (forall i :: 0 <= i < |actions| ==> IsStep(states[i], actions[i], states[i + 1]))
  }

  ghost predicate IsStep(s: State, a: Action, s': State) {
    Enabled(s, a) && Step(s, a) == Ok(s')
  }

  lemma InitSched(s: State)
    requires Init(s)
    ensures SchedOk(s)
  {
    assert NoDup(s.ready) && NoDup(s.all);
  }

  lemma InitOk(s: State)
    requires Init(s)
    ensures Inv(s)
  {
    hide StatusOk, DyingOk, RunningOk, QueueOk, IdleOk, AllOk;
    InitSched(s);
  }

  lemma {:induction false} RunInv(states: seq<State>, actions: seq<Action>, i: nat)
    requires IsRun(states, actions) && i < |states|
    ensures Inv(states[i])
  {
    hide StatusOk, DyingOk, RunningOk, QueueOk, IdleOk, AllOk, WaitOk, CountOk, LockOk, CondOk, Enabled, Step;
    if i == 0 {
      InitOk(states[0]);
    } else {
      RunInv(states, actions, i - 1);
      assert IsStep(states[i - 1], actions[i - 1], states[i]);
      StepKeeps(states[i - 1], actions[i - 1]);
    }
  }

  /** No run fails an ASSERT or uses a destroyed thread or semaphore. */
  lemma NeverPanics(states: seq<State>, actions: seq<Action>, i: nat, a: Action)
    requires IsRun(states, actions) && i < |states| && Enabled(states[i], a)
    ensures Step(states[i], a).Ok?
  {
    RunInv(states, actions, i);
    hide StatusOk, DyingOk, RunningOk, QueueOk, IdleOk, AllOk, WaitOk, CountOk, LockOk, CondOk, Enabled, Step;
    StepKeeps(states[i], a);
  }

  // ----- Scheduler

  /** Exactly one thread runs; the run queue holds each ready thread but the idle
      thread once and nothing else; a thread waits on a semaphore's list exactly
      when it is blocked in sema_down on it. */
  lemma SchedulerLaw(states: seq<State>, actions: seq<Action>, i: nat, t: Tid)
    requires IsRun(states, actions) && i < |states| && t in states[i].status
    ensures var s := states[i];
      && (s.status[t] == Running <==> t == s.current)
      && (t in s.ready <==> s.status[t] == Ready && s.idle != Some(t))
      && NoDup(s.ready)
      && t in s.pc
      && (forall x :: x in s.semas ==>
            (t in s.semas[x].waiters <==>
             s.status[t] == Blocked && s.pc[t].Down? && s.pc[t].sema == x))
      && (t in s.all <==> s.status[t] != Dying)
  {
    RunInv(states, actions, i);
    var s := states[i];
    hide CountOk, LockOk, CondOk, IdleOk, Init, IsStep;
    forall x | x in s.semas && s.status[t] == Blocked && s.pc[t].Down? && s.pc[t].sema == x
      ensures t in s.semas[x].waiters
    {
    }
  }

  /** The list element a thread shares between the run queue and the wait lists
      is never on two lists, nor twice on one. */
  lemma OnOneList(states: seq<State>, actions: seq<Action>, i: nat, t: Tid, x: SemaId, y: SemaId)
    requires IsRun(states, actions) && i < |states|
    requires x in states[i].semas && y in states[i].semas && t in states[i].semas[x].waiters
    ensures t !in states[i].ready && NoDup(states[i].semas[x].waiters)
    ensures t in states[i].semas[y].waiters ==> y == x
  {
    RunInv(states, actions, i);
    hide CountOk, LockOk, CondOk, IdleOk, AllOk, Init, IsStep;
  }

  // ----- Semaphores

  /** Conservation: value + completed downs = initial value + ups. */
  lemma SemaphoreLaw(states: seq<State>, actions: seq<Action>, i: nat, x: SemaId)
    requires IsRun(states, actions) && i < |states| && x in states[i].semas
    ensures var m := states[i].semas[x]; m.value + m.downs == m.init + m.ups
  {
    RunInv(states, actions, i);
    hide StatusOk, DyingOk, RunningOk, QueueOk, IdleOk, AllOk, WaitOk, LockOk, CondOk;
  }

  /** No wakeup is lost: while threads wait, the value is at most the number of
      woken threads that have yet to retry; with none pending it is zero. */
  lemma NoLostWakeup(states: seq<State>, actions: seq<Action>, i: nat, x: SemaId)
    requires IsRun(states, actions) && i < |states| && x in states[i].semas
    requires states[i].semas[x].waiters != []
    ensures states[i].semas[x].value <= |Woken(states[i].pc, states[i].semas, x)|
    ensures (forall t :: t in states[i].pc && states[i].pc[t] == Down(x, true) ==> t in states[i].semas[x].waiters)
            ==> states[i].semas[x].value == 0
  {
    RunInv(states, actions, i);
    hide StatusOk, DyingOk, RunningOk, QueueOk, IdleOk, AllOk, WaitOk, LockOk, CondOk;
    var s := states[i];
    if forall t :: t in s.pc && s.pc[t] == Down(x, true) ==> t in s.semas[x].waiters {
      assert Woken(s.pc, s.semas, x) == {};
    }
  }

  // ----- Locks

  /** The semaphore's value and the threads between acquire's down and release's
      up always add up to one, so two threads are never inside together. */
  lemma MutualExclusion(states: seq<State>, actions: seq<Action>, i: nat, l: LockId, t: Tid, u: Tid)
    requires IsRun(states, actions) && i < |states| && l in states[i].holder
    requires t in states[i].pc && u in states[i].pc
    ensures OfLock(l) in states[i].semas
    ensures states[i].semas[OfLock(l)].value + |Section(states[i].pc, states[i].holder, l)| == 1
    ensures InSection(states[i].pc, states[i].holder, l, t) && InSection(states[i].pc, states[i].holder, l, u)
            ==> t == u
  {
    RunInv(states, actions, i);
    hide StatusOk, DyingOk, RunningOk, QueueOk, IdleOk, AllOk, WaitOk, CountOk, CondOk;
    var s := states[i];
    if InSection(s.pc, s.holder, l, t) {
      SectionIs(s.pc, s.semas, s.holder, l, t);
    }
  }

  // ----- Round robin

  /** schedule() takes the front of the queue; everything else only appends. */
  ghost predicate Advances(s: State, s': State) {
    || (s'.dispatches == s.dispatches && s.ready <= s'.ready)
    || (s'.dispatches == s.dispatches + 1
        && (s.ready != [] ==> s'.current == s.ready[0] && s.ready[1..] <= s'.ready))
  }

  lemma UpAdvances(s: State, x: SemaId)
    requires SemaUp(s, x).Ok?
    ensures SemaUp(s, x).state.dispatches == s.dispatches && s.ready <= SemaUp(s, x).state.ready
  {
  }

  lemma ScheduleAdvances()
    ensures forall s :: Schedule(s).Ok? ==>
      var r := Schedule(s).state;
      r.dispatches == s.dispatches + 1 && (s.ready != [] ==> r.current == s.ready[0] && r.ready == s.ready[1..])
  {
  }

  lemma ContinueAdvances(s: State, p: Pc, s': State)
    requires ContinueFrom(s, p) == Ok(s')
    ensures Advances(s, s')
  {
    match p
    case GiveUp(l, _) => UpAdvances(s, OfLock(l));
    case SigUp(_, w, _) => UpAdvances(s, OfWaiter(w));
    case IdleUp => UpAdvances(s, IDLE_STARTED);
    case _ =>
  }

  lemma StepAdvances(s: State, a: Action, s': State)
    requires IsStep(s, a, s')
    ensures Advances(s, s')
  {
    hide ContinueFrom, SemaUp, Enabled, Schedule;
    ScheduleAdvances();
    match a
    case Continue => ContinueAdvances(s, s.pc[s.current], s');
    case Up(id) => UpAdvances(s, Plain(id));
    case _ =>
  }

  /** Until its turn comes, a queued thread moves up by one at each dispatch. */
  lemma {:induction false} QueuePosition(states: seq<State>, actions: seq<Action>, i: nat, j: nat, k: nat)
    requires IsRun(states, actions) && i <= j < |states| && k < |states[i].ready|
    requires states[j].dispatches <= states[i].dispatches + k
    ensures states[i].dispatches <= states[j].dispatches
    ensures var d := states[j].dispatches - states[i].dispatches;
      k - d < |states[j].ready| && states[j].ready[k - d] == states[i].ready[k]
  {
    hide Step, Enabled, Init;
    if i < j {
      assert IsStep(states[j - 1], actions[j - 1], states[j]);
      StepAdvances(states[j - 1], actions[j - 1], states[j]);
      QueuePosition(states, actions, i, j - 1, k);
    }
  }

  /** A thread at position k of the run queue is dispatched by exactly the
      (k+1)-th later call of schedule, and does not run before that. */
  lemma RoundRobin(states: seq<State>, actions: seq<Action>, i: nat, j: nat, k: nat)
    requires IsRun(states, actions) && i < j < |states| && k < |states[i].ready|
    requires states[j - 1].dispatches == states[i].dispatches + k
    requires states[j].dispatches == states[i].dispatches + k + 1
    ensures states[j].current == states[i].ready[k]
    ensures forall m :: i <= m < j ==> states[m].current != states[i].ready[k]
  {
    hide Step, Enabled, Init;
    QueuePosition(states, actions, i, j - 1, k);
    assert IsStep(states[j - 1], actions[j - 1], states[j]);
    StepAdvances(states[j - 1], actions[j - 1], states[j]);
    forall m | i <= m < j
      ensures states[m].current != states[i].ready[k]
    {
      DispatchesGrow(states, actions, m, j - 1);
      QueuePosition(states, actions, i, m, k);
      QueuedNotRunning(states, actions, m, states[i].ready[k]);
    }
  }

  lemma {:induction false} DispatchesGrow(states: seq<State>, actions: seq<Action>, i: nat, j: nat)
    requires IsRun(states, actions) && i <= j < |states|
    ensures states[i].dispatches <= states[j].dispatches
  {
    hide Step, Enabled, Init;
    if i < j {
      assert IsStep(states[j - 1], actions[j - 1], states[j]);
      StepAdvances(states[j - 1], actions[j - 1], states[j]);
      DispatchesGrow(states, actions, i, j - 1);
    }
  }

  lemma QueuedNotRunning(states: seq<State>, actions: seq<Action>, i: nat, t: Tid)
    requires IsRun(states, actions) && i < |states| && t in states[i].ready
    ensures states[i].current != t
  {
    hide WaitOk, CountOk, LockOk, CondOk, IdleOk, AllOk, StatusOk, Init, IsStep;
    RunInv(states, actions, i);
  }

  // ----- Condition variables

  /** Tickets are served in order: those from `signals` to `waits` are queued, in
      that order, and a waiter still in cond_wait can go on exactly when its
      ticket has been served and its signaller is past the up. */
  lemma TicketLaw(states: seq<State>, actions: seq<Action>, i: nat, w: Waiter)
    requires IsRun(states, actions) && i < |states| && OfWaiter(w) in states[i].semas
    ensures var s := states[i];
      && w.cond in s.conds
      && (w.ticket >= s.conds[w.cond].signals ==>
            var k := w.ticket - s.conds[w.cond].signals;
            k < |s.conds[w.cond].queue| && s.conds[w.cond].queue[k] == w)
      && s.semas[OfWaiter(w)].value
         == (if w.ticket < s.conds[w.cond].signals && !Raised(s.pc, w) then 1 else 0)
  {
    hide WaitOk, CountOk, LockOk, IdleOk, AllOk, StatusOk, DyingOk, RunningOk, QueueOk, Init, IsStep;
    RunInv(states, actions, i);
    assert WaiterOk(states[i].pc, states[i].semas, states[i].conds, w);
  }
}
