/** Whole calls of cond_wait, cond_signal and cond_broadcast, from the call to
    the return, with anything else happening in between. */
module ThreadsWaits {
  import opened Options
  import opened Threads
  import opened ThreadsInvariant
  import opened ThreadsMonitors
  import opened ThreadsActions
  import opened ThreadsRuns

  // ----- What one transition leaves alone

  lemma YieldPc(s: State)
    requires ThreadYield(s).Ok?
    ensures ThreadYield(s).state.pc == s.pc && ThreadYield(s).state.holder == s.holder
  {
  }

  lemma BlockPc(s: State)
    requires ThreadBlock(s).Ok?
    ensures ThreadBlock(s).state.pc == s.pc && ThreadBlock(s).state.holder == s.holder
  {
  }

  lemma ExitPc(s: State, t: Tid)
    requires ThreadExit(s).Ok? && t in s.pc && t != s.current
    ensures t in ThreadExit(s).state.pc && ThreadExit(s).state.pc[t] == s.pc[t]
  {
  }

  lemma UpPc(s: State, x: SemaId)
    requires SemaUp(s, x).Ok?
    ensures var s1 := SemaUp(s, x).state;
      s1.pc == s.pc && s1.current == s.current && s1.conds == s.conds && s1.holder == s.holder && s1.all == s.all
  {
  }

  /** p may only change if t runs, or is being woken or launched. */
  lemma PcFrame(s: State, a: Action, s': State, t: Tid)
    requires IsStep(s, a, s') && t in s.pc && s.current in s.pc
    requires !s.pc[t].Parked? && !s.pc[t].Embryo?
    requires t != s.current || (s.pc[t] != Client && a != Continue)
    ensures t in s'.pc && s'.pc[t] == s.pc[t]
  {
    hide ContinueFrom, SemaUp, ThreadYield, ThreadBlock, ThreadExit;
    match a
    case Continue => ContinuePc(s, s.pc[s.current], s', t);
    case Up(id) => UpPc(s, Plain(id));
    case Yield => YieldPc(s);
    case Park => BlockPc(SetPc(s, Parked));
    case Exit => ExitPc(s, t);
    case _ =>
  }

  lemma ContinuePc(s: State, p: Pc, s': State, t: Tid)
    requires ContinueFrom(s, p) == Ok(s') && t in s.pc && t != s.current
    ensures t in s'.pc && s'.pc[t] == s.pc[t]
  {
    hide SemaUp;
    match p
    case GiveUp(l, _) => UpPc(s, OfLock(l));
    case SigUp(_, w, _) => UpPc(s, OfWaiter(w));
    case IdleUp => UpPc(s, IDLE_STARTED);
    case _ =>
  }

  /** A condition variable keeps its lock, and only the holder of the lock changes it
      at all: by queueing itself at the back or by taking the waiter at the front. */
  ghost predicate CondStable(s: State, s': State, c: CondId)
    requires c in s.conds
  {
    && c in s'.conds && s'.conds[c].lock == s.conds[c].lock
    && var v, v' := s.conds[c], s'.conds[c];
       v' != v ==> Holds(s, v.lock) && (v' == Queued(v, c, s.current) || (v.queue != [] && v' == Popped(v)))
  }

  lemma CondsFrame(s: State, a: Action, s': State, c: CondId)
    requires IsStep(s, a, s') && CondOk(s.pc, s.semas, s.holder, s.conds) && c in s.conds
    ensures CondStable(s, s', c)
  {
    hide ContinueFrom, SemaUp;
    match a
    case Continue =>
      ContinueConds(s, s.pc[s.current], s', c);
    case Up(id) => UpPc(s, Plain(id));
    case _ =>
  }

  lemma ContinueConds(s: State, p: Pc, s': State, c: CondId)
    requires ContinueFrom(s, p) == Ok(s') && c in s.conds
    requires MonitorOk(p, s.current, s.semas, s.holder, s.conds)
    ensures CondStable(s, s', c)
  {
    hide SemaUp;
    match p
    case GiveUp(l, _) => UpPc(s, OfLock(l));
    case SigUp(_, w, _) => UpPc(s, OfWaiter(w));
    case IdleUp => UpPc(s, IDLE_STARTED);
    case _ =>
  }

  /** A thread that holds a lock keeps it until it runs. */
  lemma HolderFrame(s: State, a: Action, s': State, l: LockId)
    requires IsStep(s, a, s') && LockOk(s.pc, s.semas, s.holder) && s.current in s.pc
    requires l in s.holder && s.holder[l].Some? && s.holder[l] != Some(s.current)
    ensures l in s'.holder && s'.holder[l] == s.holder[l]
  {
    hide ContinueFrom, SemaUp, ThreadYield, ThreadBlock, ThreadExit, ThreadUnblock, LockOk, HoldsNothing;
    TakeHoldFree(s);
    match a
    case Continue => ContinueHolder(s, s.pc[s.current], s', l);
    case Up(id) => UpPc(s, Plain(id));
    case Yield => YieldPc(s);
    case Park => BlockPc(SetPc(s, Parked));
    case Wake(t) => UnblockHolder(s, t);
    case Launch(t) => UnblockHolder(s, t);
    case Exit => ExitHolder(s);
    case _ =>
  }

  lemma TakeHoldFree(s: State)
    requires LockOk(s.pc, s.semas, s.holder) && s.current in s.pc
    ensures var p := s.pc[s.current]; p.TakeHold? ==> p.lock in s.holder && s.holder[p.lock] == None
  {
  }

  lemma ExitHolder(s: State)
    requires ThreadExit(s).Ok?
    ensures ThreadExit(s).state.holder == s.holder
  {
  }

  lemma UnblockHolder(s: State, t: Tid)
    requires ThreadUnblock(s, t).Ok?
    ensures ThreadUnblock(s, t).state.holder == s.holder
  {
  }

  lemma ContinueHolder(s: State, p: Pc, s': State, l: LockId)
    requires ContinueFrom(s, p) == Ok(s') && l in s.holder && s.holder[l].Some?
    requires s.holder[l] != Some(s.current)
    requires p.TakeHold? ==> p.lock in s.holder && s.holder[p.lock] == None
    ensures l in s'.holder && s'.holder[l] == s.holder[l]
  {
    hide SemaUp;
    match p
    case GiveUp(k, _) => UpPc(s, OfLock(k));
    case SigUp(_, w, _) => UpPc(s, OfWaiter(w));
    case IdleUp => UpPc(s, IDLE_STARTED);
    case _ =>
  }

  // ----- cond_wait

  /** t is inside the call of cond_wait that drew w, on lock l. */
  ghost predicate Waiting(s: State, t: Tid, w: Waiter, l: LockId) {
    && t in s.pc && w.thread == t && w.cond in s.conds && s.conds[w.cond].lock == l
    && (|| WaitsFor(s.pc[t]) == Some(w)
        || (w.ticket < s.conds[w.cond].signals
            && (s.pc[t] == TakeHold(l) || (s.pc[t].Down? && s.pc[t].sema == OfLock(l)))))
  }

  /** ... and has come back from it. */
  ghost predicate Returned(s: State, t: Tid, w: Waiter, l: LockId) {
    && t in s.pc && s.pc[t] == Client && w.cond in s.conds && s.conds[w.cond].lock == l
    && w.ticket < s.conds[w.cond].signals && l in s.holder && s.holder[l] == Some(t)
  }

  lemma TakeTicket(s: State, w: Waiter)
    requires CondOk(s.pc, s.semas, s.holder, s.conds) && OfWaiter(w) in s.semas
    ensures w.cond in s.conds
    ensures s.semas[OfWaiter(w)].value > 0 ==> w.ticket < s.conds[w.cond].signals
  {
    assert WaiterOk(s.pc, s.semas, s.conds, w);
  }

  /** One iteration of sema_down's loop: asleep, or past it. */
  lemma DownPc(s: State, x: SemaId, s': State)
    requires DownAttempt(s, x) == Ok(s') && s.current in s.pc
    ensures s'.conds == s.conds && s.current in s'.pc
    ensures s.semas[x].value == 0 ==> s'.pc[s.current] == Down(x, true)
    ensures s.semas[x].value > 0 ==>
      match x
      case Plain(_) => s'.pc[s.current] == Client
      case OfLock(l) => s'.pc[s.current] == TakeHold(l)
      case OfWaiter(w) => w.cond in s.conds && s'.pc[s.current] == Down(OfLock(s.conds[w.cond].lock), false)
  {
  }

  lemma WaitAdvances(s: State, a: Action, s': State, t: Tid, w: Waiter, l: LockId)
    requires Inv(s) && IsStep(s, a, s') && Waiting(s, t, w, l)
    ensures Waiting(s', t, w, l) || Returned(s', t, w, l)
  {
    hide StatusOk, DyingOk, RunningOk, QueueOk, IdleOk, AllOk, WaitOk, CountOk, LockOk, CondOk,
         SemaUp, DownAttempt, ThreadYield, ThreadExit, ThreadBlock;
    CurrentFacts(s);
    CondsFrame(s, a, s', w.cond);
    if t != s.current || a != Continue {
      PcFrame(s, a, s', t);
    } else {
      match s.pc[t]
      case Down(x, _) =>
        DownExists(s, x);
        DownPc(s, x, s');
        if x.OfWaiter? { TakeTicket(s, w); }
      case GiveUp(_, _) => GiveUpLock(s, w); UpPc(s, OfLock(l));
      case _ => WorkFacts(s);
    }
  }

  lemma DownExists(s: State, x: SemaId)
    requires WaitOk(s.status, s.pc, s.semas) && s.current in s.pc
    requires s.pc[s.current].Down? && s.pc[s.current].sema == x
    ensures x in s.semas
  {
  }

  lemma GiveUpLock(s: State, w: Waiter)
    requires CondOk(s.pc, s.semas, s.holder, s.conds) && s.current in s.pc
    requires s.pc[s.current].GiveUp? && s.pc[s.current].wait == Some(w)
    ensures w.cond in s.conds && s.pc[s.current].lock == s.conds[w.cond].lock
  {
    assert MonitorOk(s.pc[s.current], s.current, s.semas, s.holder, s.conds);
  }

  lemma {:induction false} StillWaiting(states: seq<State>, actions: seq<Action>, i: nat, j: nat, t: Tid,
                                        w: Waiter, l: LockId)
    requires IsRun(states, actions) && i <= j < |states| && Waiting(states[i], t, w, l)
    requires forall m :: i < m <= j && t in states[m].pc ==> states[m].pc[t] != Client
    ensures Waiting(states[j], t, w, l)
  {
    hide Inv, Waiting, Step, Enabled, Init;
    if i < j {
      StillWaiting(states, actions, i, j - 1, t, w, l);
      RunInv(states, actions, j - 1);
      assert IsStep(states[j - 1], actions[j - 1], states[j]);
      WaitAdvances(states[j - 1], actions[j - 1], states[j], t, w, l);
    }
  }

  lemma WaitStarts(s: State, s': State, c: CondId)
    requires IsStep(s, CallWait(c), s')
    ensures c in s.conds
    ensures Waiting(s', s.current, Waiter(s.current, c, s.conds[c].waits), s.conds[c].lock)
  {
  }

  /** When cond_wait returns its caller holds the lock again, and the ticket it
      drew has been served. */
  lemma WaitReturnsHolding(states: seq<State>, actions: seq<Action>, i: nat, j: nat, t: Tid, c: CondId)
    requires IsRun(states, actions) && i < j < |states|
    requires actions[i] == CallWait(c) && t == states[i].current
    requires forall m :: i < m < j && t in states[m].pc ==> states[m].pc[t] != Client
    requires t in states[j].pc && states[j].pc[t] == Client
    ensures c in states[i].conds && c in states[j].conds
    ensures var l := states[i].conds[c].lock;
      && l in states[j].holder && states[j].holder[l] == Some(t)
      && states[i].conds[c].waits < states[j].conds[c].signals
  {
    hide Inv, Step, Enabled, Init;
    assert IsStep(states[i], actions[i], states[i + 1]);
    WaitStarts(states[i], states[i + 1], c);
    var w := Waiter(t, c, states[i].conds[c].waits);
    var l := states[i].conds[c].lock;
    StillWaiting(states, actions, i + 1, j - 1, t, w, l);
    RunInv(states, actions, j - 1);
    assert IsStep(states[j - 1], actions[j - 1], states[j]);
    WaitAdvances(states[j - 1], actions[j - 1], states[j], t, w, l);
  }

  // ----- cond_signal

  /** t is inside a cond_signal(c) of its own that found c as v. */
  ghost predicate Signalling(s: State, t: Tid, c: CondId, v: Cond) {
    && t in s.pc && c in s.conds
    && match s.pc[t]
       case SigTest(d, ByClient) => d == c && s.conds[c] == v
       case SigPop(d, ByClient) => d == c && s.conds[c] == v && v.queue != []
       case SigUp(d, w, ByClient) =>
         d == c && v.queue != [] && w == v.queue[0] && s.conds[c] == Popped(v)
       case _ => false
  }

  /** ... and has come back from it. */
  ghost predicate Signalled(s: State, t: Tid, c: CondId, v: Cond) {
    && t in s.pc && s.pc[t] == Client && c in s.conds
    && s.conds[c] == (if v.queue == [] then v else Popped(v))
    && (v.queue != [] ==> OfWaiter(v.queue[0]) in s.semas && s.semas[OfWaiter(v.queue[0])].value > 0)
  }

  lemma MonitorFacts(s: State, t: Tid)
    requires CondOk(s.pc, s.semas, s.holder, s.conds) && t in s.pc
    ensures MonitorOk(s.pc[t], t, s.semas, s.holder, s.conds)
  {
  }

  lemma UpRaises(s: State, x: SemaId)
    requires SemaUp(s, x).Ok?
    ensures x in SemaUp(s, x).state.semas && SemaUp(s, x).state.semas[x].value > 0
  {
  }

  lemma SignalAdvances(s: State, a: Action, s': State, t: Tid, c: CondId, v: Cond)
    requires Inv(s) && IsStep(s, a, s') && Signalling(s, t, c, v)
    ensures Signalling(s', t, c, v) || Signalled(s', t, c, v)
  {
    hide StatusOk, DyingOk, RunningOk, QueueOk, IdleOk, AllOk, WaitOk, CountOk, LockOk, CondOk,
         SemaUp, DownAttempt, ThreadYield, ThreadExit, ThreadBlock;
    CurrentFacts(s);
    MonitorFacts(s, t);
    CondsFrame(s, a, s', c);
    if t != s.current {
      PcFrame(s, a, s', t);
    } else if a != Continue {
      PcFrame(s, a, s', t);
      OwnConds(s, a, s', c);
    } else if s.pc[t].SigUp? {
      UpPc(s, OfWaiter(s.pc[t].waiter));
      UpRaises(s, OfWaiter(s.pc[t].waiter));
    }
  }

  /** Only a thread's own next section touches the condition variables while it
      is inside a monitor. */
  lemma OwnConds(s: State, a: Action, s': State, c: CondId)
    requires IsStep(s, a, s') && c in s.conds && a != Continue && !AtClient(s)
    ensures c in s'.conds && s'.conds[c] == s.conds[c]
  {
    hide SemaUp;
    match a
    case Up(id) => UpPc(s, Plain(id));
    case _ =>
  }

  lemma {:induction false} StillSignalling(states: seq<State>, actions: seq<Action>, i: nat, j: nat, t: Tid,
                                           c: CondId, v: Cond)
    requires IsRun(states, actions) && i <= j < |states| && Signalling(states[i], t, c, v)
    requires forall m :: i < m <= j && t in states[m].pc ==> states[m].pc[t] != Client
    ensures Signalling(states[j], t, c, v)
  {
    hide Inv, Signalling, Step, Enabled, Init;
    if i < j {
      StillSignalling(states, actions, i, j - 1, t, c, v);
      RunInv(states, actions, j - 1);
      assert IsStep(states[j - 1], actions[j - 1], states[j]);
      SignalAdvances(states[j - 1], actions[j - 1], states[j], t, c, v);
    }
  }

  lemma SignalStarts(s: State, s': State, c: CondId)
    requires IsStep(s, CallSignal(c), s')
    ensures c in s.conds && Signalling(s', s.current, c, s.conds[c])
  {
  }

  /** cond_signal takes exactly the longest-waiting waiter off the queue and makes
      its semaphore available, whether or not it is asleep yet; with nobody
      waiting it changes nothing. */
  lemma SignalReleasesOne(states: seq<State>, actions: seq<Action>, i: nat, j: nat, t: Tid, c: CondId)
    requires IsRun(states, actions) && i < j < |states|
    requires actions[i] == CallSignal(c) && t == states[i].current
    requires forall m :: i < m < j && t in states[m].pc ==> states[m].pc[t] != Client
    requires t in states[j].pc && states[j].pc[t] == Client
    ensures c in states[i].conds && c in states[j].conds
    ensures var v, v' := states[i].conds[c], states[j].conds[c];
      if v.queue == [] then v' == v
      else
        var x := OfWaiter(v.queue[0]);
        && v'.queue == v.queue[1..] && v'.signals == v.signals + 1 && v'.waits == v.waits
        && x in states[j].semas && states[j].semas[x].value > 0
  {
    hide Inv, Step, Enabled, Init;
    assert IsStep(states[i], actions[i], states[i + 1]);
    SignalStarts(states[i], states[i + 1], c);
    var v := states[i].conds[c];
    StillSignalling(states, actions, i + 1, j - 1, t, c, v);
    RunInv(states, actions, j - 1);
    assert IsStep(states[j - 1], actions[j - 1], states[j]);
    SignalAdvances(states[j - 1], actions[j - 1], states[j], t, c, v);
  }

  // ----- cond_broadcast

  /** t is inside a cond_broadcast(c) that began when n waits had been made. */
  ghost predicate Broadcasting(s: State, t: Tid, c: CondId, n: nat) {
    t in s.pc && WorksOn(s.pc[t]) == Some(c) && Upto(s.pc[t]) == Some(n) && c in s.conds
  }

  lemma BroadcastAdvances(s: State, a: Action, s': State, t: Tid, c: CondId, n: nat)
    requires Inv(s) && IsStep(s, a, s') && Broadcasting(s, t, c, n)
    ensures || Broadcasting(s', t, c, n)
            || (t in s'.pc && s'.pc[t] == Client && c in s'.conds && s'.conds[c] == s.conds[c]
                && s.conds[c].queue == [] && Holds(s, s.conds[c].lock) && s.current == t && s'.holder == s.holder)
  {
    hide StatusOk, DyingOk, RunningOk, QueueOk, IdleOk, AllOk, WaitOk, CountOk, LockOk, CondOk,
         SemaUp, DownAttempt, ThreadYield, ThreadExit, ThreadBlock;
    CurrentFacts(s);
    MonitorFacts(s, t);
    CondsFrame(s, a, s', c);
    if t != s.current || a != Continue {
      PcFrame(s, a, s', t);
    } else if s.pc[t].SigUp? {
      UpPc(s, OfWaiter(s.pc[t].waiter));
    }
  }

  lemma {:induction false} StillBroadcasting(states: seq<State>, actions: seq<Action>, i: nat, j: nat, t: Tid,
                                             c: CondId, n: nat)
    requires IsRun(states, actions) && i <= j < |states| && Broadcasting(states[i], t, c, n)
    requires forall m :: i < m <= j && t in states[m].pc ==> states[m].pc[t] != Client
    ensures Broadcasting(states[j], t, c, n)
  {
    hide Inv, Broadcasting, Step, Enabled, Init;
    if i < j {
      StillBroadcasting(states, actions, i, j - 1, t, c, n);
      RunInv(states, actions, j - 1);
      assert IsStep(states[j - 1], actions[j - 1], states[j]);
      BroadcastAdvances(states[j - 1], actions[j - 1], states[j], t, c, n);
    }
  }

  lemma TicketCount(s: State, c: CondId)
    requires CondOk(s.pc, s.semas, s.holder, s.conds) && c in s.conds
    ensures |s.conds[c].queue| == s.conds[c].waits - s.conds[c].signals
  {
    assert TicketsOk(s.semas, c, s.conds[c]);
  }

  lemma BroadcastStarts(s: State, s': State, c: CondId)
    requires IsStep(s, CallBroadcast(c), s')
    ensures c in s.conds && Broadcasting(s', s.current, c, s.conds[c].waits)
  {
  }

  /** cond_broadcast releases exactly the waiters that were queued when it was
      called: no more waits are made meanwhile, and every ticket is served. */
  lemma BroadcastReleasesAll(states: seq<State>, actions: seq<Action>, i: nat, j: nat, t: Tid, c: CondId)
    requires IsRun(states, actions) && i < j < |states|
    requires actions[i] == CallBroadcast(c) && t == states[i].current
    requires forall m :: i < m < j && t in states[m].pc ==> states[m].pc[t] != Client
    requires t in states[j].pc && states[j].pc[t] == Client
    ensures c in states[i].conds && c in states[j].conds
    ensures var v, v' := states[i].conds[c], states[j].conds[c];
      && v'.queue == [] && v'.waits == v.waits && v'.signals == v.signals + |v.queue|
      && forall w :: w in v.queue && OfWaiter(w) in states[j].semas ==> states[j].semas[OfWaiter(w)].value == 1
  {
    hide Inv, Step, Enabled, Init;
    assert IsStep(states[i], actions[i], states[i + 1]);
    BroadcastStarts(states[i], states[i + 1], c);
    var n := states[i].conds[c].waits;
    StillBroadcasting(states, actions, i + 1, j - 1, t, c, n);
    RunInv(states, actions, j - 1);
    assert IsStep(states[j - 1], actions[j - 1], states[j]);
    BroadcastAdvances(states[j - 1], actions[j - 1], states[j], t, c, n);
    RunInv(states, actions, i);
    RunInv(states, actions, j);
    BroadcastEnds(states[i], states[j - 1], t, c, n);
    forall w | w in states[i].conds[c].queue && OfWaiter(w) in states[j].semas
      ensures states[j].semas[OfWaiter(w)].value == 1
    {
      QueuedTicket(states[i], c, w);
      TicketLaw(states, actions, j, w);
      NotRaised(states[j], t, c, w);
    }
  }

  lemma QueuedTicket(s: State, c: CondId, w: Waiter)
    requires Inv(s) && c in s.conds && w in s.conds[c].queue
    ensures w.cond == c && w.ticket < s.conds[c].signals + |s.conds[c].queue|
  {
    assert TicketsOk(s.semas, c, s.conds[c]);
  }

  /** While t holds the lock and is not signalling, nobody is about to up a waiter. */
  lemma NotRaised(s: State, t: Tid, c: CondId, w: Waiter)
    requires Inv(s) && c in s.conds && s.conds[c].lock in s.holder && s.holder[s.conds[c].lock] == Some(t)
    requires t in s.pc && s.pc[t] == Client && w.cond == c
    ensures !Raised(s.pc, w)
  {
    hide StatusOk, DyingOk, RunningOk, QueueOk, IdleOk, AllOk, WaitOk, CountOk, LockOk, CondOk;
    forall u | u in s.pc
      ensures s.pc[u].SigUp? && s.pc[u].waiter.cond == c ==> s.holder[s.conds[c].lock] == Some(u)
    {
      MonitorFacts(s, u);
    }
  }

  lemma BroadcastEnds(s: State, e: State, t: Tid, c: CondId, n: nat)
    requires Inv(s) && Inv(e) && Broadcasting(e, t, c, n) && c in s.conds && s.conds[c].waits == n
    requires e.conds[c].queue == []
    ensures e.conds[c].waits == n && e.conds[c].signals == s.conds[c].signals + |s.conds[c].queue|
  {
    hide StatusOk, DyingOk, RunningOk, QueueOk, IdleOk, AllOk, WaitOk, CountOk, LockOk, CondOk;
    MonitorFacts(e, t);
    TicketCount(s, c);
    TicketCount(e, c);
  }
}
