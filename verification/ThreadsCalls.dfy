/** Whole calls of sema_down, lock_acquire, lock_try_acquire, lock_release and
    cond_wait, from the call to the return, with anything else happening in between. */
module ThreadsCalls {
  import opened Options
  import opened Threads
  import opened ThreadsInvariant
  import opened ThreadsActions
  import opened ThreadsRuns
  import opened ThreadsWaits
  import opened ThreadsEffects

  /** t calls something in state i and first comes back from it in state j. */
  ghost predicate Returns(states: seq<State>, i: nat, j: nat, t: Tid) {
    && i < j < |states| && t == states[i].current
    && (forall m :: i < m < j && t in states[m].pc ==> states[m].pc[t] != Client)
    && t in states[j].pc && states[j].pc[t] == Client
  }

  /** The current thread goes on with its own call. */
  predicate Own(s: State, a: Action, t: Tid) { a == Continue && s.current == t }

  // ----- sema_down and lock_acquire

  /** t is past the call of sema_down on x, and has not gone through. */
  predicate Trying(s: State, t: Tid, x: SemaId) {
    t in s.pc && s.pc[t].Down? && s.pc[t].sema == x
  }

  lemma TryingAdvances(s: State, a: Action, s': State, t: Tid, x: SemaId)
    requires Inv(s) && IsStep(s, a, s') && Trying(s, t, x)
    ensures if Own(s, a, t) && Takes(s, a, x) then
              && t in s'.pc
              && (x.Plain? ==> s'.pc[t] == Client)
              && (x.OfLock? ==> s'.pc[t] == TakeHold(x.lock))
            else Trying(s', t, x)
  {
    hide StatusOk, DyingOk, RunningOk, QueueOk, IdleOk, AllOk, WaitOk, CountOk, LockOk, CondOk,
         SemaUp, DownAttempt, ThreadYield, ThreadExit, ThreadBlock;
    CurrentFacts(s);
    if Own(s, a, t) {
      DownExists(s, x);
      DownPc(s, x, s');
    } else {
      PcFrame(s, a, s', t);
    }
  }

  lemma CallStarts(s: State, a: Action, s': State)
    requires IsStep(s, a, s')
    ensures a.CallDown? ==> Trying(s', s.current, Plain(a.id))
    ensures a.CallAcquire? ==> Trying(s', s.current, OfLock(a.lock))
    ensures a.CallRelease? ==> s.current in s'.pc && s'.pc[s.current] == GiveUp(a.lock, None)
  {
    hide ContinueFrom, SemaUp, DownAttempt, ThreadYield, ThreadExit, ThreadBlock, ThreadUnblock;
  }

  lemma {:induction false} StillTrying(states: seq<State>, actions: seq<Action>, i: nat, j: nat, t: Tid, x: SemaId)
    requires IsRun(states, actions) && i <= j < |states| && Trying(states[i], t, x) && x.Plain?
    requires forall m :: i < m <= j && t in states[m].pc ==> states[m].pc[t] != Client
    ensures Trying(states[j], t, x)
    ensures forall m :: i <= m < j ==> !(Own(states[m], actions[m], t) && Takes(states[m], actions[m], x))
  {
    hide Inv, Trying, Step, Enabled, Init, Takes;
    if i < j {
      StillTrying(states, actions, i, j - 1, t, x);
      RunInv(states, actions, j - 1);
      assert IsStep(states[j - 1], actions[j - 1], states[j]);
      TryingAdvances(states[j - 1], actions[j - 1], states[j], t, x);
    }
  }

  /** sema_down comes back as soon as its caller has taken one off the value, and it
      takes one off exactly once. */
  lemma DownReturns(states: seq<State>, actions: seq<Action>, i: nat, j: nat, t: Tid, id: nat)
    requires IsRun(states, actions) && Returns(states, i, j, t) && actions[i] == CallDown(id)
    ensures i < j - 1 && Own(states[j - 1], actions[j - 1], t) && Takes(states[j - 1], actions[j - 1], Plain(id))
    ensures forall m :: i < m < j - 1 ==>
      !(Own(states[m], actions[m], t) && Takes(states[m], actions[m], Plain(id)))
  {
    hide Inv, Step, Enabled, Init, Takes;
    assert IsStep(states[i], actions[i], states[i + 1]);
    CallStarts(states[i], actions[i], states[i + 1]);
    assert i < j - 1;
    StillTrying(states, actions, i + 1, j - 1, t, Plain(id));
    RunInv(states, actions, j - 1);
    assert IsStep(states[j - 1], actions[j - 1], states[j]);
    TryingAdvances(states[j - 1], actions[j - 1], states[j], t, Plain(id));
  }

  /** t is inside lock_acquire of l. */
  predicate Acquiring(s: State, t: Tid, l: LockId) {
    Trying(s, t, OfLock(l)) || (t in s.pc && s.pc[t] == TakeHold(l))
  }

  lemma HoldPc(s: State, l: LockId, s': State)
    requires ContinueFrom(s, TakeHold(l)) == Ok(s')
    ensures s.current in s'.pc && s'.pc[s.current] == Client
  {
    hide SemaUp, DownAttempt, ThreadBlock;
  }

  lemma AcquireAdvances(s: State, a: Action, s': State, t: Tid, l: LockId)
    requires Inv(s) && IsStep(s, a, s') && Acquiring(s, t, l)
    ensures Acquiring(s', t, l) || (t in s'.pc && s'.pc[t] == Client && l in s'.holder && s'.holder[l] == Some(t))
  {
    hide StatusOk, DyingOk, RunningOk, QueueOk, IdleOk, AllOk, WaitOk, CountOk, LockOk, CondOk,
         Step, Enabled, ContinueFrom;
    CurrentFacts(s);
    if Trying(s, t, OfLock(l)) {
      TryingAdvances(s, a, s', t, OfLock(l));
    } else if Own(s, a, t) {
      StepContinue(s, s');
      ContinueStores(s, TakeHold(l), s');
      HoldPc(s, l, s');
    } else {
      PcFrame(s, a, s', t);
    }
  }

  lemma {:induction false} StillAcquiring(states: seq<State>, actions: seq<Action>, i: nat, j: nat, t: Tid, l: LockId)
    requires IsRun(states, actions) && i <= j < |states| && Acquiring(states[i], t, l)
    requires forall m :: i < m <= j && t in states[m].pc ==> states[m].pc[t] != Client
    ensures Acquiring(states[j], t, l)
  {
    hide Inv, Acquiring, Step, Enabled, Init;
    if i < j {
      StillAcquiring(states, actions, i, j - 1, t, l);
      RunInv(states, actions, j - 1);
      assert IsStep(states[j - 1], actions[j - 1], states[j]);
      AcquireAdvances(states[j - 1], actions[j - 1], states[j], t, l);
    }
  }

  lemma AcquireEnds(states: seq<State>, actions: seq<Action>, i: nat, j: nat, t: Tid, l: LockId)
    requires IsRun(states, actions) && Returns(states, i, j, t) && Acquiring(states[i + 1], t, l)
    ensures l in states[j].holder && states[j].holder[l] == Some(t)
  {
    hide Inv, Step, Enabled, Init;
    assert i < j - 1;
    StillAcquiring(states, actions, i + 1, j - 1, t, l);
    RunInv(states, actions, j - 1);
    assert IsStep(states[j - 1], actions[j - 1], states[j]);
    AcquireAdvances(states[j - 1], actions[j - 1], states[j], t, l);
  }

  /** When lock_acquire returns, its caller holds the lock. */
  lemma AcquireReturnsHolding(states: seq<State>, actions: seq<Action>, i: nat, j: nat, t: Tid, l: LockId)
    requires IsRun(states, actions) && Returns(states, i, j, t) && actions[i] == CallAcquire(l)
    ensures l in states[j].holder && states[j].holder[l] == Some(t)
  {
    hide Inv, Step, Enabled, Init;
    assert IsStep(states[i], actions[i], states[i + 1]);
    CallStarts(states[i], actions[i], states[i + 1]);
    AcquireEnds(states, actions, i, j, t, l);
  }

  lemma TryStarts(s: State, l: LockId, s': State)
    requires IsStep(s, TryAcquire(l), s')
    ensures OfLock(l) in s.semas && s.current in s'.pc
    ensures if s.semas[OfLock(l)].value > 0 then s'.pc[s.current] == TakeHold(l)
            else s'.pc[s.current] == Client && s'.holder == s.holder && s'.semas == s.semas
  {
  }

  /** lock_try_acquire returns with the lock when it was free, and otherwise returns at
      once and changes nothing. */
  lemma TryAcquireReturns(states: seq<State>, actions: seq<Action>, i: nat, j: nat, t: Tid, l: LockId)
    requires IsRun(states, actions) && Returns(states, i, j, t) && actions[i] == TryAcquire(l)
    ensures OfLock(l) in states[i].semas
    ensures if states[i].semas[OfLock(l)].value > 0 then l in states[j].holder && states[j].holder[l] == Some(t)
            else j == i + 1 && states[j].holder == states[i].holder && states[j].semas == states[i].semas
  {
    hide Inv, Step, Enabled, Init;
    assert IsStep(states[i], actions[i], states[i + 1]);
    TryStarts(states[i], l, states[i + 1]);
    if states[i].semas[OfLock(l)].value > 0 {
      AcquireEnds(states, actions, i, j, t, l);
    }
  }

  // ----- lock_release

  lemma GiveUpPc(s: State, l: LockId, wait: Option<Waiter>, s': State)
    requires ContinueFrom(s, GiveUp(l, wait)) == Ok(s')
    ensures s.current in s'.pc && s'.holder == s.holder
    ensures s'.pc[s.current] == if wait == None then Client else Down(OfWaiter(wait.value), false)
  {
    hide SemaUp, DownAttempt, ThreadBlock;
    UpPc(s, OfLock(l));
  }

  /** While a thread is giving up l nobody holds it, and it goes on only by the up. */
  lemma GiveUpAdvances(s: State, a: Action, s': State, t: Tid, l: LockId, wait: Option<Waiter>)
    requires Inv(s) && IsStep(s, a, s') && t in s.pc && s.pc[t] == GiveUp(l, wait)
    ensures l in s.holder && s.holder[l] == None && t in s'.pc
    ensures if Own(s, a, t) then
              && Raises(s, a, OfLock(l)) && l in s'.holder && s'.holder[l] == None
              && s'.pc[t] == if wait == None then Client else Down(OfWaiter(wait.value), false)
            else s'.pc[t] == GiveUp(l, wait)
  {
    hide SchedOk, WaitOk, CountOk, CondOk, Step, Enabled, ContinueFrom;
    CurrentFacts(s);
    if Own(s, a, t) {
      StepContinue(s, s');
      GiveUpPc(s, l, wait, s');
    } else {
      hide LockOk;
      PcFrame(s, a, s', t);
    }
  }

  lemma {:induction false} StillGiving(states: seq<State>, actions: seq<Action>, i: nat, j: nat, t: Tid, l: LockId)
    requires IsRun(states, actions) && i <= j < |states|
    requires t in states[i].pc && states[i].pc[t] == GiveUp(l, None)
    requires forall m :: i < m <= j && t in states[m].pc ==> states[m].pc[t] != Client
    ensures t in states[j].pc && states[j].pc[t] == GiveUp(l, None)
    ensures forall m :: i <= m < j ==> l in states[m].holder && states[m].holder[l] == None
  {
    hide Inv, Step, Enabled, Init;
    if i < j {
      StillGiving(states, actions, i, j - 1, t, l);
      RunInv(states, actions, j - 1);
      assert IsStep(states[j - 1], actions[j - 1], states[j]);
      GiveUpAdvances(states[j - 1], actions[j - 1], states[j], t, l, None);
    }
  }

  /** From the call of lock_release to its return nobody holds the lock, and the call
      ends with the up that lets the next one in. */
  lemma ReleaseReturns(states: seq<State>, actions: seq<Action>, i: nat, j: nat, t: Tid, l: LockId)
    requires IsRun(states, actions) && Returns(states, i, j, t) && actions[i] == CallRelease(l)
    ensures i < j - 1 && Own(states[j - 1], actions[j - 1], t) && Raises(states[j - 1], actions[j - 1], OfLock(l))
    ensures forall m :: i < m <= j ==> l in states[m].holder && states[m].holder[l] == None
  {
    hide Inv, Step, Enabled, Init, Raises;
    assert IsStep(states[i], actions[i], states[i + 1]);
    CallStarts(states[i], actions[i], states[i + 1]);
    assert i < j - 1;
    StillGiving(states, actions, i + 1, j - 1, t, l);
    RunInv(states, actions, j - 1);
    assert IsStep(states[j - 1], actions[j - 1], states[j]);
    GiveUpAdvances(states[j - 1], actions[j - 1], states[j], t, l, None);
  }

  // ----- cond_wait

  /** t is in cond_wait and has not let go of the lock. */
  predicate Unlocking(s: State, t: Tid, w: Waiter, l: LockId) {
    t in s.pc && (s.pc[t] == Unlock(w) || s.pc[t] == GiveUp(l, Some(w)))
  }

  lemma UnlockPc(s: State, w: Waiter, s': State)
    requires ContinueFrom(s, Unlock(w)) == Ok(s')
    ensures w.cond in s.conds && s.current in s'.pc
    ensures s'.pc[s.current] == GiveUp(s.conds[w.cond].lock, Some(w))
  {
    hide SemaUp, DownAttempt, ThreadBlock;
  }

  lemma UnlockAdvances(s: State, a: Action, s': State, t: Tid, w: Waiter, l: LockId)
    requires Inv(s) && IsStep(s, a, s') && Unlocking(s, t, w, l) && Waiting(s, t, w, l)
    ensures Unlocking(s', t, w, l) || (Own(s, a, t) && Raises(s, a, OfLock(l)))
  {
    hide SchedOk, WaitOk, CountOk, LockOk, CondOk, Step, Enabled, ContinueFrom;
    CurrentFacts(s);
    if s.pc[t].GiveUp? {
      GiveUpAdvances(s, a, s', t, l, Some(w));
    } else if Own(s, a, t) {
      StepContinue(s, s');
      UnlockPc(s, w, s');
    } else {
      PcFrame(s, a, s', t);
    }
  }

  lemma {:induction false} LetsGo(states: seq<State>, actions: seq<Action>, i: nat, j: nat, t: Tid,
                                  w: Waiter, l: LockId)
    requires IsRun(states, actions) && i <= j < |states|
    requires Unlocking(states[i], t, w, l) && Waiting(states[i], t, w, l)
    requires forall m :: i < m < j && t in states[m].pc ==> states[m].pc[t] != Client
    requires !Unlocking(states[j], t, w, l)
    ensures exists k :: i <= k < j && Own(states[k], actions[k], t) && Raises(states[k], actions[k], OfLock(l))
  {
    hide Inv, Step, Enabled, Init, Raises, Unlocking, Waiting;
    if Unlocking(states[j - 1], t, w, l) {
      StillWaiting(states, actions, i, j - 1, t, w, l);
      RunInv(states, actions, j - 1);
      assert IsStep(states[j - 1], actions[j - 1], states[j]);
      UnlockAdvances(states[j - 1], actions[j - 1], states[j], t, w, l);
    } else {
      LetsGo(states, actions, i, j - 1, t, w, l);
    }
  }

  lemma WaitBegins(s: State, s': State, c: CondId)
    requires IsStep(s, CallWait(c), s')
    ensures c in s.conds
    ensures s.current in s'.pc && s'.pc[s.current] == Unlock(Waiter(s.current, c, s.conds[c].waits))
  {
    hide ContinueFrom, SemaUp, DownAttempt, ThreadYield, ThreadExit, ThreadBlock, ThreadUnblock;
  }

  /** Before cond_wait returns, its caller has let go of the lock. */
  lemma WaitLetsGo(states: seq<State>, actions: seq<Action>, i: nat, j: nat, t: Tid, c: CondId)
    requires IsRun(states, actions) && Returns(states, i, j, t) && actions[i] == CallWait(c)
    ensures c in states[i].conds
    ensures exists k :: i < k < j && Own(states[k], actions[k], t)
                        && Raises(states[k], actions[k], OfLock(states[i].conds[c].lock))
  {
    hide Inv, Step, Enabled, Init, Raises, Waiting;
    assert IsStep(states[i], actions[i], states[i + 1]);
    WaitStarts(states[i], states[i + 1], c);
    WaitBegins(states[i], states[i + 1], c);
    LetsGo(states, actions, i + 1, j, t, Waiter(t, c, states[i].conds[c].waits), states[i].conds[c].lock);
  }
}
