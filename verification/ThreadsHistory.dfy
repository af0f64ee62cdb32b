/** What the steps of a run add up to: the value of a semaphore counts the ups and
    downs made of it, and both kinds of queue are served in order. */
module ThreadsHistory {
  import opened Options
  import opened Seqs
  import opened Threads
  import opened ThreadsInvariant
  import opened ThreadsActions
  import opened ThreadsRuns
  import opened ThreadsWaits
  import opened ThreadsEffects

  // ----- The history of a semaphore

  /** How many of the steps from i up to j were ups of x. */
  ghost function Ups(states: seq<State>, actions: seq<Action>, x: SemaId, i: nat, j: nat): nat
    requires IsRun(states, actions) && i <= j < |states|
  {
    if i == j then 0
    else Ups(states, actions, x, i, j - 1) + One(Raises(states[j - 1], actions[j - 1], x))
  }

  /** How many of them were downs, or try-downs, of x that went through. */
  ghost function Downs(states: seq<State>, actions: seq<Action>, x: SemaId, i: nat, j: nat): nat
    requires IsRun(states, actions) && i <= j < |states|
  {
    if i == j then 0
    else Downs(states, actions, x, i, j - 1) + One(Takes(states[j - 1], actions[j - 1], x))
  }

  /** x was there from state i to state j. */
  ghost predicate Lives(states: seq<State>, x: SemaId, i: nat, j: nat) {
    i <= j < |states| && forall m :: i <= m <= j ==> x in states[m].semas
  }

  /** x came into being with value v just before state i. */
  ghost predicate Begins(states: seq<State>, actions: seq<Action>, x: SemaId, v: nat, i: nat)
    requires IsRun(states, actions)
  {
    if i == 0 then x == IDLE_STARTED && v == 0
    else i <= |actions| && Creates(states[i - 1], actions[i - 1], x) && v == FirstValue(actions[i - 1])
  }

  /** Whatever semaphore is found in a run, its sema_init is in the run, and its value
      is the initial one plus the ups since, less the downs that went through. */
  lemma {:induction false} SemaphoreHistory(states: seq<State>, actions: seq<Action>, j: nat, x: SemaId)
    returns (i: nat, v: nat)
    requires IsRun(states, actions) && j < |states| && x in states[j].semas
    ensures Lives(states, x, i, j) && Begins(states, actions, x, v, i)
    ensures states[j].semas[x].value == v + Ups(states, actions, x, i, j) - Downs(states, actions, x, i, j)
    ensures states[j].semas[x].init == v
    ensures states[j].semas[x].ups == Ups(states, actions, x, i, j)
    ensures states[j].semas[x].downs == Downs(states, actions, x, i, j)
  {
    hide Inv, Enabled, Step, Raises, Takes, Sleeps, Creates;
    if j == 0 {
      i, v := 0, 0;
    } else {
      RunInv(states, actions, j - 1);
      assert IsStep(states[j - 1], actions[j - 1], states[j]);
      SemaChanges(states[j - 1], actions[j - 1], states[j]);
      if x in states[j - 1].semas {
        i, v := SemaphoreHistory(states, actions, j - 1, x);
      } else {
        i, v := j, FirstValue(actions[j - 1]);
      }
    }
  }

  /** The same, from the sema_init on: but for a waiter's, which its wait takes along,
      the semaphore stays, and its value counts the ups and downs. */
  lemma {:induction false} CountedFrom(states: seq<State>, actions: seq<Action>, i: nat, j: nat, x: SemaId, v: nat)
    requires IsRun(states, actions) && i <= j < |states| && Begins(states, actions, x, v, i) && !x.OfWaiter?
    ensures Lives(states, x, i, j)
    ensures states[j].semas[x].value == v + Ups(states, actions, x, i, j) - Downs(states, actions, x, i, j)
  {
    hide Inv, Enabled, Step, Raises, Takes, Sleeps, Creates;
    if j > 0 {
      RunInv(states, actions, j - 1);
      assert IsStep(states[j - 1], actions[j - 1], states[j]);
      SemaChanges(states[j - 1], actions[j - 1], states[j]);
      if i == j {
        CreatesNew(states[j - 1], actions[j - 1], x);
      } else {
        CountedFrom(states, actions, i, j - 1, x, v);
      }
    }
  }

  // ----- Threads on a wait list

  /** The current thread is not trying a waiter's semaphore on which one sleeps. */
  lemma WaiterAlone(s: State, x: SemaId)
    requires Inv(s) && x in s.semas && s.semas[x].waiters != []
    ensures x.OfWaiter? && s.current in s.pc && s.pc[s.current].Down? ==> s.pc[s.current].sema != x
  {
    hide StatusOk, DyingOk, QueueOk, IdleOk, AllOk, CountOk, LockOk, CondOk;
    assert s.semas[x].waiters[0] in s.semas[x].waiters;
    MonitorFacts(s, s.semas[x].waiters[0]);
    CurrentFacts(s);
    MonitorFacts(s, s.current);
  }

  /** A thread asleep on x keeps x in being. */
  lemma WaitedOn(s: State, a: Action, s': State, x: SemaId)
    requires Inv(s) && IsStep(s, a, s') && x in s.semas && s.semas[x].waiters != []
    ensures x in s'.semas
  {
    hide SchedOk, WaitOk, CountOk, LockOk, CondOk, Enabled, Step;
    SemaChanges(s, a, s');
    CurrentFacts(s);
    WaiterAlone(s, x);
  }

  /** Until its turn comes, a thread asleep on x moves up by one at each up of x. */
  lemma {:induction false} WaitPosition(states: seq<State>, actions: seq<Action>, i: nat, j: nat, x: SemaId, k: nat)
    requires IsRun(states, actions) && i <= j < |states| && x in states[i].semas
    requires k < |states[i].semas[x].waiters| && Ups(states, actions, x, i, j) <= k
    ensures x in states[j].semas
    ensures var d := Ups(states, actions, x, i, j); var waiters := states[j].semas[x].waiters;
      k - d < |waiters| && waiters[k - d] == states[i].semas[x].waiters[k]
  {
    hide Inv, Enabled, Step, Raises, Takes, Sleeps;
    if i < j {
      WaitPosition(states, actions, i, j - 1, x, k);
      RunInv(states, actions, j - 1);
      assert IsStep(states[j - 1], actions[j - 1], states[j]);
      WaitedOn(states[j - 1], actions[j - 1], states[j], x);
      WaitersMove(states[j - 1], actions[j - 1], states[j], x);
    }
  }

  lemma WaitersMove(s: State, a: Action, s': State, x: SemaId)
    requires Inv(s) && IsStep(s, a, s') && x in s.semas && x in s'.semas && s.semas[x].waiters != []
    ensures if Raises(s, a, x) then s'.semas[x].waiters == s.semas[x].waiters[1..]
            else s.semas[x].waiters <= s'.semas[x].waiters
  {
    hide Inv, Enabled, Step, Raises, Takes, Sleeps;
    SemaChanges(s, a, s');
  }

  /** sema_up of x puts the thread that waited longest on the back of the run queue,
      and takes it off the list; the value goes up by one whether or not one waited. */
  lemma UpWakes(states: seq<State>, actions: seq<Action>, i: nat, x: SemaId)
    requires IsRun(states, actions) && i < |actions| && Raises(states[i], actions[i], x)
    ensures x in states[i].semas && x in states[i + 1].semas
    ensures states[i + 1].semas[x].value == states[i].semas[x].value + 1
    ensures var waiters := states[i].semas[x].waiters;
      if waiters == [] then states[i + 1].ready == states[i].ready && states[i + 1].semas[x].waiters == []
      else
        && states[i + 1].semas[x].waiters == waiters[1..] && waiters[0] !in waiters[1..]
        && states[i + 1].ready == states[i].ready + [waiters[0]]
        && waiters[0] in states[i + 1].status && states[i + 1].status[waiters[0]] == Ready
  {
    hide StatusOk, DyingOk, RunningOk, QueueOk, IdleOk, AllOk, CountOk, LockOk, CondOk, Enabled, Step, Init;
    var s, a, s' := states[i], actions[i], states[i + 1];
    assert IsStep(s, a, s');
    RunInv(states, actions, i);
    UpExists(s, a, s', x);
    SemaChanges(s, a, s');
    QueueChanges(s, a, s');
    StatusChanges(s, a, s');
    FrontBlocked(s, x);
  }

  lemma UpExists(s: State, a: Action, s': State, x: SemaId)
    requires IsStep(s, a, s') && Raises(s, a, x)
    ensures x in s.semas && !Tries(s, a, x) && !Switches(s, a)
  {
    hide ThreadYield, ThreadBlock, ThreadExit, DownAttempt;
  }

  /** The thread at position k of x's list is woken by exactly the (k+1)-th later up
      of x, and sleeps on x until then. */
  lemma WokenInOrder(states: seq<State>, actions: seq<Action>, i: nat, j: nat, x: SemaId, k: nat)
    requires IsRun(states, actions) && i <= j < |actions| && x in states[i].semas
    requires k < |states[i].semas[x].waiters| && Ups(states, actions, x, i, j) == k
    requires Raises(states[j], actions[j], x)
    ensures var t := states[i].semas[x].waiters[k];
      && (forall m :: i <= m <= j ==> x in states[m].semas && t in states[m].semas[x].waiters)
      && t in states[j + 1].status && states[j + 1].status[t] == Ready
      && states[j + 1].ready == states[j].ready + [t]
  {
    hide Enabled, Step, Init, Raises, Takes, Sleeps;
    var t := states[i].semas[x].waiters[k];
    forall m | i <= m <= j
      ensures x in states[m].semas && t in states[m].semas[x].waiters
    {
      UpsGrow(states, actions, x, i, m, j);
      WaitPosition(states, actions, i, m, x, k);
    }
    WaitPosition(states, actions, i, j, x, k);
    UpWakes(states, actions, j, x);
  }

  lemma {:induction false} UpsGrow(states: seq<State>, actions: seq<Action>, x: SemaId, i: nat, m: nat, j: nat)
    requires IsRun(states, actions) && i <= m <= j < |states|
    ensures Ups(states, actions, x, i, m) <= Ups(states, actions, x, i, j)
    decreases j
  {
    hide Enabled, Step, Init, Raises;
    if m < j { UpsGrow(states, actions, x, i, m, j - 1); }
  }

  // ----- Dispatches

  /** How many of the steps from i up to j ended in schedule(). */
  ghost function Dispatches(states: seq<State>, actions: seq<Action>, i: nat, j: nat): nat
    requires IsRun(states, actions) && i <= j < |states|
  {
    if i == j then 0
    else Dispatches(states, actions, i, j - 1) + One(Switches(states[j - 1], actions[j - 1]))
  }

  /** Round robin, counted in the actions of the run: the thread at position k runs
      after exactly the (k+1)-th later step that yields, blocks or exits. */
  lemma RunInOrder(states: seq<State>, actions: seq<Action>, i: nat, j: nat, k: nat)
    requires IsRun(states, actions) && i <= j < |actions| && k < |states[i].ready|
    requires Dispatches(states, actions, i, j) == k && Switches(states[j], actions[j])
    ensures states[j + 1].current == states[i].ready[k]
    ensures forall m :: i <= m <= j ==> states[m].current != states[i].ready[k]
  {
    hide Enabled, Step, Init, Switches;
    DispatchHistory(states, actions, i, j);
    assert IsStep(states[j], actions[j], states[j + 1]);
    QueueChanges(states[j], actions[j], states[j + 1]);
    RoundRobin(states, actions, i, j + 1, k);
  }

  lemma {:induction false} DispatchHistory(states: seq<State>, actions: seq<Action>, i: nat, j: nat)
    requires IsRun(states, actions) && i <= j < |states|
    ensures states[j].dispatches == states[i].dispatches + Dispatches(states, actions, i, j)
  {
    hide Enabled, Step, Init, Switches;
    if i < j {
      DispatchHistory(states, actions, i, j - 1);
      assert IsStep(states[j - 1], actions[j - 1], states[j]);
      QueueChanges(states[j - 1], actions[j - 1], states[j]);
    }
  }
}
