/** What a step does to each part of the system, told from the action and the place
    of the current thread: to a semaphore, to the run queue, to a thread, to a lock. */
module ThreadsEffects {
  import opened Options
  import opened Seqs
  import opened Threads
  import opened ThreadsInvariant
  import opened ThreadsActions
  import opened ThreadsRuns
  import opened ThreadsWaits

  // ----- What the actions do to semaphores

  /** Where the current thread is when it goes on by itself. */
  function Place(s: State, a: Action): Pc {
    if a == Continue && s.current in s.pc then s.pc[s.current] else Client
  }

  /** The semaphore that the step ups, if any. */
  function UpOf(s: State, a: Action): Option<SemaId> {
    match Place(s, a)
    case GiveUp(l, _) => Some(OfLock(l))
    case SigUp(_, w, _) => Some(OfWaiter(w))
    case IdleUp => Some(IDLE_STARTED)
    case _ => if a.Up? then Some(Plain(a.id)) else None
  }

  predicate Raises(s: State, a: Action, x: SemaId) {
    UpOf(s, a) == Some(x)
  }

  /** The step is a sema_try_down of x, or a turn of the loop in sema_down. */
  predicate Tries(s: State, a: Action, x: SemaId) {
    match Place(s, a)
    case Down(y, _) => x == y
    case _ => (a.TryDown? && x == Plain(a.id)) || (a.TryAcquire? && x == OfLock(a.lock))
  }

  predicate Takes(s: State, a: Action, x: SemaId) {
    Tries(s, a, x) && x in s.semas && s.semas[x].value > 0
  }

  predicate Sleeps(s: State, a: Action, x: SemaId) {
    a == Continue && Tries(s, a, x) && x in s.semas && s.semas[x].value == 0
  }

  /** The step is a sema_init of x. */
  predicate Creates(s: State, a: Action, x: SemaId) {
    match a
    case SemaInit(id, _) => x == Plain(id)
    case LockInit(l) => x == OfLock(l)
    case CallWait(c) => c in s.conds && x == OfWaiter(Waiter(s.current, c, s.conds[c].waits))
    case _ => false
  }

  /** ... to this value. */
  function FirstValue(a: Action): nat {
    match a
    case SemaInit(_, v) => v
    case LockInit(_) => 1
    case _ => 0
  }

  function One(b: bool): nat { if b then 1 else 0 }

  /** x before and after a step. */
  predicate SemaStep(s: State, a: Action, x: SemaId, m: Sema, m': Sema) {
    && m'.value == m.value + One(Raises(s, a, x)) - One(Takes(s, a, x))
    && m'.waiters == (if Raises(s, a, x) then m.waiters[One(m.waiters != [])..]
                      else if Sleeps(s, a, x) then m.waiters + [s.current] else m.waiters)
    && m'.init == m.init
    && m'.ups == m.ups + One(Raises(s, a, x))
    && m'.downs == m.downs + One(Takes(s, a, x))
  }

  lemma YieldSemas(s: State)
    requires ThreadYield(s).Ok?
    ensures ThreadYield(s).state.semas == s.semas
  {
  }

  /** What thread_block leaves alone. */
  lemma BlockFrame(s: State)
    requires ThreadBlock(s).Ok?
    ensures var r := ThreadBlock(s).state;
      r.semas == s.semas && r.holder == s.holder && r.conds == s.conds && r.all == s.all
  {
  }

  /** ... and a turn of sema_down's loop. */
  lemma DownFrame(s: State, x: SemaId)
    requires DownAttempt(s, x).Ok?
    ensures var r := DownAttempt(s, x).state; r.holder == s.holder && r.conds == s.conds && r.all == s.all
  {
  }

  lemma ExitSemas(s: State)
    requires ThreadExit(s).Ok?
    ensures ThreadExit(s).state.semas == s.semas
  {
  }

  lemma UnblockSemas(s: State, t: Tid)
    requires ThreadUnblock(s, t).Ok?
    ensures ThreadUnblock(s, t).state.semas == s.semas
  {
  }

  /** New identities are new: no semaphore is initialized over a live one. */
  lemma CreatesNew(s: State, a: Action, x: SemaId)
    requires Inv(s) && Enabled(s, a) && Creates(s, a, x)
    ensures x !in s.semas
  {
    hide SchedOk, WaitOk, CountOk;
    assert x.OfWaiter? && x in s.semas ==> WaiterOk(s.pc, s.semas, s.conds, x.waiter);
  }

  function RaisedBy(semas: map<SemaId, Sema>, x: SemaId): map<SemaId, Sema>
    requires x in semas
  {
    var m := semas[x];
    semas[x := Sema(m.value + 1, m.waiters[One(m.waiters != [])..], m.init, m.ups + 1, m.downs)]
  }

  lemma UpSema(s: State, x: SemaId)
    requires SemaUp(s, x).Ok?
    ensures x in s.semas && SemaUp(s, x).state.semas == RaisedBy(s.semas, x)
  {
  }

  function TriedBy(semas: map<SemaId, Sema>, x: SemaId, t: Tid): map<SemaId, Sema>
    requires x in semas
  {
    var m := semas[x];
    if m.value == 0 then semas[x := m.(waiters := m.waiters + [t])]
    else if x.OfWaiter? then semas - {x}
    else semas[x := m.(value := m.value - 1, downs := m.downs + 1)]
  }

  lemma DownSema(s: State, x: SemaId, s': State)
    requires DownAttempt(s, x) == Ok(s')
    ensures x in s.semas && s'.semas == TriedBy(s.semas, x, s.current)
  {
  }

  /** The sections that touch no semaphore. */
  lemma ContinueOther(s: State, p: Pc, s': State)
    requires ContinueFrom(s, p) == Ok(s') && !(p.Down? || p.GiveUp? || p.SigUp? || p.IdleUp?)
    ensures s'.semas == s.semas
  {
    hide SemaUp, DownAttempt, ThreadBlock;
    if p.IdleLoop? { BlockFrame(s); }
  }

  /** What a step makes of the semaphores. */
  ghost predicate SemasStep(s: State, a: Action, semas': map<SemaId, Sema>) {
    && (forall x :: x in s.semas ==> (x in semas' <==> !(x.OfWaiter? && Takes(s, a, x))))
    && (forall x :: x in s.semas && x in semas' ==> SemaStep(s, a, x, s.semas[x], semas'[x]))
    && (forall x :: x !in s.semas ==> (x in semas' <==> Creates(s, a, x)))
    && (forall x :: x !in s.semas && x in semas' ==>
          semas'[x] == Sema(FirstValue(a), [], FirstValue(a), 0, 0))
  }

  lemma RaiseSemas(s: State, a: Action, x: SemaId)
    requires x in s.semas && Raises(s, a, x)
    ensures SemasStep(s, a, RaisedBy(s.semas, x))
  {
  }

  lemma TrySemas(s: State, x: SemaId)
    requires x in s.semas && Tries(s, Continue, x)
    ensures SemasStep(s, Continue, TriedBy(s.semas, x, s.current))
  {
  }

  lemma ContinueUp(s: State, p: Pc, s': State, x: SemaId)
    requires ContinueFrom(s, p) == Ok(s')
    requires match p
      case GiveUp(l, _) => x == OfLock(l)
      case SigUp(_, w, _) => x == OfWaiter(w)
      case IdleUp => x == IDLE_STARTED
      case _ => false
    ensures x in s.semas && s'.semas == RaisedBy(s.semas, x)
  {
    hide SemaUp, DownAttempt, ThreadBlock;
    if SemaUp(s, x).Ok? { UpSema(s, x); }
  }

  lemma ContinueDown(s: State, p: Pc, s': State)
    requires ContinueFrom(s, p) == Ok(s') && p.Down?
    ensures p.sema in s.semas && s'.semas == TriedBy(s.semas, p.sema, s.current)
  {
    hide SemaUp, DownAttempt, ThreadBlock;
    DownSema(s, p.sema, s');
  }

  lemma ContinueSemas(s: State, s': State)
    requires s.current in s.pc && ContinueFrom(s, s.pc[s.current]) == Ok(s')
    ensures SemasStep(s, Continue, s'.semas)
  {
    hide ContinueFrom, SemasStep, RaisedBy, TriedBy;
    var p := s.pc[s.current];
    match p
    case Down(x, _) => ContinueDown(s, p, s'); TrySemas(s, x);
    case GiveUp(l, _) => ContinueUp(s, p, s', OfLock(l)); RaiseSemas(s, Continue, OfLock(l));
    case SigUp(_, w, _) => ContinueUp(s, p, s', OfWaiter(w)); RaiseSemas(s, Continue, OfWaiter(w));
    case IdleUp => ContinueUp(s, p, s', IDLE_STARTED); RaiseSemas(s, Continue, IDLE_STARTED);
    case _ => ContinueOther(s, p, s'); RestSemas(s, Continue);
  }

  lemma RestSemas(s: State, a: Action)
    requires Apart(a) || (a == Continue && s.current in s.pc
                          && var p := s.pc[s.current]; !(p.Down? || p.GiveUp? || p.SigUp? || p.IdleUp?))
    ensures SemasStep(s, a, s.semas)
  {
    assert UpOf(s, a) == None;
    assert forall x :: !Tries(s, a, x) && !Creates(s, a, x);
    hide UpOf, Tries, Creates;
  }

  /** The actions that touch no semaphore. */
  predicate Apart(a: Action) {
    !(a.Continue? || a.Up? || a.TryDown? || a.TryAcquire? || a.SemaInit? || a.LockInit? || a.CallWait?)
  }

  lemma ApartSemas(s: State, a: Action, s': State)
    requires IsStep(s, a, s') && Apart(a)
    ensures s'.semas == s.semas
  {
    hide ThreadYield, ThreadBlock, ThreadExit, ThreadUnblock;
    match a
    case Yield => YieldSemas(s);
    case Park => BlockFrame(SetPc(s, Parked));
    case Wake(t) => UnblockSemas(s, t);
    case Launch(t) => UnblockSemas(s, t);
    case Exit => ExitSemas(s);
    case _ =>
  }

  lemma InitSemas(s: State, a: Action, s': State)
    requires Inv(s) && IsStep(s, a, s') && (a.SemaInit? || a.LockInit? || a.CallWait?)
    ensures SemasStep(s, a, s'.semas)
  {
    hide SchedOk, WaitOk, SyncOk, Step, Enabled;
    var x := InitOf(s, a, s');
    CreatesNew(s, a, x);
    assert UpOf(s, a) == None;
    assert forall y :: !Tries(s, a, y) && (Creates(s, a, y) <==> y == x);
    hide UpOf, Tries, Creates;
  }

  lemma InitOf(s: State, a: Action, s': State) returns (x: SemaId)
    requires IsStep(s, a, s') && (a.SemaInit? || a.LockInit? || a.CallWait?)
    ensures Creates(s, a, x) && s'.semas == s.semas[x := Sema(FirstValue(a), [], FirstValue(a), 0, 0)]
  {
    hide ContinueFrom, SemaUp, ThreadYield, ThreadBlock, ThreadExit, ThreadUnblock, HoldsNothing;
    match a
    case SemaInit(id, _) => x := Plain(id);
    case LockInit(l) => x := OfLock(l);
    case CallWait(c) => x := OfWaiter(Waiter(s.current, c, s.conds[c].waits));
  }

  /** A semaphore comes into being only by its own sema_init, with the given value
      and nobody waiting, and changes only through an up, a down or a try-down of it:
      its value by one, its list by the front thread leaving or the current one queueing. */
  lemma SemaChanges(s: State, a: Action, s': State)
    requires Inv(s) && IsStep(s, a, s')
    ensures SemasStep(s, a, s'.semas)
  {
    hide SchedOk, WaitOk, SyncOk, ContinueFrom, SemaUp, SemaTryDown, SemasStep, Enabled;
    CurrentFacts(s);
    if a.Continue? {
      ContinueSemas(s, s');
    } else if Apart(a) {
      ApartSemas(s, a, s');
      RestSemas(s, a);
    } else if a.Up? {
      UpSema(s, Plain(a.id));
      RaiseSemas(s, a, Plain(a.id));
    } else if a.TryDown? || a.TryAcquire? {
      TryDownSemas(s, a, s');
    } else {
      InitSemas(s, a, s');
    }
  }

  lemma TryDownSemas(s: State, a: Action, s': State)
    requires IsStep(s, a, s') && (a.TryDown? || a.TryAcquire?)
    ensures SemasStep(s, a, s'.semas)
  {
    hide ContinueFrom, ThreadYield, ThreadBlock, ThreadExit, SemaUp, ThreadUnblock, CondQueue;
    var x := if a.TryDown? then Plain(a.id) else OfLock(a.lock);
    assert s'.semas == if s.semas[x].value == 0 then s.semas else TriedBy(s.semas, x, s.current);
    hide Step;
    assert UpOf(s, a) == None;
    assert forall y :: !Creates(s, a, y) && (Tries(s, a, y) <==> y == x);
    hide UpOf, Tries, Creates;
  }

  // ----- What the actions do to the run queue

  /** The thread at the front of x's wait list. */
  function Front(s: State, x: SemaId): seq<Tid> {
    if x in s.semas && s.semas[x].waiters != [] then [s.semas[x].waiters[0]] else []
  }

  /** The thread that the step puts at the back of the run queue, if any. */
  function Joins(s: State, a: Action): seq<Tid> {
    if a.Yield? then (if s.idle == Some(s.current) then [] else [s.current])
    else if a.Wake? || a.Launch? then [a.t]
    else if UpOf(s, a).Some? then Front(s, UpOf(s, a).value)
    else []
  }

  /** The step ends in schedule(). */
  predicate Switches(s: State, a: Action) {
    || a.Yield? || a.Park? || a.Exit?
    || Place(s, a).IdleLoop?
    || (Place(s, a).Down? && Sleeps(s, a, Place(s, a).sema))
  }

  /** From s to s', `joins` is queued and then, if `switch`, the first in line runs. */
  predicate QueueStep(s: State, joins: seq<Tid>, switch: bool, s': State) {
    var line := s.ready + joins;
    if !switch then
      s'.ready == line && s'.current == s.current && s'.dispatches == s.dispatches
    else
      && s'.dispatches == s.dispatches + 1
      && if line == [] then s'.ready == [] && s.idle == Some(s'.current)
         else s'.ready == line[1..] && s'.current == line[0]
  }

  lemma ScheduleQueue(s: State, s1: State)
    requires Schedule(s1).Ok? && s1.dispatches == s.dispatches && s1.idle == s.idle && s.ready <= s1.ready
    ensures QueueStep(s, s1.ready[|s.ready|..], true, Schedule(s1).state)
  {
    assert s.ready + s1.ready[|s.ready|..] == s1.ready;
  }

  lemma BlockQueue(s: State)
    requires ThreadBlock(s).Ok?
    ensures QueueStep(s, [], true, ThreadBlock(s).state)
  {
    hide Schedule, QueueStep;
    ScheduleQueue(s, SetStatus(s, s.current, Blocked));
    assert s.ready[|s.ready|..] == [];
  }

  lemma YieldQueue(s: State)
    requires ThreadYield(s).Ok?
    ensures QueueStep(s, Joins(s, Yield), true, ThreadYield(s).state)
  {
    hide Schedule, QueueStep;
    var s1 := s.(ready := s.ready + Joins(s, Yield));
    ScheduleQueue(s, SetStatus(s1, s.current, Ready));
    assert s1.ready[|s.ready|..] == Joins(s, Yield);
    assert s.ready + [] == s.ready;
  }

  lemma ExitQueue(s: State)
    requires ThreadExit(s).Ok?
    ensures QueueStep(s, [], true, ThreadExit(s).state)
  {
    hide Schedule, QueueStep;
    ScheduleQueue(s, SetStatus(s.(all := Removed(s.all, s.current)), s.current, Dying));
    assert s.ready[|s.ready|..] == [];
  }

  lemma UpQueue(s: State, x: SemaId)
    requires SemaUp(s, x).Ok?
    ensures QueueStep(s, Front(s, x), false, SemaUp(s, x).state)
  {
  }

  lemma DownQueue(s: State, x: SemaId, s': State)
    requires DownAttempt(s, x) == Ok(s')
    ensures x in s.semas && QueueStep(s, [], s.semas[x].value == 0, s')
  {
    hide Schedule, ThreadBlock;
    if s.semas[x].value == 0 {
      var m := s.semas[x];
      BlockQueue(SetPc(s.(semas := s.semas[x := m.(waiters := m.waiters + [s.current])]), Down(x, true)));
    }
  }

  lemma QuietQueue(s: State, p: Pc, s': State)
    requires ContinueFrom(s, p) == Ok(s') && !(p.Down? || p.GiveUp? || p.SigUp? || p.IdleUp? || p.IdleLoop?)
    ensures QueueStep(s, [], false, s')
  {
    hide SemaUp, DownAttempt, ThreadBlock;
  }

  lemma RaiseQueue(s: State, p: Pc, s': State, x: SemaId)
    requires ContinueFrom(s, p) == Ok(s')
    requires match p
      case GiveUp(l, _) => x == OfLock(l)
      case SigUp(_, w, _) => x == OfWaiter(w)
      case IdleUp => x == IDLE_STARTED
      case _ => false
    ensures QueueStep(s, Front(s, x), false, s')
  {
    hide SemaUp, DownAttempt, ThreadBlock, Front;
    if SemaUp(s, x).Ok? { UpQueue(s, x); }
  }

  lemma ContinueQueue(s: State, p: Pc, s': State)
    requires s.current in s.pc && s.pc[s.current] == p && ContinueFrom(s, p) == Ok(s')
    ensures QueueStep(s, Joins(s, Continue), Switches(s, Continue), s')
  {
    if p.Down? {
      DownQueue(s, p.sema, s');
    } else {
      hide QueueStep, Front;
      if p.IdleLoop? {
        BlockQueue(s);
      } else if UpOf(s, Continue).Some? {
        RaiseQueue(s, p, s', UpOf(s, Continue).value);
      } else {
        QuietQueue(s, p, s');
      }
    }
  }

  lemma OtherQueue(s: State, a: Action, s': State)
    requires IsStep(s, a, s') && !(a.Yield? || a.Park? || a.Exit? || a.Continue? || a.Up?)
    ensures QueueStep(s, Joins(s, a), false, s')
  {
    hide ContinueFrom, SemaUp, ThreadYield, ThreadBlock, ThreadExit;
  }

  /** The run queue grows only at its back and is served only at its front: by the
      step that ends in schedule(), which runs the thread it takes off, or the idle
      thread when there is none. */
  lemma QueueChanges(s: State, a: Action, s': State)
    requires IsStep(s, a, s')
    ensures QueueStep(s, Joins(s, a), Switches(s, a), s')
  {
    hide ContinueFrom, SemaUp, ThreadYield, ThreadBlock, ThreadExit, ThreadUnblock, Enabled;
    if a.Yield? {
      YieldQueue(s);
    } else if a.Park? {
      BlockQueue(SetPc(s, Parked));
    } else if a.Exit? {
      ExitQueue(s);
    } else if a.Up? {
      UpQueue(s, Plain(a.id));
    } else if a.Continue? {
      ContinueQueue(s, s.pc[s.current], s');
    } else {
      OtherQueue(s, a, s');
    }
  }

  // ----- What the actions do to a thread's status

  /** How the current thread leaves the processor. */
  function Leaving(a: Action): Status {
    if a.Yield? then Ready else if a.Exit? then Dying else Blocked
  }

  /** The threads after a step, given who runs then. */
  ghost predicate StatusStep(s: State, a: Action, status': map<Tid, Status>, current': Tid) {
    && (forall t :: t in status' <==>
          (t in s.status && !(a.Exit? && t == s.current && t != s.main)) || a == Create(t))
    && (forall t :: t in status' ==>
          status'[t] == if t == current' then Running
                        else if t in Joins(s, a) then Ready
                        else if t == s.current then Leaving(a)
                        else if t in s.status then s.status[t]
                        else Blocked)
  }

  lemma ScheduleStatus(s: State, st: Status)
    requires Schedule(s).Ok? && s.current in s.status && s.status[s.current] == st
    ensures Schedule(s).state.current in s.status
    ensures var r := Schedule(s).state; var status := s.status[r.current := Running];
      r.status == if st == Dying && s.current != s.main then status - {s.current} else status
  {
  }

  lemma BlockStatus(s: State)
    requires ThreadBlock(s).Ok?
    ensures ThreadBlock(s).state.current in s.status
    ensures var r := ThreadBlock(s).state; r.status == s.status[s.current := Blocked][r.current := Running]
  {
    hide Schedule;
    ScheduleStatus(SetStatus(s, s.current, Blocked), Blocked);
  }

  lemma YieldStatus(s: State)
    requires ThreadYield(s).Ok?
    ensures ThreadYield(s).state.current in s.status
    ensures var r := ThreadYield(s).state; r.status == s.status[s.current := Ready][r.current := Running]
  {
    hide Schedule;
    var s1 := if s.idle != Some(s.current) then s.(ready := s.ready + [s.current]) else s;
    ScheduleStatus(SetStatus(s1, s.current, Ready), Ready);
  }

  lemma ExitStatus(s: State)
    requires ThreadExit(s).Ok?
    ensures ThreadExit(s).state.current in s.status
    ensures var r := ThreadExit(s).state; var status := s.status[s.current := Dying][r.current := Running];
      r.status == if s.current == s.main then status else status - {s.current}
  {
    hide Schedule;
    ScheduleStatus(SetStatus(s.(all := Removed(s.all, s.current)), s.current, Dying), Dying);
  }

  lemma UpStatus(s: State, x: SemaId)
    requires SemaUp(s, x).Ok?
    ensures var r := SemaUp(s, x).state;
      r.status == if Front(s, x) == [] then s.status else s.status[Front(s, x)[0] := Ready]
  {
  }

  lemma DownStatus(s: State, x: SemaId, s': State)
    requires DownAttempt(s, x) == Ok(s')
    ensures x in s.semas
    ensures s'.status == if s.semas[x].value == 0 then s.status[s.current := Blocked][s'.current := Running]
                         else s.status
    ensures s.semas[x].value > 0 ==> s'.current == s.current
  {
    hide Schedule, ThreadBlock;
    if s.semas[x].value == 0 {
      var m := s.semas[x];
      BlockStatus(SetPc(s.(semas := s.semas[x := m.(waiters := m.waiters + [s.current])]), Down(x, true)));
    }
  }

  lemma RaiseStatus(s: State, p: Pc, s': State, x: SemaId)
    requires ContinueFrom(s, p) == Ok(s')
    requires match p
      case GiveUp(l, _) => x == OfLock(l)
      case SigUp(_, w, _) => x == OfWaiter(w)
      case IdleUp => x == IDLE_STARTED
      case _ => false
    ensures s'.current == s.current
    ensures s'.status == if Front(s, x) == [] then s.status else s.status[Front(s, x)[0] := Ready]
  {
    hide SemaUp, DownAttempt, ThreadBlock, Front;
    if SemaUp(s, x).Ok? { UpStatus(s, x); UpPc(s, x); }
  }

  lemma QuietStatus(s: State, p: Pc, s': State)
    requires ContinueFrom(s, p) == Ok(s') && !(p.Down? || p.GiveUp? || p.SigUp? || p.IdleUp? || p.IdleLoop?)
    ensures s'.current == s.current && s'.status == s.status
  {
    hide SemaUp, DownAttempt, ThreadBlock;
  }

  /** The thread that an up wakes is not the current one. */
  lemma FrontBlocked(s: State, x: SemaId)
    requires Inv(s)
    ensures |Front(s, x)| <= 1
    ensures forall t :: t in Front(s, x) ==> t in s.status && t != s.current
  {
    hide StatusOk, DyingOk, QueueOk, AllOk, CountOk, LockOk, CondOk;
    if Front(s, x) != [] { FrontFacts(s, x); }
  }

  lemma ContinueStatus(s: State, p: Pc, s': State)
    requires Inv(s) && CurrentOk(s) && s.pc[s.current] == p && ContinueFrom(s, p) == Ok(s')
    ensures StatusStep(s, Continue, s'.status, s'.current)
  {
    hide Front, SchedOk, WaitOk, SyncOk, ContinueFrom;
    if p.Down? {
      assert DownAttempt(s, p.sema) == Ok(s') by { ContinueTries(s, p); }
      DownStatus(s, p.sema, s');
    } else if p.IdleLoop? {
      assert ThreadBlock(s) == Ok(s') by { ContinueTries(s, p); }
      BlockStatus(s);
    } else if UpOf(s, Continue).Some? {
      RaiseStatus(s, p, s', UpOf(s, Continue).value);
      FrontBlocked(s, UpOf(s, Continue).value);
    } else {
      QuietStatus(s, p, s');
    }
  }

  lemma ContinueTries(s: State, p: Pc)
    requires p.Down? || p.IdleLoop?
    ensures ContinueFrom(s, p) == if p.Down? then DownAttempt(s, p.sema) else ThreadBlock(s)
  {
  }

  lemma WakeStatus(s: State, t: Tid)
    requires ThreadUnblock(s, t).Ok?
    ensures var r := ThreadUnblock(s, t).state; r.status == s.status[t := Ready] && r.current == s.current
    ensures t in s.status && s.status[t] == Blocked
  {
  }

  lemma OtherThreads(s: State, a: Action, s': State)
    requires IsStep(s, a, s')
    requires !(a.Yield? || a.Park? || a.Exit? || a.Continue? || a.Up? || a.Wake? || a.Launch?)
    ensures s'.current == s.current
    ensures s'.status == if a.Create? then s.status[a.t := Blocked] else s.status
  {
    hide ContinueFrom, SemaUp, ThreadYield, ThreadBlock, ThreadExit, ThreadUnblock;
  }

  lemma CreateFresh(s: State, t: Tid)
    requires Inv(s) && Enabled(s, Create(t))
    ensures t !in s.status
  {
    hide WaitOk, SyncOk;
  }

  lemma OtherStatus(s: State, a: Action, s': State)
    requires Inv(s) && CurrentOk(s) && IsStep(s, a, s')
    requires !(a.Yield? || a.Park? || a.Exit? || a.Continue? || a.Up? || a.Wake? || a.Launch?)
    ensures StatusStep(s, a, s'.status, s'.current)
  {
    hide Step, SchedOk, WaitOk, SyncOk, Enabled;
    OtherThreads(s, a, s');
    if a.Create? { CreateFresh(s, a.t); }
  }

  lemma SwitchStatus(s: State, a: Action, s': State)
    requires IsStep(s, a, s') && (a.Yield? || a.Park? || a.Exit?)
    ensures StatusStep(s, a, s'.status, s'.current)
  {
    hide Enabled, ThreadYield, ThreadBlock, ThreadExit;
    if a.Yield? {
      YieldStatus(s);
    } else if a.Park? {
      BlockStatus(SetPc(s, Parked));
    } else {
      ExitStatus(s);
    }
  }

  /** One thread runs after a step, the one the run queue gives; the one that left the
      processor is ready, blocked or dying according to how it left; the one that was
      queued is ready; nobody else's status changes. */
  lemma StatusChanges(s: State, a: Action, s': State)
    requires Inv(s) && IsStep(s, a, s')
    ensures StatusStep(s, a, s'.status, s'.current)
  {
    hide SchedOk, WaitOk, SyncOk, Front, ContinueFrom, SemaUp, ThreadYield, ThreadBlock, ThreadExit, ThreadUnblock,
         Enabled;
    CurrentFacts(s);
    if a.Yield? || a.Park? || a.Exit? {
      SwitchStatus(s, a, s');
    } else if a.Up? {
      UpStatus(s, Plain(a.id));
      UpPc(s, Plain(a.id));
      FrontBlocked(s, Plain(a.id));
    } else if a.Continue? {
      ContinueStatus(s, s.pc[s.current], s');
    } else if a.Wake? || a.Launch? {
      WakeStatus(s, a.t);
    } else {
      OtherStatus(s, a, s');
    }
  }

  // ----- What the actions do to locks and condition variables

  /** The lock that the step gives up, if any. */
  function Frees(s: State, a: Action): Option<LockId> {
    if a.CallRelease? then Some(a.lock)
    else if Place(s, a).Unlock? && Place(s, a).waiter.cond in s.conds then
      Some(s.conds[Place(s, a).waiter.cond].lock)
    else None
  }

  ghost predicate HolderStep(s: State, a: Action, holder': map<LockId, Option<Tid>>) {
    && (forall l :: l in holder' <==> l in s.holder || a == LockInit(l))
    && (forall l :: l in holder' ==>
          holder'[l] == if Place(s, a) == TakeHold(l) then Some(s.current)
                        else if Frees(s, a) == Some(l) || l !in s.holder then None
                        else s.holder[l])
  }

  predicate Pops(s: State, a: Action, c: CondId) {
    Place(s, a).SigPop? && Place(s, a).cond == c
  }

  /** A condition variable's queue gains the caller of cond_wait at its back and loses
      its front to cond_signal. */
  function CondAfter(s: State, a: Action, c: CondId, v: Cond): Cond {
    if a == CallWait(c) then Cond(v.lock, v.queue + [Waiter(s.current, c, v.waits)], v.waits + 1, v.signals)
    else if Pops(s, a, c) && v.queue != [] then Cond(v.lock, v.queue[1..], v.waits, v.signals + 1)
    else v
  }

  ghost predicate CondsStep(s: State, a: Action, conds': map<CondId, Cond>) {
    && (forall c :: c in conds' <==> c in s.conds || (a.CondInit? && a.cond == c))
    && (forall c :: c in s.conds && c in conds' ==> conds'[c] == CondAfter(s, a, c, s.conds[c]))
    && (forall c :: c !in s.conds && c in conds' ==> conds'[c] == Cond(a.lock, [], 0, 0))
  }

  /** The sections that change neither. */
  lemma ContinueElsewhere(s: State, p: Pc, s': State)
    requires ContinueFrom(s, p) == Ok(s') && !(p.TakeHold? || p.Unlock? || p.SigPop?)
    ensures s'.holder == s.holder && s'.conds == s.conds
  {
    hide SemaUp, DownAttempt, ThreadBlock;
    if p.GiveUp? {
      UpPc(s, OfLock(p.lock));
    } else if p.SigUp? {
      UpPc(s, OfWaiter(p.waiter));
    } else if p.IdleUp? {
      UpPc(s, IDLE_STARTED);
    } else if p.Down? {
      DownFrame(s, p.sema);
    } else if p.IdleLoop? {
      BlockFrame(s);
    }
  }

  lemma ContinueStores(s: State, p: Pc, s': State)
    requires ContinueFrom(s, p) == Ok(s') && (p.TakeHold? || p.Unlock? || p.SigPop?)
    ensures match p
      case TakeHold(l) => l in s.holder && s'.holder == s.holder[l := Some(s.current)] && s'.conds == s.conds
      case Unlock(w) =>
        && w.cond in s.conds && s.conds[w.cond].lock in s.holder && s'.conds == s.conds
        && s'.holder == s.holder[s.conds[w.cond].lock := None]
      case SigPop(c, _) =>
        && c in s.conds && s.conds[c].queue != [] && s'.holder == s.holder
        && var v := s.conds[c]; s'.conds == s.conds[c := Cond(v.lock, v.queue[1..], v.waits, v.signals + 1)]
  {
    hide SemaUp, DownAttempt, ThreadBlock;
  }

  lemma StepContinue(s: State, s': State)
    requires IsStep(s, Continue, s')
    ensures s.current in s.pc && ContinueFrom(s, s.pc[s.current]) == Ok(s')
  {
  }

  lemma ContinueMonitor(s: State, p: Pc, s': State)
    requires s.current in s.pc && s.pc[s.current] == p && ContinueFrom(s, p) == Ok(s')
    ensures HolderStep(s, Continue, s'.holder) && CondsStep(s, Continue, s'.conds)
  {
    hide ContinueFrom;
    if p.TakeHold? || p.Unlock? || p.SigPop? {
      ContinueStores(s, p, s');
    } else {
      ContinueElsewhere(s, p, s');
    }
  }

  lemma SwitchMonitor(s: State, a: Action, s': State)
    requires IsStep(s, a, s') && (a.Yield? || a.Park? || a.Exit?)
    ensures s'.holder == s.holder && s'.conds == s.conds
  {
  }

  lemma UpMonitor(s: State, id: nat, s': State)
    requires IsStep(s, Up(id), s')
    ensures s'.holder == s.holder && s'.conds == s.conds
  {
    hide SemaUp;
    UpPc(s, Plain(id));
  }

  lemma OtherMonitor(s: State, a: Action, s': State)
    requires IsStep(s, a, s') && !(a.Yield? || a.Park? || a.Exit? || a.Continue? || a.Up?)
    ensures s'.holder == if a.LockInit? || a.CallRelease? then s.holder[a.lock := None] else s.holder
    ensures a.LockInit? ==> a.lock !in s.holder
    ensures a.CallRelease? ==> a.lock in s.holder
    ensures a.CallWait? ==> a.cond in s.conds
    ensures a.CondInit? ==> a.cond !in s.conds
    ensures s'.conds ==
      if a.CondInit? then s.conds[a.cond := Cond(a.lock, [], 0, 0)]
      else if a.CallWait? then
        var v := s.conds[a.cond];
        s.conds[a.cond := Cond(v.lock, v.queue + [Waiter(s.current, a.cond, v.waits)], v.waits + 1, v.signals)]
      else s.conds
  {
    hide ContinueFrom, SemaUp, ThreadYield, ThreadBlock, ThreadExit, HoldsNothing;
  }

  /** The calls, as the locks and the condition variables see them. */
  lemma CallHolder(s: State, a: Action, s': State)
    requires IsStep(s, a, s') && !a.Continue?
    ensures HolderStep(s, a, s'.holder)
  {
    hide Step, Enabled;
    if a.Yield? || a.Park? || a.Exit? {
      SwitchMonitor(s, a, s');
    } else if a.Up? {
      UpMonitor(s, a.id, s');
    } else {
      OtherMonitor(s, a, s');
    }
  }

  lemma CallConds(s: State, a: Action, s': State)
    requires IsStep(s, a, s') && !a.Continue?
    ensures CondsStep(s, a, s'.conds)
  {
    hide Step, Enabled;
    if a.Yield? || a.Park? || a.Exit? {
      SwitchMonitor(s, a, s');
    } else if a.Up? {
      UpMonitor(s, a.id, s');
    } else {
      OtherMonitor(s, a, s');
    }
  }

  /** A lock is held from the store at the end of lock_acquire to the store at the
      start of lock_release, by the thread that stored; a waiter queues at the back of
      its condition variable and is taken off at the front. */
  lemma MonitorChanges(s: State, a: Action, s': State)
    requires IsStep(s, a, s')
    ensures HolderStep(s, a, s'.holder) && CondsStep(s, a, s'.conds)
  {
    hide Step, Enabled, HolderStep, CondsStep, ContinueFrom;
    if a.Continue? {
      StepContinue(s, s');
      ContinueMonitor(s, s.pc[s.current], s');
    } else {
      CallHolder(s, a, s');
      CallConds(s, a, s');
    }
  }

  // ----- What the actions do to the list of all threads

  lemma {:induction false} RemovedSplit(xs: seq<Tid>, t: Tid) returns (p: seq<Tid>, q: seq<Tid>)
    requires t in xs
    ensures xs == p + [t] + q && Removed(xs, t) == p + q
  {
    if xs[0] == t {
      p, q := [], xs[1..];
    } else {
      p, q := RemovedSplit(xs[1..], t);
      p := [xs[0]] + p;
    }
  }

  lemma OtherAll(s: State, a: Action, s': State)
    requires IsStep(s, a, s') && !a.Exit? && !a.Continue? && !a.Up?
    ensures s'.all == if a.Create? then s.all + [a.t] else s.all
  {
    hide ContinueFrom, SemaUp, ThreadExit, HoldsNothing;
  }

  lemma ContinueAll(s: State, p: Pc, s': State)
    requires ContinueFrom(s, p) == Ok(s')
    ensures s'.all == s.all
  {
    hide SemaUp, DownAttempt, ThreadBlock;
    if p.GiveUp? {
      UpPc(s, OfLock(p.lock));
    } else if p.SigUp? {
      UpPc(s, OfWaiter(p.waiter));
    } else if p.IdleUp? {
      UpPc(s, IDLE_STARTED);
    } else if p.Down? {
      DownFrame(s, p.sema);
    } else if p.IdleLoop? {
      BlockFrame(s);
    }
  }

  /** A new thread goes to the end of the list of all threads, and a thread that exits is
      taken out of it; the others stay in their order. */
  lemma AllChanges(s: State, a: Action, s': State) returns (p: seq<Tid>, q: seq<Tid>)
    requires IsStep(s, a, s')
    ensures a.Create? ==> s'.all == s.all + [a.t]
    ensures a.Exit? ==> s.all == p + [s.current] + q && s'.all == p + q
    ensures !a.Create? && !a.Exit? ==> s'.all == s.all
  {
    p, q := [], [];
    if a.Exit? {
      p, q := RemovedSplit(s.all, s.current);
    } else if a.Continue? {
      hide ContinueFrom;
      StepContinue(s, s');
      ContinueAll(s, s.pc[s.current], s');
    } else if !a.Up? {
      hide Step;
      OtherAll(s, a, s');
    }
  }
}
