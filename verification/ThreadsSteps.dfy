/** How each section of thread.c and synch.c keeps the invariant. */
module ThreadsSteps {
  import opened Options
  import opened Seqs
  import opened Threads
  import opened ThreadsInvariant

  // ----- Semaphore counts

  lemma WokenSplit(pc: map<Tid, Pc>, semas: map<SemaId, Sema>, x: SemaId, u: Tid, m: Sema)
    requires x in semas && semas[x].waiters != [] && u == semas[x].waiters[0]
    requires NoDup(semas[x].waiters) && m.waiters == semas[x].waiters[1..]
    requires u in pc && pc[u] == Down(x, true)
    ensures |Woken(pc, semas[x := m], x)| == |Woken(pc, semas, x)| + 1
  {
    assert forall t :: t in semas[x].waiters <==> t == u || t in m.waiters;
    assert Woken(pc, semas[x := m], x) == Woken(pc, semas, x) + {u};
  }

  /** The invariant on counts for every semaphore other than x. */
  lemma CountOther(pc: map<Tid, Pc>, semas: map<SemaId, Sema>, x: SemaId, m: Sema)
    requires CountOk(pc, semas)
    requires m.value + m.downs == m.init + m.ups
    requires m.waiters != [] ==> m.value <= |Woken(pc, semas[x := m], x)|
    ensures CountOk(pc, semas[x := m])
  {
    forall y | y in semas && y != x
      ensures Woken(pc, semas[x := m], y) == Woken(pc, semas, y)
    {
    }
  }

  function Upped(m: Sema): Sema {
    m.(value := m.value + 1, ups := m.ups + 1, waiters := if m.waiters == [] then [] else m.waiters[1..])
  }

  function Downed(m: Sema): Sema
    requires m.value > 0
  {
    m.(value := m.value - 1, downs := m.downs + 1)
  }

  lemma CountUp(status: map<Tid, Status>, pc: map<Tid, Pc>, semas: map<SemaId, Sema>, x: SemaId)
    requires CountOk(pc, semas) && WaitOk(status, pc, semas) && x in semas
    ensures CountOk(pc, semas[x := Upped(semas[x])])
  {
    var m := Upped(semas[x]);
    if semas[x].waiters != [] {
      WokenSplit(pc, semas, x, semas[x].waiters[0], m);
    }
    CountOther(pc, semas, x, m);
  }

  lemma CountTry(pc: map<Tid, Pc>, semas: map<SemaId, Sema>, x: SemaId)
    requires CountOk(pc, semas) && x in semas && semas[x].value > 0
    ensures CountOk(pc, semas[x := Downed(semas[x])])
  {
    assert Woken(pc, semas[x := Downed(semas[x])], x) == Woken(pc, semas, x);
    CountOther(pc, semas, x, Downed(semas[x]));
  }

  /** A thread that takes x leaves the woken threads, if it was one. */
  lemma CountTake(pc: map<Tid, Pc>, semas: map<SemaId, Sema>, x: SemaId, t: Tid, p: Pc)
    requires CountOk(pc, semas) && x in semas && semas[x].value > 0
    requires t in pc && pc[t].Down? && pc[t].sema == x
    requires p.Down? ==> !p.slept
    ensures CountOk(pc[t := p], semas[x := Downed(semas[x])])
  {
    var m := Downed(semas[x]);
    var semas', pc' := semas[x := m], pc[t := p];
    forall y | y in semas'
      ensures semas'[y].waiters != [] ==> semas'[y].value <= |Woken(pc', semas', y)|
    {
      if y == x {
        assert Woken(pc', semas', x) == Woken(pc, semas, x) - {t};
      } else {
        assert Woken(pc', semas', y) == Woken(pc, semas, y);
      }
    }
  }

  /** A thread that finds x at zero joins its waiters. */
  lemma CountSleep(pc: map<Tid, Pc>, semas: map<SemaId, Sema>, x: SemaId, t: Tid)
    requires CountOk(pc, semas) && x in semas && semas[x].value == 0
    requires t in pc && pc[t].Down? && pc[t].sema == x
    ensures CountOk(pc[t := Down(x, true)], semas[x := semas[x].(waiters := semas[x].waiters + [t])])
  {
    var semas' := semas[x := semas[x].(waiters := semas[x].waiters + [t])];
    var pc' := pc[t := Down(x, true)];
    forall y | y in semas' && y != x
      ensures Woken(pc', semas', y) == Woken(pc, semas, y)
    {
    }
  }

  lemma CountAdd(pc: map<Tid, Pc>, semas: map<SemaId, Sema>, x: SemaId, v: nat)
    requires CountOk(pc, semas)
    ensures CountOk(pc, semas[x := Sema(v, [], v, 0, 0)])
  {
    CountOther(pc, semas, x, Sema(v, [], v, 0, 0));
  }

  lemma CountDrop(pc: map<Tid, Pc>, semas: map<SemaId, Sema>, x: SemaId)
    requires CountOk(pc, semas)
    ensures CountOk(pc, semas - {x})
  {
    var semas' := semas - {x};
    forall y | y in semas'
      ensures Woken(pc, semas', y) == Woken(pc, semas, y)
    {
    }
  }

  // ----- Wait lists

  lemma WaitUp(status: map<Tid, Status>, pc: map<Tid, Pc>, semas: map<SemaId, Sema>, x: SemaId)
    requires WaitOk(status, pc, semas) && x in semas && semas[x].waiters != []
    ensures WaitOk(status[semas[x].waiters[0] := Ready], pc, semas[x := Upped(semas[x])])
  {
    var u := semas[x].waiters[0];
    assert forall t :: t in semas[x].waiters <==> t == u || t in semas[x].waiters[1..];
  }

  /** Changing only the counters of a semaphore. */
  lemma WaitCounters(status: map<Tid, Status>, pc: map<Tid, Pc>, semas: map<SemaId, Sema>, x: SemaId, m: Sema)
    requires WaitOk(status, pc, semas) && x in semas && m.waiters == semas[x].waiters
    ensures WaitOk(status, pc, semas[x := m])
  {
  }

  lemma WaitAdd(status: map<Tid, Status>, pc: map<Tid, Pc>, semas: map<SemaId, Sema>, x: SemaId, v: nat)
    requires WaitOk(status, pc, semas) && x !in semas
    ensures WaitOk(status, pc, semas[x := Sema(v, [], v, 0, 0)])
  {
  }

  lemma WaitSleep(status: map<Tid, Status>, pc: map<Tid, Pc>, semas: map<SemaId, Sema>, x: SemaId, t: Tid)
    requires WaitOk(status, pc, semas) && x in semas
    requires t in pc && t in status && status[t] == Running
    ensures WaitOk(status[t := Blocked], pc[t := Down(x, true)],
                   semas[x := semas[x].(waiters := semas[x].waiters + [t])])
  {
    NoDupAppend(semas[x].waiters, t);
  }

  lemma WaitRemove(status: map<Tid, Status>, pc: map<Tid, Pc>, semas: map<SemaId, Sema>, x: SemaId)
    requires WaitOk(status, pc, semas) && x != IDLE_STARTED
    requires forall t :: t in pc && pc[t].Down? ==> pc[t].sema != x
    ensures WaitOk(status, pc, semas - {x})
  {
  }

  // ----- Locks

  lemma SectionEmpty(pc: map<Tid, Pc>, holder: map<LockId, Option<Tid>>, l: LockId)
    requires l in holder && Section(pc, holder, l) == {}
    ensures forall t :: t in pc ==> !InSection(pc, holder, l, t)
  {
    assert forall t :: t in pc && InSection(pc, holder, l, t) ==> t in Section(pc, holder, l);
  }

  /** The only thread in a section is t. */
  lemma SectionIs(pc: map<Tid, Pc>, semas: map<SemaId, Sema>, holder: map<LockId, Option<Tid>>, l: LockId, t: Tid)
    requires LockOk(pc, semas, holder) && l in holder && t in pc && InSection(pc, holder, l, t)
    ensures Section(pc, holder, l) == {t} && semas[OfLock(l)].value == 0
    ensures forall u :: u in pc && InSection(pc, holder, l, u) ==> u == t
  {
    var sec := Section(pc, holder, l);
    assert t in sec;
    assert |sec - {t}| == |sec| - 1;
    assert forall u :: u in pc && InSection(pc, holder, l, u) ==> u in sec;
  }

  lemma LockTake(pc: map<Tid, Pc>, semas: map<SemaId, Sema>, holder: map<LockId, Option<Tid>>, l: LockId, t: Tid)
    requires LockOk(pc, semas, holder) && l in holder && semas[OfLock(l)].value > 0
    requires t in pc && !LockPc(pc[t])
    ensures LockOk(pc[t := TakeHold(l)], semas[OfLock(l) := Downed(semas[OfLock(l)])], holder)
  {
    var pc' := pc[t := TakeHold(l)];
    assert Section(pc, holder, l) == {};
    SectionEmpty(pc, holder, l);
    assert Section(pc', holder, l) == {t};
    forall k | k in holder && k != l
      ensures Section(pc', holder, k) == Section(pc, holder, k)
    {
    }
  }

  /** Storing the holder, or clearing it, leaves the sections as they are. */
  lemma LockSetHolder(pc: map<Tid, Pc>, semas: map<SemaId, Sema>, holder: map<LockId, Option<Tid>>,
                      l: LockId, t: Tid, h: Option<Tid>, p: Pc)
    requires LockOk(pc, semas, holder) && l in holder && t in pc && InSection(pc, holder, l, t)
    requires LockPc(pc[t]) ==> pc[t].lock == l
    requires (h == Some(t) && !LockPc(p)) || (h == None && p.GiveUp? && p.lock == l)
    ensures LockOk(pc[t := p], semas, holder[l := h])
  {
    SectionIs(pc, semas, holder, l, t);
    var pc', holder' := pc[t := p], holder[l := h];
    assert forall u :: u in pc && LockPc(pc[u]) && pc[u].lock == l ==> InSection(pc, holder, l, u);
    assert Section(pc', holder', l) == {t};
    forall k | k in holder && k != l
      ensures Section(pc', holder', k) == Section(pc, holder, k)
    {
    }
  }

  lemma LockUp(pc: map<Tid, Pc>, semas: map<SemaId, Sema>, holder: map<LockId, Option<Tid>>, l: LockId, t: Tid, p: Pc)
    requires LockOk(pc, semas, holder) && l in holder && t in pc && pc[t].GiveUp? && pc[t].lock == l
    requires !LockPc(p)
    ensures LockOk(pc[t := p], semas[OfLock(l) := Upped(semas[OfLock(l)])], holder)
  {
    SectionIs(pc, semas, holder, l, t);
    var pc' := pc[t := p];
    assert forall u :: u in pc' && InSection(pc', holder, l, u) ==> InSection(pc, holder, l, u) && u != t;
    assert Section(pc', holder, l) == {};
    forall k | k in holder && k != l
      ensures Section(pc', holder, k) == Section(pc, holder, k)
    {
    }
  }

  lemma LockAdd(pc: map<Tid, Pc>, semas: map<SemaId, Sema>, holder: map<LockId, Option<Tid>>, l: LockId)
    requires LockOk(pc, semas, holder) && l !in holder
    ensures LockOk(pc, semas[OfLock(l) := Sema(1, [], 1, 0, 0)], holder[l := None])
  {
    var holder' := holder[l := None];
    assert Section(pc, holder', l) == {};
    forall k | k in holder
      ensures Section(pc, holder', k) == Section(pc, holder, k)
    {
    }
  }
}
