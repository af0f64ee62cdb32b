/** How the sections of the condition-variable operations keep the invariant. */
module ThreadsMonitors {
  import opened Options
  import opened Threads
  import opened ThreadsInvariant
  import opened ThreadsSteps

  lemma RaisedMove(pc: map<Tid, Pc>, t: Tid, p: Pc, w: Waiter)
    requires t in pc && !pc[t].SigUp? && !p.SigUp?
    ensures Raised(pc[t := p], w) <==> Raised(pc, w)
  {
    if Raised(pc, w) {
      var u :| u in pc && pc[u].SigUp? && pc[u].waiter == w;
      assert u in pc[t := p] && pc[t := p][u].SigUp?;
    }
  }

  lemma RaisedExists(pc: map<Tid, Pc>, semas: map<SemaId, Sema>, holder: map<LockId, Option<Tid>>,
                     conds: map<CondId, Cond>, w: Waiter)
    requires CondOk(pc, semas, holder, conds) && Raised(pc, w)
    ensures OfWaiter(w) in semas
  {
    var u :| u in pc && pc[u].SigUp? && pc[u].waiter == w;
    assert MonitorOk(pc[u], u, semas, holder, conds);
  }

  lemma RaisedOther(pc: map<Tid, Pc>, t: Tid, p: Pc, w: Waiter)
    requires t in pc && pc[t].SigUp? && pc[t].waiter != w && !p.SigUp? && Raised(pc, w)
    ensures Raised(pc[t := p], w)
  {
    var u :| u in pc && pc[u].SigUp? && pc[u].waiter == w;
    assert u in pc[t := p] && pc[t := p][u].SigUp?;
  }

  /** A thread moves to a place that owes the same wait. */
  lemma CondMove(pc: map<Tid, Pc>, semas: map<SemaId, Sema>, holder: map<LockId, Option<Tid>>,
                 conds: map<CondId, Cond>, t: Tid, p: Pc)
    requires CondOk(pc, semas, holder, conds) && t in pc
    requires !pc[t].SigUp? && !p.SigUp? && WaitsFor(p) == WaitsFor(pc[t])
    requires MonitorOk(p, t, semas, holder, conds)
    ensures CondOk(pc[t := p], semas, holder, conds)
  {
    forall w | OfWaiter(w) in semas
      ensures WaiterOk(pc[t := p], semas, conds, w)
    {
      assert WaiterOk(pc, semas, conds, w);
      RaisedMove(pc, t, p, w);
    }
  }

  lemma CondSetHolder(pc: map<Tid, Pc>, semas: map<SemaId, Sema>, holder: map<LockId, Option<Tid>>,
                      conds: map<CondId, Cond>, l: LockId, h: Option<Tid>)
    requires CondOk(pc, semas, holder, conds) && l in holder
    requires forall u :: u in pc && WorksOn(pc[u]).Some? ==>
      WorksOn(pc[u]).value in conds && conds[WorksOn(pc[u]).value].lock != l
    requires forall u :: u in pc && h == Some(u) ==> WaitsFor(pc[u]) == None
    ensures CondOk(pc, semas, holder[l := h], conds)
  {
    forall u | u in pc
      ensures MonitorOk(pc[u], u, semas, holder[l := h], conds)
    {
      assert MonitorOk(pc[u], u, semas, holder, conds);
    }
  }

  /** Two threads working in monitors of the same lock are the same thread. */
  lemma OneWorker(pc: map<Tid, Pc>, semas: map<SemaId, Sema>, holder: map<LockId, Option<Tid>>,
                  conds: map<CondId, Cond>, t: Tid, u: Tid)
    requires CondOk(pc, semas, holder, conds) && t in pc && u in pc
    requires WorksOn(pc[u]).Some?
    ensures WorksOn(pc[u]).value in conds && conds[WorksOn(pc[u]).value].lock in holder
    ensures holder[conds[WorksOn(pc[u]).value].lock] == Some(t) ==> u == t
  {
    assert MonitorOk(pc[u], u, semas, holder, conds);
  }

  function Queued(v: Cond, c: CondId, t: Tid): Cond {
    v.(queue := v.queue + [Waiter(t, c, v.waits)], waits := v.waits + 1)
  }

  lemma QueueWaiters(pc: map<Tid, Pc>, semas: map<SemaId, Sema>, holder: map<LockId, Option<Tid>>,
                     conds: map<CondId, Cond>, c: CondId, t: Tid, w: Waiter, x: Waiter)
    requires CondOk(pc, semas, holder, conds) && c in conds && t in pc && pc[t] == Client
    requires w == Waiter(t, c, conds[c].waits)
    requires x == w || OfWaiter(x) in semas
    ensures WaiterOk(pc[t := Unlock(w)], semas[OfWaiter(w) := Sema(0, [], 0, 0, 0)],
                     conds[c := Queued(conds[c], c, t)], x)
  {
    var semas', conds' := semas[OfWaiter(w) := Sema(0, [], 0, 0, 0)], conds[c := Queued(conds[c], c, t)];
    var pc' := pc[t := Unlock(w)];
    assert TicketsOk(semas, c, conds[c]);
    RaisedMove(pc, t, Unlock(w), x);
    if x == w {
      assert OfWaiter(w) in semas ==> WaiterOk(pc, semas, conds, w);
      if Raised(pc, w) { RaisedExists(pc, semas, holder, conds, w); }
    } else {
      assert WaiterOk(pc, semas, conds, x);
    }
  }

  lemma CondQueueKeeps(pc: map<Tid, Pc>, semas: map<SemaId, Sema>, holder: map<LockId, Option<Tid>>,
                       conds: map<CondId, Cond>, c: CondId, t: Tid, w: Waiter)
    requires CondOk(pc, semas, holder, conds) && c in conds && t in pc && pc[t] == Client
    requires holder[conds[c].lock] == Some(t)
    requires w == Waiter(t, c, conds[c].waits)
    ensures OfWaiter(w) !in semas
    ensures CondOk(pc[t := Unlock(w)], semas[OfWaiter(w) := Sema(0, [], 0, 0, 0)], holder,
                   conds[c := Queued(conds[c], c, t)])
  {
    assert OfWaiter(w) in semas ==> WaiterOk(pc, semas, conds, w);
    var semas', conds' := semas[OfWaiter(w) := Sema(0, [], 0, 0, 0)], conds[c := Queued(conds[c], c, t)];
    var pc' := pc[t := Unlock(w)];
    forall x | OfWaiter(x) in semas'
      ensures WaiterOk(pc', semas', conds', x)
    {
      QueueWaiters(pc, semas, holder, conds, c, t, w, x);
    }
    forall k | k in conds'
      ensures conds'[k].lock in holder && TicketsOk(semas', k, conds'[k])
    {
      assert TicketsOk(semas, k, conds[k]);
    }
    forall u | u in pc'
      ensures MonitorOk(pc'[u], u, semas', holder, conds')
    {
      if u != t {
        assert MonitorOk(pc[u], u, semas, holder, conds);
      }
    }
  }

  function Popped(v: Cond): Cond
    requires v.queue != []
  {
    v.(queue := v.queue[1..], signals := v.signals + 1)
  }

  lemma PopWaiters(pc: map<Tid, Pc>, semas: map<SemaId, Sema>, holder: map<LockId, Option<Tid>>,
                   conds: map<CondId, Cond>, c: CondId, t: Tid, caller: Caller, x: Waiter)
    requires CondOk(pc, semas, holder, conds) && c in conds && t in pc && pc[t] == SigPop(c, caller)
    requires conds[c].queue != [] && OfWaiter(x) in semas
    ensures WaiterOk(pc[t := SigUp(c, conds[c].queue[0], caller)], semas, conds[c := Popped(conds[c])], x)
  {
    var w := conds[c].queue[0];
    var pc' := pc[t := SigUp(c, w, caller)];
    assert TicketsOk(semas, c, conds[c]);
    assert WaiterOk(pc, semas, conds, x);
    if x == w {
      assert t in pc' && pc'[t].SigUp? && pc'[t].waiter == w;
    } else {
      if Raised(pc, x) {
        var u :| u in pc && pc[u].SigUp? && pc[u].waiter == x;
        assert u in pc' && pc'[u].SigUp? && pc'[u].waiter == x;
      }
    }
  }

  lemma CondPopKeeps(pc: map<Tid, Pc>, semas: map<SemaId, Sema>, holder: map<LockId, Option<Tid>>,
                     conds: map<CondId, Cond>, c: CondId, t: Tid, caller: Caller)
    requires CondOk(pc, semas, holder, conds) && c in conds && t in pc && pc[t] == SigPop(c, caller)
    ensures conds[c].queue != []
    ensures CondOk(pc[t := SigUp(c, conds[c].queue[0], caller)], semas, holder, conds[c := Popped(conds[c])])
  {
    assert MonitorOk(pc[t], t, semas, holder, conds);
    var w := conds[c].queue[0];
    var pc', conds' := pc[t := SigUp(c, w, caller)], conds[c := Popped(conds[c])];
    forall x | OfWaiter(x) in semas
      ensures WaiterOk(pc', semas, conds', x)
    {
      PopWaiters(pc, semas, holder, conds, c, t, caller, x);
    }
    forall k | k in conds'
      ensures conds'[k].lock in holder && TicketsOk(semas, k, conds'[k])
    {
      assert TicketsOk(semas, k, conds[k]);
    }
    assert TicketsOk(semas, c, conds[c]);
    forall u | u in pc'
      ensures MonitorOk(pc'[u], u, semas, holder, conds')
    {
      assert MonitorOk(pc[u], u, semas, holder, conds);
    }
  }

  lemma UpWaiters(pc: map<Tid, Pc>, semas: map<SemaId, Sema>, holder: map<LockId, Option<Tid>>,
                  conds: map<CondId, Cond>, t: Tid, p: Pc, x: Waiter)
    requires CondOk(pc, semas, holder, conds) && t in pc && pc[t].SigUp? && !p.SigUp?
    requires WaitsFor(p) == None && OfWaiter(x) in semas && OfWaiter(pc[t].waiter) in semas
    ensures WaiterOk(pc[t := p], semas[OfWaiter(pc[t].waiter) := Upped(semas[OfWaiter(pc[t].waiter)])], conds, x)
  {
    var w := pc[t].waiter;
    var pc' := pc[t := p];
    assert WaiterOk(pc, semas, conds, x);
    assert MonitorOk(pc[t], t, semas, holder, conds);
    if Raised(pc', x) {
      var u :| u in pc' && pc'[u].SigUp? && pc'[u].waiter == x;
      assert u in pc && pc[u].SigUp? && pc[u].waiter == x;
      assert MonitorOk(pc[u], u, semas, holder, conds);
    } else if x != w && Raised(pc, x) {
      RaisedOther(pc, t, p, x);
    }
  }

  /** The signaller ups the popped waiter's semaphore, which still exists. */
  lemma CondUpKeeps(pc: map<Tid, Pc>, semas: map<SemaId, Sema>, holder: map<LockId, Option<Tid>>,
                    conds: map<CondId, Cond>, t: Tid, p: Pc)
    requires CondOk(pc, semas, holder, conds) && t in pc && pc[t].SigUp?
    requires p == Client || (p.BcTest? && p.cond == pc[t].cond && pc[t].caller == ByBroadcast(p.upto))
    ensures OfWaiter(pc[t].waiter) in semas
    ensures CondOk(pc[t := p], semas[OfWaiter(pc[t].waiter) := Upped(semas[OfWaiter(pc[t].waiter)])],
                   holder, conds)
  {
    assert MonitorOk(pc[t], t, semas, holder, conds);
    var x := OfWaiter(pc[t].waiter);
    var pc', semas' := pc[t := p], semas[x := Upped(semas[x])];
    forall w | OfWaiter(w) in semas'
      ensures WaiterOk(pc', semas', conds, w)
    {
      UpWaiters(pc, semas, holder, conds, t, p, w);
    }
    forall k | k in conds
      ensures TicketsOk(semas', k, conds[k])
    {
      assert TicketsOk(semas, k, conds[k]);
    }
    forall u | u in pc'
      ensures MonitorOk(pc'[u], u, semas', holder, conds)
    {
      assert MonitorOk(pc[u], u, semas, holder, conds);
    }
  }

  /** A waiter that takes its own semaphore is done with it, and nobody else
      will ever refer to it again. */
  lemma CondDoneKeeps(pc: map<Tid, Pc>, semas: map<SemaId, Sema>, holder: map<LockId, Option<Tid>>,
                      conds: map<CondId, Cond>, t: Tid, w: Waiter, p: Pc)
    requires CondOk(pc, semas, holder, conds) && t in pc && pc[t].Down? && pc[t].sema == OfWaiter(w)
    requires OfWaiter(w) in semas && semas[OfWaiter(w)].value > 0
    requires View(p) == None
    ensures CondOk(pc[t := p], semas - {OfWaiter(w)}, holder, conds)
  {
    assert MonitorOk(pc[t], t, semas, holder, conds);
    assert WaiterOk(pc, semas, conds, w);
    var pc', semas' := pc[t := p], semas - {OfWaiter(w)};
    forall x | OfWaiter(x) in semas'
      ensures WaiterOk(pc', semas', conds, x)
    {
      assert WaiterOk(pc, semas, conds, x);
      RaisedMove(pc, t, p, x);
    }
    forall k | k in conds
      ensures TicketsOk(semas', k, conds[k])
    {
      assert TicketsOk(semas, k, conds[k]);
    }
    forall u | u in pc'
      ensures MonitorOk(pc'[u], u, semas', holder, conds)
    {
      if u != t {
        assert MonitorOk(pc[u], u, semas, holder, conds);
      }
    }
  }

  lemma CondAdd(pc: map<Tid, Pc>, semas: map<SemaId, Sema>, holder: map<LockId, Option<Tid>>,
                conds: map<CondId, Cond>, c: CondId, l: LockId)
    requires CondOk(pc, semas, holder, conds) && c !in conds && l in holder
    ensures CondOk(pc, semas, holder, conds[c := Cond(l, [], 0, 0)])
  {
    var conds' := conds[c := Cond(l, [], 0, 0)];
    forall x | OfWaiter(x) in semas
      ensures WaiterOk(pc, semas, conds', x)
    {
      assert WaiterOk(pc, semas, conds, x);
    }
    forall u | u in pc
      ensures MonitorOk(pc[u], u, semas, holder, conds')
    {
      assert MonitorOk(pc[u], u, semas, holder, conds);
    }
  }
}
