/** The run queue and the wait lists as linked lists that share one element per thread.
    The code of thread.c and synch.c is proved to carry out the transitions of the thread
    system on them; that no element is ever put on a list while it is on another one is a
    consequence of what every transition keeps. */
module Kernel {
  import opened KernelLists
  import opened Lists
  import opened Options
  import opened Seqs
  import opened Threads
  import opened ThreadsActions
  import opened ThreadsInvariant
  import opened ThreadsMonitors
  import opened ThreadsRuns
  import opened ThreadsSteps

  class Globals {
    var status: map<Tid, Status>
    var current: Tid
    const readyList: List
    var idleThread: Option<Tid>
    var semas: map<SemaId, Semaphore>
    var initialThread: Tid
    /** The `elem` member of each struct thread, and list_entry back from it. */
    var elem: map<Tid, Elem>
    var entry: map<Elem, Tid>
    ghost var nodes: set<Elem>
    /** The rest of the thread system's state, which these sections leave to their callers. */
    var allList: seq<Tid>
    var holder: map<LockId, Option<Tid>>
    var conds: map<CondId, Cond>
    var pc: map<Tid, Pc>
    ghost var idler: Tid
    ghost var dispatches: nat

    /** The lists and the semaphores that the kernel owns. */
    ghost var lists: set<List>
    ghost var sems: set<Semaphore>

    ghost function Elems(): Queues
      reads this`lists, lists
    {
      map L | L in lists :: L.elems
    }

    ghost predicate OwnLists()
      reads this`semas, this`lists, this`sems
    {
      OwnAll(readyList, semas, lists, sems)
    }

    ghost predicate Valid()
      reads this`semas, this`lists, this`sems, this`elem, this`entry, this`nodes, this`status, lists, nodes
    {
      OwnLists() && elem.Keys == status.Keys && Filed(Elems(), elem, entry, nodes) && Wired(lists, nodes)
    }

    /** The semaphore and its wait list belong to the kernel. */
    ghost predicate Owns(x: SemaId)
      reads this`semas, this`lists, this`sems
    {
      x in semas && semas[x] in sems && semas[x].waiters in lists
    }

    ghost function Semas(): map<SemaId, Sema>
      reads this`semas, this`entry, this`lists, this`sems, lists, sems
    {
      map x | x in semas && Owns(x) :: SemaOf(semas[x], entry)
    }

    ghost function Abs(): State
      reads this, readyList, lists, sems
    {
      State(status, pc, current, Tids(entry, readyList.elems), allList, idleThread, idler, initialThread,
            Semas(), holder, conds, dispatches)
    }

    lemma Owned()
      requires OwnLists()
      ensures readyList in lists && forall x :: Owns(x) <==> x in semas
    {
      ListsHave(readyList, semas);
    }

    /** A kernel that has yet to make its threads and its semaphore. */
    constructor (main: Tid, idler: Tid)
      ensures Valid() && Blank(main, idler) && fresh(readyList) && fresh(nodes) && lists == {readyList} && sems == {}
    {
      hide Filed, OwnAll, Wired;
      status, current, initialThread, this.idler := map[], main, main, idler;
      var ready := new List();
      readyList := ready;
      idleThread, semas := None, map[];
      elem, entry := map[], map[];
      nodes, lists, sems := {ready.head, ready.tail}, {ready}, {};
      allList, holder, conds := [main, idler], map[], map[];
      pc, dispatches := map[main := Client, idler := IdleStart], 0;
      new;
      WiredOne(readyList);
      OwnNone(readyList);
      FiledNone(Elems(), readyList);
    }

    ghost predicate Blank(main: Tid, idler: Tid)
      reads this, readyList
    {
      && status == map[] && current == main && initialThread == main && this.idler == idler
      && readyList.elems == [] && idleThread == None && semas == map[]
      && allList == [main, idler] && holder == map[] && conds == map[]
      && pc == map[main := Client, idler := IdleStart] && dispatches == 0
    }

    /** thread_init, and thread_start up to the point where the idle thread may run. */
    method Start(main: Tid, idler: Tid)
      requires Valid() && main != idler && Blank(main, idler)
      modifies this, readyList, nodes
      ensures Valid() && Init(Abs())
      ensures fresh(lists - old(lists)) && fresh(sems - old(sems)) && fresh(nodes - old(nodes))
    {
      hide Globals.Valid, Globals.Abs;
      BlankView(main, idler);
      AddSema(IDLE_STARTED, 0);
      StartThreads(main, idler);
    }

    method StartThreads(main: Tid, idler: Tid)
      requires Valid() && main != idler && status == map[]
      modifies this`elem, this`entry, this`nodes, this`status, readyList, nodes
      ensures Valid() && fresh(nodes - old(nodes))
      ensures Abs() == old(Abs()).(status := map[main := Running, idler := Ready], ready := old(Abs()).ready + [idler])
    {
      hide Globals.Valid, Globals.Abs, Loose;
      AddThread(main);
      AddThread(idler);
      TwoThreads(status, main, idler);
      SetStatus(main, Running);
      SetStatus(idler, Ready);
      PushReady(idler);
    }

    method SetStatus(t: Tid, st: Status)
      requires Valid() && t in status
      modifies this`status
      ensures Valid() && status == old(status)[t := st] && Abs() == Threads.SetStatus(old(Abs()), t, st)
    {
      hide Filed, OwnAll, Wired, Globals.Semas, Tids;
      status := status[t := st];
    }

    lemma BlankView(main: Tid, idler: Tid)
      requires Valid() && Blank(main, idler)
      ensures Abs() == State(map[], map[main := Client, idler := IdleStart], main, [], [main, idler], None, idler, main,
                             map[], map[], map[], 0)
    {
      hide Filed, OwnAll, Wired;
      SemasAre(map[]);
      NoTids(entry);
    }

    // ----- New elements and new lists

    /** init_thread: a thread with an element of its own, which is on no list. */
    method AddThread(t: Tid)
      requires Valid() && t !in status
      modifies this`elem, this`entry, this`nodes, this`status
      ensures Valid() && Elems() == old(Elems())
      ensures Abs() == old(Abs()).(status := old(status)[t := Blocked])
      ensures t in elem && Loose(Elems(), elem, t) && fresh(elem[t]) && status == old(status)[t := Blocked]
      ensures elem == old(elem)[t := elem[t]] && nodes == old(nodes) + {elem[t]}
    {
      hide Globals.Valid, Globals.Semas, Globals.Elems, Loose, Tids;
      var e := new Elem();
      AddElem(t, e);
    }

    method AddElem(t: Tid, e: Elem)
      requires Valid() && t !in status && e !in nodes
      modifies this`elem, this`entry, this`nodes, this`status
      ensures Valid() && Elems() == old(Elems())
      ensures Semas() == old(Semas()) && Tids(entry, readyList.elems) == old(Tids(entry, readyList.elems))
      ensures status == old(status)[t := Blocked]
      ensures elem == old(elem)[t := e] && nodes == old(nodes) + {e} && Loose(Elems(), elem, t)
    {
      hide Wired, Filed, Loose, Tids, OwnAll, Globals.Semas;
      Owned();
      SemasAt();
      ghost var was := Semas();
      FiledThread(Elems(), elem, entry, nodes, t, e);
      SameTids(e, t);
      WiredMore(lists, nodes, nodes + {e});
      elem, entry, nodes := elem[t := e], entry[e := t], nodes + {e};
      status := status[t := Blocked];
      assert Elems() == old(Elems());
      SemasAre(was);
    }

    /** Semas() has one value for each semaphore. */
    lemma SemasAre(ms: map<SemaId, Sema>)
      requires OwnLists() && ms.Keys == semas.Keys && forall x | x in semas :: ms[x] == SemaOf(semas[x], entry)
      ensures Semas() == ms
    {
      Owned();
      hide ListsOf, SemaOf;
    }

    lemma SemasAt()
      requires OwnLists()
      ensures Semas().Keys == semas.Keys && forall x | x in semas :: Semas()[x] == SemaOf(semas[x], entry)
    {
      Owned();
      hide ListsOf, SemaOf;
    }

    lemma SameTids(e: Elem, t: Tid)
      requires Valid() && e !in nodes
      ensures forall L | L in lists :: Tids(entry[e := t], L.elems) == Tids(entry, L.elems)
    {
      hide Filed, Tids, List.Valid, ListsOf;
      forall L | L in lists ensures Tids(entry[e := t], L.elems) == Tids(entry, L.elems) {
        ChainParts(L, e);
        TidsMore(entry, L.elems, e, t);
      }
    }

    lemma HeadsKnown()
      requires Filed(Elems(), elem, entry, nodes)
      ensures forall L | L in lists :: L.head in nodes
    {
      forall L | L in lists ensures L.head in nodes {
        assert QueueFiled(L, Elems()[L], elem, entry, nodes);
      }
    }

    /** sema_init of a semaphore that is new. */
    method AddSema(x: SemaId, value: nat)
      requires Valid() && x !in semas
      modifies this`semas, this`nodes, this`lists, this`sems
      ensures Valid() && x in semas && semas == old(semas)[x := semas[x]] && fresh(semas[x]) && fresh(semas[x].waiters)
      ensures Abs() == old(Abs()).(semas := old(Abs()).semas[x := Sema(value, [], value, 0, 0)])
      ensures fresh(nodes - old(nodes)) && fresh(lists - old(lists)) && fresh(sems - old(sems))
    {
      hide Globals.Valid, Globals.Semas, List.Valid, Tids;
      var m := new Semaphore(value);
      AddNew(x, m);
    }

    method AddNew(x: SemaId, m: Semaphore)
      requires Valid() && x !in semas && m !in sems && m.waiters.elems == [] && m.waiters.Valid()
      requires m.waiters.head !in nodes && m.waiters.tail !in nodes && m.waiters.head != m.waiters.tail
      modifies this`semas, this`nodes, this`lists, this`sems
      ensures Valid() && semas == old(semas)[x := m]
      ensures lists == old(lists) + {m.waiters} && sems == old(sems) + {m}
      ensures nodes == old(nodes) + {m.waiters.head, m.waiters.tail}
      ensures Semas() == old(Semas())[x := Sema(m.value, [], m.init, m.ups, m.downs)]
    {
      hide List.Valid, Tids, OwnAll, Globals.Semas, Globals.Valid;
      OwnsLists();
      SemasAt();
      ghost var ms := Semas();
      AddList(x, m);
      OwnsLists();
      NoTids(entry);
      SemasAre(ms[x := SemaOf(m, entry)]);
    }

    lemma OwnsLists()
      requires Valid()
      ensures OwnLists()
    {
    }

    method AddList(x: SemaId, m: Semaphore)
      requires Valid() && x !in semas && m !in sems && m.waiters.elems == [] && m.waiters.Valid()
      requires m.waiters.head !in nodes && m.waiters.tail !in nodes && m.waiters.head != m.waiters.tail
      modifies this`semas, this`nodes, this`lists, this`sems
      ensures Valid() && semas == old(semas)[x := m]
      ensures lists == old(lists) + {m.waiters} && sems == old(sems) + {m}
      ensures nodes == old(nodes) + {m.waiters.head, m.waiters.tail}
    {
      hide List.Valid, Wired, Filed, OwnAll;
      HeadsKnown();
      ghost var qs := Elems();
      OwnAdd(readyList, semas, lists, sems, x, m);
      FiledList(qs, elem, entry, nodes, m.waiters);
      WiredAdd(lists, nodes, m.waiters);
      semas := semas[x := m];
      nodes, lists, sems := nodes + {m.waiters.head, m.waiters.tail}, lists + {m.waiters}, sems + {m};
      assert Elems() == qs[m.waiters := []];
    }

    lemma NoTids(entry: map<Elem, Tid>)
      ensures Tids(entry, []) == []
    {
    }

    // ----- Moving elements

    lemma ChainParts(L: List, e: Elem)
      ensures e in L.Chain() <==> e == L.head || e == L.tail || e in L.elems
    {
    }

    /** The nodes of a list that is filed are known. */
    lemma Known(L: List)
      requires Filed(Elems(), elem, entry, nodes) && L in lists
      ensures InNodes(L, nodes)
    {
      assert QueueFiled(L, Elems()[L], elem, entry, nodes);
      forall e | e in L.Chain() ensures e in nodes {
        ChainParts(L, e);
      }
    }

    /** Two lists share no node. */
    lemma ChainsApart(L: List, M: List, e: Elem)
      requires Filed(Elems(), elem, entry, nodes) && L in lists && M in lists && L != M
      ensures !(e in L.Chain() && e in M.Chain())
    {
      ChainParts(L, e);
      ChainParts(M, e);
      assert QueuesApart(L, Elems()[L], M, Elems()[M]);
      assert QueueFiled(L, Elems()[L], elem, entry, nodes) && QueueFiled(M, Elems()[M], elem, entry, nodes);
    }

    lemma Separate(L: List)
      requires Filed(Elems(), elem, entry, nodes) && L in lists
      ensures forall M, e | M in lists && M != L && e in M.Chain() :: e !in L.Chain()
    {
      hide Filed;
      forall M, e | M in lists && M != L && e in M.Chain() ensures e !in L.Chain() {
        ChainsApart(M, L, e);
      }
    }

    lemma LooseElem(t: Tid)
      requires Filed(Elems(), elem, entry, nodes) && t in elem && Loose(Elems(), elem, t)
      ensures elem[t] in nodes && forall M | M in lists :: elem[t] !in M.Chain()
    {
      forall M | M in lists ensures elem[t] !in M.Chain() {
        ChainParts(M, elem[t]);
        assert elem[t] !in Elems()[M];
      }
    }

    /** list_push_back of a thread's element. */
    method Append(L: List, t: Tid)
      requires Valid() && L in lists && t in elem && Loose(Elems(), elem, t)
      modifies L, nodes
      ensures Valid() && Elems() == old(Elems())[L := old(L.elems) + [elem[t]]]
      ensures L.elems == old(L.elems) + [elem[t]]
    {
      hide Filed, Loose, List.Valid, List.Chain, OwnAll;
      ghost var qs := Elems();
      Separate(L);
      LooseElem(t);
      FiledAppend(qs, elem, entry, nodes, L, t);
      Pushed(L, elem[t], lists);
      assert Elems() == qs[L := qs[L] + [elem[t]]];
      forall M | M in lists ensures InNodes(M, nodes) {
        Known(M);
      }
    }

    /** Pushing a node that is on none of the lists leaves the other lists well linked. */
    static method Pushed(L: List, e: Elem, ghost ls: set<List>)
      requires L.Valid() && e !in L.Chain() && forall M | M in ls :: M.Valid()
      requires forall M, d | M in ls && M != L && d in M.Chain() :: d !in L.Chain() && d != e
      modifies L, L.Chain(), e
      ensures L.elems == old(L.elems) + [e] && L.Valid()
      ensures forall M | M in ls :: M.Valid()
    {
      hide List.Valid;
      L.PushBack(e);
      forall M | M in ls && M != L ensures M.Valid() {
        ghost var c := M.Chain();
        assert c == old(M.Chain());
        forall i | 0 <= i < |c| ensures unchanged(c[i]) {
          assert c[i] in old(M.Chain()) && c[i] !in old(L.Chain());
        }
        StillValid(M);
      }
    }

    /** A list none of whose nodes changed is still well linked. */
    static twostate lemma StillValid(M: List)
      requires old(M.Valid()) && M.Chain() == old(M.Chain())
      requires forall i | 0 <= i < |M.Chain()| :: unchanged(M.Chain()[i])
      ensures M.Valid()
    {
    }

    /** list_pop_front, and list_entry of what was popped. */
    method TakeFirst(L: List) returns (t: Tid)
      requires Valid() && L in lists && L.elems != []
      modifies L, nodes
      ensures Valid() && Elems() == old(Elems())[L := old(L.elems)[1..]]
      ensures L.elems == old(L.elems)[1..]
      ensures old(L.elems)[0] in entry && t == entry[old(L.elems)[0]]
      ensures t in elem && Loose(Elems(), elem, t)
    {
      hide Filed, Loose, List.Valid, List.Chain, OwnAll;
      ghost var qs := Elems();
      FrontOnce(L);
      FiledPop(qs, elem, entry, nodes, L);
      Separate(L);
      var e := Popped(L, lists);
      assert Elems() == qs[L := qs[L][1..]];
      t := entry[e];
      forall M | M in lists ensures InNodes(M, nodes) {
        Known(M);
      }
    }

    static method Popped(L: List, ghost ls: set<List>) returns (front: Elem)
      requires L.Valid() && L.elems != [] && forall M | M in ls :: M.Valid()
      requires forall M, d | M in ls && M != L && d in M.Chain() :: d !in L.Chain()
      modifies L, L.Chain()
      ensures front == old(L.elems)[0] && L.elems == old(L.elems)[1..] && L.Valid()
      ensures forall M | M in ls :: M.Valid()
    {
      hide List.Valid;
      front := L.PopFront();
      forall M | M in ls && M != L ensures M.Valid() {
        ghost var c := M.Chain();
        assert c == old(M.Chain());
        forall i | 0 <= i < |c| ensures unchanged(c[i]) {
          assert c[i] in old(M.Chain()) && c[i] !in old(L.Chain());
        }
        StillValid(M);
      }
    }

    lemma FrontOnce(L: List)
      requires L.Valid() && L.elems != []
      ensures L.elems[0] !in L.elems[1..]
    {
      forall i | 1 <= i < |L.elems| ensures L.elems[i] != L.elems[0] {
        assert L.Chain()[1] == L.elems[0] && L.Chain()[i + 1] == L.elems[i];
      }
    }

    // ----- What the thread system sees of it

    lemma TidAt(es: seq<Elem>, e: Elem)
      requires e in es && e in entry
      ensures entry[e] in Tids(entry, es)
    {
      var i :| 0 <= i < |es| && es[i] == e;
      assert Tids(entry, es)[i] == entry[e];
    }

    lemma ElemEntry(t: Tid)
      requires Valid() && t in elem
      ensures elem[t] in entry && entry[elem[t]] == t
    {
    }

    method PushReady(t: Tid)
      requires Valid() && t in elem && Loose(Elems(), elem, t)
      modifies readyList, nodes
      ensures Valid() && Abs() == old(Abs()).(ready := old(Abs()).ready + [t])
    {
      hide Filed, Loose, Wired, OwnAll, Tids, Globals.Semas;
      OwnWaiters();
      SemasAt();
      ElemEntry(t);
      ghost var ms := Semas();
      TidsAppend(entry, readyList.elems, elem[t]);
      Append(readyList, t);
      SemasAre(ms);
    }

    method PopReady() returns (t: Tid)
      requires Valid() && readyList.elems != []
      modifies readyList, nodes
      ensures Valid() && old(Abs()).ready != [] && t == old(Abs()).ready[0]
      ensures Abs() == old(Abs()).(ready := old(Abs()).ready[1..])
      ensures t in elem && Loose(Elems(), elem, t)
    {
      hide Filed, Loose, Wired, OwnAll, Globals.Semas;
      OwnWaiters();
      SemasAt();
      ghost var ms := Semas();
      TidsRest(entry, readyList.elems);
      t := TakeFirst(readyList);
      SemasAre(ms);
    }

    method PushWaiter(x: SemaId, t: Tid)
      requires Valid() && x in semas && t in elem && Loose(Elems(), elem, t)
      modifies semas[x].waiters, nodes
      ensures Valid() && x in old(Abs()).semas
      ensures Abs() == old(Abs()).(semas := old(Abs()).semas[x := WithWaiters(old(Abs()).semas[x],
                                                                old(Abs()).semas[x].waiters + [t])])
    {
      hide Filed, Loose, Wired, OwnAll, Tids, Globals.Semas;
      OwnWaiters();
      SemasAt();
      ElemEntry(t);
      ghost var ms := Semas();
      TidsAppend(entry, semas[x].waiters.elems, elem[t]);
      Append(semas[x].waiters, t);
      SemasAre(ms[x := WithWaiters(ms[x], ms[x].waiters + [t])]);
    }

    method PopWaiter(x: SemaId) returns (t: Tid)
      requires Valid() && x in semas && semas[x].waiters.elems != []
      modifies semas[x].waiters, nodes
      ensures Valid() && x in old(Abs()).semas && old(Abs()).semas[x].waiters != [] && t == old(Abs()).semas[x].waiters[0]
      ensures Abs() == old(Abs()).(semas := old(Abs()).semas[x := WithWaiters(old(Abs()).semas[x],
                                                                old(Abs()).semas[x].waiters[1..])])
      ensures t in elem && Loose(Elems(), elem, t)
    {
      hide Filed, Loose, Wired, OwnAll, Globals.Semas;
      OwnWaiters();
      SemasAt();
      ghost var ms := Semas();
      TidsRest(entry, semas[x].waiters.elems);
      t := TakeFirst(semas[x].waiters);
      SemasAre(ms[x := WithWaiters(ms[x], ms[x].waiters[1..])]);
    }

    lemma OwnWaiters()
      requires OwnLists()
      ensures readyList in lists && forall x | x in semas :: semas[x].waiters in lists && semas[x].waiters != readyList
      ensures forall x, y | x in semas && y in semas && x != y :: semas[x].waiters != semas[y].waiters
    {
      ListsHave(readyList, semas);
    }

    lemma ListIs(L: List)
      requires OwnLists() && L in lists
      ensures L == readyList || exists x :: x in semas && L == semas[x].waiters
    {
    }

    lemma LooseFrom(t: Tid)
      requires Valid() && t in elem && OnNoList(Abs(), t)
      ensures Loose(Elems(), elem, t)
    {
      hide Filed, Wired, Tids, Globals.Semas, OwnAll;
      ElemEntry(t);
      SemasAt();
      forall L | L in lists ensures elem[t] !in L.elems {
        ListIs(L);
        if elem[t] in L.elems { TidAt(L.elems, elem[t]); }
      }
    }

    method Empty(L: List) returns (empty: bool)
      requires Valid() && L in lists
      ensures empty <==> L.elems == []
    {
      hide Filed, OwnAll, List.Valid;
      empty := L.IsEmpty();
    }

    // ----- thread.c

    method NextThreadToRun() returns (next: Option<Tid>)
      requires Valid()
      modifies readyList, nodes
      ensures Valid() && next == Threads.NextThreadToRun(old(Abs()))
      ensures Abs() == old(Abs()).(ready := if old(Abs()).ready == [] then [] else old(Abs()).ready[1..])
    {
      hide Filed, Loose, OwnAll, Wired, Globals.Semas;
      Owned();
      var empty := Empty(readyList);
      if empty {
        next := idleThread;
      } else {
        var t := PopReady();
        next := Some(t);
      }
    }

    /** palloc_free_page of a struct thread. */
    method Destroy(t: Tid)
      requires Valid() && OnNoList(Abs(), t) && t in status
      modifies this`status, this`elem, this`pc
      ensures Valid()
      ensures Abs() == old(Abs()).(status := old(status) - {t}, pc := old(pc) - {t})
    {
      hide Globals.Valid, Globals.Semas, Loose, OnNoList, Tids;
      ElemOf(t);
      LooseFrom(t);
      Forget(t);
      pc := pc - {t};
    }

    method Forget(t: Tid)
      requires Valid() && t in elem && Loose(Elems(), elem, t)
      modifies this`status, this`elem
      ensures Valid() && status == old(status) - {t}
    {
      hide Filed, Loose, OwnAll, Wired;
      FiledDrop(Elems(), elem, entry, nodes, t);
      status, elem := status - {t}, elem - {t};
    }

    /** The current thread has left the running state, and another one is found. */
    method Schedule()
      requires Valid() && Threads.Schedule(Abs()).Ok? && Inv(Threads.Schedule(Abs()).state)
      modifies this`status, this`current, this`elem, this`pc, this`dispatches, readyList, nodes
      ensures Valid() && Threads.Schedule(old(Abs())) == Ok(Abs()) && Inv(Abs())
    {
      hide Globals.Valid, Globals.Semas, OnNoList, Tids;
      hide SyncOk, StatusOk, DyingOk, RunningOk, QueueOk, IdleOk, AllOk, WaitOk;
      ghost var s := Threads.Schedule(Abs()).state;
      var next := NextThreadToRun();
      if current !in s.status {
        AwakeOnNoList(s, current);
        SameLists(s, Abs(), current);
      }
      ScheduleTail(next.value);
    }

    method ScheduleTail(next: Tid)
      requires Valid() && current in status && next in status
      requires current !in Switched(Abs(), next).status ==> OnNoList(Abs(), current)
      modifies this`status, this`current, this`elem, this`pc, this`dispatches
      ensures Valid() && Abs() == Switched(old(Abs()), next)
    {
      hide Globals.Valid, Globals.Semas, OnNoList, Tids;
      var prev := current;
      SetRunning(next);
      if status[prev] == Dying && prev != initialThread {
        SameLists(old(Abs()), Abs(), prev);
        Destroy(prev);
      }
    }

    method SetRunning(next: Tid)
      requires Valid() && next in status
      modifies this`status, this`current, this`dispatches
      ensures Valid() && current == next && status == old(status)[next := Running] && dispatches == old(dispatches) + 1
    {
      hide Filed, OwnAll, Wired;
      current, status := next, status[next := Running];
      dispatches := dispatches + 1;
    }

    method ThreadBlock()
      requires Valid() && Threads.ThreadBlock(Abs()).Ok? && Inv(Threads.ThreadBlock(Abs()).state)
      modifies this`status, this`current, this`elem, this`pc, this`dispatches, readyList, nodes
      ensures Valid() && Threads.ThreadBlock(old(Abs())) == Ok(Abs()) && Inv(Abs())
    {
      hide Filed, OwnAll, Wired, Globals.Semas, Inv, Threads.Schedule, Tids;
      status := status[current := Blocked];
      Schedule();
    }

    method ThreadUnblock(t: Tid)
      requires Valid() && t in status && status[t] == Blocked && Loose(Elems(), elem, t)
      modifies this`status, readyList, nodes
      ensures Valid() && Threads.ThreadUnblock(old(Abs()), t) == Ok(Abs())
    {
      hide Filed, OwnAll, Wired, Globals.Semas, Tids, Loose;
      PushReady(t);
      status := status[t := Ready];
    }

    lemma CurrentLoose()
      requires Valid() && Inv(Abs())
      ensures CurrentOk(Abs()) && current in elem && Loose(Elems(), elem, current)
    {
      hide Filed, OwnAll, Wired, Globals.Semas, Tids, Loose, OnNoList;
      hide SyncOk, StatusOk, DyingOk, RunningOk, QueueOk, IdleOk, AllOk, WaitOk;
      CurrentFacts(Abs());
      AwakeOnNoList(Abs(), current);
      LooseFrom(current);
    }

    method ThreadYield()
      requires Valid() && Inv(Abs())
      modifies this`status, this`current, this`elem, this`pc, this`dispatches, readyList, nodes
      ensures Valid() && Threads.ThreadYield(old(Abs())) == Ok(Abs()) && Inv(Abs())
    {
      hide Filed, OwnAll, Wired, Globals.Semas, Inv, Tids, Loose, Threads.Schedule;
      YieldKeeps(Abs());
      CurrentLoose();
      if idleThread != Some(current) {
        PushReady(current);
      }
      status := status[current := Ready];
      Schedule();
    }

    method ThreadExit()
      requires Valid() && Inv(Abs()) && AtClient(Abs()) && HoldsNothing(holder, current)
      modifies this`status, this`current, this`elem, this`pc, this`dispatches, this`allList, readyList, nodes
      ensures Valid() && Threads.ThreadExit(old(Abs())) == Ok(Abs()) && Inv(Abs())
    {
      hide Filed, OwnAll, Wired, Globals.Semas, Inv, Tids, Loose, Threads.Schedule;
      ExitKeeps(Abs());
      CurrentLoose();
      allList, status := Removed(allList, current), status[current := Dying];
      Schedule();
    }

    // ----- synch.c

    /** Adds to the counters of a semaphore. */
    method Count(x: SemaId, value: nat, ghost ups: nat, ghost downs: nat)
      requires Valid() && x in semas
      modifies semas[x]
      ensures Valid() && x in old(Abs()).semas
      ensures Abs() == old(Abs()).(semas := old(Abs()).semas[x := Counted(old(Abs()).semas[x], value, ups, downs)])
    {
      hide Globals.Valid, Globals.Semas, Tids;
      CountSemas(x, value, ups, downs);
    }

    method CountSemas(x: SemaId, value: nat, ghost ups: nat, ghost downs: nat)
      requires Valid() && x in semas
      modifies semas[x]
      ensures Valid() && x in old(Semas()) && Semas() == old(Semas())[x := Counted(old(Semas())[x], value, ups, downs)]
    {
      hide OwnAll, Globals.Valid, Globals.Semas, Tids;
      OwnsLists();
      OwnWaiters();
      SemasAt();
      ghost var ms := Semas();
      SetCounts(semas[x], value, ups, downs);
      SemasAre(ms[x := Counted(ms[x], value, ups, downs)]);
    }

    method SetCounts(m: Semaphore, value: nat, ghost ups: nat, ghost downs: nat)
      requires Valid()
      modifies m
      ensures Valid()
      ensures m.value == value && m.ups == old(m.ups) + ups && m.downs == old(m.downs) + downs && m.init == old(m.init)
    {
      hide Globals.Valid;
      m.value, m.ups, m.downs := value, m.ups + ups, m.downs + downs;
    }

    method SemaUp(x: SemaId)
      requires Valid() && Inv(Abs()) && x in semas
      modifies this`status, semas[x], semas[x].waiters, readyList, nodes
      ensures Valid() && Threads.SemaUp(old(Abs()), x) == Ok(Abs())
      ensures SchedOk(Abs()) && WaitOk(Abs().status, Abs().pc, Abs().semas) && (x.Plain? ==> Inv(Abs()))
    {
      hide Globals.Valid, Globals.Semas, Tids, Inv, Woke, Counted, Threads.SemaUp;
      hide SchedOk, WaitOk;
      SemaFacts(x);
      UpAny(Abs(), x);
      if x.Plain? { UpKeeps(Abs(), x); }
      ghost var s := Abs();
      var empty := Empty(semas[x].waiters);
      if !empty {
        WakeFirst(x);
      }
      ghost var s1 := Abs();
      SemaFacts(x);
      UpParts(s, x, s1);
      Count(x, semas[x].value + 1, 1, 0);
    }

    /** sema_up and sema_try_down keep what the scheduler and the wait lists rely on, whatever
        the semaphore is part of. */
    static lemma UpAny(s: State, x: SemaId)
      requires Inv(s) && x in s.semas
      ensures var r := Threads.SemaUp(s, x);
        r.Ok? && SchedOk(r.state) && WaitOk(r.state.status, r.state.pc, r.state.semas)
    {
      hide StatusOk, DyingOk, RunningOk, QueueOk, IdleOk, AllOk, WaitOk, SyncOk;
      UpFacts(s, x);
    }

    static lemma TryAny(s: State, x: SemaId)
      requires Inv(s) && x in s.semas
      ensures var r := Threads.SemaTryDown(s, x);
        r.Ok? && SchedOk(r.state) && WaitOk(r.state.status, r.state.pc, r.state.semas)
    {
      hide StatusOk, DyingOk, RunningOk, QueueOk, IdleOk, AllOk, WaitOk, SyncOk;
      if s.semas[x].value > 0 {
        WaitCounters(s.status, s.pc, s.semas, x, Downed(s.semas[x]));
      }
    }

    lemma SemaFacts(x: SemaId)
      requires Valid() && x in semas
      ensures semas[x].waiters in lists && x in Abs().semas && Abs().semas[x].value == semas[x].value
      ensures Abs().semas[x].waiters == [] <==> semas[x].waiters.elems == []
    {
      hide Filed, OwnAll, Wired, Globals.Semas;
      OwnWaiters();
      SemasAt();
    }

    /** The thread at the front of a wait list becomes ready. */
    method WakeFirst(x: SemaId)
      requires Valid() && Inv(Abs()) && x in semas && semas[x].waiters.elems != []
      modifies this`status, semas[x].waiters, readyList, nodes
      ensures Valid() && Woke(old(Abs()), x, Abs())
    {
      hide Globals.Valid, Globals.Semas, OwnAll, Tids, Loose;
      hide SyncOk, StatusOk, DyingOk, RunningOk, QueueOk, IdleOk, AllOk, WaitOk;
      var t := PopWaiter(x);
      FrontFacts(old(Abs()), x);
      ThreadUnblock(t);
    }

    method SemaTryDown(x: SemaId) returns (success: bool)
      requires Valid() && Inv(Abs()) && x in semas
      modifies semas[x]
      ensures Valid() && Threads.SemaTryDown(old(Abs()), x) == Ok(Abs())
      ensures success <==> old(semas[x].value) > 0
      ensures SchedOk(Abs()) && WaitOk(Abs().status, Abs().pc, Abs().semas) && (x.Plain? ==> Inv(Abs()))
    {
      hide Globals.Valid, Globals.Abs, Inv, Counted;
      SemaFacts(x);
      hide SchedOk, WaitOk;
      TryParts(Abs(), x);
      TryAny(Abs(), x);
      if x.Plain? { TryDownKeeps(Abs(), x); }
      success := semas[x].value > 0;
      if success {
        Count(x, semas[x].value - 1, 0, 1);
      }
    }

    /** The semaphore of a wait that is over: it was on the waiting thread's stack. */
    method DropSema(x: SemaId)
      requires Valid() && x in semas
      modifies this`semas, this`lists, this`sems
      ensures Valid() && Abs() == old(Abs()).(semas := old(Abs()).semas - {x})
      ensures lists <= old(lists) && sems <= old(sems)
    {
      hide Globals.Valid, Globals.Semas, Tids;
      DropSemas(x);
    }

    method DropSemas(x: SemaId)
      requires Valid() && x in semas
      modifies this`semas, this`lists, this`sems
      ensures Valid() && Semas() == old(Semas()) - {x} && lists <= old(lists) && sems <= old(sems)
    {
      hide Globals.Valid, Globals.Semas, OwnAll, SemaOf;
      OwnsLists();
      SemasAt();
      ghost var ms := Semas();
      DropList(x);
      OwnsLists();
      SemasAre(ms - {x});
    }

    method DropList(x: SemaId)
      requires Valid() && x in semas
      modifies this`semas, this`lists, this`sems
      ensures Valid() && semas == old(semas) - {x} && lists <= old(lists) && sems <= old(sems)
    {
      hide Filed, OwnAll, List.Valid;
      ghost var qs, L := Elems(), semas[x].waiters;
      OwnDrop(readyList, semas, lists, sems, x);
      FiledLess(qs, elem, entry, nodes, L);
      lists, sems := lists - {L}, sems - {semas[x]};
      semas := semas - {x};
      assert Elems() == qs - {L};
    }

    /** One iteration of the loop in sema_down, and what follows the loop. */
    method SemaDownTurn(x: SemaId)
      requires Valid() && Inv(Abs()) && pc[current].Down? && pc[current].sema == x
      modifies this, lists, sems, nodes
      ensures Valid() && DownAttempt(old(Abs()), x) == Ok(Abs()) && Inv(Abs())
      ensures lists <= old(lists) && sems <= old(sems) && nodes == old(nodes)
    {
      hide Globals.Valid, Globals.Semas, Tids, Inv, DownAttempt;
      DownKeeps(Abs(), x);
      DownFacts(x);
      if semas[x].value == 0 {
        Sleep(x);
      } else {
        Take(x);
      }
    }

    lemma DownFacts(x: SemaId)
      requires Valid() && Inv(Abs()) && pc[current].Down? && pc[current].sema == x
      ensures x in semas && semas[x] in sems && semas[x].waiters in lists && readyList in lists && CurrentOk(Abs())
    {
      hide SyncOk, DyingOk, RunningOk, QueueOk, IdleOk, AllOk, StatusOk, Filed, Wired, Globals.Semas, Tids, OwnAll;
      CurrentFacts(Abs());
      SemasAt();
      Owned();
      assert Owns(x);
    }

    method Sleep(x: SemaId)
      requires Valid() && Inv(Abs()) && x in semas && semas[x].value == 0
      requires DownAttempt(Abs(), x).Ok? && Inv(DownAttempt(Abs(), x).state)
      modifies this`status, this`current, this`elem, this`pc, this`dispatches, semas[x].waiters, readyList, nodes
      ensures Valid() && DownAttempt(old(Abs()), x) == Ok(Abs()) && Inv(Abs())
    {
      hide Globals.Valid, Globals.Semas, Tids, Loose, Inv, Threads.ThreadBlock;
      CurrentLoose();
      SemaFacts(x);
      PushWaiter(x, current);
      pc := pc[current := Down(x, true)];
      ThreadBlock();
    }

    method Take(x: SemaId)
      requires Valid() && x in semas && semas[x].value > 0
      requires CurrentOk(Abs()) && DownAttempt(Abs(), x).Ok?
      modifies this`semas, this`lists, this`sems, this`pc, semas[x]
      ensures Valid() && DownAttempt(old(Abs()), x) == Ok(Abs())
      ensures lists <= old(lists) && sems <= old(sems)
    {
      hide Globals.Valid, Globals.Abs;
      SemaFacts(x);
      View();
      Count(x, semas[x].value - 1, 0, 1);
      match x
      case Plain(_) => SetPc(Client);
      case OfLock(l) => SetPc(TakeHold(l));
      case OfWaiter(w) =>
        DropSema(x);
        SetPc(Down(OfLock(conds[w.cond].lock), false));
    }

    // ----- Every transition

    /** thread_unblock of a thread that called thread_block, or of a new one. */
    method Wake(t: Tid)
      requires Valid() && Inv(Abs()) && t in pc && (pc[t] == Parked || pc[t] == Embryo)
      modifies this`status, this`pc, readyList, nodes
      ensures Valid() && Threads.ThreadUnblock(old(Abs()), t).Ok?
      ensures var s := Threads.ThreadUnblock(old(Abs()), t).state; Abs() == s.(pc := s.pc[t := Client])
    {
      hide Globals.Valid, Globals.Semas, Tids, Loose, OnNoList;
      hide SyncOk, StatusOk, DyingOk, RunningOk, QueueOk, IdleOk, AllOk, WaitOk;
      AsleepFacts(Abs(), t);
      AwakeOnNoList(Abs(), t);
      ElemOf(t);
      LooseFrom(t);
      ThreadUnblock(t);
      pc := pc[t := Client];
    }

    lemma ElemOf(t: Tid)
      requires Valid() && t in status
      ensures t in elem
    {
    }

    /** thread_create up to the call of thread_unblock. */
    method ThreadCreate(t: Tid)
      requires Valid() && t !in status
      modifies this`elem, this`entry, this`nodes, this`status, this`pc, this`allList
      ensures Valid() && fresh(nodes - old(nodes))
      ensures Abs() == old(Abs()).(status := old(status)[t := Blocked], pc := old(pc)[t := Embryo], all := old(allList) + [t])
    {
      hide Globals.Valid, Globals.Semas, Tids, Loose;
      AddThread(t);
      pc, allList := pc[t := Embryo], allList + [t];
    }

    /** Carries out any transition of the thread system. */
    method Step(a: Action)
      requires Valid() && Inv(Abs()) && Enabled(Abs(), a)
      modifies this, lists, sems, nodes
      ensures Valid() && Threads.Step(old(Abs()), a) == Ok(Abs()) && Inv(Abs())
      ensures fresh(lists - old(lists)) && fresh(sems - old(sems)) && fresh(nodes - old(nodes))
    {
      hide Globals.Valid, Globals.Abs, Inv, Enabled, Threads.Step;
      StepKeeps(Abs(), a);
      Basics();
      if a.Create? || a.SemaInit? || a.LockInit? || a.CallWait? {
        StepNew(a);
      } else if a.Continue? || a.Up? || a.TryDown? || a.TryAcquire? {
        StepSema(a);
      } else {
        StepThread(a);
      }
    }

    /** The transitions that bring new threads and semaphores into being. */
    method StepNew(a: Action)
      requires Valid() && Inv(Abs()) && Enabled(Abs(), a)
      requires a.Create? || a.SemaInit? || a.LockInit? || a.CallWait?
      modifies this
      ensures Valid() && Threads.Step(old(Abs()), a) == Ok(Abs())
      ensures fresh(lists - old(lists)) && fresh(sems - old(sems)) && fresh(nodes - old(nodes))
    {
      hide Globals.Valid, Globals.Abs, Inv, Threads.CondQueue, HoldsNothing;
      Basics();
      match a
      case Create(t) => ThreadCreate(t);
      case SemaInit(id, v) => AddSema(Plain(id), v);
      case LockInit(l) => LockInit(l);
      case CallWait(c) => CondQueue(c);
    }

    /** The transitions that change a semaphore, or may do so. */
    method StepSema(a: Action)
      requires Valid() && Inv(Abs()) && Enabled(Abs(), a)
      requires a.Continue? || a.Up? || a.TryDown? || a.TryAcquire?
      modifies this, lists, sems, nodes
      ensures Valid() && Threads.Step(old(Abs()), a) == Ok(Abs())
      ensures lists <= old(lists) && sems <= old(sems) && nodes == old(nodes)
    {
      hide Globals.Valid, Globals.Abs, Inv, ContinueFrom, HoldsNothing;
      hide Threads.SemaUp, Threads.SemaTryDown, Threads.LockTryAcquire, SchedOk, WaitOk;
      Basics();
      match a
      case TryDown(id) => var _ := SemaTryDown(Plain(id));
      case Up(id) => SemaUp(Plain(id));
      case TryAcquire(l) => LockTryAcquire(l);
      case Continue => Continue();
    }

    /** The transitions of the scheduler, and the first sections of the other operations. */
    method StepThread(a: Action)
      requires Valid() && Inv(Abs()) && Enabled(Abs(), a)
      requires !(a.Create? || a.SemaInit? || a.LockInit? || a.CallWait?)
      requires !(a.Continue? || a.Up? || a.TryDown? || a.TryAcquire?)
      modifies this`status, this`current, this`elem, this`pc, this`dispatches, this`allList, this`holder, this`conds
      modifies readyList, nodes
      ensures Valid() && Threads.Step(old(Abs()), a) == Ok(Abs())
    {
      hide Globals.Valid, Globals.Abs, Inv;
      hide Threads.ThreadYield, Threads.ThreadBlock, Threads.ThreadExit, Threads.ThreadUnblock;
      StepKeeps(Abs(), a);
      Basics();
      match a
      case Yield => ThreadYield();
      case Park => SetPc(Parked); ThreadBlock();
      case Wake(t) => Wake(t);
      case Launch(t) => Wake(t);
      case Exit => ThreadExit();
      case CallDown(id) => SetPc(Down(Plain(id), false));
      case CallAcquire(l) => SetPc(Down(OfLock(l), false));
      case CallRelease(l) => SetHolder(l, None); SetPc(GiveUp(l, None));
      case CondInit(c, l) => SetCond(c, Cond(l, [], 0, 0));
      case CallSignal(c) => SetPc(SigTest(c, ByClient));
      case CallBroadcast(c) => SetPc(BcTest(c, conds[c].waits));
    }

    method LockInit(l: LockId)
      requires Valid() && OfLock(l) !in semas
      modifies this`semas, this`nodes, this`lists, this`sems, this`holder
      ensures Valid() && fresh(nodes - old(nodes)) && fresh(lists - old(lists)) && fresh(sems - old(sems))
      ensures Abs() == old(Abs()).(holder := old(Abs()).holder[l := None],
                                   semas := old(Abs()).semas[OfLock(l) := Sema(1, [], 1, 0, 0)])
    {
      hide Globals.Valid, Globals.Abs;
      AddSema(OfLock(l), 1);
      SetHolder(l, None);
    }

    /** lock_try_acquire up to the store of the holder. */
    method LockTryAcquire(l: LockId)
      requires Valid() && Inv(Abs()) && OfLock(l) in semas
      modifies semas[OfLock(l)], this`pc
      ensures Valid() && Threads.LockTryAcquire(old(Abs()), l) == Ok(Abs())
    {
      hide Globals.Valid, Globals.Abs, Inv, Threads.SemaTryDown, SchedOk, WaitOk;
      SemaFacts(OfLock(l));
      var got := SemaTryDown(OfLock(l));
      if got { SetPc(TakeHold(l)); }
    }

    lemma View()
      ensures var s := Abs();
        && s.status == status && s.pc == pc && s.current == current && s.all == allList && s.idle == idleThread
        && s.main == initialThread && s.holder == holder && s.conds == conds
    {
    }

    /** Stores that no list sees. */
    method SetPc(p: Pc)
      requires Valid()
      modifies this`pc
      ensures Valid() && Abs() == Threads.SetPc(old(Abs()), p)
    {
      hide Globals.Valid, Globals.Semas, Tids;
      pc := pc[current := p];
    }

    method SetHolder(l: LockId, t: Option<Tid>)
      requires Valid()
      modifies this`holder
      ensures Valid() && Abs() == Threads.SetHolder(old(Abs()), l, t)
    {
      hide Globals.Valid, Globals.Semas, Tids;
      holder := holder[l := t];
    }

    method SetCond(c: CondId, v: Cond)
      requires Valid()
      modifies this`conds
      ensures Valid() && Abs() == old(Abs()).(conds := old(Abs()).conds[c := v])
    {
      hide Globals.Valid, Globals.Semas, Tids;
      conds := conds[c := v];
    }

    method SetIdle()
      requires Valid()
      modifies this`idleThread
      ensures Valid() && Abs() == old(Abs()).(idle := Some(current))
    {
      hide Globals.Valid, Globals.Semas, Tids;
      idleThread := Some(current);
    }

    lemma Basics()
      requires Valid() && Inv(Abs())
      ensures var s := Abs();
        && s.status == status && s.pc == pc && s.current == current && s.all == allList && s.idle == idleThread
        && s.main == initialThread && s.holder == holder && s.conds == conds
      ensures CurrentOk(Abs()) && readyList in lists && Abs().semas.Keys == semas.Keys && status.Keys == pc.Keys
      ensures forall x | x in semas :: semas[x] in sems && semas[x].waiters in lists && Abs().semas[x].value == semas[x].value
      ensures forall l :: l in holder <==> OfLock(l) in semas
    {
      hide CountOk, CondOk, DyingOk, RunningOk, QueueOk, IdleOk, AllOk, WaitOk, Filed, Wired, Globals.Semas, Tids, OwnAll;
      CurrentFacts(Abs());
      SemasAt();
      Owned();
      forall x | x in semas ensures semas[x] in sems && semas[x].waiters in lists && Abs().semas[x].value == semas[x].value {
        assert Owns(x);
      }
    }

    /** cond_wait up to the call of lock_release. */
    method CondQueue(c: CondId)
      requires Valid() && Inv(Abs()) && AtClient(Abs()) && c in conds && Holds(Abs(), conds[c].lock)
      modifies this`semas, this`nodes, this`lists, this`sems, this`conds, this`pc
      ensures Valid() && Threads.CondQueue(old(Abs()), c) == Ok(Abs())
      ensures fresh(nodes - old(nodes)) && fresh(lists - old(lists)) && fresh(sems - old(sems))
    {
      hide Globals.Valid, Globals.Abs, Inv;
      View();
      var v := conds[c];
      var w := Waiter(current, c, v.waits);
      NewTicket(c);
      AddSema(OfWaiter(w), 0);
      SetCond(c, v.(queue := v.queue + [w], waits := v.waits + 1));
      SetPc(Unlock(w));
    }

    lemma NewTicket(c: CondId)
      requires Valid() && Inv(Abs()) && AtClient(Abs()) && c in conds && Holds(Abs(), conds[c].lock)
      ensures OfWaiter(Waiter(current, c, conds[c].waits)) !in semas
    {
      hide StatusOk, DyingOk, RunningOk, QueueOk, IdleOk, AllOk, WaitOk, CountOk, LockOk, CondOk;
      hide Filed, Wired, Globals.Semas, Tids, OwnAll;
      SemasAt();
      ghost var s := Abs();
      CondQueueKeeps(s.pc, s.semas, s.holder, s.conds, c, current, Waiter(current, c, conds[c].waits));
    }

    /** The next section of whatever the current thread is inside. */
    method Continue()
      requires Valid() && Inv(Abs()) && !AtClient(Abs())
      modifies this, lists, sems, nodes
      ensures Valid() && ContinueFrom(old(Abs()), old(pc[current])) == Ok(Abs())
      ensures lists <= old(lists) && sems <= old(sems) && nodes == old(nodes)
    {
      hide Globals.Valid, Globals.Abs, Inv, ContinueFrom;
      ContinueKeeps(Abs());
      Basics();
      var p := pc[current];
      if p.Down? || p.IdleLoop? {
        ContinueDown(p);
      } else if p.GiveUp? || p.SigUp? || p.IdleUp? {
        ContinueUp(p);
      } else {
        ContinueMove(p);
      }
    }

    method ContinueDown(p: Pc)
      requires Valid() && Inv(Abs()) && p == pc[current] && (p.Down? || p.IdleLoop?)
      modifies this, lists, sems, nodes
      ensures Valid() && ContinueFrom(old(Abs()), p) == Ok(Abs())
      ensures lists <= old(lists) && sems <= old(sems) && nodes == old(nodes)
    {
      hide Globals.Valid, Globals.Abs, Inv, DownAttempt, Threads.ThreadBlock;
      Basics();
      match p
      case Down(x, _) => SemaDownTurn(x);
      case IdleLoop =>
        ContinueKeeps(Abs());
        ThreadBlock();
    }

    /** The sections that call sema_up. */
    method ContinueUp(p: Pc)
      requires Valid() && Inv(Abs()) && p == pc[current] && (p.GiveUp? || p.SigUp? || p.IdleUp?)
      modifies this`status, this`pc, lists, sems, nodes
      ensures Valid() && ContinueFrom(old(Abs()), p) == Ok(Abs())
    {
      hide Globals.Valid, Globals.Abs, Inv, Threads.SemaUp, SchedOk, WaitOk;
      Basics();
      ContinueKeeps(Abs());
      UpNeeds(Abs());
      match p
      case GiveUp(l, wait) =>
        SemaUp(OfLock(l));
        SetPc(if wait == None then Client else Down(OfWaiter(wait.value), false));
      case SigUp(c, w, caller) =>
        SemaUp(OfWaiter(w));
        Signalled(c, caller);
      case IdleUp => SemaUp(IDLE_STARTED); SetPc(IdleLoop);
    }

    /** The sections that no list sees. */
    method ContinueMove(p: Pc)
      requires Valid() && Inv(Abs()) && p == pc[current]
      requires !(p.Client? || p.Down? || p.IdleLoop? || p.GiveUp? || p.SigUp? || p.IdleUp?)
      modifies this`pc, this`holder, this`conds, this`idleThread
      ensures Valid() && ContinueFrom(old(Abs()), p) == Ok(Abs())
    {
      hide Globals.Valid, Globals.Abs, Inv;
      View();
      ContinueKeeps(Abs());
      match p
      case TakeHold(l) => SetHolder(l, Some(current)); SetPc(Client);
      case Unlock(w) =>
        var l := conds[w.cond].lock;
        SetHolder(l, None);
        SetPc(GiveUp(l, Some(w)));
      case SigTest(c, caller) =>
        if conds[c].queue == [] {
          Signalled(c, caller);
        } else {
          SetPc(SigPop(c, caller));
        }
      case SigPop(c, caller) =>
        var v := conds[c];
        SetCond(c, v.(queue := v.queue[1..], signals := v.signals + 1));
        SetPc(SigUp(c, v.queue[0], caller));
      case BcTest(c, upto) => SetPc(if conds[c].queue == [] then Client else SigTest(c, ByBroadcast(upto)));
      case IdleStart => SetIdle(); SetPc(IdleUp);
      case _ =>
    }

    method Signalled(c: CondId, caller: Caller)
      requires Valid()
      modifies this`pc
      ensures Valid() && Abs() == AfterSignal(old(Abs()), c, caller)
    {
      hide Globals.Valid, Globals.Semas, Tids;
      match caller
      case ByClient => SetPc(Client);
      case ByBroadcast(upto) => SetPc(BcTest(c, upto));
    }

    // ----- Whole runs

    /** Every run of the thread system is carried out on the lists. */
    method Run(actions: seq<Action>, ghost states: seq<State>)
      requires Valid() && IsRun(states, actions) && Abs() == states[0]
      modifies this, lists, sems, nodes
      ensures Valid() && Abs() == states[|actions|]
    {
      hide Globals.Valid, Globals.Abs, Inv, Init, Enabled, Threads.Step;
      var i := 0;
      while i < |actions|
        invariant 0 <= i <= |actions| && Valid() && Abs() == states[i]
        invariant fresh(lists - old(lists)) && fresh(sems - old(sems)) && fresh(nodes - old(nodes))
      {
        RunInv(states, actions, i);
        assert IsStep(states[i], actions[i], states[i + 1]);
        Step(actions[i]);
        i := i + 1;
      }
    }
  }

  /** The kernel as it boots. */
  method Boot(main: Tid, idler: Tid) returns (k: Globals)
    requires main != idler
    ensures fresh(k) && fresh(k.lists) && fresh(k.sems) && fresh(k.nodes)
    ensures k.Valid() && Init(k.Abs())
  {
    k := new Globals(main, idler);
    k.Start(main, idler);
  }
}
