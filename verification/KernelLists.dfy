/** Several linked lists whose elements belong to threads, one element to a thread. */
module KernelLists {
  import opened Lists
  import opened Threads
  import opened ThreadsInvariant

  /** struct semaphore; `init`, `ups` and `downs` are history. */
  class Semaphore {
    var value: nat
    const waiters: List
    ghost var init: nat
    ghost var ups: nat
    ghost var downs: nat

    /** sema_init */
    constructor (value: nat)
      ensures this.value == value && init == value && ups == 0 && downs == 0
      ensures waiters.Valid() && waiters.elems == [] && fresh(waiters) && fresh(waiters.head) && fresh(waiters.tail)
      ensures waiters.head != waiters.tail
    {
      this.value := value;
      waiters := new List();
      init, ups, downs := value, 0, 0;
    }
  }

  /** The run queue and the wait lists. */
  ghost function ListsOf(ready: List, semas: map<SemaId, Semaphore>): set<List> {
    {ready} + set x | x in semas :: semas[x].waiters
  }

  lemma ListsAdd(ready: List, semas: map<SemaId, Semaphore>, x: SemaId, m: Semaphore)
    requires x !in semas
    ensures ListsOf(ready, semas[x := m]) == ListsOf(ready, semas) + {m.waiters}
  {
    var semas' := semas[x := m];
    forall L | L in ListsOf(ready, semas) + {m.waiters} ensures L in ListsOf(ready, semas') {
      if L == m.waiters {
        assert semas'[x].waiters == L;
      } else if L != ready {
        var y :| y in semas && semas[y].waiters == L;
        assert semas'[y].waiters == L;
      }
    }
  }

  lemma ListsHave(ready: List, semas: map<SemaId, Semaphore>)
    ensures ready in ListsOf(ready, semas) && forall x | x in semas :: semas[x].waiters in ListsOf(ready, semas)
    ensures semas == map[] ==> ListsOf(ready, semas) == {ready}
  {
  }

  /** Different semaphores have wait lists of their own. */
  ghost predicate OwnAll(ready: List, semas: map<SemaId, Semaphore>, lists: set<List>, sems: set<Semaphore>) {
    && lists == ListsOf(ready, semas) && sems == semas.Values
    && (forall x | x in semas :: semas[x].waiters != ready)
    && (forall x, y | x in semas && y in semas && x != y ::
          semas[x] != semas[y] && semas[x].waiters != semas[y].waiters)
  }

  lemma OwnNone(ready: List)
    ensures OwnAll(ready, map[], {ready}, {})
  {
    ListsHave(ready, map[]);
  }

  lemma OwnAdd(ready: List, semas: map<SemaId, Semaphore>, lists: set<List>, sems: set<Semaphore>, x: SemaId, m: Semaphore)
    requires OwnAll(ready, semas, lists, sems) && x !in semas && m !in sems && m.waiters !in lists
    ensures OwnAll(ready, semas[x := m], lists + {m.waiters}, sems + {m})
  {
    ListsAdd(ready, semas, x, m);
    ListsHave(ready, semas);
    hide ListsOf;
    var semas' := semas[x := m];
    assert forall y | y in semas :: semas'[y] == semas[y];
    assert semas'[x] == m;
  }

  type Queues = map<List, seq<Elem>>

  /** The threads whose elements are on a list. */
  ghost function Tids(entry: map<Elem, Tid>, es: seq<Elem>): (ts: seq<Tid>)
    ensures |ts| == |es|
  {
    seq(|es|, i requires 0 <= i < |es| => if es[i] in entry then entry[es[i]] else 0)
  }

  lemma TidsAppend(entry: map<Elem, Tid>, es: seq<Elem>, e: Elem)
    requires e in entry
    ensures Tids(entry, es + [e]) == Tids(entry, es) + [entry[e]]
  {
  }

  lemma TidsRest(entry: map<Elem, Tid>, es: seq<Elem>)
    requires es != []
    ensures Tids(entry, es[1..]) == Tids(entry, es)[1..]
  {
  }

  /** Every element on a list is the element of a thread, headers are not, and no node is on
      two lists. */
  ghost predicate Filed(qs: Queues, elem: map<Tid, Elem>, entry: map<Elem, Tid>, nodes: set<Elem>) {
    && (forall L | L in qs :: QueueFiled(L, qs[L], elem, entry, nodes))
    && (forall L, M | L in qs && M in qs && L != M :: QueuesApart(L, qs[L], M, qs[M]))
    && (forall t | t in elem :: elem[t] in nodes && elem[t] in entry && entry[elem[t]] == t)
    && (forall L, t | L in qs && t in elem :: elem[t] != L.head && elem[t] != L.tail)
  }

  ghost predicate QueueFiled(L: List, es: seq<Elem>, elem: map<Tid, Elem>, entry: map<Elem, Tid>, nodes: set<Elem>) {
    && L.head in nodes && L.tail in nodes
    && (forall e | e in es :: e in nodes && e in entry && entry[e] in elem && elem[entry[e]] == e)
  }

  ghost predicate QueuesApart(L: List, es: seq<Elem>, M: List, ds: seq<Elem>) {
    && L.head != M.head && L.head != M.tail && L.tail != M.head && L.tail != M.tail
    && (forall e | e in es :: e !in ds)
  }

  /** The element of t is on no list. */
  ghost predicate Loose(qs: Queues, elem: map<Tid, Elem>, t: Tid)
    requires t in elem
  {
    forall L | L in qs :: elem[t] !in qs[L]
  }

  lemma FiledAppend(qs: Queues, elem: map<Tid, Elem>, entry: map<Elem, Tid>, nodes: set<Elem>, L: List, t: Tid)
    requires Filed(qs, elem, entry, nodes) && L in qs && t in elem && Loose(qs, elem, t)
    ensures Filed(qs[L := qs[L] + [elem[t]]], elem, entry, nodes)
  {
    var qs' := qs[L := qs[L] + [elem[t]]];
    forall M | M in qs' ensures QueueFiled(M, qs'[M], elem, entry, nodes) {
      assert QueueFiled(M, qs[M], elem, entry, nodes);
    }
    forall M, N | M in qs' && N in qs' && M != N ensures QueuesApart(M, qs'[M], N, qs'[N]) {
      assert QueuesApart(M, qs[M], N, qs[N]);
    }
  }

  lemma FiledPop(qs: Queues, elem: map<Tid, Elem>, entry: map<Elem, Tid>, nodes: set<Elem>, L: List)
    requires Filed(qs, elem, entry, nodes) && L in qs && qs[L] != [] && qs[L][0] !in qs[L][1..]
    ensures qs[L][0] in entry && entry[qs[L][0]] in elem
    ensures var qs' := qs[L := qs[L][1..]];
      && Filed(qs', elem, entry, nodes) && Loose(qs', elem, entry[qs[L][0]])
      && elem[entry[qs[L][0]]] == qs[L][0]
  {
    var e := qs[L][0];
    var qs' := qs[L := qs[L][1..]];
    assert QueueFiled(L, qs[L], elem, entry, nodes) && e in qs[L];
    assert forall d | d in qs'[L] :: d in qs[L];
    forall M | M in qs' ensures QueueFiled(M, qs'[M], elem, entry, nodes) && e !in qs'[M] {
      assert QueueFiled(M, qs[M], elem, entry, nodes);
      if M != L { assert QueuesApart(L, qs[L], M, qs[M]); }
    }
    forall M, N | M in qs' && N in qs' && M != N ensures QueuesApart(M, qs'[M], N, qs'[N]) {
      assert QueuesApart(M, qs[M], N, qs[N]);
    }
  }

  lemma TidsMore(entry: map<Elem, Tid>, es: seq<Elem>, e: Elem, t: Tid)
    requires e !in es
    ensures Tids(entry[e := t], es) == Tids(entry, es)
  {
  }

  lemma FiledNone(qs: Queues, L: List)
    requires qs == map[L := []]
    ensures Filed(qs, map[], map[], {L.head, L.tail})
  {
  }

  lemma FiledThread(qs: Queues, elem: map<Tid, Elem>, entry: map<Elem, Tid>, nodes: set<Elem>, t: Tid, e: Elem)
    requires Filed(qs, elem, entry, nodes) && t !in elem && e !in nodes
    ensures Filed(qs, elem[t := e], entry[e := t], nodes + {e}) && Loose(qs, elem[t := e], t)
  {
    forall L | L in qs ensures QueueFiled(L, qs[L], elem[t := e], entry[e := t], nodes + {e}) && e !in qs[L] {
      assert QueueFiled(L, qs[L], elem, entry, nodes);
    }
  }

  lemma FiledList(qs: Queues, elem: map<Tid, Elem>, entry: map<Elem, Tid>, nodes: set<Elem>, L: List)
    requires Filed(qs, elem, entry, nodes) && L !in qs && L.head !in nodes && L.tail !in nodes && L.head != L.tail
    ensures Filed(qs[L := []], elem, entry, nodes + {L.head, L.tail})
  {
    var qs' := qs[L := []];
    forall M | M in qs' ensures QueueFiled(M, qs'[M], elem, entry, nodes + {L.head, L.tail}) {
      if M != L { assert QueueFiled(M, qs[M], elem, entry, nodes); }
    }
    forall M, N | M in qs' && N in qs' && M != N ensures QueuesApart(M, qs'[M], N, qs'[N]) {
      if M != L { assert QueueFiled(M, qs[M], elem, entry, nodes); }
      if N != L { assert QueueFiled(N, qs[N], elem, entry, nodes); }
      if M != L && N != L { assert QueuesApart(M, qs[M], N, qs[N]); }
    }
  }

  /** A semaphore as the thread system sees it. */
  ghost function SemaOf(m: Semaphore, entry: map<Elem, Tid>): Sema
    reads m, m.waiters
  {
    Sema(m.value, Tids(entry, m.waiters.elems), m.init, m.ups, m.downs)
  }

  ghost predicate InNodes(L: List, nodes: set<Elem>)
    reads L
  {
    forall e | e in L.Chain() :: e in nodes
  }

  /** All lists are well linked. */
  ghost predicate Wired(lists: set<List>, nodes: set<Elem>)
    reads lists, nodes
  {
    forall L | L in lists :: InNodes(L, nodes) && L.Valid()
  }

  lemma WiredMore(lists: set<List>, nodes: set<Elem>, more: set<Elem>)
    requires Wired(lists, nodes) && nodes <= more
    ensures Wired(lists, more)
  {
    hide List.Valid;
  }

  lemma WiredOne(L: List)
    requires L.Valid() && L.elems == []
    ensures Wired({L}, {L.head, L.tail})
  {
    hide List.Valid;
  }

  lemma WiredAdd(lists: set<List>, nodes: set<Elem>, L: List)
    requires Wired(lists, nodes) && L.Valid() && L.elems == []
    ensures Wired(lists + {L}, nodes + {L.head, L.tail})
  {
    hide List.Valid;
  }

  lemma OwnDrop(ready: List, semas: map<SemaId, Semaphore>, lists: set<List>, sems: set<Semaphore>, x: SemaId)
    requires OwnAll(ready, semas, lists, sems) && x in semas
    ensures OwnAll(ready, semas - {x}, lists - {semas[x].waiters}, sems - {semas[x]})
  {
    var semas' := semas - {x};
    forall m | m in sems - {semas[x]} ensures m in semas'.Values {
      var y :| y in semas && semas[y] == m;
      assert y in semas' && semas'[y] == m;
    }
    forall L | L in lists - {semas[x].waiters} ensures L in ListsOf(ready, semas') {
      if L != ready {
        var y :| y in semas && semas[y].waiters == L;
        assert y in semas' && semas'[y].waiters == L;
      }
    }
    assert lists - {semas[x].waiters} == ListsOf(ready, semas');
  }

  /** A list that is forgotten, as a whole. */
  lemma FiledLess(qs: Queues, elem: map<Tid, Elem>, entry: map<Elem, Tid>, nodes: set<Elem>, L: List)
    requires Filed(qs, elem, entry, nodes)
    ensures Filed(qs - {L}, elem, entry, nodes)
  {
    hide QueueFiled, QueuesApart;
  }

  /** A thread that is on no list goes away. */
  lemma FiledDrop(qs: Queues, elem: map<Tid, Elem>, entry: map<Elem, Tid>, nodes: set<Elem>, t: Tid)
    requires Filed(qs, elem, entry, nodes) && t in elem && Loose(qs, elem, t)
    ensures Filed(qs, elem - {t}, entry, nodes)
  {
    forall L | L in qs ensures QueueFiled(L, qs[L], elem - {t}, entry, nodes) {
      assert QueueFiled(L, qs[L], elem, entry, nodes);
    }
  }

  function WithWaiters(m: Sema, ts: seq<Tid>): Sema {
    m.(waiters := ts)
  }

  function Counted(m: Sema, value: nat, ups: nat, downs: nat): Sema {
    m.(value := value, ups := m.ups + ups, downs := m.downs + downs)
  }

  ghost predicate Woke(s: State, x: SemaId, s': State) {
    && x in s.semas && s.semas[x].waiters != []
    && var m := s.semas[x];
       var r := ThreadUnblock(s, m.waiters[0]);
       r.Ok? && s' == r.state.(semas := s.semas[x := WithWaiters(m, m.waiters[1..])])
  }

  lemma UpParts(s: State, x: SemaId, s1: State)
    requires x in s.semas
    requires if s.semas[x].waiters == [] then s1 == s else Woke(s, x, s1)
    ensures x in s1.semas
    ensures SemaUp(s, x) == Ok(s1.(semas := s1.semas[x := Counted(s1.semas[x], s1.semas[x].value + 1, 1, 0)]))
  {
  }

  lemma TryParts(s: State, x: SemaId)
    requires x in s.semas
    ensures var m := s.semas[x];
      SemaTryDown(s, x) == Ok(if m.value == 0 then s else s.(semas := s.semas[x := Counted(m, m.value - 1, 0, 1)]))
  {
  }

  lemma UpNeeds(s: State)
    ensures forall x :: SemaUp(s, x).Ok? ==> x in s.semas
  {
  }

  lemma TwoThreads(status: map<Tid, Status>, main: Tid, idler: Tid)
    requires main != idler && status == map[main := Blocked, idler := Blocked]
    ensures status[main := Running][idler := Ready] == map[main := Running, idler := Ready]
  {
  }

  /** The thread is neither ready nor waiting. */
  ghost predicate OnNoList(s: State, t: Tid) {
    t !in s.ready && forall x | x in s.semas :: t !in s.semas[x].waiters
  }

  /** schedule_tail: `next` runs, and a thread that died is gone unless it is the initial one. */
  function Switched(s: State, next: Tid): (r: State)
    requires s.current in s.status
  {
    var status := s.status[next := Running];
    var destroy := status[s.current] == Dying && s.current != s.main;
    s.(current := next, dispatches := s.dispatches + 1,
       status := if destroy then status - {s.current} else status,
       pc := if destroy then s.pc - {s.current} else s.pc)
  }

  lemma SameLists(s: State, s': State, t: Tid)
    requires OnNoList(s, t) && s'.ready == s.ready && s'.semas == s.semas
    ensures OnNoList(s', t)
  {
  }

  lemma AwakeOnNoList(s: State, t: Tid)
    requires QueueOk(s.status, s.ready, s.idle) && WaitOk(s.status, s.pc, s.semas)
    requires t in s.status ==> s.status[t] != Ready && (s.status[t] == Blocked ==> t in s.pc && !s.pc[t].Down?)
    ensures OnNoList(s, t)
  {
  }
}
