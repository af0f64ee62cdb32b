/** What every malloc and free keeps: each block of an arena is either on its
    descriptor's free list or live, and the arena counts the free ones. */
module MallocInvariant {
  import opened Options
  import opened Seqs
  import opened Palloc
  import opened MallocBlocks

  type FreeLists = s: seq<seq<nat>> | |s| == 7 witness [[], [], [], [], [], [], []]

  /** The live blocks in the arena at a. */
  ghost function LiveIn(live: set<nat>, a: nat): set<nat> {
    set p | p in live && ArenaOf(p) == a
  }

  ghost predicate NoneFree(free: FreeLists, a: nat) {
    forall d: nat :: d < 7 ==> FreeIn(free[d], a) == {}
  }

  /** The state of the page at a: not an arena, a big block, or an arena whose blocks
      are divided into free and live ones. */
  ghost predicate ArenaOk(free: FreeLists, arenas: map<nat, Arena>, live: set<nat>, a: nat) {
    if a !in arenas then
      LiveIn(live, a) == {} && NoneFree(free, a)
    else
      && PgOfs(a) == 0
      && match arenas[a].desc
         case None =>
           LiveIn(live, a) == {a + ARENA_SIZE} && NoneFree(free, a) && arenas[a].freeCnt > 0
         case Some(d) =>
           && d < 7
           && FreeIn(free[d], a) !! LiveIn(live, a)
           && FreeIn(free[d], a) + LiveIn(live, a) == BlocksOf(a, SIZES[d])
           && arenas[a].freeCnt == |FreeIn(free[d], a)|
           && (forall e: nat :: e < 7 && e != d ==> FreeIn(free[e], a) == {})
  }

  /** Every arena but possibly `but` has a live block. */
  ghost predicate UsedOk(arenas: map<nat, Arena>, live: set<nat>, but: Option<nat>) {
    forall a :: a in arenas && but != Some(a) ==> LiveIn(live, a) != {}
  }

  ghost predicate HeapOk(free: FreeLists, arenas: map<nat, Arena>, live: set<nat>) {
    && (forall d: nat :: d < 7 ==> NoDup(free[d]))
    && (forall a: nat :: ArenaOk(free, arenas, live, a))
  }

  /** Nothing changes outside the arena at a. */
  ghost predicate SameElsewhere(free: FreeLists, free': FreeLists, arenas: map<nat, Arena>,
                                arenas': map<nat, Arena>, live: set<nat>, live': set<nat>, a: nat)
  {
    && (forall b: nat :: b != a ==> (b in arenas <==> b in arenas') && (b in arenas ==> arenas'[b] == arenas[b]))
    && (forall d: nat, p: nat :: d < 7 && ArenaOf(p) != a ==> (p in free'[d] <==> p in free[d]))
    && (forall p :: ArenaOf(p) != a ==> (p in live' <==> p in live))
  }

  lemma ElsewhereOk(free: FreeLists, free': FreeLists, arenas: map<nat, Arena>, arenas': map<nat, Arena>,
                    live: set<nat>, live': set<nat>, a: nat, b: nat)
    requires ArenaOk(free, arenas, live, b) && b != a
    requires SameElsewhere(free, free', arenas, arenas', live, live', a)
    ensures ArenaOk(free', arenas', live', b) && LiveIn(live', b) == LiveIn(live, b)
  {
    assert LiveIn(live', b) == LiveIn(live, b);
    forall d: nat | d < 7
      ensures FreeIn(free'[d], b) == FreeIn(free[d], b)
    {
    }
  }

  /** To keep the invariant it is enough to look at the arena that changed. */
  lemma ChangeOne(free: FreeLists, free': FreeLists, arenas: map<nat, Arena>, arenas': map<nat, Arena>,
                  live: set<nat>, live': set<nat>, a: nat)
    requires HeapOk(free, arenas, live) && SameElsewhere(free, free', arenas, arenas', live, live', a)
    requires forall d: nat :: d < 7 ==> NoDup(free'[d])
    requires ArenaOk(free', arenas', live', a)
    requires UsedOk(arenas, live, Some(a))
    ensures HeapOk(free', arenas', live') && UsedOk(arenas', live', Some(a))
  {
    hide ArenaOk, SameElsewhere, LiveIn;
    forall b: nat
      ensures ArenaOk(free', arenas', live', b)
    {
      if b != a { ElsewhereOk(free, free', arenas, arenas', live, live', a, b); }
    }
    forall b | b in arenas' && b != a
      ensures LiveIn(live', b) != {}
    {
      ElsewhereOk(free, free', arenas, arenas', live, live', a, b);
      ElsewhereIn(free, free', arenas, arenas', live, live', a, b);
    }
  }

  lemma ElsewhereIn(free: FreeLists, free': FreeLists, arenas: map<nat, Arena>, arenas': map<nat, Arena>,
                    live: set<nat>, live': set<nat>, a: nat, b: nat)
    requires SameElsewhere(free, free', arenas, arenas', live, live', a) && b != a
    ensures b in arenas <==> b in arenas'
  {
  }

  // ----- A new arena

  lemma AllFree(a: nat, bs: nat)
    requires bs > 0 && PgOfs(a) == 0
    ensures var fl := BlockSeq(a, bs, BlocksPerArena(bs));
      && NoDup(fl) && FreeIn(fl, a) == BlocksOf(a, bs) && |FreeIn(fl, a)| == BlocksPerArena(bs)
      && (forall p :: p in fl ==> ArenaOf(p) == a)
  {
    var fl := BlockSeq(a, bs, BlocksPerArena(bs));
    BlockSeqNoDup(a, bs, BlocksPerArena(bs));
    BlocksOfSize(a, bs);
    forall p | p in fl
      ensures ArenaOf(p) == a
    {
      assert p in BlocksOf(a, bs);
      BlocksOfIs(a, bs, p);
    }
    assert FreeIn(fl, a) == BlocksOf(a, bs);
  }

  lemma AddArena(free: FreeLists, arenas: map<nat, Arena>, live: set<nat>, a: nat, d: nat)
    requires HeapOk(free, arenas, live) && UsedOk(arenas, live, None)
    requires a !in arenas && PgOfs(a) == 0 && d < 7 && free[d] == []
    ensures var free' := free[d := BlockSeq(a, SIZES[d], BlocksPerArena(SIZES[d]))];
      var arenas' := arenas[a := Arena(Some(d), BlocksPerArena(SIZES[d]))];
      HeapOk(free', arenas', live) && UsedOk(arenas', live, Some(a))
  {
    hide BlockSeq, BlocksPerArena, BlocksOf, NoDup, ArenaOf;
    var fl := BlockSeq(a, SIZES[d], BlocksPerArena(SIZES[d]));
    AllFree(a, SIZES[d]);
    var free', arenas' := free[d := fl], arenas[a := Arena(Some(d), BlocksPerArena(SIZES[d]))];
    assert ArenaOk(free, arenas, live, a);
    assert ArenaOk(free', arenas', live, a);
    ChangeOne(free, free', arenas, arenas', live, live, a);
  }

  /** A big block is an arena of its own. */
  lemma AddBig(free: FreeLists, arenas: map<nat, Arena>, live: set<nat>, a: nat, pages: nat)
    requires HeapOk(free, arenas, live) && UsedOk(arenas, live, None)
    requires a !in arenas && PgOfs(a) == 0 && pages > 0
    ensures var arenas', p := arenas[a := Arena(None, pages)], a + ARENA_SIZE;
      p !in live && HeapOk(free, arenas', live + {p}) && UsedOk(arenas', live + {p}, None)
  {
    var arenas', p := arenas[a := Arena(None, pages)], a + ARENA_SIZE;
    assert ArenaOf(p) == a;
    assert ArenaOk(free, arenas, live, a);
    assert p !in LiveIn(live, a);
    assert LiveIn(live + {p}, a) == LiveIn(live, a) + {p};
    assert ArenaOk(free, arenas', live + {p}, a);
    hide ArenaOk, NoDup;
    ChangeOne(free, free, arenas, arenas', live, live + {p}, a);
  }

  lemma DropBig(free: FreeLists, arenas: map<nat, Arena>, live: set<nat>, a: nat)
    requires HeapOk(free, arenas, live) && UsedOk(arenas, live, None)
    requires a in arenas && arenas[a].desc == None
    ensures var p := a + ARENA_SIZE;
      p in live && HeapOk(free, arenas - {a}, live - {p}) && UsedOk(arenas - {a}, live - {p}, None)
  {
    var p := a + ARENA_SIZE;
    assert ArenaOk(free, arenas, live, a);
    assert p in LiveIn(live, a);
    assert LiveIn(live - {p}, a) == LiveIn(live, a) - {p};
    assert ArenaOk(free, arenas - {a}, live - {p}, a);
    hide ArenaOk, NoDup;
    ChangeOne(free, free, arenas, arenas - {a}, live, live - {p}, a);
  }

  // ----- Taking a block and giving it back

  function Counted(arenas: map<nat, Arena>, a: nat, n: nat): map<nat, Arena>
    requires a in arenas
  {
    arenas[a := arenas[a].(freeCnt := n)]
  }

  lemma FrontArena(free: FreeLists, arenas: map<nat, Arena>, live: set<nat>, d: nat)
    requires HeapOk(free, arenas, live) && d < 7 && free[d] != []
    ensures var b, a := free[d][0], ArenaOf(free[d][0]);
      && a in arenas && arenas[a].desc == Some(d) && arenas[a].freeCnt > 0 && PgOfs(a) == 0
      && b in FreeIn(free[d], a) && b !in live && b in BlocksOf(a, SIZES[d])
  {
    var b, a := free[d][0], ArenaOf(free[d][0]);
    assert ArenaOk(free, arenas, live, a);
    assert b in free[d];
    assert b in FreeIn(free[d], a);
    assert b in live ==> b in LiveIn(live, a);
    assert |FreeIn(free[d], a) - {b}| == |FreeIn(free[d], a)| - 1;
  }

  lemma TakeBlock(free: FreeLists, arenas: map<nat, Arena>, live: set<nat>, d: nat)
    requires HeapOk(free, arenas, live) && d < 7 && free[d] != []
    requires UsedOk(arenas, live, Some(ArenaOf(free[d][0])))
    ensures var b, a := free[d][0], ArenaOf(free[d][0]);
      && a in arenas && arenas[a].freeCnt > 0 && b !in live && arenas[a].desc == Some(d)
      && HeapOk(free[d := free[d][1..]], Counted(arenas, a, arenas[a].freeCnt - 1), live + {b})
      && UsedOk(Counted(arenas, a, arenas[a].freeCnt - 1), live + {b}, None)
  {
    hide NoDup, ArenaOf, BlocksOf;
    var b, a := free[d][0], ArenaOf(free[d][0]);
    FrontArena(free, arenas, live, d);
    FreeInPop(free[d], a);
    var free', arenas', live' := free[d := free[d][1..]], Counted(arenas, a, arenas[a].freeCnt - 1), live + {b};
    TakeHere(free, arenas, live, d, b, a);
    hide ArenaOk;
    ChangeOne(free, free', arenas, arenas', live, live', a);
    assert b in LiveIn(live', a);
  }

  lemma TakeHere(free: FreeLists, arenas: map<nat, Arena>, live: set<nat>, d: nat, b: nat, a: nat)
    requires ArenaOk(free, arenas, live, a) && d < 7 && free[d] != [] && NoDup(free[d])
    requires b == free[d][0] && a == ArenaOf(b) && a in arenas && arenas[a].desc == Some(d) && arenas[a].freeCnt > 0
    ensures ArenaOk(free[d := free[d][1..]], Counted(arenas, a, arenas[a].freeCnt - 1), live + {b}, a)
  {
    hide ArenaOf, BlocksOf, NoDup, FreeIn, LiveIn;
    var fl := free[d][1..];
    FreeInPop(free[d], a);
    MoveBlock(free[d], fl, live, a, b);
    MoveOne(LiveIn(live, a), FreeIn(free[d], a), b);
  }

  lemma MoveBlock(fl: seq<nat>, fl': seq<nat>, live: set<nat>, a: nat, b: nat)
    requires b in fl && ArenaOf(b) == a && forall p :: p in fl' <==> p in fl && p != b
    ensures FreeIn(fl', a) == FreeIn(fl, a) - {b} && LiveIn(live + {b}, a) == LiveIn(live, a) + {b}
    ensures b in FreeIn(fl, a)
  {
  }

  lemma LiveFacts(free: FreeLists, arenas: map<nat, Arena>, live: set<nat>, p: nat)
    requires HeapOk(free, arenas, live) && p in live
    ensures var a := ArenaOf(p);
      && a in arenas && PgOfs(a) == 0
      && match arenas[a].desc
         case None => p == a + ARENA_SIZE && arenas[a].freeCnt > 0
         case Some(d) => d < 7 && p in BlocksOf(a, SIZES[d]) && IsBlock(p, SIZES[d]) && p !in free[d]
  {
    var a := ArenaOf(p);
    assert ArenaOk(free, arenas, live, a);
    assert p in LiveIn(live, a);
    if arenas[a].desc.Some? {
      var d := arenas[a].desc.value;
      assert p !in FreeIn(free[d], a);
      BlocksOfIs(a, SIZES[d], p);
    }
  }

  /** Pushing a block back onto its free list.  The count reaches the number of
      blocks exactly when no block of the arena is live any more. */
  lemma GiveBlock(free: FreeLists, arenas: map<nat, Arena>, live: set<nat>, p: nat, d: nat)
    requires HeapOk(free, arenas, live) && UsedOk(arenas, live, None)
    requires p in live && ArenaOf(p) in arenas && arenas[ArenaOf(p)].desc == Some(d) && d < 7
    ensures var a := ArenaOf(p);
      var free', arenas' := free[d := [p] + free[d]], Counted(arenas, a, arenas[a].freeCnt + 1);
      && HeapOk(free', arenas', live - {p}) && UsedOk(arenas', live - {p}, Some(a))
      && arenas'[a].freeCnt <= BlocksPerArena(SIZES[d])
      && (arenas'[a].freeCnt == BlocksPerArena(SIZES[d]) <==> LiveIn(live - {p}, a) == {})
  {
    hide NoDup, ArenaOf, BlocksOf, FreeIn, LiveIn, ArenaOk, SameElsewhere;
    var a := ArenaOf(p);
    LiveFacts(free, arenas, live, p);
    var free', arenas' := free[d := [p] + free[d]], Counted(arenas, a, arenas[a].freeCnt + 1);
    GiveHere(free, arenas, live, p, d, a);
    CountFull(free', arenas', live - {p}, a, d);
    GiveElsewhere(free, arenas, live, p, d, a, arenas');
    ChangeOne(free, free', arenas, arenas', live, live - {p}, a);
  }

  lemma GiveElsewhere(free: FreeLists, arenas: map<nat, Arena>, live: set<nat>, p: nat, d: nat, a: nat,
                      arenas': map<nat, Arena>)
    requires d < 7 && NoDup(free[d]) && p !in free[d] && ArenaOf(p) == a
    requires arenas'.Keys == arenas.Keys && forall b :: b in arenas && b != a ==> arenas'[b] == arenas[b]
    ensures NoDup([p] + free[d])
    ensures SameElsewhere(free, free[d := [p] + free[d]], arenas, arenas', live, live - {p}, a)
  {
    hide NoDup, ArenaOf;
    FreeInPush(free[d], p, a);
  }

  lemma GiveHere(free: FreeLists, arenas: map<nat, Arena>, live: set<nat>, p: nat, d: nat, a: nat)
    requires ArenaOk(free, arenas, live, a) && d < 7 && NoDup(free[d]) && p !in free[d]
    requires p in live && a == ArenaOf(p) && a in arenas && arenas[a].desc == Some(d)
    ensures ArenaOk(free[d := [p] + free[d]], Counted(arenas, a, arenas[a].freeCnt + 1), live - {p}, a)
  {
    hide ArenaOf, BlocksOf, NoDup, FreeIn, LiveIn;
    MoveBack(free[d], live, a, p);
    MoveOne(FreeIn(free[d], a), LiveIn(live, a), p);
  }

  lemma MoveBack(fl: seq<nat>, live: set<nat>, a: nat, p: nat)
    requires p in live && ArenaOf(p) == a
    ensures FreeIn([p] + fl, a) == FreeIn(fl, a) + {p} && LiveIn(live - {p}, a) == LiveIn(live, a) - {p}
    ensures p in LiveIn(live, a)
  {
    hide ArenaOf;
  }

  /** An element changes from one part of a set to the other. */
  lemma MoveOne(to: set<nat>, from: set<nat>, p: nat)
    requires to !! from && p in from
    ensures to + {p} !! from - {p} && (to + {p}) + (from - {p}) == to + from && |to + {p}| == |to| + 1
    ensures |from - {p}| == |from| - 1
  {
  }

  lemma CountFull(free: FreeLists, arenas: map<nat, Arena>, live: set<nat>, a: nat, d: nat)
    requires ArenaOk(free, arenas, live, a) && a in arenas && arenas[a].desc == Some(d)
    ensures d < 7 && arenas[a].freeCnt <= BlocksPerArena(SIZES[d])
    ensures arenas[a].freeCnt == BlocksPerArena(SIZES[d]) <==> LiveIn(live, a) == {}
  {
    BlocksOfSize(a, SIZES[d]);
    assert |FreeIn(free[d], a) + LiveIn(live, a)| == |FreeIn(free[d], a)| + |LiveIn(live, a)|;
  }

  /** An arena without live blocks disappears, and with it its free blocks. */
  lemma DropArena(free: FreeLists, arenas: map<nat, Arena>, live: set<nat>, a: nat, d: nat, fl: seq<nat>)
    requires HeapOk(free, arenas, live) && UsedOk(arenas, live, Some(a))
    requires a in arenas && arenas[a].desc == Some(d) && d < 7 && LiveIn(live, a) == {}
    requires NoDup(fl) && forall p :: p in fl <==> p in free[d] && ArenaOf(p) != a
    ensures HeapOk(free[d := fl], arenas - {a}, live) && UsedOk(arenas - {a}, live, None)
  {
    hide NoDup, ArenaOf, BlocksOf;
    assert ArenaOk(free, arenas, live, a);
    assert FreeIn(fl, a) == {};
    var free' := free[d := fl];
    assert NoneFree(free', a);
    assert ArenaOk(free', arenas - {a}, live, a);
    hide ArenaOk;
    ChangeOne(free, free', arenas, arenas - {a}, live, live, a);
  }
}
