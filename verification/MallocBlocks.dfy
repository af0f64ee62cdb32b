/** How malloc divides pages into blocks: addresses, free lists and counts. */
module MallocBlocks {
  import opened Integers
  import opened Options
  import opened Seqs
  import opened Palloc

  const ARENA_SIZE: nat := 12    // sizeof (struct arena): magic, desc, free_cnt
  const SIZES: seq<nat> := [16, 32, 64, 128, 256, 512, 1024]

  /** The header at the start of an arena's first page.  For a big block, which has
      no descriptor, freeCnt is its number of pages. */
  datatype Arena = Arena(desc: Option<nat>, freeCnt: nat)

  function BlocksPerArena(bs: nat): nat
    requires bs > 0
  {
    (PGSIZE - ARENA_SIZE) / bs
  }

  /** The blocks fill the page behind the header: another one would not fit. */
  lemma BlocksFill(bs: nat)
    requires bs > 0
    ensures 12 + BlocksPerArena(bs) * bs <= 4096 < 12 + (BlocksPerArena(bs) + 1) * bs
  {
    QuotientBounds(PGSIZE - ARENA_SIZE, bs);
  }

  function Pages(arena: Arena): nat {
    if arena.desc == None then arena.freeCnt else 1
  }

  /** block_to_arena */
  function ArenaOf(p: nat): nat {
    p - p % PGSIZE
  }

  /** arena_to_block */
  function BlockAt(a: nat, i: nat, bs: nat): nat {
    a + ARENA_SIZE + i * bs
  }

  /** p is where a block of size bs starts: what block_to_arena asserts. */
  predicate IsBlock(p: nat, bs: nat)
    requires bs > 0
  {
    var ofs := PgOfs(p) - ARENA_SIZE;
    ofs >= 0 && ofs % bs == 0 && ofs / bs < BlocksPerArena(bs)
  }

  /** The first n blocks of an arena, in order. */
  ghost function BlockSeq(a: nat, bs: nat, n: nat): seq<nat> {
    if n == 0 then [] else BlockSeq(a, bs, n - 1) + [BlockAt(a, n - 1, bs)]
  }

  ghost function BlocksOf(a: nat, bs: nat): set<nat>
    requires bs > 0
  {
    set p | p in BlockSeq(a, bs, BlocksPerArena(bs))
  }

  lemma BlockOrder(a: nat, i: nat, j: nat, bs: nat)
    requires i < j && bs > 0
    ensures BlockAt(a, i, bs) + bs <= BlockAt(a, j, bs)
  {
    assert (i + 1) * bs <= j * bs;
  }

  lemma {:induction false} BlockSeqHas(a: nat, bs: nat, n: nat, p: nat) returns (i: nat)
    requires p in BlockSeq(a, bs, n)
    ensures i < n && p == BlockAt(a, i, bs)
  {
    if p == BlockAt(a, n - 1, bs) {
      i := n - 1;
    } else {
      i := BlockSeqHas(a, bs, n - 1, p);
    }
  }

  lemma {:induction false} BlockSeqAll(a: nat, bs: nat, n: nat, i: nat)
    requires i < n
    ensures BlockAt(a, i, bs) in BlockSeq(a, bs, n)
  {
    if i < n - 1 { BlockSeqAll(a, bs, n - 1, i); }
  }

  lemma {:induction false} BlockSeqNoDup(a: nat, bs: nat, n: nat)
    requires bs > 0
    ensures NoDup(BlockSeq(a, bs, n)) && |BlockSeq(a, bs, n)| == n
  {
    if n > 0 {
      BlockSeqNoDup(a, bs, n - 1);
      var x := BlockAt(a, n - 1, bs);
      if x in BlockSeq(a, bs, n - 1) {
        var i := BlockSeqHas(a, bs, n - 1, x);
        BlockOrder(a, i, n - 1, bs);
      }
      NoDupAppend(BlockSeq(a, bs, n - 1), x);
    }
  }

  lemma BlocksOfSize(a: nat, bs: nat)
    requires bs > 0
    ensures |BlocksOf(a, bs)| == BlocksPerArena(bs)
  {
    BlockSeqNoDup(a, bs, BlocksPerArena(bs));
    NoDupSize(BlockSeq(a, bs, BlocksPerArena(bs)));
  }

  lemma BlockFits(i: nat, bs: nat)
    requires bs > 0 && i < BlocksPerArena(bs)
    ensures ARENA_SIZE + (i + 1) * bs <= PGSIZE
    ensures i * bs >= 0 && (i + 1) * bs == i * bs + bs
  {
    var n := PGSIZE - ARENA_SIZE;
    QuotientFits(n, bs);
    ProductFits(i + 1, n / bs, bs);
  }

  lemma QuotientFits(n: nat, bs: nat)
    requires bs > 0
    ensures (n / bs) * bs <= n
  {
  }

  lemma ProductFits(i: nat, k: nat, bs: nat)
    requires i <= k
    ensures i * bs <= k * bs
  {
  }

  /** arena_to_block and block_to_arena are inverse to each other. */
  lemma BlockAtIsBlock(a: nat, i: nat, bs: nat)
    requires bs > 0 && i < BlocksPerArena(bs) && PgOfs(a) == 0
    ensures ArenaOf(BlockAt(a, i, bs)) == a && IsBlock(BlockAt(a, i, bs), bs)
    ensures (PgOfs(BlockAt(a, i, bs)) - ARENA_SIZE) / bs == i
  {
    BlockFits(i, bs);
    var p := BlockAt(a, i, bs);
    assert PgOfs(p) == ARENA_SIZE + i * bs;
    assert (i * bs) / bs == i && (i * bs) % bs == 0;
  }

  lemma IsBlockIsBlockAt(p: nat, bs: nat) returns (i: nat)
    requires bs > 0 && IsBlock(p, bs)
    ensures i < BlocksPerArena(bs) && p == BlockAt(ArenaOf(p), i, bs)
  {
    i := (PgOfs(p) - ARENA_SIZE) / bs;
    var ofs := PgOfs(p) - ARENA_SIZE;
    assert ofs == (ofs / bs) * bs + ofs % bs;
  }

  lemma BlocksOfIs(a: nat, bs: nat, p: nat)
    requires bs > 0 && PgOfs(a) == 0
    ensures p in BlocksOf(a, bs) <==> ArenaOf(p) == a && IsBlock(p, bs)
  {
    if p in BlocksOf(a, bs) {
      var i := BlockSeqHas(a, bs, BlocksPerArena(bs), p);
      BlockAtIsBlock(a, i, bs);
    }
    if ArenaOf(p) == a && IsBlock(p, bs) {
      var i := IsBlockIsBlockAt(p, bs);
      BlockSeqAll(a, bs, BlocksPerArena(bs), i);
    }
  }

  /** Different blocks of one arena do not overlap, and stay clear of its header and
      within its page. */
  lemma BlocksApart(p: nat, q: nat, bs: nat)
    requires bs > 0 && IsBlock(p, bs) && IsBlock(q, bs) && ArenaOf(p) == ArenaOf(q) && p < q
    ensures ArenaOf(p) + ARENA_SIZE <= p && p + bs <= q && q + bs <= ArenaOf(p) + PGSIZE
  {
    var i := IsBlockIsBlockAt(p, bs);
    var j := IsBlockIsBlockAt(q, bs);
    if j < i { BlockOrder(ArenaOf(p), j, i, bs); }
    BlockOrder(ArenaOf(p), i, j, bs);
    BlockFits(j, bs);
  }

  // ----- Free lists

  /** The blocks of arena a on a free list. */
  ghost function FreeIn(fl: seq<nat>, a: nat): set<nat> {
    set p | p in fl && ArenaOf(p) == a
  }

  lemma FreeInPop(fl: seq<nat>, a: nat)
    requires NoDup(fl) && fl != []
    ensures NoDup(fl[1..])
    ensures |FreeIn(fl[1..], a)| == |FreeIn(fl, a)| - (if ArenaOf(fl[0]) == a then 1 else 0)
    ensures forall p :: p in fl[1..] <==> p in fl && p != fl[0]
  {
    assert forall p :: p in fl <==> p == fl[0] || p in fl[1..];
    if ArenaOf(fl[0]) == a {
      assert FreeIn(fl, a) == FreeIn(fl[1..], a) + {fl[0]};
    } else {
      assert FreeIn(fl, a) == FreeIn(fl[1..], a);
    }
  }

  lemma FreeInPush(fl: seq<nat>, p: nat, a: nat)
    requires NoDup(fl) && p !in fl
    ensures NoDup([p] + fl)
    ensures |FreeIn([p] + fl, a)| == |FreeIn(fl, a)| + (if ArenaOf(p) == a then 1 else 0)
  {
    var fl' := [p] + fl;
    assert fl'[1..] == fl;
    FreeInPop(fl', a);
  }

}
