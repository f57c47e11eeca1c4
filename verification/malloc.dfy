/** The kernel heap (threads/malloc.c): power-of-two blocks carved out of one-page arenas, whole pages for the rest. */
module Malloc {
  import opened Definitions
  import opened PageAllocator
  import opened Sequences
  import opened Wrappers

  const SIZEOF_ARENA: nat := 12
  const DESC_CNT: nat := 7
  const SIZE_LIMIT: nat := 0x1_0000_0000   // one past the largest size_t

  /** Arena header: its descriptor, none for a big block; its free blocks, or its pages for a big block. */
  datatype Arena = Arena(desc: Option<nat>, freeCnt: nat)

  /** A block, by the page number of its arena and its place in it; a big block has place 0. */
  datatype Block = Block(page: nat, idx: nat)

  /** The arenas and, for each descriptor, the list of free blocks. */
  datatype Heap = Heap(arenas: map<nat, Arena>, free: seq<seq<Block>>)

  function BlockSize(d: nat): (n: nat)
    requires d < DESC_CNT
    ensures 16 <= n <= 1024
  {
    [16, 32, 64, 128, 256, 512, 1024][d]
  }

  function BlocksPerArena(d: nat): (n: nat)
    requires d < DESC_CNT
    ensures n >= 3
  {
    ONE_PAGE / BlockSize(d)
  }

  /** Blocks of an arena lie one after the other behind its header and inside its page, which has room for no more. */
  lemma BlocksFit(d: nat, i: nat)
    requires d < DESC_CNT && i < BlocksPerArena(d)
    ensures 0 <= i * BlockSize(d) && SIZEOF_ARENA + i * BlockSize(d) + BlockSize(d) <= PAGE_SIZE
    ensures PAGE_SIZE < SIZEOF_ARENA + (BlocksPerArena(d) + 1) * BlockSize(d)
  {
    assert d == 0 || d == 1 || d == 2 || d == 3 || d == 4 || d == 5 || d == 6;
  }

  /** The size class of block b. */
  ghost predicate KnownBlock(h: Heap, b: Block) {
    && b.page in h.arenas
    && (if h.arenas[b.page].desc.Some?
        then h.arenas[b.page].desc.value < DESC_CNT && b.idx < BlocksPerArena(h.arenas[b.page].desc.value)
        else b.idx == 0 && h.arenas[b.page].freeCnt >= 1)
  }

  ghost function Address(h: Heap, b: Block): nat
    requires KnownBlock(h, b)
  {
    b.page * PAGE_SIZE + SIZEOF_ARENA +
    (if h.arenas[b.page].desc.Some? then b.idx * BlockSize(h.arenas[b.page].desc.value) else 0)
  }

  ghost function Size(h: Heap, b: Block): nat
    requires KnownBlock(h, b)
  {
    if h.arenas[b.page].desc.Some? then BlockSize(h.arenas[b.page].desc.value)
    else PAGE_SIZE * h.arenas[b.page].freeCnt - SIZEOF_ARENA
  }

  /** The number of pages an arena spans. */
  function Span(a: Arena): nat {
    if a.desc.Some? then 1 else a.freeCnt
  }

  /** How many of the first n blocks of an arena are not allocated. */
  ghost function FreeCount(live: map<Block, nat>, page: nat, n: nat): nat {
    if n == 0 then 0 else FreeCount(live, page, n - 1) + (if Block(page, n - 1) in live then 0 else 1)
  }

  /** b is a block of an arena of descriptor d that is not allocated. */
  ghost predicate IsFree(h: Heap, live: map<Block, nat>, d: nat, b: Block)
    requires d < DESC_CNT
  {
    b.page in h.arenas && h.arenas[b.page].desc == Some(d) && b.idx < BlocksPerArena(d) && b !in live
  }

  /** A descriptor's free list is exactly the unallocated blocks of its arenas. */
  ghost predicate ListGood(h: Heap, live: map<Block, nat>, d: nat)
    requires d < DESC_CNT && d < |h.free|
  {
    Distinct(h.free[d]) && forall b :: b in h.free[d] <==> IsFree(h, live, d, b)
  }

  /** An arena's count is that of its blocks on the free list, and some block of it is allocated unless the arena
      is `idle`, which it is only in the middle of a call. */
  ghost predicate ArenaGood(h: Heap, live: map<Block, nat>, idle: Option<nat>, page: nat)
    requires page in h.arenas
  {
    match h.arenas[page].desc
    case Some(d) =>
      && d < DESC_CNT
      && h.arenas[page].freeCnt == FreeCount(live, page, BlocksPerArena(d))
      && (h.arenas[page].freeCnt < BlocksPerArena(d) || idle == Some(page))
    case None =>
      h.arenas[page].freeCnt >= 1 && Block(page, 0) in live
  }

  ghost predicate OnPage(arenas: map<nat, Arena>, p: nat, q: int) {
    p in arenas && p <= q < p + Span(arenas[p])
  }

  /** Page q is part of some arena. */
  ghost predicate Covered(arenas: map<nat, Arena>, q: int) {
    exists p :: OnPage(arenas, p, q)
  }

  /** The pages in use are those of the arenas and those that others have, and these are different pages. */
  ghost predicate Accounted(used: set<int>, others: set<int>, arenas: map<nat, Arena>) {
    && (forall q {:trigger Covered(arenas, q)} {:trigger q in used} :: q in used <==> q in others || Covered(arenas, q))
    && (forall q {:trigger Covered(arenas, q)} {:trigger q in others} :: q in others ==> !Covered(arenas, q))
  }

  /** Arenas that span the same pages. */
  lemma AccountedSame(used: set<int>, others: set<int>, arenas: map<nat, Arena>, page: nat, a: Arena)
    requires Accounted(used, others, arenas) && page in arenas && Span(a) == Span(arenas[page])
    ensures Accounted(used, others, arenas[page := a])
  {
    forall q
      ensures Covered(arenas[page := a], q) <==> Covered(arenas, q)
    {
      if Covered(arenas, q) {
        var p :| OnPage(arenas, p, q);
        assert OnPage(arenas[page := a], p, q);
      }
      if Covered(arenas[page := a], q) {
        var p :| OnPage(arenas[page := a], p, q);
        assert OnPage(arenas, p, q);
      }
    }
  }

  /** A new arena on pages that were not in use. */
  lemma AccountedTake(used: set<int>, used': set<int>, others: set<int>, arenas: map<nat, Arena>, page: nat, a: Arena)
    requires Accounted(used, others, arenas) && page !in arenas
    requires forall q :: page <= q < page + Span(a) ==> q !in used
    requires forall q :: q in used' <==> q in used || page <= q < page + Span(a)
    ensures Accounted(used', others, arenas[page := a])
  {
    var arenas' := arenas[page := a];
    forall q
      ensures Covered(arenas', q) <==> Covered(arenas, q) || page <= q < page + Span(a)
    {
      if Covered(arenas, q) {
        var p :| OnPage(arenas, p, q);
        assert OnPage(arenas', p, q);
      }
      if page <= q < page + Span(a) {
        assert OnPage(arenas', page, q);
      }
      if Covered(arenas', q) {
        var p :| OnPage(arenas', p, q);
        assert p != page ==> OnPage(arenas, p, q);
      }
    }
    forall q | q in others
      ensures !Covered(arenas', q)
    {
      assert !Covered(arenas, q) && q in used;
    }
  }

  /** An arena whose pages are given back. */
  lemma AccountedDrop(used: set<int>, used': set<int>, others: set<int>, arenas: map<nat, Arena>, page: nat)
    requires Accounted(used, others, arenas) && page in arenas
    requires forall p :: p in arenas && p != page ==> p + Span(arenas[p]) <= page || page + Span(arenas[page]) <= p
    requires forall q :: q in used' <==> q in used && !(page <= q < page + Span(arenas[page]))
    ensures Accounted(used', others, arenas - {page})
  {
    var arenas' := arenas - {page};
    forall q
      ensures Covered(arenas', q) <==> Covered(arenas, q) && !(page <= q < page + Span(arenas[page]))
    {
      if Covered(arenas, q) && !(page <= q < page + Span(arenas[page])) {
        var p :| OnPage(arenas, p, q);
        assert OnPage(arenas', p, q);
      }
      if Covered(arenas', q) {
        var p :| OnPage(arenas', p, q);
        assert OnPage(arenas, p, q);
      }
    }
    forall q | q in others
      ensures q in used'
    {
      assert !Covered(arenas, q);
      assert OnPage(arenas, page, q) <==> page <= q < page + Span(arenas[page]);
    }
  }

  /** Without an allocated block there is no arena, and only what others have is in use. */
  lemma NothingLive(h: Heap, live: map<Block, nat>, used: set<int>, others: set<int>)
    requires Good(h, live, None) && live == map[] && Accounted(used, others, h.arenas)
    ensures h.arenas == map[] && used == others
  {
    forall p | p in h.arenas
      ensures false
    {
      assert ArenaGood(h, live, None, p);
      if h.arenas[p].desc.Some? {
        NoneAllocated(p, BlocksPerArena(h.arenas[p].desc.value));
      }
    }
    forall q
      ensures q in used <==> q in others
    {
      assert !Covered(h.arenas, q);
    }
  }

  lemma {:induction false} NoneAllocated(page: nat, n: nat)
    ensures FreeCount(map[], page, n) == n
  {
    if n > 0 {
      NoneAllocated(page, n - 1);
    }
  }

  /** Two arenas share no page. */
  ghost predicate Apart(h: Heap, p: nat, q: nat)
    requires p in h.arenas && q in h.arenas
  {
    p < q ==> p + Span(h.arenas[p]) <= q
  }

  /** What one page holds behind an arena header. */
  const ONE_PAGE: nat := PAGE_SIZE - SIZEOF_ARENA

  /** An allocated block exists, is at least as large as what was asked for, and is on one page if that fits on one. */
  ghost predicate LiveGood(h: Heap, live: map<Block, nat>, b: Block)
    requires b in live
  {
    KnownBlock(h, b) && Size(h, b) >= live[b] && (Size(h, b) > ONE_PAGE ==> live[b] > ONE_PAGE)
  }

  ghost predicate Good(h: Heap, live: map<Block, nat>, idle: Option<nat>) {
    && |h.free| == DESC_CNT
    && (forall d {:trigger ListGood(h, live, d)} :: 0 <= d < DESC_CNT ==> ListGood(h, live, d))
    && (forall p {:trigger ArenaGood(h, live, idle, p)} :: p in h.arenas ==> ArenaGood(h, live, idle, p))
    && (forall p, q {:trigger Apart(h, p, q)} :: p in h.arenas && q in h.arenas ==> Apart(h, p, q))
    && (forall b {:trigger LiveGood(h, live, b)} :: b in live ==> LiveGood(h, live, b))
  }

  /** Allocated blocks do not overlap. */
  lemma LiveDisjoint(h: Heap, live: map<Block, nat>, b: Block, c: Block)
    requires Good(h, live, None) && b in live && c in live && b != c
    ensures KnownBlock(h, b) && KnownBlock(h, c)
    ensures Address(h, b) + Size(h, b) <= Address(h, c) || Address(h, c) + Size(h, c) <= Address(h, b)
  {
    assert LiveGood(h, live, b) && LiveGood(h, live, c);
    if b.page == c.page {
      var d := h.arenas[b.page].desc.value;
      SameArenaDisjoint(d, b.idx, c.idx);
    } else {
      assert Apart(h, b.page, c.page) && Apart(h, c.page, b.page);
      BlockInside(h, b);
      BlockInside(h, c);
      SpansDisjoint(b.page, Span(h.arenas[b.page]), c.page, Span(h.arenas[c.page]));
    }
  }

  lemma SpansDisjoint(p: nat, m: nat, q: nat, n: nat)
    requires p + m <= q || q + n <= p
    ensures (p + m) * PAGE_SIZE <= q * PAGE_SIZE || (q + n) * PAGE_SIZE <= p * PAGE_SIZE
  {
  }

  lemma SameArenaDisjoint(d: nat, i: nat, j: nat)
    requires d < DESC_CNT && i != j
    ensures (i + 1) * BlockSize(d) <= j * BlockSize(d) || (j + 1) * BlockSize(d) <= i * BlockSize(d)
  {
    assert d == 0 || d == 1 || d == 2 || d == 3 || d == 4 || d == 5 || d == 6;
  }

  /** A block lies behind the header and inside the pages of its arena. */
  lemma BlockInside(h: Heap, b: Block)
    requires KnownBlock(h, b)
    ensures b.page * PAGE_SIZE + SIZEOF_ARENA <= Address(h, b)
    ensures Address(h, b) + Size(h, b) <= (b.page + Span(h.arenas[b.page])) * PAGE_SIZE
  {
    if h.arenas[b.page].desc.Some? {
      BlocksFit(h.arenas[b.page].desc.value, b.idx);
    }
  }

  // ---- counting ----

  lemma {:induction false} CountBounds(live: map<Block, nat>, page: nat, n: nat)
    ensures FreeCount(live, page, n) <= n
    ensures FreeCount(live, page, n) == n <==> forall i :: 0 <= i < n ==> Block(page, i) !in live
  {
    if n > 0 {
      CountBounds(live, page, n - 1);
    }
  }

  lemma {:induction false} CountTake(live: map<Block, nat>, b: Block, size: nat, page: nat, n: nat)
    requires b !in live
    ensures FreeCount(live[b := size], page, n) == FreeCount(live, page, n) - (if b.page == page && b.idx < n then 1 else 0)
  {
    if n > 0 {
      CountTake(live, b, size, page, n - 1);
    }
  }

  lemma {:induction false} CountGive(live: map<Block, nat>, b: Block, page: nat, n: nat)
    requires b in live
    ensures FreeCount(live - {b}, page, n) == FreeCount(live, page, n) + (if b.page == page && b.idx < n then 1 else 0)
  {
    if n > 0 {
      CountGive(live, b, page, n - 1);
    }
  }

  // ---- taking a block ----

  /** The first n blocks of an arena, in order. */
  function BlocksOf(page: nat, n: nat): (s: seq<Block>)
    ensures |s| == n
  {
    seq(n, i requires 0 <= i < n => Block(page, i))
  }

  /** A new arena whose blocks are all on its descriptor's list. */
  function WithArena(h: Heap, d: nat, page: nat): Heap
    requires d < DESC_CNT && d < |h.free|
  {
    Heap(h.arenas[page := Arena(Some(d), BlocksPerArena(d))], h.free[d := h.free[d] + BlocksOf(page, BlocksPerArena(d))])
  }

  lemma FreshPage(h: Heap, live: map<Block, nat>, page: nat, i: nat)
    requires Good(h, live, None) && page !in h.arenas
    ensures Block(page, i) !in live
    ensures forall d :: 0 <= d < DESC_CNT ==> Block(page, i) !in h.free[d]
  {
    assert Block(page, i) in live ==> LiveGood(h, live, Block(page, i));
    forall d | 0 <= d < DESC_CNT
      ensures Block(page, i) !in h.free[d]
    {
      assert ListGood(h, live, d);
    }
  }

  lemma ArenaListGood(h: Heap, live: map<Block, nat>, d: nat, page: nat, e: nat)
    requires Good(h, live, None) && d < DESC_CNT && page !in h.arenas && e < DESC_CNT
    ensures ListGood(WithArena(h, d, page), live, e)
  {
    var u, n := WithArena(h, d, page), BlocksPerArena(d);
    assert ListGood(h, live, e);
    forall i
      ensures i >= 0 ==> Block(page, i) !in live && Block(page, i) !in h.free[e]
    {
      if i >= 0 {
        FreshPage(h, live, page, i);
      }
    }
    forall b
      ensures b in u.free[e] <==> IsFree(u, live, e, b)
    {
      assert b in BlocksOf(page, n) <==> b.page == page && b.idx < n by {
        if b.page == page && b.idx < n {
          assert BlocksOf(page, n)[b.idx] == b;
        }
      }
      assert b == Block(b.page, b.idx);
    }
  }

  lemma WithArenaGood(h: Heap, live: map<Block, nat>, d: nat, page: nat)
    requires Good(h, live, None) && d < DESC_CNT && page !in h.arenas
    requires forall p :: p in h.arenas ==> !(p <= page < p + Span(h.arenas[p]))
    ensures Good(WithArena(h, d, page), live, Some(page))
  {
    var u := WithArena(h, d, page);
    forall e | 0 <= e < DESC_CNT
      ensures ListGood(u, live, e)
    {
      ArenaListGood(h, live, d, page, e);
    }
    forall p | p in u.arenas
      ensures ArenaGood(u, live, Some(page), p)
    {
      if p == page {
        forall i | 0 <= i < BlocksPerArena(d)
          ensures Block(page, i) !in live
        {
          FreshPage(h, live, page, i);
        }
        CountBounds(live, page, BlocksPerArena(d));
      } else {
        assert ArenaGood(h, live, None, p);
      }
    }
    forall p, q | p in u.arenas && q in u.arenas
      ensures Apart(u, p, q)
    {
      assert p in h.arenas && q in h.arenas ==> Apart(h, p, q);
    }
    forall b | b in live
      ensures LiveGood(u, live, b)
    {
      assert LiveGood(h, live, b);
    }
  }

  /** The head of descriptor d's list handed out. */
  function Taken(h: Heap, d: nat): Heap
    requires d < |h.free| && h.free[d] != [] && h.free[d][0].page in h.arenas
    requires h.arenas[h.free[d][0].page].freeCnt > 0
  {
    var p := h.free[d][0].page;
    Heap(h.arenas[p := h.arenas[p].(freeCnt := h.arenas[p].freeCnt - 1)], h.free[d := h.free[d][1..]])
  }

  lemma HeadIsFree(h: Heap, live: map<Block, nat>, idle: Option<nat>, d: nat)
    requires Good(h, live, idle) && d < DESC_CNT && h.free[d] != []
    ensures IsFree(h, live, d, h.free[d][0]) && h.arenas[h.free[d][0].page].freeCnt > 0
  {
    var b := h.free[d][0];
    assert ListGood(h, live, d);
    assert b in h.free[d];
    assert ArenaGood(h, live, idle, b.page);
    CountTake(live, b, 0, b.page, BlocksPerArena(d));
  }

  lemma TakenListGood(h: Heap, live: map<Block, nat>, idle: Option<nat>, d: nat, size: nat, e: nat)
    requires Good(h, live, idle) && d < DESC_CNT && h.free[d] != [] && e < DESC_CNT
    requires IsFree(h, live, d, h.free[d][0]) && h.arenas[h.free[d][0].page].freeCnt > 0
    ensures ListGood(Taken(h, d), live[h.free[d][0] := size], e)
  {
    assert ListGood(h, live, e);
    var list := h.free[d];
    assert list == [list[0]] + list[1..];
    assert e == d ==> list[0] !in list[1..];
    var u, live' := Taken(h, d), live[list[0] := size];
    forall b
      ensures b in u.free[e] <==> IsFree(u, live', e, b)
    {
      assert IsFree(u, live', e, b) <==> IsFree(h, live, e, b) && b != list[0];
    }
    assert Distinct(u.free[e]);
  }

  /** Handing out the first free block moves no other, and the block is where its list says. */
  lemma TakenBlocks(h: Heap, live: map<Block, nat>, idle: Option<nat>, d: nat)
    requires Good(h, live, idle) && d < DESC_CNT && h.free[d] != []
    requires IsFree(h, live, d, h.free[d][0]) && h.arenas[h.free[d][0].page].freeCnt > 0
    ensures SameBlocks(h, Taken(h, d), live)
    ensures var b := h.free[d][0];
            && KnownBlock(Taken(h, d), b) && Size(Taken(h, d), b) == BlockSize(d)
            && Address(Taken(h, d), b) == b.page * PAGE_SIZE + SIZEOF_ARENA + b.idx * BlockSize(d)
  {
    forall c | c in live
      ensures KnownBlock(h, c)
    {
      assert LiveGood(h, live, c);
    }
  }

  lemma TakenGood(h: Heap, live: map<Block, nat>, idle: Option<nat>, d: nat, size: nat)
    requires Good(h, live, idle) && d < DESC_CNT && h.free[d] != [] && size <= BlockSize(d)
    requires idle == None || idle == Some(h.free[d][0].page)
    ensures IsFree(h, live, d, h.free[d][0]) && h.arenas[h.free[d][0].page].freeCnt > 0
    ensures Good(Taken(h, d), live[h.free[d][0] := size], None)
  {
    HeadIsFree(h, live, idle, d);
    var b := h.free[d][0];
    var u, live' := Taken(h, d), live[b := size];
    forall e | 0 <= e < DESC_CNT
      ensures ListGood(u, live', e)
    {
      TakenListGood(h, live, idle, d, size, e);
    }
    forall p | p in u.arenas
      ensures ArenaGood(u, live', None, p)
    {
      assert ArenaGood(h, live, idle, p);
      if h.arenas[p].desc.Some? {
        CountTake(live, b, size, p, BlocksPerArena(h.arenas[p].desc.value));
        CountBounds(live, p, BlocksPerArena(h.arenas[p].desc.value));
      }
    }
    forall p, q | p in u.arenas && q in u.arenas
      ensures Apart(u, p, q)
    {
      assert Apart(h, p, q);
    }
    forall c | c in live'
      ensures LiveGood(u, live', c)
    {
      assert c != b ==> LiveGood(h, live, c);
    }
  }

  /** Block b put at the front of its descriptor's list. */
  function Given(h: Heap, b: Block, d: nat): Heap
    requires d < |h.free| && b.page in h.arenas
  {
    Heap(h.arenas[b.page := h.arenas[b.page].(freeCnt := h.arenas[b.page].freeCnt + 1)], h.free[d := [b] + h.free[d]])
  }

  lemma GivenListGood(h: Heap, live: map<Block, nat>, b: Block, d: nat, e: nat)
    requires Good(h, live, None) && b in live && d < DESC_CNT && e < DESC_CNT
    requires KnownBlock(h, b) && h.arenas[b.page].desc == Some(d)
    ensures ListGood(Given(h, b, d), live - {b}, e)
  {
    assert ListGood(h, live, e);
    assert LiveGood(h, live, b);
    var list := [b] + h.free[d];
    assert e == d ==> b !in h.free[d];
    assert forall i :: 0 < i < |list| ==> list[i] == h.free[d][i - 1];
    assert e == d ==> Distinct(list);
    forall c
      ensures IsFree(Given(h, b, d), live - {b}, e, c) <==> IsFree(h, live, e, c) || (e == d && c == b)
    {
    }
  }

  lemma GivenGood(h: Heap, live: map<Block, nat>, b: Block, d: nat)
    requires Good(h, live, None) && b in live && d < DESC_CNT
    requires KnownBlock(h, b) && h.arenas[b.page].desc == Some(d)
    ensures Good(Given(h, b, d), live - {b}, Some(b.page))
  {
    var u, live' := Given(h, b, d), live - {b};
    forall e | 0 <= e < DESC_CNT
      ensures ListGood(u, live', e)
    {
      GivenListGood(h, live, b, d, e);
    }
    forall p | p in u.arenas
      ensures ArenaGood(u, live', Some(b.page), p)
    {
      assert ArenaGood(h, live, None, p);
      if h.arenas[p].desc.Some? {
        CountGive(live, b, p, BlocksPerArena(h.arenas[p].desc.value));
      }
    }
    forall p, q | p in u.arenas && q in u.arenas
      ensures Apart(u, p, q)
    {
      assert Apart(h, p, q);
    }
    forall c | c in live'
      ensures LiveGood(u, live', c)
    {
      assert LiveGood(h, live, c);
    }
  }

  /** An arena that still has an allocated block may stay. */
  lemma BusyArena(h: Heap, live: map<Block, nat>, page: nat)
    requires Good(h, live, Some(page)) && page in h.arenas && h.arenas[page].desc.Some?
    requires h.arenas[page].desc.value < DESC_CNT && h.arenas[page].freeCnt < BlocksPerArena(h.arenas[page].desc.value)
    ensures Good(h, live, None)
  {
    forall p | p in h.arenas
      ensures ArenaGood(h, live, None, p)
    {
      assert ArenaGood(h, live, Some(page), p);
    }
  }

  /** The list without the blocks of `page` below place n. */
  function Unlisted(s: seq<Block>, page: nat, n: nat): seq<Block> {
    if s == [] then []
    else if s[0].page == page && s[0].idx < n then Unlisted(s[1..], page, n)
    else [s[0]] + Unlisted(s[1..], page, n)
  }

  lemma {:induction false} UnlistedMembers(s: seq<Block>, page: nat, n: nat)
    requires Distinct(s)
    ensures Distinct(Unlisted(s, page, n))
    ensures forall b :: b in Unlisted(s, page, n) <==> b in s && !(b.page == page && b.idx < n)
  {
    if s != [] {
      var rest := Unlisted(s[1..], page, n);
      UnlistedMembers(s[1..], page, n);
      assert s[0] !in s[1..];
      assert s == [s[0]] + s[1..];
      assert Distinct([s[0]] + rest);
    }
  }

  /** A wholly free arena dropped. */
  function Dropped(h: Heap, d: nat, page: nat): Heap
    requires d < DESC_CNT && d < |h.free|
  {
    Heap(h.arenas - {page}, h.free[d := Unlisted(h.free[d], page, BlocksPerArena(d))])
  }

  lemma DroppedListGood(h: Heap, live: map<Block, nat>, d: nat, page: nat, e: nat)
    requires Good(h, live, Some(page)) && d < DESC_CNT && e < DESC_CNT
    requires page in h.arenas && h.arenas[page].desc == Some(d)
    ensures ListGood(Dropped(h, d, page), live, e)
  {
    assert ListGood(h, live, e);
    UnlistedMembers(h.free[e], page, BlocksPerArena(d));
    forall b
      ensures IsFree(Dropped(h, d, page), live, e, b) <==> IsFree(h, live, e, b) && b.page != page
    {
    }
  }

  lemma DroppedGood(h: Heap, live: map<Block, nat>, d: nat, page: nat)
    requires Good(h, live, Some(page)) && d < DESC_CNT && page in h.arenas
    requires h.arenas[page] == Arena(Some(d), BlocksPerArena(d))
    ensures Good(Dropped(h, d, page), live, None)
  {
    var u := Dropped(h, d, page);
    assert ArenaGood(h, live, Some(page), page);
    CountBounds(live, page, BlocksPerArena(d));
    forall e | 0 <= e < DESC_CNT
      ensures ListGood(u, live, e)
    {
      DroppedListGood(h, live, d, page, e);
    }
    forall p | p in u.arenas
      ensures ArenaGood(u, live, None, p)
    {
      assert ArenaGood(h, live, Some(page), p);
    }
    forall p, q | p in u.arenas && q in u.arenas
      ensures Apart(u, p, q)
    {
      assert Apart(h, p, q);
    }
    forall c | c in live
      ensures LiveGood(u, live, c)
    {
      assert LiveGood(h, live, c);
      assert c == Block(c.page, c.idx);
    }
  }

  // ---- big blocks ----

  function WithBig(h: Heap, page: nat, pages: nat): Heap {
    h.(arenas := h.arenas[page := Arena(None, pages)])
  }

  lemma SameLists(h: Heap, u: Heap, live: map<Block, nat>, live': map<Block, nat>, page: nat)
    requires |h.free| == DESC_CNT && u.free == h.free
    requires forall d {:trigger ListGood(h, live, d)} :: 0 <= d < DESC_CNT ==> ListGood(h, live, d)
    requires u.arenas - {page} == h.arenas - {page}
    requires (page in h.arenas ==> h.arenas[page].desc.None?) && (page in u.arenas ==> u.arenas[page].desc.None?)
    requires forall b: Block :: b.page != page ==> (b in live <==> b in live')
    ensures forall d {:trigger ListGood(u, live', d)} :: 0 <= d < DESC_CNT ==> ListGood(u, live', d)
  {
    forall d | 0 <= d < DESC_CNT
      ensures ListGood(u, live', d)
    {
      assert ListGood(h, live, d);
      forall b
        ensures IsFree(u, live', d, b) <==> IsFree(h, live, d, b)
      {
        assert b.page != page ==> (b.page in u.arenas - {page} <==> b.page in h.arenas - {page});
      }
    }
  }

  lemma {:induction false} CountOtherPage(live: map<Block, nat>, live': map<Block, nat>, page: nat, p: nat, n: nat)
    requires forall b: Block :: b.page != page ==> (b in live <==> b in live')
    requires p != page
    ensures FreeCount(live', p, n) == FreeCount(live, p, n)
  {
    if n > 0 {
      CountOtherPage(live, live', page, p, n - 1);
    }
  }

  lemma WithBigGood(h: Heap, live: map<Block, nat>, page: nat, pages: nat, size: nat)
    requires Good(h, live, None) && page !in h.arenas && pages >= 1 && size <= PAGE_SIZE * pages - SIZEOF_ARENA
    requires pages > 1 ==> size > ONE_PAGE
    requires forall p :: p in h.arenas ==> p + Span(h.arenas[p]) <= page || page + pages <= p
    ensures Good(WithBig(h, page, pages), live[Block(page, 0) := size], None)
  {
    var u, live' := WithBig(h, page, pages), live[Block(page, 0) := size];
    SameLists(h, u, live, live', page);
    forall p | p in u.arenas
      ensures ArenaGood(u, live', None, p)
    {
      if p != page {
        assert ArenaGood(h, live, None, p);
        if h.arenas[p].desc.Some? {
          CountOtherPage(live, live', page, p, BlocksPerArena(h.arenas[p].desc.value));
        }
      }
    }
    forall p, q | p in u.arenas && q in u.arenas
      ensures Apart(u, p, q)
    {
      assert p in h.arenas && q in h.arenas ==> Apart(h, p, q);
    }
    forall c | c in live'
      ensures LiveGood(u, live', c)
    {
      assert c in live ==> LiveGood(h, live, c);
    }
  }

  /** The big block is none of the others, which stay where they are. */
  lemma BigIsNew(h: Heap, live: map<Block, nat>, page: nat, pages: nat)
    requires Good(h, live, None) && page !in h.arenas && pages >= 1
    ensures var u, b := WithBig(h, page, pages), Block(page, 0);
      && b !in live && KnownBlock(u, b) && SameBlocks(h, u, live)
      && Address(u, b) == page * PAGE_SIZE + SIZEOF_ARENA && Size(u, b) == PAGE_SIZE * pages - SIZEOF_ARENA
  {
    forall c | c in live
      ensures KnownBlock(h, c) && c.page != page
    {
      assert LiveGood(h, live, c);
    }
  }

  function WithoutArena(h: Heap, page: nat): Heap {
    h.(arenas := h.arenas - {page})
  }

  lemma WithoutBigGood(h: Heap, live: map<Block, nat>, page: nat)
    requires Good(h, live, None) && page in h.arenas && h.arenas[page].desc.None?
    ensures Good(WithoutArena(h, page), live - {Block(page, 0)}, None)
  {
    var u, live' := WithoutArena(h, page), live - {Block(page, 0)};
    SameLists(h, u, live, live', page);
    forall p | p in u.arenas
      ensures ArenaGood(u, live', None, p)
    {
      assert ArenaGood(h, live, None, p);
      if h.arenas[p].desc.Some? {
        CountOtherPage(live, live', page, p, BlocksPerArena(h.arenas[p].desc.value));
      }
    }
    forall p, q | p in u.arenas && q in u.arenas
      ensures Apart(u, p, q)
    {
      assert Apart(h, p, q);
    }
    forall c | c in live'
      ensures LiveGood(u, live', c)
    {
      assert LiveGood(h, live, c);
      assert c == Block(c.page, c.idx);
    }
  }

  // ---- addresses ----

  /** An address determines its block: the arena is its page, the place is its offset over the block size. */
  lemma DecodeBlock(h: Heap, b: Block)
    requires KnownBlock(h, b)
    ensures Address(h, b) / PAGE_SIZE == b.page
    ensures h.arenas[b.page].desc.Some? ==>
      (Address(h, b) % PAGE_SIZE - SIZEOF_ARENA) / BlockSize(h.arenas[b.page].desc.value) == b.idx
  {
    if h.arenas[b.page].desc.Some? {
      var d := h.arenas[b.page].desc.value;
      BlocksFit(d, b.idx);
      PlaceOf(d, b.idx);
      PageOf(b.page, SIZEOF_ARENA + b.idx * BlockSize(d));
    } else {
      PageOf(b.page, SIZEOF_ARENA);
    }
  }

  lemma PageOf(page: nat, ofs: nat)
    requires ofs < PAGE_SIZE
    ensures (page * PAGE_SIZE + ofs) / PAGE_SIZE == page && (page * PAGE_SIZE + ofs) % PAGE_SIZE == ofs
  {
  }

  lemma PlaceOf(d: nat, i: nat)
    requires d < DESC_CNT
    ensures (i * BlockSize(d)) / BlockSize(d) == i
  {
    assert d == 0 || d == 1 || d == 2 || d == 3 || d == 4 || d == 5 || d == 6;
  }

  /** Every block of `live` is the same block, at the same address, in u. */
  ghost predicate SameBlocks(h: Heap, u: Heap, live: map<Block, nat>) {
    forall b :: b in live ==>
      KnownBlock(h, b) && KnownBlock(u, b) && Address(u, b) == Address(h, b) && Size(u, b) == Size(h, b)
  }

  /** s without its first b. */
  function Removed(s: seq<Block>, b: Block): seq<Block> {
    if s == [] then [] else if s[0] == b then s[1..] else [s[0]] + Removed(s[1..], b)
  }

  lemma {:induction false} UnlistedNext(s: seq<Block>, page: nat, i: nat)
    requires Distinct(s)
    ensures Removed(Unlisted(s, page, i), Block(page, i)) == Unlisted(s, page, i + 1)
  {
    if s != [] {
      UnlistedNext(s[1..], page, i);
      if s[0] == Block(page, i) {
        UnlistedAbsent(s[1..], page, i);
      }
    }
  }

  lemma {:induction false} UnlistedAbsent(s: seq<Block>, page: nat, i: nat)
    requires Block(page, i) !in s
    ensures Unlisted(s, page, i + 1) == Unlisted(s, page, i)
  {
    if s != [] {
      UnlistedAbsent(s[1..], page, i);
    }
  }

  lemma {:induction false} UnlistedNone(s: seq<Block>, page: nat)
    ensures Unlisted(s, page, 0) == s
  {
    if s != [] {
      UnlistedNone(s[1..], page);
    }
  }

  /** The byte at address a; one never written reads as zero. */
  function ByteAt(mem: map<nat, Byte>, a: nat): Byte {
    if a in mem then mem[a] else 0
  }

  /** `n` bytes from address a on. */
  ghost function Bytes(mem: map<nat, Byte>, a: nat, n: nat): (s: seq<Byte>)
    ensures |s| == n
  {
    seq(n, i requires 0 <= i < n => ByteAt(mem, a + i))
  }

  lemma BytesPrefix(mem: map<nat, Byte>, mem': map<nat, Byte>, a: nat, n: nat, m: nat)
    requires Bytes(mem, a, m) == Bytes(mem', a, m) && n <= m
    ensures Bytes(mem, a, n) == Bytes(mem', a, n)
  {
    forall i | 0 <= i < n
      ensures Bytes(mem, a, n)[i] == Bytes(mem', a, n)[i]
    {
      assert Bytes(mem, a, m)[i] == Bytes(mem', a, m)[i];
    }
  }

  lemma BytesCopied(mem: map<nat, Byte>, mem': map<nat, Byte>, dst: nat, src: nat, n: nat)
    requires forall x: nat :: dst <= x < dst + n ==> ByteAt(mem', x) == ByteAt(mem, src + (x - dst))
    ensures Bytes(mem', dst, n) == Bytes(mem, src, n)
  {
    forall i | 0 <= i < n
      ensures Bytes(mem', dst, n)[i] == Bytes(mem, src, n)[i]
    {
      assert ByteAt(mem', dst + i) == ByteAt(mem, src + (dst + i - dst));
    }
  }

  /** The blocks of `live` hold the same bytes in both memories. */
  ghost predicate SameBytes(h: Heap, live: map<Block, nat>, mem: map<nat, Byte>, mem': map<nat, Byte>) {
    forall b :: b in live && KnownBlock(h, b) ==>
      Bytes(mem', Address(h, b), Size(h, b)) == Bytes(mem, Address(h, b), Size(h, b))
  }

  /** Bytes outside a range that was overwritten are kept. */
  lemma OutsideKept(mem: map<nat, Byte>, mem': map<nat, Byte>, a: nat, n: nat, lo: nat, len: nat)
    requires forall x: nat :: !(lo <= x < lo + len) ==> ByteAt(mem', x) == ByteAt(mem, x)
    requires a + n <= lo || lo + len <= a
    ensures Bytes(mem', a, n) == Bytes(mem, a, n)
  {
  }

  lemma BlockOverwritten(h: Heap, live: map<Block, nat>, b: Block, mem: map<nat, Byte>, mem': map<nat, Byte>)
    requires Good(h, live, None) && b in live && KnownBlock(h, b)
    requires forall x: nat :: !(Address(h, b) <= x < Address(h, b) + Size(h, b)) ==> ByteAt(mem', x) == ByteAt(mem, x)
    ensures SameBytes(h, live - {b}, mem, mem')
  {
    forall c | c in live - {b} && KnownBlock(h, c)
      ensures Bytes(mem', Address(h, c), Size(h, c)) == Bytes(mem, Address(h, c), Size(h, c))
    {
      LiveDisjoint(h, live, b, c);
      OutsideKept(mem, mem', Address(h, c), Size(h, c), Address(h, b), Size(h, b));
    }
  }

  /** No allocated block lies in the pages of another arena. */
  lemma PagesOverwritten(h: Heap, live: map<Block, nat>, idle: Option<nat>, page: nat, mem: map<nat, Byte>, mem': map<nat, Byte>)
    requires Good(h, live, idle) && page in h.arenas && forall c :: c in live ==> c.page != page
    requires forall x: nat :: !(page * PAGE_SIZE <= x < page * PAGE_SIZE + Span(h.arenas[page]) * PAGE_SIZE) ==>
      ByteAt(mem', x) == ByteAt(mem, x)
    ensures SameBytes(h, live, mem, mem')
  {
    forall c | c in live && KnownBlock(h, c)
      ensures Bytes(mem', Address(h, c), Size(h, c)) == Bytes(mem, Address(h, c), Size(h, c))
    {
      assert Apart(h, c.page, page) && Apart(h, page, c.page);
      BlockInside(h, c);
      SpansDisjoint(c.page, Span(h.arenas[c.page]), page, Span(h.arenas[page]));
      OutsideKept(mem, mem', Address(h, c), Size(h, c), page * PAGE_SIZE, Span(h.arenas[page]) * PAGE_SIZE);
    }
  }

  /** The pages of a big block, with the arithmetic of 32 bits. */
  function PageCount(size: nat): nat {
    ((size + SIZEOF_ARENA) % SIZE_LIMIT + PAGE_SIZE - 1) % SIZE_LIMIT / PAGE_SIZE
  }

  /** When the arithmetic wraps, a big block has one page, or none at all; otherwise it has more only if needed. */
  lemma WrappedPages(size: nat)
    requires size < SIZE_LIMIT
    ensures PageCount(size) > 1 ==> Granted(size) > ONE_PAGE
    ensures size + SIZEOF_ARENA >= SIZE_LIMIT ==> PageCount(size) == if size + SIZEOF_ARENA == SIZE_LIMIT then 0 else 1
  {
  }

  /** n pages hold `size` bytes behind an arena's header, and n - 1 do not. */
  ghost predicate LeastPages(size: nat, n: nat) {
    PAGE_SIZE * (n - 1) < size + SIZEOF_ARENA <= PAGE_SIZE * n
  }

  /** As many pages as are needed and no more, unless the arithmetic wraps. Where it wraps only by rounding up, or
      comes to nothing, no page is asked for. */
  lemma PageCountIs(size: nat)
    requires size < SIZE_LIMIT
    ensures size + SIZEOF_ARENA + PAGE_SIZE <= SIZE_LIMIT ==> forall n: nat :: LeastPages(size, n) <==> n == PageCount(size)
    ensures size + SIZEOF_ARENA <= SIZE_LIMIT < size + SIZEOF_ARENA + PAGE_SIZE ==> PageCount(size) == 0
  {
  }

  /** The bytes that a client may count on. */
  function Granted(size: nat): nat {
    if size + SIZEOF_ARENA < SIZE_LIMIT then size else ONE_PAGE
  }

  /** A client may count on all that it asked for, unless the size with the header does not fit 32 bits. */
  lemma GrantedIs(size: nat)
    ensures size < 0xFFFF_FFF4 ==> Granted(size) == size
    ensures size >= 0xFFFF_FFF4 ==> Granted(size) == 4084
  {
  }

  /** The smallest descriptor for a request, or DESC_CNT. */
  function DescOf(size: nat): (d: nat)
    ensures d <= DESC_CNT && (d < DESC_CNT <==> size <= 1024)
  {
    if size <= 16 then 0 else if size <= 32 then 1 else if size <= 64 then 2 else if size <= 128 then 3
    else if size <= 256 then 4 else if size <= 512 then 5 else if size <= 1024 then 6 else DESC_CNT
  }

  lemma DescIs(size: nat, d: nat)
    requires d <= DESC_CNT && (d < DESC_CNT ==> BlockSize(d) >= size) && forall e :: 0 <= e < d ==> BlockSize(e) < size
    ensures d == DescOf(size)
  {
    var e := DescOf(size);
    assert e < DESC_CNT ==> BlockSize(e) >= size;
    assert 0 < e ==> BlockSize(e - 1) < size;
    assert d == 0 || d == 1 || d == 2 || d == 3 || d == 4 || d == 5 || d == 6 || d == 7;
  }

  /** No bytes are asked for, or the request takes pages that cannot be had. */
  ghost predicate Refuses(h: Heap, used: set<int>, lo: int, hi: int, size: nat)
    requires |h.free| == DESC_CNT
  {
    || size == 0
    || (size <= 1024 && h.free[DescOf(size)] == [] && !HasRun(used, lo, hi, 1))
    || (size > 1024 && (PageCount(size) == 0 || !HasRun(used, lo, hi, PageCount(size))))
  }

  class Allocator {
    var arenas: map<nat, Arena>
    var free: seq<seq<Block>>
    var blockSizes: seq<nat>
    var mem: map<nat, Byte>
    const pool: Pool
    ghost var live: map<Block, nat>     // allocated blocks and the sizes asked for
    ghost const others: set<int>        // pages of the pool that are not the heap's

    ghost function State(): Heap
      reads this
    {
      Heap(arenas, free)
    }

    ghost predicate Valid()
      reads this, pool.usedMap.bits
    {
      && pool.Valid()
      && Good(State(), live, None)
      && |blockSizes| == DESC_CNT && (forall d :: 0 <= d < DESC_CNT ==> blockSizes[d] == BlockSize(d))
      && Backed()
    }

    /** The pages of every arena are taken from the pool, and no others are. */
    ghost predicate Backed()
      requires pool.Valid()
      reads this, pool.usedMap.bits
    {
      && (forall p, q :: p in arenas && p <= q < p + Span(arenas[p]) ==> pool.Used(q))
      && Accounted(pool.UsedPages(), others, arenas)
    }

    /** malloc_init: one descriptor per power of two from 16 to below half a page. */
    constructor (pool: Pool)
      requires pool.Valid()
      ensures this.pool == pool && Valid() && live == map[] && arenas == map[] && others == pool.UsedPages()
    {
      this.pool := pool;
      others := pool.UsedPages();
      arenas, free, mem, live := map[], [], map[], map[];
      blockSizes := [];
      new;
      var size := 16;
      while size < PAGE_SIZE / 2
        invariant pool == this.pool && arenas == map[] && live == map[] && others == pool.UsedPages()
        invariant |free| == |blockSizes| <= DESC_CNT && size == if |free| < DESC_CNT then BlockSize(|free|) else 2048
        invariant forall d :: 0 <= d < |free| ==> blockSizes[d] == BlockSize(d) && free[d] == []
        decreases PAGE_SIZE - size
      {
        blockSizes, free, size := blockSizes + [size], free + [[]], size * 2;
      }
    }

    /** The smallest descriptor whose blocks hold `size` bytes, or DESC_CNT. */
    method FindDesc(size: nat) returns (d: nat)
      requires Valid()
      ensures d <= DESC_CNT && (d < DESC_CNT ==> BlockSize(d) >= size)
      ensures forall e :: 0 <= e < d ==> BlockSize(e) < size
    {
      d := 0;
      while d < DESC_CNT && blockSizes[d] < size
        invariant 0 <= d <= DESC_CNT && forall e :: 0 <= e < d ==> BlockSize(e) < size
      {
        d := d + 1;
      }
    }

    /** Turns a page from the pool into an arena of descriptor d, every block of it on the free list. */
    method NewArena(d: nat) returns (page: Option<nat>)
      requires Valid() && d < DESC_CNT
      modifies this`arenas, this`free, pool.usedMap.bits
      ensures pool.Valid() && Backed() && |blockSizes| == DESC_CNT
      ensures page.None? <==> !old(pool.HasPages(1))
      ensures page.None? ==> Valid() && State() == old(State())
      ensures page.Some? ==> page.value !in old(arenas) && State() == WithArena(old(State()), d, page.value)
      ensures page.Some? ==> Good(State(), live, Some(page.value))
      ensures page.Some? ==> SameBlocks(old(State()), State(), live)
    {
      page := pool.GetMultiple(1);
      if page.None? {
        assert pool.UsedPages() == old(pool.UsedPages());
      } else {
        assert !old(pool.Used(page.value));
        assert page.value in arenas ==> ArenaGood(State(), live, None, page.value);
        WithArenaGood(State(), live, d, page.value);
        AccountedTake(old(pool.UsedPages()), pool.UsedPages(), others, arenas, page.value, Arena(Some(d), BlocksPerArena(d)));
        arenas := arenas[page.value := Arena(Some(d), BlocksPerArena(d))];
        var i, list := 0, free[d];
        while i < BlocksPerArena(d)
          invariant 0 <= i <= BlocksPerArena(d) && list == free[d] + BlocksOf(page.value, i)
        {
          list := list + [Block(page.value, i)];
          i := i + 1;
        }
        free := free[d := list];
        forall b | b in live
          ensures KnownBlock(old(State()), b) && b.page != page.value
        {
          assert LiveGood(old(State()), live, b);
        }
      }
    }

    /** Hands out the first free block of descriptor d. */
    method TakeBlock(d: nat, size: nat, ghost idle: Option<nat>) returns (p: nat, ghost b: Block)
      requires pool.Valid() && Backed() && d < DESC_CNT && size <= BlockSize(d) && Good(State(), live, idle)
      requires free[d] != [] && (idle == None || idle == Some(free[d][0].page))
      requires |blockSizes| == DESC_CNT && forall e :: 0 <= e < DESC_CNT ==> blockSizes[e] == BlockSize(e)
      modifies this`arenas, this`free, this`live
      ensures Valid() && b !in old(live) && live == old(live)[b := size]
      ensures KnownBlock(State(), b) && p == Address(State(), b) && Size(State(), b) == BlockSize(d)
      ensures SameBlocks(old(State()), State(), old(live))
    {
      hide ListGood, ArenaGood, Apart, LiveGood, Accounted, SameBlocks;
      b := free[d][0];
      TakenGood(State(), live, idle, d, size);
      TakenBlocks(State(), live, idle, d);
      var head := free[d][0];
      AccountedSame(pool.UsedPages(), others, arenas, head.page, arenas[head.page].(freeCnt := arenas[head.page].freeCnt - 1));
      p := head.page * PAGE_SIZE + SIZEOF_ARENA + head.idx * blockSizes[d];
      free := free[d := free[d][1..]];
      arenas := arenas[head.page := arenas[head.page].(freeCnt := arenas[head.page].freeCnt - 1)];
      live := live[b := size];
    }

    /** A block of descriptor d, from a new arena if none is listed. */
    method TakeSmall(d: nat, size: nat) returns (p: Option<nat>, ghost b: Block)
      requires Valid() && d < DESC_CNT && size <= BlockSize(d)
      modifies this`arenas, this`free, this`live, pool.usedMap.bits
      ensures Valid() && (p.None? <==> old(free)[d] == [] && !old(pool.HasPages(1)))
      ensures p.None? ==> live == old(live) && State() == old(State())
      ensures p.Some? ==> b !in old(live) && KnownBlock(State(), b) && p.value == Address(State(), b)
      ensures p.Some? ==> live == old(live)[b := size] && Size(State(), b) == BlockSize(d)
      ensures SameBlocks(old(State()), State(), old(live))
    {
      KnownLive();
      b := Block(0, 0);
      ghost var idle := None;
      if free[d] == [] {
        var page := NewArena(d);
        if page.None? {
          return None, b;
        }
        idle := page;
      }
      var addr;
      addr, b := TakeBlock(d, size, idle);
      p := Some(addr);
    }

    /** Whole pages for a request that no descriptor holds. The size arithmetic wraps at 32 bits. */
    method TakePages(size: nat) returns (p: Option<nat>, ghost b: Block)
      requires Valid() && 1024 < size < SIZE_LIMIT
      modifies this`arenas, this`live, pool.usedMap.bits
      ensures Valid() && (p.None? <==> PageCount(size) == 0 || !old(pool.HasPages(PageCount(size))))
      ensures p.None? ==> live == old(live) && State() == old(State())
      ensures p.Some? ==> b !in old(live) && KnownBlock(State(), b) && p.value == Address(State(), b)
      ensures p.Some? ==> live == old(live)[b := Granted(size)]
      ensures p.Some? ==> (Size(State(), b) >= size <==> size + SIZEOF_ARENA < SIZE_LIMIT)
      ensures p.Some? ==> Size(State(), b) == PAGE_SIZE * PageCount(size) - SIZEOF_ARENA
      ensures p.Some? ==> SameBlocks(old(State()), State(), old(live))
    {
      var pages := PageCount(size);
      WrappedPages(size);
      var page := pool.GetMultiple(pages);
      b := Block(0, 0);
      if page.None? {
        assert pool.UsedPages() == old(pool.UsedPages());
        return None, b;
      }
      b := Block(page.value, 0);
      ghost var asked := Granted(size);
      assert forall q :: page.value <= q < page.value + pages ==> !old(pool.Used(q));
      assert !old(pool.Used(page.value));
      forall q | q in arenas
        ensures q + Span(arenas[q]) <= page.value || page.value + pages <= q
      {
        assert ArenaGood(State(), live, None, q);
        assert old(pool.Used(q));
        assert !(q <= page.value < q + Span(arenas[q]));
        assert !(page.value <= q < page.value + pages);
      }
      assert page.value in arenas ==> ArenaGood(State(), live, None, page.value);
      WithBigGood(State(), live, page.value, pages, asked);
      BigIsNew(State(), live, page.value, pages);
      AccountedTake(old(pool.UsedPages()), pool.UsedPages(), others, arenas, page.value, Arena(None, pages));
      arenas := arenas[page.value := Arena(None, pages)];
      live := live[b := asked];
      p := Some(page.value * PAGE_SIZE + SIZEOF_ARENA);
    }

    /** Whether malloc must refuse a request. */
    ghost predicate Refusing(size: nat)
      requires pool.Valid() && |free| == DESC_CNT
      reads this, pool.usedMap.bits
    {
      Refuses(State(), pool.UsedPages(), pool.base, pool.base + pool.usedMap.bitCnt, size)
    }

    /** A new block of at least `size` bytes. It is refused exactly for no bytes, and when the pages that it takes, if
        it takes any, cannot be had. */
    method Malloc(size: nat) returns (p: Option<nat>, ghost b: Block)
      requires Valid() && size < SIZE_LIMIT
      modifies this`arenas, this`free, this`live, pool.usedMap.bits
      ensures Valid() && (p.None? <==> old(Refusing(size)))
      ensures p.None? ==> live == old(live) && State() == old(State())
      ensures p.Some? ==> b !in old(live) && KnownBlock(State(), b) && p.value == Address(State(), b)
      ensures p.Some? ==> live == old(live)[b := Granted(size)]
      ensures p.Some? ==> (Size(State(), b) >= size <==> size + SIZEOF_ARENA < SIZE_LIMIT)
      ensures p.Some? && size + SIZEOF_ARENA >= SIZE_LIMIT ==> Size(State(), b) == ONE_PAGE
      ensures p.Some? && size > 1024 ==> Size(State(), b) == PAGE_SIZE * PageCount(size) - SIZEOF_ARENA
      ensures p.Some? && size <= 1024 ==> Size(State(), b) == 16 || Size(State(), b) < 2 * size
      ensures p.Some? && 1024 < size ==> Size(State(), b) < size + PAGE_SIZE
      ensures size > 1024 && size + SIZEOF_ARENA + PAGE_SIZE <= SIZE_LIMIT ==>
                forall n :: LeastPages(size, n) ==> (p.None? <==> !old(pool.HasPages(n)))
      ensures size + SIZEOF_ARENA <= SIZE_LIMIT < size + SIZEOF_ARENA + PAGE_SIZE ==> p.None?
      ensures SameBlocks(old(State()), State(), old(live))
    {
      KnownLive();
      b := Block(0, 0);
      if size == 0 {
        return None, b;
      }
      var d := FindDesc(size);
      DescIs(size, d);
      if d == DESC_CNT {
        assert BlockSize(6) < size;
        WrappedPages(size);
        PageCountIs(size);
        p, b := TakePages(size);
        return;
      }
      p, b := TakeSmall(d, size);
    }

    lemma KnownLive()
      requires Good(State(), live, None)
      ensures SameBlocks(State(), State(), live)
    {
      forall c | c in live
        ensures KnownBlock(State(), c)
      {
        assert LiveGood(State(), live, c);
      }
    }

    /** Sets n bytes from address a on. */
    method Memset(a: nat, value: Byte, n: nat)
      modifies this`mem
      ensures forall x: nat :: ByteAt(mem, x) == if a <= x < a + n then value else old(ByteAt(mem, x))
    {
      var i := 0;
      while i < n
        invariant 0 <= i <= n
        invariant forall x: nat :: ByteAt(mem, x) == if a <= x < a + i then value else old(ByteAt(mem, x))
      {
        ghost var before := mem;
        mem := mem[a + i := value];
        assert forall x: nat :: ByteAt(mem, x) == if x == a + i then value else ByteAt(before, x);
        i := i + 1;
      }
    }

    /** Copies n bytes between two ranges that do not overlap. */
    method Memcpy(dst: nat, src: nat, n: nat)
      requires dst + n <= src || src + n <= dst
      modifies this`mem
      ensures Bytes(mem, dst, n) == old(Bytes(mem, src, n))
      ensures forall x: nat :: !(dst <= x < dst + n) ==> ByteAt(mem, x) == old(ByteAt(mem, x))
    {
      var i := 0;
      while i < n
        invariant 0 <= i <= n
        invariant Copied(old(mem), mem, dst, src, i)
      {
        CopyStep(old(mem), mem, dst, src, i, n);
        mem := mem[dst + i := ByteAt(mem, src + i)];
        i := i + 1;
      }
      BytesCopied(old(mem), mem, dst, src, n);
    }

    /** The table of descriptors, and the pages behind the arenas. */
    ghost predicate Furnished()
      reads this, pool.usedMap.bits
    {
      && pool.Valid() && Backed()
      && |blockSizes| == DESC_CNT && (forall e :: 0 <= e < DESC_CNT ==> blockSizes[e] == BlockSize(e))
    }

    /** Takes the first n blocks of an arena off a free list, one by one. */
    method Unlist(list: seq<Block>, page: nat, n: nat) returns (r: seq<Block>)
      requires Distinct(list)
      ensures r == Unlisted(list, page, n)
    {
      UnlistedNone(list, page);
      forall i: nat
        ensures Removed(Unlisted(list, page, i), Block(page, i)) == Unlisted(list, page, i + 1)
      {
        UnlistedNext(list, page, i);
      }
      r := list;
      for i := 0 to n
        invariant r == Unlisted(list, page, i)
      {
        r := Removed(r, Block(page, i));
      }
    }

    /** Takes every block of a wholly free arena off the free list and gives its page back. */
    method ReleaseArena(page: nat, d: nat)
      requires Furnished() && d < DESC_CNT && page in arenas && arenas[page] == Arena(Some(d), BlocksPerArena(d))
      requires Good(State(), live, Some(page))
      modifies this`arenas, this`free, this`mem, pool.usedMap.bits
      ensures Valid() && State() == Dropped(old(State()), d, page)
      ensures SameBlocks(old(State()), State(), live)
      ensures SameBytes(old(State()), live, old(mem), mem)
    {
      ghost var h, m := State(), mem;
      DroppedGood(h, live, d, page);
      NoneInArena(h, live, d, page);
      assert ListGood(h, live, d);
      var list := Unlist(free[d], page, BlocksPerArena(d));
      free := free[d := list];
      assert pool.Used(page);
      pool.FreeMultiple(page, 1);
      Memset(page * PAGE_SIZE, 0xcc, PAGE_SIZE);
      PagesOverwritten(h, live, Some(page), page, m, mem);
      forall q | q in arenas && q != page
        ensures q + Span(arenas[q]) <= page || page + 1 <= q
      {
        assert Apart(h, q, page);
      }
      AccountedDrop(old(pool.UsedPages()), pool.UsedPages(), others, arenas, page);
      arenas := arenas - {page};
      forall c | c in live
        ensures KnownBlock(h, c) && KnownBlock(State(), c)
      {
        assert LiveGood(h, live, c);
      }
    }

    /** Puts a block on its descriptor's free list. */
    method PutBack(p: nat, d: nat, ghost b: Block)
      requires Valid() && b in live && KnownBlock(State(), b) && Address(State(), b) == p
      requires d < DESC_CNT && arenas[b.page].desc == Some(d)
      modifies this`arenas, this`free, this`mem, this`live
      ensures Furnished() && State() == Given(old(State()), b, d) && live == old(live) - {b}
      ensures Good(State(), live, Some(b.page)) && SameBlocks(old(State()), State(), live)
      ensures SameBytes(old(State()), live, old(mem), mem)
    {
      ghost var h, m := State(), mem;
      Memset(p, 0xcc, blockSizes[d]);
      BlockOverwritten(h, live, b, m, mem);
      LinkBlock(p, d, b);
    }

    /** Puts the block at the front of its descriptor's list and counts it as free in its arena. */
    method LinkBlock(p: nat, d: nat, ghost b: Block)
      requires Valid() && b in live && KnownBlock(State(), b) && Address(State(), b) == p
      requires d < DESC_CNT && arenas[b.page].desc == Some(d)
      modifies this`arenas, this`free, this`live
      ensures Furnished() && State() == Given(old(State()), b, d) && live == old(live) - {b}
      ensures Good(State(), live, Some(b.page)) && SameBlocks(old(State()), State(), live)
    {
      hide ListGood, ArenaGood, Apart, LiveGood, Accounted;
      DecodeBlock(State(), b);
      GivenGood(State(), live, b, d);
      KnownLive();
      var page := p / PAGE_SIZE;
      var block := Block(page, (p % PAGE_SIZE - SIZEOF_ARENA) / blockSizes[d]);
      free := free[d := [block] + free[d]];
      AccountedSame(pool.UsedPages(), others, arenas, page, arenas[page].(freeCnt := arenas[page].freeCnt + 1));
      arenas := arenas[page := arenas[page].(freeCnt := arenas[page].freeCnt + 1)];
      live := live - {b};
    }

    /** Returns a block to its descriptor's list, and its arena to the pool if no block of it is left in use. */
    method FreeBlock(p: nat, d: nat, ghost b: Block)
      requires Valid() && b in live && KnownBlock(State(), b) && Address(State(), b) == p
      requires d < DESC_CNT && arenas[b.page].desc == Some(d)
      modifies this`arenas, this`free, this`mem, this`live, pool.usedMap.bits
      ensures Valid() && live == old(live) - {b}
      ensures SameBlocks(old(State()), State(), live)
      ensures SameBytes(old(State()), live, old(mem), mem)
    {
      ghost var h, m := State(), mem;
      DecodeBlock(h, b);
      var page := p / PAGE_SIZE;
      PutBack(p, d, b);
      ghost var u, m' := State(), mem;
      assert ArenaGood(u, live, Some(page), page);
      CountBounds(live, page, BlocksPerArena(d));
      if arenas[page].freeCnt >= BlocksPerArena(d) {
        ReleaseArena(page, d);
        SameBytesTwice(h, u, live, m, m', mem);
      } else {
        BusyArena(u, live, page);
      }
    }

    /** Gives the pages of a big block back. */
    method FreePages(page: nat)
      requires Valid() && page in arenas && arenas[page].desc.None?
      modifies this`arenas, this`mem, this`live, pool.usedMap.bits
      ensures Valid() && live == old(live) - {Block(page, 0)}
      ensures SameBlocks(old(State()), State(), live)
      ensures SameBytes(old(State()), live, old(mem), mem)
    {
      hide Good, Accounted, ArenaGood, LiveGood;
      ghost var h, m := State(), mem;
      WithoutBigGood(h, live, page);
      BigGoes(h, live, page);
      var pages := arenas[page].freeCnt;
      assert forall q :: page <= q < page + pages ==> pool.Used(q);
      assert pool.Used(page) && pool.Used(page + pages - 1);
      pool.FreeMultiple(page, pages);
      Memset(page * PAGE_SIZE, 0xcc, pages * PAGE_SIZE);
      BigOverwritten(h, live, page, m, mem);
      AccountedDrop(old(pool.UsedPages()), pool.UsedPages(), others, arenas, page);
      arenas := arenas - {page};
      live := live - {Block(page, 0)};
    }

    /** Frees block b at address p; freeing a null pointer does nothing. */
    method Free(p: Option<nat>, ghost b: Block)
      requires Valid() && (p.Some? ==> b in live && KnownBlock(State(), b) && Address(State(), b) == p.value)
      modifies this`arenas, this`free, this`mem, this`live, pool.usedMap.bits
      ensures Valid() && live == if p.Some? then old(live) - {b} else old(live)
      ensures SameBlocks(old(State()), State(), live)
      ensures SameBytes(old(State()), live, old(mem), mem)
    {
      if p.Some? {
        DecodeBlock(State(), b);
        var page := p.value / PAGE_SIZE;
        match arenas[page].desc {
          case Some(d) => FreeBlock(p.value, d, b);
          case None =>
            assert b == Block(page, 0);
            FreePages(page);
        }
      } else {
        KnownLive();
      }
    }

    /** The number of bytes a block holds. */
    method BlockBytes(p: nat, ghost b: Block) returns (n: nat)
      requires Valid() && b in live && KnownBlock(State(), b) && Address(State(), b) == p
      ensures n == Size(State(), b)
    {
      DecodeBlock(State(), b);
      var a := arenas[p / PAGE_SIZE];
      n := if a.desc.Some? then blockSizes[a.desc.value] else PAGE_SIZE * a.freeCnt - p % PAGE_SIZE;
    }

    /** Copies a block into a larger or smaller one that holds the copy, and frees it. */
    method MoveBlock(p: nat, r: nat, newSize: nat, ghost asked: nat,
                     ghost b: Block, ghost c: Block, ghost h: Heap, ghost was: map<Block, nat>)
      requires Valid() && b in was && c !in was && live == was[c := asked] && SameBlocks(h, State(), was)
      requires KnownBlock(h, b) && KnownBlock(State(), b) && Address(State(), b) == p == Address(h, b)
      requires KnownBlock(State(), c) && Address(State(), c) == r && Size(State(), c) >= Min(newSize, Size(h, b))
      modifies this`arenas, this`free, this`mem, this`live, pool.usedMap.bits
      ensures Valid() && live == (was - {b})[c := asked]
      ensures KnownBlock(State(), c) && Address(State(), c) == r && Size(State(), c) == old(Size(State(), c))
      ensures var n := Min(newSize, Size(h, b)); Bytes(mem, r, n) == Bytes(old(mem), p, n)
      ensures SameBlocks(h, State(), was - {b}) && SameBytes(h, was - {b}, old(mem), mem)
    {
      ghost var u, m := State(), mem;
      var oldSize := BlockBytes(p, b);
      var n := Min(newSize, oldSize);
      LiveDisjoint(u, live, b, c);
      Memcpy(r, p, n);
      CopyKept(u, live, c, m, mem, n);
      ghost var m' := mem;
      FreeMoved(p, asked, b, c, was);
      SameBytesTwice(u, u, was - {b}, m, m', mem);
      BytesPrefix(m', mem, r, n, Size(u, c));
    }

    /** The old block of a move goes; every other block keeps its place and its bytes. */
    method FreeMoved(p: nat, ghost asked: nat, ghost b: Block, ghost c: Block, ghost was: map<Block, nat>)
      requires Valid() && b in was && c !in was && live == was[c := asked]
      requires KnownBlock(State(), b) && Address(State(), b) == p && KnownBlock(State(), c)
      modifies this`arenas, this`free, this`mem, this`live, pool.usedMap.bits
      ensures Valid() && live == (was - {b})[c := asked]
      ensures SameBlocks(old(State()), State(), live) && SameBytes(old(State()), live, old(mem), mem)
    {
      assert live - {b} == (was - {b})[c := asked];
      Free(Some(p), b);
    }

    /** What realloc leaves allocated. */
    ghost function LiveAfter(was: map<Block, nat>, p: Option<nat>, b: Block, r: Option<nat>, c: Block, newSize: nat): map<Block, nat> {
      if newSize > 0 && r.None? then was
      else
        var kept := if p.Some? then was - {b} else was;
        if r.Some? then kept[c := Granted(newSize)] else kept
    }

    /**
     * Resizes block b at address p, which may move: the new block starts with the old one's bytes, as many as fit in
     * both, and no other block changes. Failure leaves everything as it was. The copy would write past the end of the new
     * block exactly when the size wrapped and the old block has more than one page; what it destroys is not modelled.
     */
    method Realloc(p: Option<nat>, newSize: nat, ghost b: Block) returns (r: Option<nat>, overrun: bool, ghost c: Block)
      requires Valid() && newSize < SIZE_LIMIT
      requires p.Some? ==> b in live && KnownBlock(State(), b) && Address(State(), b) == p.value
      modifies this`arenas, this`free, this`mem, this`live, pool.usedMap.bits
      ensures r.None? <==> old(Refusing(newSize))
      ensures r.Some? ==> c !in old(live) && KnownBlock(State(), c) && r.value == Address(State(), c)
      ensures overrun <==> p.Some? && r.Some? && Min(newSize, Size(old(State()), b)) > Size(State(), c)
      ensures overrun <==>
        p.Some? && r.Some? && newSize + SIZEOF_ARENA >= SIZE_LIMIT && Size(old(State()), b) > ONE_PAGE
      ensures !overrun ==> Valid() && live == LiveAfter(old(live), p, b, r, c, newSize)
      ensures r.None? && newSize > 0 ==> State() == old(State()) && mem == old(mem)
      ensures r.Some? ==> (Size(State(), c) >= newSize <==> newSize + SIZEOF_ARENA < SIZE_LIMIT)
      ensures r.Some? && newSize + SIZEOF_ARENA >= SIZE_LIMIT ==> Size(State(), c) == ONE_PAGE
      ensures !overrun && r.Some? && p.Some? ==>
        var n := Min(newSize, Size(old(State()), b));
        Bytes(mem, r.value, n) == Bytes(old(mem), p.value, n)
      ensures !overrun ==>
        SameBlocks(old(State()), State(), if p.Some? && (r.Some? || newSize == 0) then old(live) - {b} else old(live))
      ensures !overrun ==> SameBytes(old(State()), if p.Some? then old(live) - {b} else old(live), old(mem), mem)
    {
      c, overrun := Block(0, 0), false;
      if newSize == 0 {
        Free(p, b);
        r := None;
      } else {
        r, c := Malloc(newSize);
        if p.Some? && r.Some? {
          overrun := Overruns(p.value, r.value, newSize, b, c);
          if !overrun {
            MoveBlock(p.value, r.value, newSize, Granted(newSize), b, c, old(State()), old(live));
          }
        }
      }
    }

    /** Whether the copy of block b that realloc makes is longer than block c, which it goes to. */
    method Overruns(p: nat, r: nat, newSize: nat, ghost b: Block, ghost c: Block) returns (longer: bool)
      requires Valid() && b in live && KnownBlock(State(), b) && Address(State(), b) == p
      requires c in live && KnownBlock(State(), c) && Address(State(), c) == r
      ensures longer <==> Min(newSize, Size(State(), b)) > Size(State(), c)
    {
      var oldSize := BlockBytes(p, b);
      var room := BlockBytes(r, c);
      longer := Min(newSize, oldSize) > room;
    }
  }

  /** m' is m with i bytes copied from src to dst. */
  ghost predicate Copied(m: map<nat, Byte>, m': map<nat, Byte>, dst: nat, src: nat, i: nat) {
    forall x: nat {:trigger ByteAt(m', x)} ::
      ByteAt(m', x) == ByteAt(m, if dst <= x < dst + i then src + (x - dst) else x)
  }

  lemma CopyStep(m: map<nat, Byte>, m': map<nat, Byte>, dst: nat, src: nat, i: nat, n: nat)
    requires Copied(m, m', dst, src, i) && i < n && (dst + n <= src || src + n <= dst)
    ensures Copied(m, m'[dst + i := ByteAt(m', src + i)], dst, src, i + 1)
  {
    var m'' := m'[dst + i := ByteAt(m', src + i)];
    forall x: nat
      ensures ByteAt(m'', x) == ByteAt(m, if dst <= x < dst + (i + 1) then src + (x - dst) else x)
    {
      assert ByteAt(m'', x) == ByteAt(m', if x == dst + i then src + i else x);
    }
  }

  /** Writing into one block leaves the others alone. */
  lemma CopyKept(h: Heap, live: map<Block, nat>, c: Block, mem: map<nat, Byte>, mem': map<nat, Byte>, n: nat)
    requires Good(h, live, None) && c in live && KnownBlock(h, c) && n <= Size(h, c)
    requires forall x: nat :: !(Address(h, c) <= x < Address(h, c) + n) ==> ByteAt(mem', x) == ByteAt(mem, x)
    ensures SameBytes(h, live - {c}, mem, mem')
  {
    forall b | b in live - {c} && KnownBlock(h, b)
      ensures Bytes(mem', Address(h, b), Size(h, b)) == Bytes(mem, Address(h, b), Size(h, b))
    {
      LiveDisjoint(h, live, b, c);
      OutsideKept(mem, mem', Address(h, b), Size(h, b), Address(h, c), n);
    }
  }

  /** The pages of the freed big block held no other allocated block. */
  lemma BigOverwritten(h: Heap, live: map<Block, nat>, page: nat, mem: map<nat, Byte>, mem': map<nat, Byte>)
    requires Good(h, live, None) && page in h.arenas && h.arenas[page].desc.None?
    requires forall x: nat :: !(page * PAGE_SIZE <= x < page * PAGE_SIZE + h.arenas[page].freeCnt * PAGE_SIZE) ==>
      ByteAt(mem', x) == ByteAt(mem, x)
    ensures SameBytes(h, live - {Block(page, 0)}, mem, mem')
  {
    forall c | c in live - {Block(page, 0)} && KnownBlock(h, c)
      ensures Bytes(mem', Address(h, c), Size(h, c)) == Bytes(mem, Address(h, c), Size(h, c))
    {
      assert c == Block(c.page, c.idx) && c.page != page;
      assert Apart(h, c.page, page) && Apart(h, page, c.page);
      BlockInside(h, c);
      SpansDisjoint(c.page, Span(h.arenas[c.page]), page, Span(h.arenas[page]));
      OutsideKept(mem, mem', Address(h, c), Size(h, c), page * PAGE_SIZE, h.arenas[page].freeCnt * PAGE_SIZE);
    }
  }

  lemma SameBytesTwice(h: Heap, u: Heap, live: map<Block, nat>, m: map<nat, Byte>, m': map<nat, Byte>, m'': map<nat, Byte>)
    requires SameBytes(h, live, m, m') && SameBlocks(h, u, live) && SameBytes(u, live, m', m'')
    ensures SameBytes(h, live, m, m'')
  {
  }

  /** The big block at `page` shares no page with an arena, and the other blocks stay without it. */
  lemma BigGoes(h: Heap, live: map<Block, nat>, page: nat)
    requires Good(h, live, None) && page in h.arenas && h.arenas[page].desc.None?
    ensures h.arenas[page].freeCnt >= 1
    ensures forall q :: q in h.arenas && q != page ==>
              q + Span(h.arenas[q]) <= page || page + Span(h.arenas[page]) <= q
    ensures SameBlocks(h, Heap(h.arenas - {page}, h.free), live - {Block(page, 0)})
  {
    assert ArenaGood(h, live, None, page);
    forall q | q in h.arenas && q != page
      ensures q + Span(h.arenas[q]) <= page || page + Span(h.arenas[page]) <= q
    {
      assert Apart(h, q, page) && Apart(h, page, q);
    }
    forall c | c in live - {Block(page, 0)}
      ensures KnownBlock(h, c) && c.page != page
    {
      assert LiveGood(h, live, c);
      assert c == Block(c.page, c.idx);
    }
  }

  lemma NoneInArena(h: Heap, live: map<Block, nat>, d: nat, page: nat)
    requires Good(h, live, Some(page)) && d < DESC_CNT && page in h.arenas
    requires h.arenas[page] == Arena(Some(d), BlocksPerArena(d))
    ensures forall c :: c in live ==> c.page != page
  {
    assert ArenaGood(h, live, Some(page), page);
    CountBounds(live, page, BlocksPerArena(d));
    forall c | c in live
      ensures c.page != page
    {
      assert LiveGood(h, live, c);
      assert c == Block(c.page, c.idx);
    }
  }

  // ---- whole runs ----

  type SizeT = n: nat | n < SIZE_LIMIT

  /** What a client does; pointers are named by their place in the client's list. */
  datatype Request =
    | Alloc(size: SizeT)
    | Release(i: nat)
    | Resize(i: nat, size: SizeT)
    | Store(i: nat, ofs: nat, value: Byte)
    | Load(i: nat, ofs: nat)

  /** What a client has behind each pointer: the bytes it may use, or nothing. */
  type Holdings = seq<Option<seq<Byte>>>

  ghost predicate InReach(held: Holdings, i: nat, ofs: nat) {
    i < |held| && held[i].Some? && ofs < |held[i].value|
  }

  /**
   * One request, seen by the client. Memory is granted unless it is refused; it is the client's own, so loads give what
   * was stored last, whatever other requests did in between, and a resize keeps what fits.
   */
  ghost predicate Served(held: Holdings, refused: bool, request: Request, held': Holdings, out: Option<Byte>) {
    match request
    case Alloc(size) =>
      && out == None && |held'| == |held| + 1 && held'[..|held|] == held
      && (held'[|held|].None? <==> refused)
      && (held'[|held|].Some? ==> |held'[|held|].value| == Granted(size))
    case Release(i) =>
      out == None && held' == if i < |held| then held[i := None] else held
    case Resize(i, size) =>
      && out == None
      && (i >= |held| ==> held' == held)
      && (i < |held| && refused ==> held' == if size == 0 then held[i := None] else held)
      && (i < |held| && !refused ==>
            && |held'| == |held| && held'[i].Some? && held' == held[i := held'[i]]
            && |held'[i].value| == Granted(size)
            && (held[i].Some? ==> var n := Min(|held[i].value|, Granted(size)); held'[i].value[..n] == held[i].value[..n]))
    case Store(i, ofs, value) =>
      out == None && held' == if InReach(held, i, ofs) then held[i := Some(held[i].value[ofs := value])] else held
    case Load(i, ofs) =>
      held' == held && out == if InReach(held, i, ofs) then Some(held[i].value[ofs]) else None
  }

  /** A pointer that the client holds, the bytes behind it, and the block that they are in. */
  ghost predicate Held(h: Heap, live: map<Block, nat>, mem: map<nat, Byte>, p: Option<nat>, x: Option<seq<Byte>>, b: Block) {
    && (p.Some? <==> x.Some?)
    && (p.Some? ==>
          && b in live && live[b] == |x.value| && KnownBlock(h, b) && Address(h, b) == p.value
          && Bytes(mem, p.value, |x.value|) == x.value)
  }

  /** The client's pointers lead to different live blocks. */
  ghost predicate AllHeld(h: Heap, live: map<Block, nat>, mem: map<nat, Byte>, ps: seq<Option<nat>>, held: Holdings, bs: seq<Block>) {
    && |ps| == |held| == |bs|
    && (forall i :: 0 <= i < |ps| ==> Held(h, live, mem, ps[i], held[i], bs[i]))
    && (forall i, j :: 0 <= i < j < |ps| && ps[i].Some? && ps[j].Some? ==> bs[i] != bs[j])
  }

  /** Blocks that stay where they are, with their bytes, stay held. */
  lemma StillHeld(h: Heap, live: map<Block, nat>, mem: map<nat, Byte>, h': Heap, live': map<Block, nat>, mem': map<nat, Byte>,
                  kept: map<Block, nat>, p: Option<nat>, x: Option<seq<Byte>>, b: Block)
    requires Good(h, live, None) && Held(h, live, mem, p, x, b)
    requires p.Some? ==> b in kept && b in live' && live'[b] == live[b]
    requires SameBlocks(h, h', kept) && SameBytes(h, kept, mem, mem')
    ensures Held(h', live', mem', p, x, b)
  {
    if p.Some? {
      assert LiveGood(h, live, b);
      BytesPrefix(mem, mem', p.value, |x.value|, Size(h, b));
    }
  }

  /** What stays allocated when the block behind pointer p goes. */
  ghost function Others(live: map<Block, nat>, p: Option<nat>, b: Block): map<Block, nat> {
    if p.Some? then live - {b} else live
  }

  /** One pointer gives way to another; the rest stay held. */
  lemma Replaced(h: Heap, live: map<Block, nat>, mem: map<nat, Byte>, h': Heap, live': map<Block, nat>, mem': map<nat, Byte>,
                 ps: seq<Option<nat>>, held: Holdings, bs: seq<Block>, k: nat, p: Option<nat>, x: Option<seq<Byte>>, c: Block)
    requires Good(h, live, None) && AllHeld(h, live, mem, ps, held, bs) && k < |ps|
    requires SameBlocks(h, h', Others(live, ps[k], bs[k])) && SameBytes(h, Others(live, ps[k], bs[k]), mem, mem')
    requires forall b :: b in Others(live, ps[k], bs[k]) ==> b in live' && live'[b] == live[b]
    requires Held(h', live', mem', p, x, c) && (p.Some? ==> c !in Others(live, ps[k], bs[k]))
    ensures AllHeld(h', live', mem', ps[k := p], held[k := x], bs[k := c])
  {
    forall i | 0 <= i < |ps| && i != k
      ensures Held(h', live', mem', ps[i], held[i], bs[i])
      ensures ps[i].Some? ==> bs[i] in Others(live, ps[k], bs[k])
    {
      assert Held(h, live, mem, ps[i], held[i], bs[i]);
      StillHeld(h, live, mem, h', live', mem', Others(live, ps[k], bs[k]), ps[i], held[i], bs[i]);
    }
  }

  /** A new pointer joins the others, which stay held. */
  lemma Added(h: Heap, live: map<Block, nat>, mem: map<nat, Byte>, h': Heap, live': map<Block, nat>,
              ps: seq<Option<nat>>, held: Holdings, bs: seq<Block>, p: Option<nat>, x: Option<seq<Byte>>, c: Block)
    requires Good(h, live, None) && AllHeld(h, live, mem, ps, held, bs)
    requires SameBlocks(h, h', live) && (forall b :: b in live ==> b in live' && live'[b] == live[b])
    requires Held(h', live', mem, p, x, c) && (p.Some? ==> c !in live)
    ensures AllHeld(h', live', mem, ps + [p], held + [x], bs + [c])
  {
    forall i | 0 <= i < |ps|
      ensures Held(h', live', mem, ps[i], held[i], bs[i])
      ensures ps[i].Some? ==> bs[i] in live
    {
      assert Held(h, live, mem, ps[i], held[i], bs[i]);
      StillHeld(h, live, mem, h', live', mem, live, ps[i], held[i], bs[i]);
    }
  }

  /** The memory behind two pointers does not overlap. */
  lemma HeldDisjoint(h: Heap, live: map<Block, nat>, mem: map<nat, Byte>, ps: seq<Option<nat>>, held: Holdings, bs: seq<Block>, i: nat, j: nat)
    requires Good(h, live, None) && AllHeld(h, live, mem, ps, held, bs) && i < j < |ps| && ps[i].Some? && ps[j].Some?
    ensures held[i].Some? && held[j].Some?
    ensures ps[i].value + |held[i].value| <= ps[j].value || ps[j].value + |held[j].value| <= ps[i].value
  {
    assert Held(h, live, mem, ps[i], held[i], bs[i]) && Held(h, live, mem, ps[j], held[j], bs[j]);
    LiveDisjoint(h, live, bs[i], bs[j]);
    assert LiveGood(h, live, bs[i]) && LiveGood(h, live, bs[j]);
  }

  ghost predicate PointsTo(ps: seq<Option<nat>>, bs: seq<Block>, i: int, b: Block) {
    0 <= i < |ps| && i < |bs| && ps[i].Some? && bs[i] == b
  }

  /** Some pointer of the client leads to block b. */
  ghost predicate Reached(ps: seq<Option<nat>>, bs: seq<Block>, b: Block) {
    exists i :: PointsTo(ps, bs, i, b)
  }

  /** Exactly the client's blocks and the foreign ones are allocated, and no block is both. */
  ghost predicate Owned(live: map<Block, nat>, foreign: set<Block>, ps: seq<Option<nat>>, bs: seq<Block>) {
    && (forall b {:trigger Reached(ps, bs, b)} {:trigger b in live} :: b in live <==> b in foreign || Reached(ps, bs, b))
    && (forall b {:trigger Reached(ps, bs, b)} {:trigger b in foreign} :: b in foreign ==> !Reached(ps, bs, b))
  }

  lemma OwnedAdded(live: map<Block, nat>, live': map<Block, nat>, foreign: set<Block>,
                   ps: seq<Option<nat>>, bs: seq<Block>, p: Option<nat>, c: Block)
    requires Owned(live, foreign, ps, bs) && |ps| == |bs| && (p.Some? ==> c !in live)
    requires live'.Keys == if p.Some? then live.Keys + {c} else live.Keys
    ensures Owned(live', foreign, ps + [p], bs + [c])
  {
    forall b
      ensures Reached(ps + [p], bs + [c], b) <==> Reached(ps, bs, b) || (p.Some? && b == c)
    {
      if Reached(ps, bs, b) {
        var i :| PointsTo(ps, bs, i, b);
        assert PointsTo(ps + [p], bs + [c], i, b);
      }
      if p.Some? && b == c {
        assert PointsTo(ps + [p], bs + [c], |ps|, b);
      }
      if Reached(ps + [p], bs + [c], b) {
        var i :| PointsTo(ps + [p], bs + [c], i, b);
        assert i < |ps| ==> PointsTo(ps, bs, i, b);
      }
    }
  }

  lemma OwnedReplaced(live: map<Block, nat>, live': map<Block, nat>, foreign: set<Block>,
                      ps: seq<Option<nat>>, bs: seq<Block>, k: nat, p: Option<nat>, c: Block)
    requires Owned(live, foreign, ps, bs) && |ps| == |bs| && k < |ps| && (p.Some? ==> c !in live)
    requires forall i, j :: 0 <= i < j < |ps| && ps[i].Some? && ps[j].Some? ==> bs[i] != bs[j]
    requires live'.Keys == Others(live, ps[k], bs[k]).Keys + (if p.Some? then {c} else {})
    ensures Owned(live', foreign, ps[k := p], bs[k := c])
  {
    var ps', bs' := ps[k := p], bs[k := c];
    forall b
      ensures Reached(ps', bs', b) <==> (Reached(ps, bs, b) && !(ps[k].Some? && b == bs[k])) || (p.Some? && b == c)
    {
      if Reached(ps, bs, b) && !(ps[k].Some? && b == bs[k]) {
        var i :| PointsTo(ps, bs, i, b);
        assert PointsTo(ps', bs', i, b);
      }
      if p.Some? && b == c {
        assert PointsTo(ps', bs', k, b);
      }
      if Reached(ps', bs', b) && !(p.Some? && b == c) {
        var i :| PointsTo(ps', bs', i, b);
        assert PointsTo(ps, bs, i, b);
      }
    }
    if ps[k].Some? {
      assert PointsTo(ps, bs, k, bs[k]);
      assert Reached(ps, bs, bs[k]);
    }
  }

  /**
   * The client's holdings and pointers, the blocks behind these, the heap, its memory and the pages in use; and the
   * blocks and pages that are not the client's and the heap's.
   */
  datatype Snapshot = Snapshot(held: Holdings, ps: seq<Option<nat>>, bs: seq<Block>,
                               heap: Heap, live: map<Block, nat>, mem: map<nat, Byte>, used: set<int>,
                               foreign: set<Block>, others: set<int>)

  /**
   * The heap is good, the pages in use are its arenas' and those of others, the client's pointers lead to its bytes in
   * different blocks, and no further block is allocated but the foreign ones.
   */
  ghost predicate SnapshotGood(s: Snapshot) {
    && Good(s.heap, s.live, None) && Accounted(s.used, s.others, s.heap.arenas)
    && AllHeld(s.heap, s.live, s.mem, s.ps, s.held, s.bs) && Owned(s.live, s.foreign, s.ps, s.bs)
  }

  /** In every good state the memory behind two pointers does not overlap. */
  lemma NoOverlap(s: Snapshot, i: nat, j: nat)
    requires SnapshotGood(s) && i < j < |s.ps| && s.ps[i].Some? && s.ps[j].Some?
    ensures |s.held| == |s.ps| && s.held[i].Some? && s.held[j].Some?
    ensures s.ps[i].value + |s.held[i].value| <= s.ps[j].value || s.ps[j].value + |s.held[j].value| <= s.ps[i].value
  {
    HeldDisjoint(s.heap, s.live, s.mem, s.ps, s.held, s.bs, i, j);
  }

  /** Whether the request is refused in this state, with a pool of the pages from lo to hi. */
  ghost predicate RefusedIn(s: Snapshot, lo: int, hi: int, request: Request) {
    && |s.heap.free| == DESC_CNT && (request.Alloc? || request.Resize?)
    && Refuses(s.heap, s.used, lo, hi, request.size)
  }

  /** Whether the request makes realloc copy more of what the client has than the new block holds. */
  ghost predicate Overrunning(held: Holdings, refused: bool, request: Request) {
    && request.Resize? && !refused && request.i < |held| && held[request.i].Some?
    && Min(request.size, |held[request.i].value|) > Granted(request.size)
  }

  /** That is exactly when the size wraps and the client has more than fits on a page. */
  lemma OverrunningWhen(held: Holdings, refused: bool, request: Request)
    ensures Overrunning(held, refused, request) <==>
              && request.Resize? && !refused && request.i < |held| && held[request.i].Some?
              && request.size + SIZEOF_ARENA >= SIZE_LIMIT && |held[request.i].value| > ONE_PAGE
  {
  }

  predicate Names(request: Request, i: nat) {
    (request.Release? || request.Resize?) && request.i == i
  }

  /** Only the pointer that a request names can change. */
  ghost predicate Steady(s: Snapshot, request: Request, s': Snapshot) {
    && s'.foreign == s.foreign && s'.others == s.others && |s.ps| == |s.bs| <= |s'.ps| == |s'.bs|
    && forall i :: 0 <= i < |s.ps| && !Names(request, i) ==> s'.ps[i] == s.ps[i] && s'.bs[i] == s.bs[i]
  }

  /** A request served in state s, which it turns into s'. */
  ghost predicate ServedIn(s: Snapshot, lo: int, hi: int, request: Request, s': Snapshot, out: Option<Byte>) {
    var refused := RefusedIn(s, lo, hi, request);
    && Served(s.held, refused, request, s'.held, out) && Steady(s, request, s')
    && !Overrunning(s.held, refused, request)
  }

  /** A run of requests, each served in the state that the ones before it left. */
  ghost predicate ClientRun(trace: seq<Snapshot>, lo: int, hi: int, requests: seq<Request>, outs: seq<Option<Byte>>) {
    && |outs| == |requests| && |trace| == |requests| + 1
    && (forall i :: 0 <= i < |trace| ==> SnapshotGood(trace[i]))
    && (forall i :: 0 <= i < |requests| ==> ServedIn(trace[i], lo, hi, requests[i], trace[i + 1], outs[i]))
  }

  lemma RunNext(trace: seq<Snapshot>, lo: int, hi: int, requests: seq<Request>, outs: seq<Option<Byte>>,
                s: Snapshot, out: Option<Byte>)
    requires |outs| < |requests| && ClientRun(trace, lo, hi, requests[..|outs|], outs)
    requires SnapshotGood(s) && ServedIn(trace[|outs|], lo, hi, requests[|outs|], s, out)
    ensures ClientRun(trace + [s], lo, hi, requests[..|outs| + 1], outs + [out])
  {
    hide SnapshotGood, ServedIn;
  }

  /** Releasing a pointer takes its block, and no other, off the allocated ones. */
  lemma ReleaseShrinks(trace: seq<Snapshot>, lo: int, hi: int, requests: seq<Request>, outs: seq<Option<Byte>>, k: nat)
    requires ClientRun(trace, lo, hi, requests, outs) && k < |requests| && requests[k].Release?
    requires requests[k].i < |trace[k].held| && trace[k].held[requests[k].i].Some?
    ensures requests[k].i < |trace[k].bs| && trace[k].bs[requests[k].i] in trace[k].live
    ensures trace[k + 1].live.Keys == trace[k].live.Keys - {trace[k].bs[requests[k].i]}
  {
    var s, s', i := trace[k], trace[k + 1], requests[k].i;
    assert SnapshotGood(s) && SnapshotGood(s') && ServedIn(s, lo, hi, requests[k], s', outs[k]);
    assert Held(s.heap, s.live, s.mem, s.ps[i], s.held[i], s.bs[i]);
    assert Held(s'.heap, s'.live, s'.mem, s'.ps[i], s'.held[i], s'.bs[i]);
    ReachedAfter(s, requests[k], s');
    forall b
      ensures b in s'.live <==> b in s.live && b != s.bs[i]
    {
      assert PointsTo(s.ps, s.bs, i, s.bs[i]) && Reached(s.ps, s.bs, s.bs[i]);
      assert Reached(s'.ps, s'.bs, b) <==> Reached(s.ps, s.bs, b) && b != s.bs[i];
    }
  }

  lemma ReachedAfter(s: Snapshot, request: Request, s': Snapshot)
    requires SnapshotGood(s) && SnapshotGood(s') && Steady(s, request, s')
    requires request.Release? && request.i < |s.ps| && s.ps[request.i].Some? && s'.held == s.held[request.i := None]
    ensures forall b :: Reached(s'.ps, s'.bs, b) <==> Reached(s.ps, s.bs, b) && b != s.bs[request.i]
  {
    var i := request.i;
    assert Held(s'.heap, s'.live, s'.mem, s'.ps[i], s'.held[i], s'.bs[i]);
    forall b
      ensures Reached(s'.ps, s'.bs, b) <==> Reached(s.ps, s.bs, b) && b != s.bs[i]
    {
      if Reached(s'.ps, s'.bs, b) {
        var j :| PointsTo(s'.ps, s'.bs, j, b);
        assert PointsTo(s.ps, s.bs, j, b);
      }
      if Reached(s.ps, s.bs, b) && b != s.bs[i] {
        var j :| PointsTo(s.ps, s.bs, j, b);
        assert PointsTo(s'.ps, s'.bs, j, b);
      }
    }
  }

  lemma {:induction false} SameSurroundings(trace: seq<Snapshot>, lo: int, hi: int, requests: seq<Request>,
                                            outs: seq<Option<Byte>>, k: nat)
    requires ClientRun(trace, lo, hi, requests, outs) && k < |trace|
    ensures trace[k].foreign == trace[0].foreign && trace[k].others == trace[0].others
  {
    if k > 0 {
      SameSurroundings(trace, lo, hi, requests, outs, k - 1);
      assert ServedIn(trace[k - 1], lo, hi, requests[k - 1], trace[k], outs[k - 1]);
    }
  }

  /**
   * Nothing leaks: in every state of a run by the heap's only client in which it holds nothing, no block is allocated,
   * there is no arena, and every page that the heap took is back in the pool.
   */
  lemma NoLeak(trace: seq<Snapshot>, lo: int, hi: int, requests: seq<Request>, outs: seq<Option<Byte>>, k: nat)
    requires ClientRun(trace, lo, hi, requests, outs) && k < |trace| && trace[0].foreign == {}
    requires forall i :: 0 <= i < |trace[k].held| ==> trace[k].held[i].None?
    ensures trace[k].live == map[] && trace[k].heap.arenas == map[] && trace[k].used == trace[0].others
  {
    var s := trace[k];
    SameSurroundings(trace, lo, hi, requests, outs, k);
    assert SnapshotGood(s);
    forall i | 0 <= i < |s.ps|
      ensures s.ps[i].None?
    {
      assert Held(s.heap, s.live, s.mem, s.ps[i], s.held[i], s.bs[i]);
    }
    forall b
      ensures b !in s.live
    {
      assert !Reached(s.ps, s.bs, b);
    }
    NothingLive(s.heap, s.live, s.used, s.others);
  }

  /** The bytes that a client has behind a pointer it was just given. */
  ghost function Behind(mem: map<nat, Byte>, p: Option<nat>, size: SizeT): Option<seq<Byte>> {
    if p.Some? then Some(Bytes(mem, p.value, Granted(size))) else None
  }

  ghost predicate Sized(held: Holdings, sizes: seq<nat>) {
    |sizes| == |held| && forall i :: 0 <= i < |held| && held[i].Some? ==> |held[i].value| == sizes[i]
  }

  /** A held block has more than one page exactly when more than one page holds was asked for. */
  lemma BigIfAsked(h: Heap, live: map<Block, nat>, mem: map<nat, Byte>, p: Option<nat>, x: Option<seq<Byte>>, b: Block)
    requires Good(h, live, None) && Held(h, live, mem, p, x, b)
    ensures p.Some? ==> (Size(h, b) > ONE_PAGE <==> |x.value| > ONE_PAGE)
  {
    if p.Some? {
      assert LiveGood(h, live, b);
    }
  }

  /** What realloc copied is what the client had, as far as both sizes go. */
  lemma KeptBytes(h: Heap, live: map<Block, nat>, mem: map<nat, Byte>, mem': map<nat, Byte>, p: nat, r: nat, size: nat, x: seq<Byte>, b: Block)
    requires Good(h, live, None) && Held(h, live, mem, Some(p), Some(x), b)
    requires Bytes(mem', r, Min(size, Size(h, b))) == Bytes(mem, p, Min(size, Size(h, b)))
    ensures var n := Min(|x|, Granted(size)); Bytes(mem', r, Granted(size))[..n] == x[..n]
  {
    assert LiveGood(h, live, b);
    var m, n := Min(size, Size(h, b)), Min(|x|, Granted(size));
    forall i | 0 <= i < n
      ensures Bytes(mem', r, Granted(size))[i] == x[i]
    {
      assert Bytes(mem', r, m)[i] == Bytes(mem, p, m)[i];
      assert Bytes(mem, p, |x|)[i] == x[i];
    }
  }

  /** A store changes one byte behind one pointer. */
  lemma Stored(h: Heap, live: map<Block, nat>, mem: map<nat, Byte>, ps: seq<Option<nat>>, held: Holdings, bs: seq<Block>,
               k: nat, ofs: nat, value: Byte)
    requires Good(h, live, None) && AllHeld(h, live, mem, ps, held, bs)
    requires InReach(held, k, ofs) && ps[k].Some?
    ensures AllHeld(h, live, mem[ps[k].value + ofs := value], ps, held[k := Some(held[k].value[ofs := value])], bs)
  {
    var a, mem' := ps[k].value, mem[ps[k].value + ofs := value];
    forall i | 0 <= i < |ps| && i != k
      ensures Held(h, live, mem', ps[i], held[i], bs[i])
    {
      assert Held(h, live, mem, ps[i], held[i], bs[i]);
      if ps[i].Some? {
        HeldDisjoint(h, live, mem, ps, held, bs, if i < k then i else k, if i < k then k else i);
        OutsideKept(mem, mem', ps[i].value, |held[i].value|, a + ofs, 1);
      }
    }
    assert Held(h, live, mem, ps[k], held[k], bs[k]);
    var was, now := held[k].value, held[k].value[ofs := value];
    forall i | 0 <= i < |now|
      ensures Bytes(mem', a, |now|)[i] == now[i]
    {
      assert Bytes(mem, a, |was|)[i] == was[i];
      assert ByteAt(mem', a + i) == if i == ofs then value else ByteAt(mem, a + i);
    }
    assert Bytes(mem', a, |now|) == now;
  }

  /** A client of the heap: its pointers, the bytes it has behind them, and the blocks that these are in. */
  class Client {
    const heap: Allocator
    var ps: seq<Option<nat>>
    var sizes: seq<nat>
    ghost var held: Holdings
    ghost var bs: seq<Block>
    ghost const foreign: set<Block>     // what was allocated before

    ghost predicate Valid()
      reads this, heap, heap.pool.usedMap.bits
    {
      && heap.Valid() && AllHeld(heap.State(), heap.live, heap.mem, ps, held, bs) && Sized(held, sizes)
      && Owned(heap.live, foreign, ps, bs)
    }

    ghost function Snap(): Snapshot
      requires heap.pool.Valid()
      reads this, heap, heap.pool.usedMap.bits
    {
      Snapshot(held, ps, bs, heap.State(), heap.live, heap.mem, heap.pool.UsedPages(), foreign, heap.others)
    }

    lemma SnapIsGood()
      requires Valid()
      ensures SnapshotGood(Snap())
    {
    }

    constructor (heap: Allocator)
      requires heap.Valid()
      ensures Valid() && this.heap == heap && ps == [] && held == [] && foreign == heap.live.Keys
    {
      this.heap := heap;
      foreign := heap.live.Keys;
      ps, sizes, held, bs := [], [], [], [];
    }

    method ServeAlloc(size: SizeT)
      requires Valid()
      modifies this, heap`arenas, heap`free, heap`live, heap.pool.usedMap.bits
      ensures Valid() && Served(old(held), old(heap.Refusing(size)), Alloc(size), held, None)
      ensures Steady(old(Snap()), Alloc(size), Snap())
    {
      hide Good, Accounted, Owned;
      ghost var h, live := heap.State(), heap.live;
      var p, b := heap.Malloc(size);
      ghost var x := Behind(heap.mem, p, size);
      Added(h, live, heap.mem, heap.State(), heap.live, ps, held, bs, p, x, b);
      OwnedAdded(live, heap.live, foreign, ps, bs, p, b);
      ps, sizes, held, bs := ps + [p], sizes + [Granted(size)], held + [x], bs + [b];
    }

    /** Frees what is behind a pointer that the client has; other pointers keep what is behind them. */
    method FreeHeld(k: nat)
      requires Valid() && k < |ps|
      modifies heap`arenas, heap`free, heap`mem, heap`live, heap.pool.usedMap.bits
      ensures heap.Valid() && AllHeld(heap.State(), heap.live, heap.mem, ps[k := None], held[k := None], bs) == true
      ensures Owned(heap.live, foreign, ps[k := None], bs) == true
    {
      hide Good, Accounted, Owned;
      ghost var h, live, mem := heap.State(), heap.live, heap.mem;
      assert Held(h, live, mem, ps[k], held[k], bs[k]) && bs[k := bs[k]] == bs;
      heap.Free(ps[k], bs[k]);
      Replaced(h, live, mem, heap.State(), heap.live, heap.mem, ps, held, bs, k, None, None, bs[k]);
      OwnedReplaced(live, heap.live, foreign, ps, bs, k, None, bs[k]);
    }

    method ServeRelease(k: nat)
      requires Valid()
      modifies this, heap`arenas, heap`free, heap`mem, heap`live, heap.pool.usedMap.bits
      ensures Valid() && Served(old(held), false, Release(k), held, None) && Steady(old(Snap()), Release(k), Snap())
    {
      hide Good, Accounted, Owned, Held;
      if k < |ps| {
        FreeHeld(k);
        ps, held := ps[k := None], held[k := None];
      }
    }

    /** Reallocates a pointer that the client has; other pointers keep what is behind them. */
    method Reallocate(k: nat, size: SizeT) returns (p: Option<nat>, overrun: bool, ghost c: Block)
      requires Valid() && k < |ps|
      modifies heap`arenas, heap`free, heap`mem, heap`live, heap.pool.usedMap.bits
      ensures p.None? <==> old(heap.Refusing(size))
      ensures overrun <==> Overrunning(held, p.None?, Resize(k, size))
      ensures overrun ==>
        && p.Some? && KnownBlock(heap.State(), c) && p.value == Address(heap.State(), c)
        && Min(size, |held[k].value|) > Size(heap.State(), c)
      ensures !overrun && p.None? && size > 0 ==> Valid()
      ensures !overrun && (p.Some? || size == 0) ==>
        && heap.Valid()
        && var x := Behind(heap.mem, p, size);
           && AllHeld(heap.State(), heap.live, heap.mem, ps[k := p], held[k := x], bs[k := c]) == true
           && Owned(heap.live, foreign, ps[k := p], bs[k := c]) == true
           && (p.Some? && ps[k].Some? ==>
                 var n := Min(|held[k].value|, Granted(size)); x.value[..n] == held[k].value[..n])
    {
      ghost var h, live, mem := heap.State(), heap.live, heap.mem;
      assert Held(h, live, mem, ps[k], held[k], bs[k]);
      BigIfAsked(h, live, mem, ps[k], held[k], bs[k]);
      OverrunningWhen(held, false, Resize(k, size));
      p, overrun, c := heap.Realloc(ps[k], size, bs[k]);
      if !overrun && (p.Some? || size == 0) {
        Replaced(h, live, mem, heap.State(), heap.live, heap.mem, ps, held, bs, k, p, Behind(heap.mem, p, size), c);
        OwnedReplaced(live, heap.live, foreign, ps, bs, k, p, c);
        if ps[k].Some? && p.Some? {
          KeptBytes(h, live, mem, heap.mem, ps[k].value, p.value, size, held[k].value, bs[k]);
        }
      }
    }

    method ServeResize(k: nat, size: SizeT) returns (overrun: bool)
      requires Valid()
      modifies this, heap`arenas, heap`free, heap`mem, heap`live, heap.pool.usedMap.bits
      ensures overrun <==> Overrunning(old(held), old(heap.Refusing(size)), Resize(k, size))
      ensures overrun ==> held == old(held)
      ensures !overrun ==> Valid() && Served(old(held), old(heap.Refusing(size)), Resize(k, size), held, None)
      ensures !overrun ==> Steady(old(Snap()), Resize(k, size), Snap())
    {
      overrun := false;
      if k < |ps| {
        var p, over, c := Reallocate(k, size);
        overrun := over;
        if !overrun && (p.Some? || size == 0) {
          ps, sizes, held, bs := ps[k := p], sizes[k := Granted(size)], held[k := Behind(heap.mem, p, size)], bs[k := c];
        }
      }
    }

    method ServeStore(k: nat, ofs: nat, value: Byte)
      requires Valid()
      modifies this`held, heap`mem
      ensures Valid() && Served(old(held), false, Store(k, ofs, value), held, None)
      ensures Steady(old(Snap()), Store(k, ofs, value), Snap())
    {
      if k < |ps| {
        assert Held(heap.State(), heap.live, heap.mem, ps[k], held[k], bs[k]);
        if ps[k].Some? && ofs < sizes[k] {
          Stored(heap.State(), heap.live, heap.mem, ps, held, bs, k, ofs, value);
          heap.mem := heap.mem[ps[k].value + ofs := value];
          held := held[k := Some(held[k].value[ofs := value])];
        }
      }
    }

    method ServeLoad(k: nat, ofs: nat) returns (out: Option<Byte>)
      requires Valid()
      ensures Served(held, false, Load(k, ofs), held, out)
    {
      out := None;
      if k < |ps| {
        assert Held(heap.State(), heap.live, heap.mem, ps[k], held[k], bs[k]);
        if ps[k].Some? && ofs < sizes[k] {
          assert Bytes(heap.mem, ps[k].value, sizes[k])[ofs] == held[k].value[ofs];
          out := Some(ByteAt(heap.mem, ps[k].value + ofs));
        }
      }
    }

    ghost predicate Refused(request: Request)
      requires heap.pool.Valid()
      reads this, heap, heap.pool.usedMap.bits
    {
      RefusedIn(Snap(), heap.pool.base, heap.pool.base + heap.pool.usedMap.bitCnt, request)
    }

    method Serve(request: Request) returns (out: Option<Byte>, overrun: bool)
      requires Valid()
      modifies this, heap`arenas, heap`free, heap`mem, heap`live, heap.pool.usedMap.bits
      ensures overrun <==> Overrunning(old(held), old(Refused(request)), request)
      ensures !overrun ==> Valid() && Served(old(held), old(Refused(request)), request, held, out) == true
      ensures !overrun ==> Steady(old(Snap()), request, Snap())
    {
      out, overrun := None, false;
      match request
      case Alloc(size) => ServeAlloc(size);
      case Release(i) => ServeRelease(i);
      case Resize(i, size) => overrun := ServeResize(i, size);
      case Store(i, ofs, value) => ServeStore(i, ofs, value);
      case Load(i, ofs) => out := ServeLoad(i, ofs);
    }

    /**
     * Over every run of requests, up to the first realloc that copies past its new block, the client has what it asked
     * for unless the heap refuses, finds behind each pointer what it stored there, and every state is good.
     */
    method Run(requests: seq<Request>) returns (outs: seq<Option<Byte>>, ghost trace: seq<Snapshot>)
      requires Valid()
      modifies this, heap`arenas, heap`free, heap`mem, heap`live, heap.pool.usedMap.bits
      ensures |outs| <= |requests|
      ensures ClientRun(trace, heap.pool.base, heap.pool.base + heap.pool.usedMap.bitCnt, requests[..|outs|], outs)
      ensures trace[0] == old(Snap())
      ensures |outs| < |requests| ==>
        var refused := RefusedIn(trace[|outs|], heap.pool.base, heap.pool.base + heap.pool.usedMap.bitCnt, requests[|outs|]);
        Overrunning(trace[|outs|].held, refused, requests[|outs|])
      ensures |outs| == |requests| ==> Valid() && trace[|outs|] == Snap()
    {
      hide SnapshotGood, Served, Overrunning, RefusedIn, Good, AllHeld, Owned, Steady, ClientRun;
      outs, trace := [], [Snap()];
      RunStarts();
      ghost var lo, hi := heap.pool.base, heap.pool.base + heap.pool.usedMap.bitCnt;
      while |outs| < |requests|
        invariant |outs| <= |requests| && Valid()
        invariant |trace| == |outs| + 1 && trace[0] == old(Snap()) && trace[|outs|] == Snap()
        invariant ClientRun(trace, lo, hi, requests[..|outs|], outs)
      {
        var out, overrun := Serve(requests[|outs|]);
        if overrun {
          return;
        }
        SnapIsGood();
        RunNext(trace, lo, hi, requests, outs, Snap(), out);
        outs, trace := outs + [out], trace + [Snap()];
      }
    }

    lemma RunStarts()
      requires Valid()
      ensures ClientRun([Snap()], heap.pool.base, heap.pool.base + heap.pool.usedMap.bitCnt, [], [])
    {
      SnapIsGood();
    }
  }

  /** A request for 2^32 - 1 bytes is granted one page: the size wraps when it is rounded up. */
  method WrappedGrant() returns (heap: Allocator, p: Option<nat>, ghost b: Block)
    ensures heap.Valid() && b in heap.live && KnownBlock(heap.State(), b)
    ensures p == Some(Address(heap.State(), b)) && Size(heap.State(), b) == ONE_PAGE
  {
    var pool := new Pool(0, 2);
    heap := new Allocator(pool);
    assert PageCount(0xFFFF_FFFF) == 1;
    assert pool.base == 1 && pool.base + pool.usedMap.bitCnt == 2;
    assert FreeFrom(pool.UsedPages(), 1, 2, 1, 1);
    p, b := heap.Malloc(0xFFFF_FFFF);
  }

  /** After 5000 bytes were allocated in a pool of three pages, one page is free. */
  method TwoOfThree() returns (heap: Allocator, p: nat, ghost b: Block)
    ensures fresh(heap) && fresh(heap.pool.usedMap.bits) && heap.Valid() && b in heap.live && KnownBlock(heap.State(), b)
    ensures p == Address(heap.State(), b) && Size(heap.State(), b) == 8180 && !heap.Refusing(0xFFFF_FFFF)
  {
    var pool := new Pool(0, 4);
    heap := new Allocator(pool);
    assert PageCount(5000) == 2 && PageCount(0xFFFF_FFFF) == 1;
    assert pool.base == 1 && pool.base + pool.usedMap.bitCnt == 4;
    assert pool.UsedPages() == {};
    assert FreeFrom(pool.UsedPages(), 1, 4, 1, 2);
    var r;
    r, b := heap.Malloc(5000);
    p := r.value;
    OnePageLeft(heap.State(), heap.live, heap.pool.UsedPages(), b);
  }

  lemma OnePageLeft(h: Heap, live: map<Block, nat>, used: set<int>, b: Block)
    requires Good(h, live, None) && live.Keys == {b} && KnownBlock(h, b) && Size(h, b) == 8180
    requires Accounted(used, {}, h.arenas)
    ensures HasRun(used, 1, 4, 1)
  {
    forall p | p in h.arenas
      ensures p == b.page && Span(h.arenas[p]) == 2
    {
      assert ArenaGood(h, live, None, p);
      if p != b.page {
        OtherPageFree(live, p, if h.arenas[p].desc.Some? then BlocksPerArena(h.arenas[p].desc.value) else 0);
      }
    }
    var q := if b.page <= 1 < b.page + 2 then 3 else 1;
    assert forall p :: !OnPage(h.arenas, p, q);
    assert !Covered(h.arenas, q);
    assert FreeFrom(used, 1, 4, q, 1);
  }

  lemma {:induction false} OtherPageFree(live: map<Block, nat>, p: nat, n: nat)
    requires forall c :: c in live ==> c.page != p
    ensures FreeCount(live, p, n) == n
  {
    if n > 0 {
      OtherPageFree(live, p, n - 1);
    }
  }

  /** A realloc that copies too much: a block of 5000 bytes, resized to 2^32 - 1, goes to a block of one page. */
  method OverrunningRealloc() returns (heap: Allocator, overrun: bool, ghost c: Block)
    ensures overrun && KnownBlock(heap.State(), c) && Size(heap.State(), c) == ONE_PAGE
  {
    var p, r;
    ghost var b;
    heap, p, b := TwoOfThree();
    r, overrun, c := heap.Realloc(Some(p), 0xFFFF_FFFF, b);
  }
}
