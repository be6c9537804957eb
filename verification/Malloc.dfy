/**
 threads/malloc.c: blocks of seven sizes cut from one-page arenas, and bigger blocks of whole pages.
 Addresses are byte addresses; a page number is an address divided by the page size.
 */
module Mallocs {
  import opened Common
  import opened Seqs
  import opened Bitmaps
  import opened Pages

  const HEADER: nat := 12
  const DESCS: nat := 7
  const SIZE_MAX: nat := 0x1_0000_0000

  // ---- descriptors and block addresses ----

  function BlockSize(i: nat): (b: nat)
    requires i < DESCS
    ensures b > 0
  {
    if i == 0 then 16 else if i == 1 then 32 else if i == 2 then 64 else if i == 3 then 128
    else if i == 4 then 256 else if i == 5 then 512 else 1024
  }

  function PerArena(i: nat): nat
    requires i < DESCS
  {
    (PGSIZE - HEADER) / BlockSize(i)
  }

  /** malloc_init: the block sizes of the descriptors. */
  method InitDescs() returns (sizes: seq<nat>)
    ensures |sizes| == DESCS && forall i: nat :: i < DESCS ==> sizes[i] == BlockSize(i)
  {
    sizes := [];
    var size := 16;
    while size < PGSIZE / 2
      invariant |sizes| <= DESCS && size == (if |sizes| < DESCS then BlockSize(|sizes|) else 2048)
      invariant forall i: nat :: i < |sizes| ==> sizes[i] == BlockSize(i)
      decreases PGSIZE - size
    {
      sizes, size := sizes + [size], size * 2;
    }
  }

  function PageOf(a: nat): nat { a / PGSIZE }

  /** arena_to_block. */
  function Block(p: nat, i: nat, k: nat): nat
    requires i < DESCS
  {
    p * PGSIZE + HEADER + k * BlockSize(i)
  }

  /** A block lies in its page, past the header, and block_to_arena finds that page again. */
  lemma BlockInside(p: nat, i: nat, k: nat)
    requires i < DESCS && k < PerArena(i)
    ensures p * PGSIZE + HEADER <= Block(p, i, k) && Block(p, i, k) + BlockSize(i) <= (p + 1) * PGSIZE
    ensures PageOf(Block(p, i, k)) == p
  {
  }

  /** Blocks of one arena do not overlap. */
  lemma BlocksApart(p: nat, i: nat, k: nat, m: nat)
    requires i < DESCS && k < m
    ensures Block(p, i, k) + BlockSize(i) <= Block(p, i, m)
  {
  }

  /** `a` is one of the blocks of its page, cut by descriptor `i`. */
  ghost predicate IsBlock(a: nat, i: nat) {
    i < DESCS && exists k: nat :: k < PerArena(i) && a == Block(PageOf(a), i, k)
  }

  // ---- counting an arena's free blocks ----

  /** How many of the first `n` blocks of the arena are on the list. */
  ghost function Count(l: seq<nat>, p: nat, i: nat, n: nat): (c: nat)
    requires i < DESCS
    ensures c <= n
  {
    if n == 0 then 0 else Count(l, p, i, n - 1) + (if Block(p, i, n - 1) in l then 1 else 0)
  }

  lemma {:induction false} CountSame(l: seq<nat>, l': seq<nat>, p: nat, i: nat, n: nat)
    requires i < DESCS && n <= PerArena(i)
    requires forall k: nat :: k < n ==> (Block(p, i, k) in l <==> Block(p, i, k) in l')
    ensures Count(l, p, i, n) == Count(l', p, i, n)
  {
    if n > 0 { CountSame(l, l', p, i, n - 1); }
  }

  /** One block more on the list. */
  lemma {:induction false} CountMore(l: seq<nat>, l': seq<nat>, p: nat, i: nat, n: nat, m: nat)
    requires i < DESCS && m < n <= PerArena(i) && Block(p, i, m) !in l && Block(p, i, m) in l'
    requires forall k: nat :: k < n && k != m ==> (Block(p, i, k) in l <==> Block(p, i, k) in l')
    ensures Count(l', p, i, n) == Count(l, p, i, n) + 1
  {
    if m == n - 1 {
      CountSame(l, l', p, i, n - 1);
    } else {
      CountMore(l, l', p, i, n - 1, m);
    }
  }

  lemma {:induction false} CountFull(l: seq<nat>, p: nat, i: nat, n: nat)
    requires i < DESCS
    ensures Count(l, p, i, n) == n <==> forall k: nat :: k < n ==> Block(p, i, k) in l
  {
    if n > 0 { CountFull(l, p, i, n - 1); }
  }

  // ---- the heap ----

  /** An arena header: the descriptor, or none for a big block; free blocks, or pages of a big block. */
  datatype Arena = Arena(desc: Option<nat>, freeCnt: nat)

  datatype Heap = Heap(arenas: map<nat, Arena>, free: seq<seq<nat>>, live: set<nat>)

  /** The bookkeeping is right. */
  ghost predicate Sound(h: Heap) {
    && |h.free| == DESCS
    && (forall p: nat :: p in h.arenas ==> ArenaOk(h, p))
    && (forall i: nat :: i < DESCS ==> NoDup(h.free[i]))
    && (forall i: nat, a: nat :: i < DESCS && a in h.free[i] ==> FreeOk(h, i, a))
    && (forall a: nat :: a in h.live ==> LiveOk(h, a))
  }

  /** And no arena is kept with all its blocks free. */
  ghost predicate Inv(h: Heap) {
    Sound(h) && forall p: nat :: p in h.arenas ==> !Full(h.arenas[p])
  }
  predicate Full(r: Arena) { r.desc.Some? && r.desc.value < DESCS && r.freeCnt == PerArena(r.desc.value) }

  /** free_cnt is the number of the arena's blocks on the free list; every block is free or live and not both. */
  ghost predicate ArenaOk(h: Heap, p: nat)
    requires |h.free| == DESCS && p in h.arenas
  {
    match h.arenas[p].desc
    case Some(i) =>
      && i < DESCS && h.arenas[p].freeCnt == Count(h.free[i], p, i, PerArena(i))
      && forall k: nat :: k < PerArena(i) ==> FreeOrLive(h, p, i, k)
    case None => h.arenas[p].freeCnt > 0 && p * PGSIZE + HEADER in h.live
  }
  ghost predicate FreeOrLive(h: Heap, p: nat, i: nat, k: nat)
    requires |h.free| == DESCS && i < DESCS
  {
    Block(p, i, k) in h.free[i] <==> Block(p, i, k) !in h.live
  }
  ghost predicate FreeOk(h: Heap, i: nat, a: nat) {
    PageOf(a) in h.arenas && h.arenas[PageOf(a)].desc == Some(i) && IsBlock(a, i)
  }
  ghost predicate LiveOk(h: Heap, a: nat) {
    PageOf(a) in h.arenas &&
    match h.arenas[PageOf(a)].desc
    case Some(i) => IsBlock(a, i)
    case None => a == PageOf(a) * PGSIZE + HEADER
  }

  /** Pages an arena occupies, and bytes a live block offers (block_size). */
  function PageCnt(r: Arena): nat { if r.desc.Some? then 1 else r.freeCnt }

  ghost function Size(h: Heap, a: nat): int
    requires PageOf(a) in h.arenas && (h.arenas[PageOf(a)].desc.Some? ==> h.arenas[PageOf(a)].desc.value < DESCS)
  {
    var r := h.arenas[PageOf(a)];
    if r.desc.Some? then BlockSize(r.desc.value) else PGSIZE * r.freeCnt - HEADER
  }

  /** Every arena's pages are an outstanding range of the page allocator. */
  ghost predicate Owned(h: Heap, pages: set<Range>) {
    forall p: nat :: p in h.arenas ==> Range(p, PageCnt(h.arenas[p])) in pages
  }

  /** Live blocks lie in their arena past the header. */
  lemma LiveInside(h: Heap, a: nat)
    requires Sound(h) && a in h.live
    ensures LiveOk(h, a) && ArenaOk(h, PageOf(a))
    ensures var p: nat := PageOf(a);
      p * PGSIZE + HEADER <= a && a + Size(h, a) <= (p + PageCnt(h.arenas[p])) * PGSIZE && Size(h, a) > 0
  {
    var p: nat := PageOf(a);
    assert LiveOk(h, a) && ArenaOk(h, p);
    if h.arenas[p].desc.Some? {
      var i := h.arenas[p].desc.value;
      var k: nat :| k < PerArena(i) && a == Block(p, i, k);
      BlockInside(p, i, k);
    }
  }

  lemma SamePageApart(h: Heap, a: nat, b: nat)
    requires Sound(h) && a in h.live && b in h.live && a < b && PageOf(a) == PageOf(b)
    ensures LiveOk(h, a) && ArenaOk(h, PageOf(a)) && a + Size(h, a) <= b
  {
    var p: nat := PageOf(a);
    assert LiveOk(h, a) && LiveOk(h, b) && ArenaOk(h, p);
    if h.arenas[p].desc.Some? {
      var i := h.arenas[p].desc.value;
      var k: nat :| k < PerArena(i) && a == Block(p, i, k);
      var m: nat :| m < PerArena(i) && b == Block(p, i, m);
      hide PerArena, IsBlock;
      if k < m { BlocksApart(p, i, k, m); } else if m < k { BlocksApart(p, i, m, k); }
    }
  }

  lemma OtherPageApart(h: Heap, pages: set<Range>, a: nat, b: nat)
    requires Sound(h) && Owned(h, pages) && (forall r, s :: r in pages && s in pages && r != s ==> Apart(r, s))
    requires a in h.live && b in h.live && a < b && PageOf(a) != PageOf(b)
    ensures LiveOk(h, a) && ArenaOk(h, PageOf(a)) && a + Size(h, a) <= b
  {
    LiveInside(h, a);
    LiveInside(h, b);
    PageOrder(a, b);
    hide Sound, IsBlock, Size, ArenaOk;
    var p: nat, q: nat := PageOf(a), PageOf(b);
    assert Apart(Range(p, PageCnt(h.arenas[p])), Range(q, PageCnt(h.arenas[q])));
  }

  /** Live blocks do not overlap. */
  lemma LiveApart(h: Heap, pages: set<Range>, a: nat, b: nat)
    requires Sound(h) && Owned(h, pages) && (forall r, s :: r in pages && s in pages && r != s ==> Apart(r, s))
    requires a in h.live && b in h.live && a < b
    ensures LiveOk(h, a) && ArenaOk(h, PageOf(a)) && a + Size(h, a) <= b
  {
    hide Sound, Owned, ArenaOk, LiveOk, Size;
    if PageOf(a) == PageOf(b) { SamePageApart(h, a, b); } else { OtherPageApart(h, pages, a, b); }
  }

  lemma PageOrder(a: nat, b: nat)
    requires a < b
    ensures PageOf(a) <= PageOf(b)
  {
  }

  // ---- steps ----

  /** Nothing about the address `x` differs. */
  ghost predicate SameAt(h: Heap, h': Heap, x: nat)
    requires |h.free| == DESCS && |h'.free| == DESCS
  {
    && (x in h.live <==> x in h'.live)
    && (forall j: nat :: j < DESCS ==> (x in h.free[j] <==> x in h'.free[j]))
  }

  /** An arena none of whose blocks change. */
  lemma ArenaFrame(h: Heap, h': Heap, q: nat)
    requires |h.free| == DESCS && |h'.free| == DESCS && q in h.arenas && q in h'.arenas
    requires ArenaOk(h, q) && h'.arenas[q] == h.arenas[q]
    requires forall x: nat :: PageOf(x) == q ==> SameAt(h, h', x)
    ensures ArenaOk(h', q)
  {
    if h.arenas[q].desc.Some? {
      var i := h.arenas[q].desc.value;
      forall k: nat | k < PerArena(i) ensures SameAt(h, h', Block(q, i, k)) { BlockInside(q, i, k); }
      forall k: nat | k < PerArena(i) ensures FreeOrLive(h', q, i, k) { assert FreeOrLive(h, q, i, k); }
      CountSame(h.free[i], h'.free[i], q, i, PerArena(i));
    } else {
      assert PageOf(q * PGSIZE + HEADER) == q;
      assert SameAt(h, h', q * PGSIZE + HEADER);
    }
  }

  ghost function Blocks(p: nat, i: nat, n: nat): (l: seq<nat>)
    requires i < DESCS
  {
    seq(n, k requires 0 <= k < n => Block(p, i, k))
  }

  lemma BlocksAre(p: nat, i: nat)
    requires i < DESCS
    ensures NoDup(Blocks(p, i, PerArena(i))) && PerArena(i) >= 3
    ensures forall a: nat :: a in Blocks(p, i, PerArena(i)) ==> PageOf(a) == p && IsBlock(a, i)
    ensures forall k: nat :: k < PerArena(i) ==> Block(p, i, k) in Blocks(p, i, PerArena(i))
  {
    var n := PerArena(i);
    var l := Blocks(p, i, n);
    forall k, m | 0 <= k < m < n ensures l[k] != l[m] { BlocksApart(p, i, k, m); }
    forall k: nat | k < n ensures PageOf(l[k]) == p && IsBlock(l[k], i) && Block(p, i, k) in l {
      BlockInside(p, i, k);
      assert l[k] == Block(p, i, k);
    }
  }

  /** A new arena with all its blocks on the free list. */
  ghost function WithArena(h: Heap, p: nat, i: nat): Heap
    requires i < DESCS == |h.free|
  {
    Heap(h.arenas[p := Arena(Some(i), PerArena(i))], h.free[i := h.free[i] + Blocks(p, i, PerArena(i))], h.live)
  }

  lemma NewArenaOk(h: Heap, p: nat, i: nat)
    requires Sound(h) && i < DESCS && p !in h.arenas
    ensures ArenaOk(WithArena(h, p, i), p)
  {
    BlocksAre(p, i);
    hide Blocks, BlockSize, PerArena, IsBlock;
    var h' := WithArena(h, p, i);
    forall k: nat | k < PerArena(i) ensures Block(p, i, k) in h'.free[i] && FreeOrLive(h', p, i, k) {
      BlockInside(p, i, k);
      assert Block(p, i, k) in h.live ==> LiveOk(h, Block(p, i, k));
    }
    CountFull(h'.free[i], p, i, PerArena(i));
  }

  lemma NewListOk(h: Heap, p: nat, i: nat)
    requires Sound(h) && i < DESCS && p !in h.arenas
    ensures NoDup(WithArena(h, p, i).free[i])
    ensures forall x: nat :: PageOf(x) != p ==> SameAt(h, WithArena(h, p, i), x)
  {
    BlocksAre(p, i);
    hide Blocks, BlockSize, PerArena, IsBlock;
    forall a | a in h.free[i] ensures a !in Blocks(p, i, PerArena(i)) { assert FreeOk(h, i, a); }
  }

  lemma WithArenaSound(h: Heap, p: nat, i: nat)
    requires Sound(h) && i < DESCS && p !in h.arenas
    ensures Sound(WithArena(h, p, i))
  {
    var h' := WithArena(h, p, i);
    BlocksAre(p, i);
    hide Blocks, BlockSize, PerArena, IsBlock, ArenaOk;
    NewArenaOk(h, p, i);
    NewListOk(h, p, i);
    forall q: nat | q in h.arenas ensures ArenaOk(h', q) { ArenaFrame(h, h', q); }
    forall j: nat, a: nat | j < DESCS && a in h'.free[j] ensures FreeOk(h', j, a) {
      assert a in h.free[j] ==> FreeOk(h, j, a);
    }
    forall a: nat | a in h'.live ensures LiveOk(h', a) { assert LiveOk(h, a); }
  }

  /** `h` and `h'` differ in one block of descriptor `i`: free in `h`, live in `h'`. */
  ghost predicate Swapped(h: Heap, h': Heap, i: nat, a: nat) {
    var p: nat := PageOf(a);
    && |h.free| == DESCS && |h'.free| == DESCS && i < DESCS && IsBlock(a, i)
    && p in h.arenas && h.arenas[p].desc == Some(i) && h.arenas[p].freeCnt > 0
    && h'.arenas == h.arenas[p := Arena(Some(i), h.arenas[p].freeCnt - 1)]
    && a in h.free[i] && a !in h'.free[i] && a !in h.live && h'.live == h.live + {a}
    && (forall x: nat :: x != a ==> (x in h.free[i] <==> x in h'.free[i]))
    && (forall j: nat :: j < DESCS && j != i ==> h'.free[j] == h.free[j])
  }

  lemma SwappedElsewhere(h: Heap, h': Heap, i: nat, a: nat, x: nat)
    requires Swapped(h, h', i, a) && x != a
    ensures SameAt(h, h', x) && SameAt(h', h, x)
  {
    forall j: nat | j < DESCS ensures x in h.free[j] <==> x in h'.free[j] {
      if j != i { assert h'.free[j] == h.free[j]; }
    }
  }

  lemma SwappedArena(h: Heap, h': Heap, i: nat, a: nat)
    requires Swapped(h, h', i, a)
    ensures ArenaOk(h, PageOf(a)) <==> ArenaOk(h', PageOf(a))
  {
    var p: nat := PageOf(a);
    var m: nat :| m < PerArena(i) && a == Block(p, i, m);
    forall k: nat | k < PerArena(i) && k != m ensures Block(p, i, k) != a {
      if k < m { BlocksApart(p, i, k, m); } else { BlocksApart(p, i, m, k); }
    }
    hide PerArena, BlockSize, IsBlock;
    CountMore(h'.free[i], h.free[i], p, i, PerArena(i), m);
    forall k: nat | k < PerArena(i) ensures FreeOrLive(h, p, i, k) <==> FreeOrLive(h', p, i, k) {
      if k != m { SwappedElsewhere(h, h', i, a, Block(p, i, k)); }
    }
  }

  lemma SwappedSound(h: Heap, h': Heap, i: nat, a: nat)
    requires Swapped(h, h', i, a) && Sound(h) && NoDup(h'.free[i])
    ensures Sound(h')
  {
    hide Count, PerArena, BlockSize, IsBlock;
    var p: nat := PageOf(a);
    SwappedArena(h, h', i, a);
    forall x: nat | x != a ensures SameAt(h, h', x) { SwappedElsewhere(h, h', i, a, x); }
    forall q: nat | q in h'.arenas ensures ArenaOk(h', q) {
      assert ArenaOk(h, q);
      if q != p { ArenaFrame(h, h', q); }
    }
    forall j: nat, x: nat | j < DESCS && x in h'.free[j] ensures FreeOk(h', j, x) {
      assert SameAt(h, h', x) || x == a;
      assert x in h.free[j];
      assert FreeOk(h, j, x);
    }
    forall x: nat | x in h'.live ensures LiveOk(h', x) { assert x == a || LiveOk(h, x); }
  }

  lemma OneList(h: Heap, i: nat, j: nat, a: nat)
    requires Sound(h) && PageOf(a) in h.arenas && h.arenas[PageOf(a)].desc == Some(i) && j < DESCS
    ensures a in h.free[j] ==> j == i
  {
    assert a in h.free[j] ==> FreeOk(h, j, a);
  }

  lemma SwappedBack(h: Heap, h': Heap, i: nat, a: nat)
    requires Swapped(h, h', i, a) && Sound(h') && NoDup(h.free[i])
    ensures Sound(h)
  {
    hide Count, PerArena, BlockSize, IsBlock;
    var p: nat := PageOf(a);
    SwappedArena(h, h', i, a);
    forall x: nat | x != a ensures SameAt(h', h, x) { SwappedElsewhere(h, h', i, a, x); }
    forall q: nat | q in h.arenas ensures ArenaOk(h, q) {
      assert ArenaOk(h', q);
      if q != p { ArenaFrame(h', h, q); }
    }
    forall j: nat, x: nat | j < DESCS && x in h.free[j] ensures FreeOk(h, j, x) {
      OneList(h', i, j, a);
      assert j != i ==> h'.free[j] == h.free[j];
      assert x != a ==> SameAt(h', h, x) && FreeOk(h', j, x);
    }
    forall x: nat | x in h.live ensures LiveOk(h, x) { assert LiveOk(h', x); }
  }

  lemma {:induction false} CountSome(l: seq<nat>, p: nat, i: nat, n: nat, m: nat)
    requires i < DESCS && m < n && Block(p, i, m) in l
    ensures Count(l, p, i, n) > 0
  {
    if m < n - 1 { CountSome(l, p, i, n - 1, m); }
  }

  /** The first block on a free list is free, in an arena of that descriptor that knows it has a free block. */
  lemma FrontIsFree(h: Heap, i: nat, a: nat)
    requires Sound(h) && i < DESCS && a in h.free[i]
    ensures var p: nat := PageOf(a);
      p in h.arenas && h.arenas[p].desc == Some(i) && h.arenas[p].freeCnt > 0 && a !in h.live && IsBlock(a, i)
  {
    assert FreeOk(h, i, a);
    var p: nat := PageOf(a);
    assert ArenaOk(h, p);
    var m: nat :| m < PerArena(i) && a == Block(p, i, m);
    assert FreeOrLive(h, p, i, m);
    CountSome(h.free[i], p, i, PerArena(i), m);
  }

  /** The heap after the first block of descriptor `i`'s list is taken. */
  ghost function Popped(h: Heap, i: nat): Heap
    requires Sound(h) && i < DESCS && h.free[i] != []
  {
    var a := h.free[i][0];
    FrontIsFree(h, i, a);
    var r := h.arenas[PageOf(a)];
    Heap(h.arenas[PageOf(a) := r.(freeCnt := r.freeCnt - 1)], h.free[i := h.free[i][1..]], h.live + {a})
  }

  lemma PoppedSound(h: Heap, i: nat)
    requires Sound(h) && i < DESCS && h.free[i] != []
    ensures Sound(Popped(h, i)) && h.free[i][0] !in h.live
    ensures forall p: nat :: p in h.arenas && !Full(h.arenas[p]) ==> p in Popped(h, i).arenas && !Full(Popped(h, i).arenas[p])
    ensures var p: nat := PageOf(h.free[i][0]); p in Popped(h, i).arenas && !Full(Popped(h, i).arenas[p])
    ensures forall p: nat :: p in Popped(h, i).arenas ==> p in h.arenas && PageCnt(Popped(h, i).arenas[p]) == PageCnt(h.arenas[p])
  {
    var a, l := h.free[i][0], h.free[i];
    FrontIsFree(h, i, a);
    var h' := Popped(h, i);
    var p: nat := PageOf(a);
    assert ArenaOk(h, p) && NoDup(l) && l == [a] + l[1..];
    assert h.arenas[p].freeCnt <= PerArena(i);
    hide ArenaOk, FreeOk, LiveOk, IsBlock, PerArena;
    assert Swapped(h, h', i, a);
    SwappedSound(h, h', i, a);
  }

  /** A block that is live and small goes back on its list. */
  ghost function Pushed(h: Heap, i: nat, a: nat): Heap
    requires |h.free| == DESCS && i < DESCS && PageOf(a) in h.arenas
  {
    var r := h.arenas[PageOf(a)];
    Heap(h.arenas[PageOf(a) := r.(freeCnt := r.freeCnt + 1)], h.free[i := [a] + h.free[i]], h.live - {a})
  }

  /** A live small block is off the free list. */
  lemma LiveNotFree(h: Heap, i: nat, a: nat)
    requires Sound(h) && a in h.live && PageOf(a) in h.arenas && h.arenas[PageOf(a)].desc == Some(i)
    ensures i < DESCS && IsBlock(a, i) && a !in h.free[i]
  {
    var p: nat := PageOf(a);
    assert LiveOk(h, a) && ArenaOk(h, p);
    var m: nat :| m < PerArena(i) && a == Block(p, i, m);
    assert FreeOrLive(h, p, i, m);
  }

  lemma FreeAtMost(h: Heap, p: nat)
    requires Sound(h) && p in h.arenas && h.arenas[p].desc.Some?
    ensures h.arenas[p].desc.value < DESCS && h.arenas[p].freeCnt <= PerArena(h.arenas[p].desc.value)
  {
    assert ArenaOk(h, p);
  }

  lemma PushedSound(h: Heap, i: nat, a: nat)
    requires Sound(h) && a in h.live && PageOf(a) in h.arenas && h.arenas[PageOf(a)].desc == Some(i)
    ensures i < DESCS && Sound(Pushed(h, i, a)) && a in Pushed(h, i, a).free[i]
    ensures Pushed(h, i, a).arenas[PageOf(a)].freeCnt <= PerArena(i)
  {
    hide ArenaOk, FreeOk, LiveOk, IsBlock, PerArena, PageOf;
    LiveNotFree(h, i, a);
    var h', p: nat := Pushed(h, i, a), PageOf(a);
    NoDupCons(a, h.free[i]);
    assert h'.live + {a} == h.live;
    assert h'.arenas[p := Arena(Some(i), h'.arenas[p].freeCnt - 1)] == h.arenas;
    assert Swapped(h', h, i, a);
    SwappedBack(h', h, i, a);
    FreeAtMost(h', p);
  }

  /** An arena with every block free is given up. */
  ghost predicate Released(h: Heap, h': Heap, p: nat, i: nat) {
    && |h.free| == DESCS && |h'.free| == DESCS && i < DESCS && p in h.arenas
    && h'.arenas == h.arenas - {p} && h'.live == h.live && NoDup(h'.free[i])
    && (forall x: nat :: x in h'.free[i] <==> x in h.free[i] && PageOf(x) != p)
    && (forall j: nat :: j < DESCS && j != i ==> h'.free[j] == h.free[j])
  }

  lemma FullAllFree(h: Heap, p: nat, i: nat, x: nat)
    requires Sound(h) && i < DESCS && p in h.arenas && h.arenas[p] == Arena(Some(i), PerArena(i))
    ensures PageOf(x) == p && IsBlock(x, i) ==> x in h.free[i]
  {
    assert ArenaOk(h, p);
    CountFull(h.free[i], p, i, PerArena(i));
  }

  lemma FullNoLive(h: Heap, p: nat, i: nat, x: nat)
    requires Sound(h) && i < DESCS && p in h.arenas && h.arenas[p] == Arena(Some(i), PerArena(i)) && x in h.live
    ensures PageOf(x) != p
  {
    FullAllFree(h, p, i, x);
    if PageOf(x) == p { LiveNotFree(h, i, x); }
  }

  lemma ReleasedSound(h: Heap, h': Heap, p: nat, i: nat)
    requires Sound(h) && Released(h, h', p, i) && h.arenas[p] == Arena(Some(i), PerArena(i))
    ensures Sound(h')
  {
    forall x: nat | PageOf(x) != p ensures SameAt(h, h', x) {
      forall j: nat | j < DESCS ensures x in h.free[j] <==> x in h'.free[j] {
        if j != i { assert h'.free[j] == h.free[j]; }
      }
    }
    hide Count, BlockSize, IsBlock, PerArena, ArenaOk;
    forall q: nat | q in h'.arenas ensures ArenaOk(h', q) {
      assert ArenaOk(h, q);
      ArenaFrame(h, h', q);
    }
    forall j: nat, x: nat | j < DESCS && x in h'.free[j] ensures FreeOk(h', j, x) {
      assert j != i ==> h'.free[j] == h.free[j];
      assert FreeOk(h, j, x);
    }
    forall x: nat | x in h'.live ensures LiveOk(h', x) {
      assert LiveOk(h, x);
      FullNoLive(h, p, i, x);
    }
  }

  /** A big block of `cnt` pages comes and goes. */
  ghost function WithBig(h: Heap, p: nat, cnt: nat): Heap {
    Heap(h.arenas[p := Arena(None, cnt)], h.free, h.live + {p * PGSIZE + HEADER})
  }
  ghost function WithoutBig(h: Heap, p: nat): Heap {
    Heap(h.arenas - {p}, h.free, h.live - {p * PGSIZE + HEADER})
  }

  lemma BigAddress(p: nat)
    ensures PageOf(p * PGSIZE + HEADER) == p
  {
  }

  lemma NewBigOk(h: Heap, p: nat, cnt: nat)
    requires |h.free| == DESCS && cnt > 0
    ensures ArenaOk(WithBig(h, p, cnt), p) && LiveOk(WithBig(h, p, cnt), p * PGSIZE + HEADER)
  {
    BigAddress(p);
  }

  lemma WithBigSound(h: Heap, p: nat, cnt: nat)
    requires Sound(h) && p !in h.arenas && cnt > 0
    ensures Sound(WithBig(h, p, cnt)) && p * PGSIZE + HEADER !in h.live
  {
    hide Count, PerArena, IsBlock, ArenaOk, PageOf;
    var h', a := WithBig(h, p, cnt), p * PGSIZE + HEADER;
    BigAddress(p);
    NewBigOk(h, p, cnt);
    assert a in h.live ==> LiveOk(h, a);
    forall x: nat | x != a ensures SameAt(h, h', x) {}
    forall q: nat | q in h.arenas ensures ArenaOk(h', q) {
      assert ArenaOk(h, q);
      ArenaFrame(h, h', q);
    }
    forall j: nat, x: nat | j < DESCS && x in h'.free[j] ensures FreeOk(h', j, x) { assert FreeOk(h, j, x); }
    forall x: nat | x in h'.live ensures LiveOk(h', x) { assert x == a || LiveOk(h, x); }
  }

  /** A big arena holds one live block and no free ones. */
  lemma OnlyBlock(h: Heap, p: nat, x: nat)
    requires Sound(h) && p in h.arenas && h.arenas[p].desc.None? && PageOf(x) == p
    ensures x in h.live ==> x == p * PGSIZE + HEADER
    ensures forall j: nat :: j < DESCS ==> x !in h.free[j]
  {
    assert x in h.live ==> LiveOk(h, x);
    forall j: nat | j < DESCS ensures x !in h.free[j] { assert x in h.free[j] ==> FreeOk(h, j, x); }
  }

  lemma WithoutBigSound(h: Heap, p: nat)
    requires Sound(h) && p in h.arenas && h.arenas[p].desc.None?
    ensures Sound(WithoutBig(h, p))
  {
    var h', a := WithoutBig(h, p), p * PGSIZE + HEADER;
    BigAddress(p);
    hide Count, PerArena, IsBlock, ArenaOk, PageOf;
    forall x: nat | x != a ensures SameAt(h, h', x) {}
    forall q: nat | q in h'.arenas ensures ArenaOk(h', q) {
      assert ArenaOk(h, q);
      ArenaFrame(h, h', q);
    }
    forall j: nat, x: nat | j < DESCS && x in h'.free[j] ensures FreeOk(h', j, x) {
      assert FreeOk(h, j, x);
      if PageOf(x) == p { OnlyBlock(h, p, x); }
    }
    forall x: nat | x in h'.live ensures LiveOk(h', x) {
      assert LiveOk(h, x);
      if PageOf(x) == p { OnlyBlock(h, p, x); }
    }
  }

  // ---- what callers see ----

  /** Pages for a block too big for any descriptor, in 32-bit arithmetic. */
  function BigPages(size: nat): nat {
    ((size + HEADER) % SIZE_MAX + PGSIZE - 1) % SIZE_MAX / PGSIZE
  }

  /** The page count covers the request, or is zero so that the request fails, exactly when adding the header does not
      pass 2^32. */
  lemma BigPagesEnough(size: nat)
    requires size < SIZE_MAX
    ensures BigPages(size) == 0 || BigPages(size) * PGSIZE >= size + HEADER <==> size + HEADER <= SIZE_MAX
  {
  }

  ghost predicate SameSize(h: Heap, h': Heap, b: nat) {
    && b in h'.live && PageOf(b) in h.arenas && PageOf(b) in h'.arenas
    && h.arenas[PageOf(b)].desc == h'.arenas[PageOf(b)].desc
    && (h.arenas[PageOf(b)].desc.None? ==> h.arenas[PageOf(b)].freeCnt == h'.arenas[PageOf(b)].freeCnt)
  }

  /** A new live block of at least `size` bytes; the others stay as they were. */
  ghost predicate Allocated(h: Heap, h': Heap, a: nat, size: nat) {
    && a !in h.live && h'.live == h.live + {a}
    && (forall b: nat :: b in h.live ==> SameSize(h, h', b))
    && PageOf(a) in h'.arenas && (h'.arenas[PageOf(a)].desc.Some? ==> h'.arenas[PageOf(a)].desc.value < DESCS)
    && (size + HEADER <= SIZE_MAX ==> Size(h', a) >= size)
  }

  /** The block is gone; the others stay as they were. */
  ghost predicate Freed(h: Heap, h': Heap, a: nat) {
    h'.live == h.live - {a} && (forall b: nat :: b in h.live && b != a ==> SameSize(h, h', b))
  }

  /** No other live block shares the arena of `a`. */
  ghost predicate LastInArena(h: Heap, a: nat) {
    forall b: nat :: b in h.live && b != a ==> PageOf(b) != PageOf(a)
  }

  /** The descriptor for a request, 7 if there is none. */
  function DescFor(size: nat): nat {
    if size <= 16 then 0 else if size <= 32 then 1 else if size <= 64 then 2 else if size <= 128 then 3
    else if size <= 256 then 4 else if size <= 512 then 5 else if size <= 1024 then 6 else 7
  }

  /** No memory for the request: no block of its size is free and no page either, or no run of pages is long enough. */
  ghost predicate Exhausted(h: Heap, kernelBits: seq<bool>, size: nat)
    requires |h.free| == DESCS
  {
    if DescFor(size) < DESCS then h.free[DescFor(size)] == [] && FirstRun(kernelBits, 0, 1, false, None)
    else BigPages(size) == 0 || FirstRun(kernelBits, 0, BigPages(size), false, None)
  }

  lemma FoundDesc(size: nat, d: nat)
    requires d <= DESCS && (forall j: nat :: j < d ==> BlockSize(j) < size) && (d < DESCS ==> BlockSize(d) >= size)
    ensures d == DescFor(size) && (d == DESCS ==> size > 1024)
  {
    if d > 0 { assert BlockSize(d - 1) < size; }
  }

  lemma FreeLists(h: Heap)
    requires Sound(h)
    ensures |h.free| == DESCS
  {
  }

  /** At most the arena at `q` has all its blocks free. */
  ghost predicate FullOnlyAt(h: Heap, q: nat) { forall p: nat :: p in h.arenas && p != q ==> !Full(h.arenas[p]) }

  lemma NotFullAt(h: Heap, q: nat)
    requires Sound(h) && FullOnlyAt(h, q) && q in h.arenas && h.arenas[q].desc.Some?
    requires h.arenas[q].desc.value < DESCS && h.arenas[q].freeCnt < PerArena(h.arenas[q].desc.value)
    ensures Inv(h)
  {
  }

  lemma FullNowhere(h: Heap, q: nat)
    requires Inv(h)
    ensures FullOnlyAt(h, q)
  {
  }

  lemma NoneFull(h: Heap, i: nat)
    requires Sound(h) && i < DESCS && h.free[i] != [] && FullOnlyAt(h, PageOf(h.free[i][0]))
    ensures Inv(Popped(h, i))
  {
    PoppedSound(h, i);
  }

  lemma OwnedPopped(h: Heap, i: nat, pages: set<Range>)
    requires Sound(h) && i < DESCS && h.free[i] != [] && Owned(h, pages)
    ensures Owned(Popped(h, i), pages)
  {
    PoppedSound(h, i);
  }

  lemma OwnedLess(h: Heap, pages: set<Range>, p: nat)
    requires Owned(h, pages) && p in h.arenas
    ensures Range(p, PageCnt(h.arenas[p])) in pages
    ensures forall q: nat :: q in h.arenas && q != p ==>
      Range(q, PageCnt(h.arenas[q])) in pages - {Range(p, PageCnt(h.arenas[p]))}
  {
  }

  lemma PoppedAllocates(h: Heap, i: nat, size: nat)
    requires Sound(h) && i < DESCS && h.free[i] != [] && BlockSize(i) >= size
    ensures Allocated(h, Popped(h, i), h.free[i][0], size)
  {
    FrontIsFree(h, i, h.free[i][0]);
    hide IsBlock, Count, PerArena, BlockSize, FreeOk, ArenaOk;
    forall b: nat | b in h.live ensures SameSize(h, Popped(h, i), b) { assert LiveOk(h, b); }
  }

  lemma NewAllocates(h: Heap, p: nat, i: nat, size: nat)
    requires Sound(h) && i < DESCS && p !in h.arenas && BlockSize(i) >= size && h.free[i] == []
    ensures Sound(WithArena(h, p, i)) && WithArena(h, p, i).free[i] != []
    ensures PageOf(WithArena(h, p, i).free[i][0]) == p
    ensures Allocated(h, Popped(WithArena(h, p, i), i), WithArena(h, p, i).free[i][0], size)
    ensures Inv(h) ==> FullOnlyAt(WithArena(h, p, i), p)
  {
    WithArenaSound(h, p, i);
    BlocksAre(p, i);
    var h1 := WithArena(h, p, i);
    assert h1.free[i] == Blocks(p, i, PerArena(i));
    assert h1.free[i][0] == Block(p, i, 0);
    hide Sound, IsBlock, Count, PerArena, BlockSize, FreeOk, Blocks;
    PoppedAllocates(h1, i, size);
    forall b: nat | b in h.live ensures SameSize(h, Popped(h1, i), b) {
      assert SameSize(h1, Popped(h1, i), b);
      StillThere(h, b);
    }
  }

  lemma StillThere(h: Heap, b: nat)
    requires Sound(h) && b in h.live
    ensures PageOf(b) in h.arenas
  {
    assert LiveOk(h, b);
  }

  lemma BigAllocates(h: Heap, p: nat, cnt: nat, size: nat)
    requires Sound(h) && p !in h.arenas && cnt > 0 && (size + HEADER <= SIZE_MAX ==> cnt * PGSIZE >= size + HEADER)
    ensures Allocated(h, WithBig(h, p, cnt), p * PGSIZE + HEADER, size)
  {
    WithBigSound(h, p, cnt);
    BigAddress(p);
    hide Sound;
    forall b: nat | b in h.live ensures SameSize(h, WithBig(h, p, cnt), b) { StillThere(h, b); }
  }

  /** A small block back on its list: the arena is full exactly when no other live block is left in it. */
  lemma SmallFrees(h: Heap, i: nat, a: nat, pages: set<Range>)
    requires Inv(h) && a in h.live && PageOf(a) in h.arenas && h.arenas[PageOf(a)].desc == Some(i) && Owned(h, pages)
    ensures i < DESCS
    ensures var h1, p: nat := Pushed(h, i, a), PageOf(a);
      && Sound(h1) && FullOnlyAt(h1, p) && Freed(h, h1, a) && Owned(h1, pages)
      && h1.arenas[p].freeCnt <= PerArena(i) && (h1.arenas[p].freeCnt == PerArena(i) <==> LastInArena(h, a))
  {
    PushedSound(h, i, a);
    var h1, p: nat := Pushed(h, i, a), PageOf(a);
    hide IsBlock, Count, PerArena, BlockSize, ArenaOk, FreeOk;
    forall b: nat | b in h.live && b != a ensures SameSize(h, h1, b) { StillThere(h, b); }
    if h1.arenas[p].freeCnt == PerArena(i) {
      forall b: nat | b in h.live && b != a ensures PageOf(b) != p { FullNoLive(h1, p, i, b); }
    }
    if LastInArena(h, a) { LastFills(h, h1, i, a); }
  }

  lemma LastFills(h: Heap, h1: Heap, i: nat, a: nat)
    requires Sound(h1) && i < DESCS && PageOf(a) in h1.arenas && h1.arenas[PageOf(a)].desc == Some(i)
    requires LastInArena(h, a) && h1.live == h.live - {a}
    ensures h1.arenas[PageOf(a)].freeCnt == PerArena(i)
  {
    var p: nat := PageOf(a);
    assert ArenaOk(h1, p);
    forall k: nat | k < PerArena(i) ensures Block(p, i, k) in h1.free[i] {
      BlockInside(p, i, k);
      assert FreeOrLive(h1, p, i, k);
    }
    CountFull(h1.free[i], p, i, PerArena(i));
  }

  /** Giving the full arena up afterwards disturbs no live block. */
  lemma ReleaseFrees(h: Heap, h1: Heap, h2: Heap, p: nat, i: nat, a: nat)
    requires Freed(h, h1, a) && Sound(h1) && FullOnlyAt(h1, p) && Released(h1, h2, p, i) && Sound(h2)
    requires h1.arenas[p] == Arena(Some(i), PerArena(i))
    ensures Freed(h, h2, a) && Inv(h2)
  {
    hide IsBlock, Count, PerArena, BlockSize, ArenaOk, FreeOk, Sound;
    forall b: nat | b in h.live && b != a ensures SameSize(h, h2, b) {
      assert SameSize(h, h1, b);
      FullNoLive(h1, p, i, b);
    }
  }

  lemma BigNotEmpty(h: Heap, p: nat)
    requires Sound(h) && p in h.arenas && h.arenas[p].desc.None?
    ensures h.arenas[p].freeCnt > 0
  {
    assert ArenaOk(h, p);
  }

  lemma BigFrees(h: Heap, a: nat)
    requires Inv(h) && a in h.live && PageOf(a) in h.arenas && h.arenas[PageOf(a)].desc.None?
    ensures var h1 := WithoutBig(h, PageOf(a)); Inv(h1) && Freed(h, h1, a)
    ensures LastInArena(h, a) && a == PageOf(a) * PGSIZE + HEADER && h.arenas[PageOf(a)].freeCnt > 0
  {
    hide IsBlock, Count, PerArena, BlockSize, ArenaOk, FreeOk, LiveOk, Sound, PageOf;
    var p: nat := PageOf(a);
    WithoutBigSound(h, p);
    BigNotEmpty(h, p);
    OnlyBlock(h, p, a);
    forall b: nat | b in h.live && b != a ensures PageOf(b) != p && SameSize(h, WithoutBig(h, p), b) {
      StillThere(h, b);
      if PageOf(b) == p { OnlyBlock(h, p, b); }
    }
  }

  /** The list after list_remove of the arena's first `n` blocks. */
  function Without(l: seq<nat>, p: nat, i: nat, n: nat): seq<nat>
    requires i < DESCS
  {
    if n == 0 then l else Remove(Without(l, p, i, n - 1), Block(p, i, n - 1))
  }

  lemma {:induction false} WithoutIs(l: seq<nat>, p: nat, i: nat, n: nat)
    requires i < DESCS && NoDup(l)
    ensures NoDup(Without(l, p, i, n))
    ensures forall x: nat :: x in Without(l, p, i, n) <==> x in l && (forall m: nat :: m < n ==> x != Block(p, i, m))
  {
    hide Block;
    if n > 0 {
      WithoutIs(l, p, i, n - 1);
      RemoveIsErase(Without(l, p, i, n - 1), Block(p, i, n - 1));
    }
  }

  // ---- malloc and free ----

  /** A page range just handed out starts no arena. */
  lemma FreshPage(h: Heap, a: Pool, b: Pool, pages: set<Range>, p: nat, cnt: nat)
    requires Owned(h, pages) && Range(p, cnt) !in pages && PagesOk(a, b, pages + {Range(p, cnt)})
    ensures p !in h.arenas && Owned(h, pages + {Range(p, cnt)})
  {
    hide PagesOk;
    if p in h.arenas {
      RangesApart(a, b, pages + {Range(p, cnt)}, Range(p, PageCnt(h.arenas[p])), Range(p, cnt));
    }
  }

  class Allocator {
    const pages: PageAllocator
    var arenas: map<nat, Arena>
    var free: seq<seq<nat>>
    ghost var live: set<nat>

    ghost predicate Valid()
      reads this, pages, pages.kernel, pages.kernel.words, pages.user, pages.user.words
    {
      pages.Valid() && Inv(View()) && Owned(View(), pages.live)
    }

    ghost function View(): Heap
      reads this
    {
      Heap(arenas, free, live)
    }

    /** malloc_init. */
    constructor (m: PageAllocator)
      requires m.Valid()
      ensures Valid() && pages == m && View() == Heap(map[], seq(DESCS, _ => []), {})
    {
      pages := m;
      arenas, free, live := map[], seq(DESCS, _ => []), {};
    }

    /** The smallest descriptor whose blocks hold `size` bytes, if any. */
    method FindDesc(size: nat) returns (d: nat)
      ensures d <= DESCS && (forall j: nat :: j < d ==> BlockSize(j) < size) && (d < DESCS ==> BlockSize(d) >= size)
    {
      d := 0;
      while d < DESCS && BlockSize(d) < size
        invariant d <= DESCS && forall j: nat :: j < d ==> BlockSize(j) < size
      {
        d := d + 1;
      }
    }

    /** Get a page and put all its blocks on descriptor `d`'s list. */
    method AddArena(d: nat) returns (p: Option<nat>)
      requires Valid() && d < DESCS == |free|
      modifies this, pages`live, pages.kernel.words, pages.user.words
      ensures pages.Valid() && Owned(View(), pages.live)
      ensures p.Some? ==> p.value !in old(arenas) && View() == WithArena(old(View()), p.value, d)
      ensures p.Some? ==> pages.live == old(pages.live) + {Range(p.value, 1)}
      ensures p.None? ==> View() == old(View()) && pages.live == old(pages.live)
      ensures p.None? <==> FirstRun(old(pages.KernelPool()).bits, 0, 1, false, None)
    {
      hide Inv, BitOf, PagesOk, Blocks, BlockSize, PerArena;
      ghost var h := View();
      var got := pages.GetMultiple(false, false, 1);
      if !got.Got? {
        return None;
      }
      FreshPage(h, pages.KernelPool(), pages.UserPool(), old(pages.live), got.page, 1);
      arenas := arenas[got.page := Arena(Some(d), PerArena(d))];
      BlocksNone(got.page, d, free[d]);
      for k := 0 to PerArena(d)
        modifies `free
        invariant |free| == DESCS && free == h.free[d := h.free[d] + Blocks(got.page, d, k)]
      {
        BlocksStep(got.page, d, k, h.free[d]);
        free := free[d := free[d] + [Block(got.page, d, k)]];
      }
      return Some(got.page);
    }

    /** Take the front block of descriptor `d`'s list. */
    method TakeFront(d: nat) returns (a: nat)
      requires d < DESCS == |free| && Sound(View()) && free[d] != []
      modifies this
      ensures a == old(free[d][0]) && View() == Popped(old(View()), d)
    {
      a := free[d][0];
      FrontIsFree(View(), d, a);
      free := free[d := free[d][1..]];
      arenas := arenas[PageOf(a) := arenas[PageOf(a)].(freeCnt := arenas[PageOf(a)].freeCnt - 1)];
      live := live + {a};
    }

    /** malloc. */
    method Malloc(size: nat) returns (r: Option<nat>)
      requires Valid() && size < SIZE_MAX
      modifies this, pages`live, pages.kernel.words, pages.user.words
      ensures Valid()
      ensures r.None? ==> View() == old(View()) && pages.live == old(pages.live)
      ensures r.Some? ==> Allocated(old(View()), View(), r.value, size)
      ensures |old(free)| == DESCS
      ensures r.None? <==> size == 0 || Exhausted(old(View()), old(pages.KernelPool()).bits, size)
    {
      hide BitOf, PagesOk, Sound, Blocks, BlockSize, PerArena, Owned, Allocated, FirstRun, WithArena, Popped;
      ghost var h := View();
      FreeLists(h);
      if size == 0 {
        return None;
      }
      var d := FindDesc(size);
      FoundDesc(size, d);
      if d == DESCS {
        r := MallocBig(size);
        return;
      }
      if free[d] == [] {
        var p := AddArena(d);
        if p.None? {
          return None;
        }
        NewAllocates(h, p.value, d, size);
      } else {
        PoppedAllocates(h, d, size);
        FullNowhere(h, PageOf(h.free[d][0]));
      }
      ghost var h1 := View();
      FreeLists(h1);
      NoneFull(h1, d);
      OwnedPopped(h1, d, pages.live);
      var a := TakeFront(d);
      return Some(a);
    }

    /** malloc of more than any descriptor holds. */
    method MallocBig(size: nat) returns (r: Option<nat>)
      requires Valid() && 1024 < size < SIZE_MAX
      modifies this, pages`live, pages.kernel.words, pages.user.words
      ensures Valid()
      ensures r.None? ==> View() == old(View()) && pages.live == old(pages.live)
      ensures r.Some? ==> Allocated(old(View()), View(), r.value, size)
      ensures r.None? <==> BigPages(size) == 0 || FirstRun(old(pages.KernelPool()).bits, 0, BigPages(size), false, None)
    {
      hide BitOf, PagesOk, Sound, BlockSize, PerArena, Allocated;
      ghost var h := View();
      var cnt := BigPages(size);
      BigPagesEnough(size);
      hide BigPages;
      var got := pages.GetMultiple(false, false, cnt);
      if !got.Got? {
        return None;
      }
      var p := got.page;
      FreshPage(h, pages.KernelPool(), pages.UserPool(), old(pages.live), p, cnt);
      WithBigSound(h, p, cnt);
      BigAllocates(h, p, cnt, size);
      arenas := arenas[p := Arena(None, cnt)];
      live := live + {p * PGSIZE + HEADER};
      assert View() == WithBig(h, p, cnt);
      return Some(p * PGSIZE + HEADER);
    }

    /** free. */
    method Free(block: Option<nat>)
      requires Valid() && (block.Some? ==> block.value in live)
      modifies this, pages`live, pages.kernel.words, pages.user.words
      ensures Valid()
      ensures block.None? ==> View() == old(View()) && pages.live == old(pages.live)
      ensures block.Some? ==> Freed(old(View()), View(), block.value)
      ensures block.Some? ==> PageOf(block.value) in old(arenas)
      ensures block.Some? ==>
        var p: nat := PageOf(block.value);
        pages.live == if LastInArena(old(View()), block.value)
                      then old(pages.live) - {Range(p, PageCnt(old(arenas)[p]))} else old(pages.live)
    {
      hide BitOf, PagesOk, Sound, BlockSize, PerArena, Freed, LastInArena;
      if block.None? {
        return;
      }
      ghost var h := View();
      var a := block.value;
      StillThere(h, a);
      var p := PageOf(a);
      var desc := arenas[p].desc;
      if desc.None? {
        BigFrees(h, a);
        OwnedLess(h, pages.live, p);
        var cnt := arenas[p].freeCnt;
        pages.FreeMultiple(p, cnt);
        arenas := arenas - {p};
        live := live - {a};
        assert View() == WithoutBig(h, p);
      } else {
        SmallFrees(h, desc.value, a, pages.live);
        FreeLists(h);
        free := free[desc.value := [a] + free[desc.value]];
        arenas := arenas[p := arenas[p].(freeCnt := arenas[p].freeCnt + 1)];
        live := live - {a};
        assert View() == Pushed(h, desc.value, a);
        if arenas[p].freeCnt >= PerArena(desc.value) {
          ghost var h1 := View();
          GiveBack(p, desc.value);
          ReleaseFrees(h, h1, View(), p, desc.value, a);
        } else {
          NotFullAt(View(), p);
        }
      }
    }

    /** Take a full arena's blocks off the list and give its page back. */
    method GiveBack(p: nat, d: nat)
      requires pages.Valid() && Sound(View()) && Owned(View(), pages.live)
      requires d < DESCS && p in arenas && arenas[p] == Arena(Some(d), PerArena(d))
      modifies this, pages`live, pages.kernel.words, pages.user.words
      ensures pages.Valid() && Sound(View()) && Owned(View(), pages.live)
      ensures Released(old(View()), View(), p, d) && pages.live == old(pages.live) - {Range(p, 1)}
    {
      hide BitOf, PagesOk, BlockSize, PerArena, Sound, Without;
      ghost var h := View();
      FreeLists(h);
      WithoutNone(h.free[d], p, d);
      for k := 0 to PerArena(d)
        modifies `free
        invariant |free| == DESCS && free == h.free[d := Without(h.free[d], p, d, k)]
      {
        ListedBlock(h, p, d, k);
        WithoutStep(h.free[d], p, d, k);
        assert Block(p, d, k) in free[d];
        free := free[d := Remove(free[d], Block(p, d, k))];
      }
      AllTakenOff(h, p, d);
      arenas := arenas - {p};
      ReleasedSound(h, View(), p, d);
      OwnedLess(h, pages.live, p);
      pages.FreeMultiple(p, 1);
    }
  }

  /** The block about to be unlinked is on the list. */
  lemma ListedBlock(h: Heap, p: nat, i: nat, k: nat)
    requires Sound(h) && i < DESCS && p in h.arenas && h.arenas[p] == Arena(Some(i), PerArena(i)) && k < PerArena(i)
    ensures Block(p, i, k) in Without(h.free[i], p, i, k)
  {
    assert ArenaOk(h, p);
    CountFull(h.free[i], p, i, PerArena(i));
    WithoutIs(h.free[i], p, i, k);
    forall m: nat | m < k ensures Block(p, i, k) != Block(p, i, m) { BlocksApart(p, i, m, k); }
  }

  lemma AllTakenOff(h: Heap, p: nat, i: nat)
    requires Sound(h) && i < DESCS
    ensures var l := Without(h.free[i], p, i, PerArena(i));
      NoDup(l) && forall x: nat :: x in l <==> x in h.free[i] && PageOf(x) != p
  {
    WithoutIs(h.free[i], p, i, PerArena(i));
    var l := Without(h.free[i], p, i, PerArena(i));
    forall x: nat ensures x in l <==> x in h.free[i] && PageOf(x) != p {
      if x in h.free[i] {
        assert FreeOk(h, i, x);
        if PageOf(x) != p {
          forall m: nat | m < PerArena(i) ensures x != Block(p, i, m) { BlockInside(p, i, m); }
        }
      }
    }
  }

  lemma WithoutNone(l: seq<nat>, p: nat, i: nat)
    requires i < DESCS
    ensures Without(l, p, i, 0) == l
  {
  }

  lemma WithoutStep(l: seq<nat>, p: nat, i: nat, k: nat)
    requires i < DESCS
    ensures Without(l, p, i, k + 1) == Remove(Without(l, p, i, k), Block(p, i, k))
  {
  }

  lemma BlocksNone(p: nat, i: nat, l: seq<nat>)
    requires i < DESCS
    ensures l + Blocks(p, i, 0) == l
  {
  }

  lemma BlocksStep(p: nat, i: nat, k: nat, l: seq<nat>)
    requires i < DESCS
    ensures (l + Blocks(p, i, k)) + [Block(p, i, k)] == l + Blocks(p, i, k + 1)
  {
  }
}
