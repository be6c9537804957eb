/** threads/palloc.c: page ranges handed out from a kernel pool and a user pool. */
module Pages {
  import opened Common
  import opened Bitmaps

  /** Pages `start` up to `start + cnt`, by page number. */
  datatype Range = Range(start: nat, cnt: nat)

  /** A pool: its used map and the number of its first page. */
  datatype Pool = Pool(bits: seq<bool>, base: nat)

  ghost predicate Holds(r: Range, p: nat) { r.start <= p < r.start + r.cnt }

  ghost predicate Apart(r: Range, s: Range) { r.start + r.cnt <= s.start || s.start + s.cnt <= r.start }

  ghost predicate Within(r: Range, pool: Pool) { pool.base <= r.start && r.start + r.cnt <= pool.base + |pool.bits| }

  /** A page of the pool is marked exactly when some outstanding range holds it. */
  ghost predicate Tracks(pool: Pool, live: set<Range>) {
    forall i: nat :: i < |pool.bits| ==> (pool.bits[i] <==> Taken(live, pool.base + i))
  }
  ghost predicate Taken(live: set<Range>, p: nat) { exists r :: r in live && Holds(r, p) }

  /** Outstanding ranges are not empty, lie inside one pool and do not overlap; the used maps say what is taken. */
  ghost predicate PagesOk(a: Pool, b: Pool, live: set<Range>) {
    && (a.base + |a.bits| <= b.base || b.base + |b.bits| <= a.base)
    && (forall r :: r in live ==> r.cnt > 0 && (Within(r, a) || Within(r, b)))
    && (forall r, s :: r in live && s in live && r != s ==> Apart(r, s))
    && Tracks(a, live) && Tracks(b, live)
  }

  lemma PoolsSwap(a: Pool, b: Pool, live: set<Range>)
    requires PagesOk(a, b, live)
    ensures PagesOk(b, a, live)
  {
  }

  lemma RangesApart(a: Pool, b: Pool, live: set<Range>, r: Range, s: Range)
    requires PagesOk(a, b, live) && r in live && s in live && r != s
    ensures Apart(r, s) && r.cnt > 0 && s.cnt > 0
  {
  }

  function Took(pool: Pool, i: nat, cnt: nat): Pool
    requires i + cnt <= |pool.bits|
  {
    Pool(Fill(pool.bits, i, cnt, true), pool.base)
  }
  function Gave(pool: Pool, i: nat, cnt: nat): Pool
    requires i + cnt <= |pool.bits|
  {
    Pool(Fill(pool.bits, i, cnt, false), pool.base)
  }

  lemma HeldIsMarked(a: Pool, live: set<Range>, r: Range, p: nat)
    requires Tracks(a, live) && r in live
    ensures Holds(r, p) && a.base <= p < a.base + |a.bits| ==> a.bits[p - a.base]
  {
    if Holds(r, p) && a.base <= p < a.base + |a.bits| { assert Taken(live, a.base + (p - a.base)); }
  }

  /** A run of free pages is apart from every outstanding range. */
  lemma FreshApart(a: Pool, b: Pool, live: set<Range>, i: nat, cnt: nat, r: Range)
    requires PagesOk(a, b, live) && cnt > 0 && i + cnt <= |a.bits| && AllAre(a.bits, i, cnt, false) && r in live
    ensures Apart(r, Range(a.base + i, cnt))
  {
    HeldIsMarked(a, live, r, if r.start <= a.base + i then a.base + i else r.start);
  }

  lemma TakeKeeps(a: Pool, b: Pool, live: set<Range>, i: nat, cnt: nat)
    requires PagesOk(a, b, live) && cnt > 0 && i + cnt <= |a.bits| && AllAre(a.bits, i, cnt, false)
    ensures PagesOk(Took(a, i, cnt), b, live + {Range(a.base + i, cnt)})
    ensures Range(a.base + i, cnt) !in live
  {
    var n := Range(a.base + i, cnt);
    var a', live' := Took(a, i, cnt), live + {n};
    forall r | r in live ensures Apart(r, n) { FreshApart(a, b, live, i, cnt, r); }
    assert n in live';
    forall j: nat | j < |a'.bits| ensures a'.bits[j] <==> Taken(live', a.base + j) {
      assert Taken(live', a.base + j) <==> Taken(live, a.base + j) || Holds(n, a.base + j);
    }
    forall j: nat | j < |b.bits| ensures b.bits[j] <==> Taken(live', b.base + j) {
      assert Taken(live', b.base + j) <==> Taken(live, b.base + j) || Holds(n, b.base + j);
    }
  }

  lemma GiveKeeps(a: Pool, b: Pool, live: set<Range>, r: Range)
    requires PagesOk(a, b, live) && r in live && Within(r, a)
    ensures AllAre(a.bits, r.start - a.base, r.cnt, true)
    ensures PagesOk(Gave(a, r.start - a.base, r.cnt), b, live - {r})
  {
    var i := r.start - a.base;
    forall j | i <= j < i + r.cnt ensures a.bits[j] { assert Holds(r, a.base + j); }
    var a', live' := Gave(a, i, r.cnt), live - {r};
    forall p: nat ensures Taken(live', p) <==> Taken(live, p) && !Holds(r, p) {
      if Taken(live', p) {
        var s :| s in live' && Holds(s, p);
        assert Apart(r, s);
      }
    }
  }

  /** page_from_pool looks at the first page only; that is enough. */
  lemma WhichPool(a: Pool, b: Pool, live: set<Range>, r: Range)
    requires PagesOk(a, b, live)
    ensures r in live ==> r.cnt > 0 && if a.base <= r.start < a.base + |a.bits| then Within(r, a) else Within(r, b)
  {
  }

  /** palloc_get_multiple's outcome: null, a page number, or the panic of PAL_ASSERT. */
  datatype Outcome = Null | Got(page: nat) | Panic

  class PageAllocator {
    const kernel: Bitmap
    const kernelBase: nat
    const user: Bitmap
    const userBase: nat
    ghost var live: set<Range>

    ghost predicate Valid()
      reads this, kernel, kernel.words, user, user.words
    {
      && kernel.Valid() && user.Valid() && kernel.words != user.words && kernelBase > 0 && userBase > 0
      && PagesOk(KernelPool(), UserPool(), live)
    }

    ghost function KernelPool(): Pool
      requires kernel.Valid()
      reads this, kernel, kernel.words
    {
      Pool(kernel.Bits(), kernelBase)
    }

    ghost function UserPool(): Pool
      requires user.Valid()
      reads this, user, user.words
    {
      Pool(user.Bits(), userBase)
    }

    /** palloc_init with the used maps already in place: the user pool comes after the kernel pool. */
    constructor (k: Bitmap, kb: nat, u: Bitmap, ub: nat)
      requires k.Valid() && u.Valid() && k.words != u.words && 0 < kb && kb + k.bitCnt <= ub
      requires AllAre(k.Bits(), 0, k.bitCnt, false) && AllAre(u.Bits(), 0, u.bitCnt, false)
      ensures Valid() && live == {} && kernel == k && user == u && kernelBase == kb && userBase == ub
    {
      kernel, kernelBase, user, userBase, live := k, kb, u, ub, {};
      new;
      hide BitOf;
      assert forall p: nat :: !Taken(live, p);
    }

    /** palloc_get_multiple: the lowest run of `cnt` free pages of the pool, or none if there is no such run. */
    method GetMultiple(fromUser: bool, mustHave: bool, cnt: nat) returns (r: Outcome)
      requires Valid()
      modifies this`live, kernel.words, user.words
      ensures Valid()
      ensures cnt == 0 ==> r == Null && live == old(live)
      ensures cnt > 0 ==>
        var pool := if fromUser then old(UserPool()) else old(KernelPool());
        match r
        case Got(p) =>
          && pool.base <= p && FirstRun(pool.bits, 0, cnt, false, Some(p - pool.base))
          && live == old(live) + {Range(p, cnt)} && Range(p, cnt) !in old(live)
        case _ => FirstRun(pool.bits, 0, cnt, false, None) && live == old(live) && r.Panic? == mustHave
    {
      hide BitOf, PagesOk;
      if cnt == 0 {
        return Null;
      }
      if fromUser {
        PoolsSwap(KernelPool(), UserPool(), live);
        ghost var u, k := UserPool(), KernelPool();
        var i := user.ScanAndFlip(0, cnt, false);
        if i.Some? {
          TakeKeeps(u, k, live, i.value, cnt);
          live := live + {Range(userBase + i.value, cnt)};
          assert UserPool() == Took(u, i.value, cnt) && KernelPool() == k;
          PoolsSwap(UserPool(), KernelPool(), live);
          return Got(userBase + i.value);
        }
      } else {
        ghost var u, k := UserPool(), KernelPool();
        var i := kernel.ScanAndFlip(0, cnt, false);
        if i.Some? {
          TakeKeeps(k, u, live, i.value, cnt);
          live := live + {Range(kernelBase + i.value, cnt)};
          assert KernelPool() == Took(k, i.value, cnt) && UserPool() == u;
          return Got(kernelBase + i.value);
        }
      }
      r := if mustHave then Panic else Null;
    }

    /** palloc_free_multiple of an outstanding range. The pool is the one the first page lies in. */
    method FreeMultiple(page: nat, cnt: nat)
      requires Valid() && (cnt == 0 || Range(page, cnt) in live)
      modifies this`live, kernel.words, user.words
      ensures Valid() && live == old(live) - {Range(page, cnt)}
    {
      hide BitOf, PagesOk;
      ghost var k, u, r := KernelPool(), UserPool(), Range(page, cnt);
      WhichPool(k, u, live, r);
      if cnt == 0 {
        return;
      }
      if kernelBase <= page < kernelBase + kernel.bitCnt {
        GiveKeeps(k, u, live, r);
        kernel.SetMultiple(page - kernelBase, cnt, false);
        live := live - {r};
        assert KernelPool() == Gave(k, page - kernelBase, cnt) && UserPool() == u;
      } else {
        PoolsSwap(k, u, live);
        GiveKeeps(u, k, live, r);
        user.SetMultiple(page - userBase, cnt, false);
        live := live - {r};
        assert UserPool() == Gave(u, page - userBase, cnt) && KernelPool() == k;
        PoolsSwap(UserPool(), KernelPool(), live);
      }
    }
  }
}
