/**
 What paging amounts to for its users: the bytes of a page over whole runs, the swap slots in use,
 and the times eviction goes by.
 */
module PageUse {
  import opened Common
  import opened Seqs
  import opened Paging

  // ---- the bytes of a page ----

  /** The last byte stored at `i` of page `q`, or `b` if there was none. */
  function LastStored(b: Byte, q: nat, i: nat, steps: seq<Step>): Byte
    decreases |steps|
  {
    if steps == [] then b
    else
      var a := steps[|steps| - 1];
      if a.Write? && a.q == q && a.ofs == i then a.b else LastStored(b, q, i, steps[..|steps| - 1])
  }

  lemma {:induction false} ReplayLast(c: Content, q: nat, steps: seq<Step>)
    requires steps != []
    ensures var n := |steps| - 1; Replay(c, q, steps) == Effect(Replay(c, q, steps[..n]), q, steps[n])
    decreases |steps|
  {
    var n := |steps| - 1;
    if n > 0 {
      ReplayLast(Effect(c, q, steps[0]), q, steps[1..]);
      assert steps[1..][..n - 1] == steps[..n][1..];
    }
  }

  lemma {:induction false} ReplayByte(c: Content, q: nat, steps: seq<Step>, i: nat)
    requires i < PGSIZE
    ensures Replay(c, q, steps)[i] == LastStored(c[i], q, i, steps)
    decreases |steps|
  {
    if steps != [] {
      ReplayLast(c, q, steps);
      ReplayByte(c, q, steps[..|steps| - 1], i);
    }
  }

  /** Byte `i` of page `q`, wherever the page is. */
  ghost predicate HoldsByte(v: Vm, q: nat, i: nat, b: Byte) {
    && q in v.pages && i < 4096
    && match v.pages[q].present
       case InMemory =>
         v.pages[q].kpage.Some? && v.pages[q].kpage.value in v.memory && v.memory[v.pages[q].kpage.value][i] == b
       case InSwap(s) => s < |v.swap| && v.swap[s][i] == b
       case InFilesys =>
         v.pages[q].file.Some? && b == if i < |v.pages[q].file.value| then v.pages[q].file.value[i] else 0
  }

  lemma ContentsByte(v: Vm, q: nat, i: nat)
    requires Inv(v) && q in v.pages && i < PGSIZE
    ensures HoldsByte(v, q, i, Contents(v, q)[i])
  {
    assert PageOk(v, q);
  }

  /** A page of a lazily loaded segment: after any run that does not destroy it, in memory or in swap, each byte is the
      last one the program stored there, or else the file's, or zero past the file's part. */
  lemma FilePageBytes(v: Vm, q: nat, file: seq<Byte>, writable: bool, steps: seq<Step>, i: nat)
    requires Inv(v) && q !in v.pages && i < 4096 && Destroy(q) !in steps
    requires Legal(Apply(v, Lazy(q, file, writable)).vm, steps)
    ensures HoldsByte(Final(Apply(v, Lazy(q, file, writable)).vm, steps), q, i,
                      LastStored(if i < |file| then file[i] else 0, q, i, steps))
  {
    var v1 := Apply(v, Lazy(q, file, writable)).vm;
    LazyKeeps(v, q, file, writable);
    RunKeeps(v1, steps, q);
    ContentsByte(v1, q, i);
    ContentsByte(Final(v1, steps), q, i);
    ReplayByte(Contents(v1, q), q, steps, i);
  }

  /** The fault itself: the page is mapped and its frame holds the file's bytes followed by zeros. */
  lemma FirstFault(v: Vm, q: nat, file: seq<Byte>, writable: bool, got: Option<nat>, now: int, i: nat)
    requires Inv(v) && q !in v.pages && i < 4096
    requires var v1 := Apply(v, Lazy(q, file, writable)).vm; Ready(v1, got) && Apply(v1, Fault(q, got, now)).Done?
    ensures var w := Apply(Apply(v, Lazy(q, file, writable)).vm, Fault(q, got, now)).vm;
      && q in w.pages && w.pages[q].mapped && w.pages[q].kpage.Some? && w.pages[q].kpage.value in w.memory
      && w.memory[w.pages[q].kpage.value][i] == if i < |file| then file[i] else 0
  {
    var v1 := Apply(v, Lazy(q, file, writable)).vm;
    var steps := [Fault(q, got, now)];
    var w := Apply(v1, Fault(q, got, now)).vm;
    assert steps[1..] == [] && steps[..0] == [];
    assert Legal(w, []) && Legal(v1, steps) && Final(v1, steps) == Final(w, []) == w;
    FilePageBytes(v, q, file, writable, steps, i);
    LazyKeeps(v, q, file, writable);
    LoadKeeps(v1, q, got, now);
    assert PageOk(w, q);
    assert LastStored(if i < |file| then file[i] else 0, q, i, []) == if i < |file| then file[i] else 0;
  }

  /** A new stack page is cleared when it comes from the page allocator. */
  lemma StackIsZero(v: Vm, q: nat, junk: Option<seq<Byte>>, k: nat, now: int, i: nat)
    requires Inv(v) && q !in v.pages && Ready(v, Some(k)) && i < 4096
    ensures StackPage(v, q, junk, Some(k), now).Done?
    ensures var w := StackPage(v, q, junk, Some(k), now).vm;
      q in w.pages && w.pages[q].mapped && w.pages[q].kpage == Some(k) && k in w.memory && w.memory[k][i] == 0
  {
  }

  /** One that takes over a frame starts with what the page evicted from it held. */
  lemma StackInherits(v: Vm, q: nat, junk: Option<seq<Byte>>, now: int)
    requires Inv(v) && q !in v.pages && Ready(v, None) && StackPage(v, q, junk, None, now).Done?
    ensures var w := StackPage(v, q, junk, None, now).vm; var k := v.table[Victim(v.table)].kpage;
      q in w.pages && w.pages[q].mapped && w.pages[q].kpage == Some(k) && k in v.memory && k in w.memory && w.memory[k] == v.memory[k]
  {
    hide Victim;
    EvictLike(v, q, junk, Victim(v.table));
  }

  /** Whether a program may write to a page is settled when the page is made. */
  lemma {:induction false} WritableKept(v: Vm, steps: seq<Step>, q: nat)
    requires Inv(v) && Legal(v, steps) && q in v.pages && Destroy(q) !in steps
    ensures q in Final(v, steps).pages && Final(v, steps).pages[q].writable == v.pages[q].writable
    decreases |steps|
  {
    if steps != [] {
      assert steps[0] in steps && forall a :: a in steps[1..] ==> a in steps;
      hide Inv, Apply, Enabled;
      StepWritable(v, steps[0], q);
      StepKeeps(v, steps[0]);
      WritableKept(Apply(v, steps[0]).vm, steps[1..], q);
    }
  }

  lemma StepWritable(v: Vm, a: Step, q: nat)
    requires Inv(v) && Enabled(v, a) && Apply(v, a).Done? && q in v.pages && a != Destroy(q)
    ensures var w := Apply(v, a).vm; q in w.pages && w.pages[q].writable == v.pages[q].writable
  {
    hide Framed, Inv;
    match a
    case Stack(r, junk, got, now) => FramedWritable(WithStack(v, r, junk), r, got, now, q);
    case Fault(r, got, now) => if v.pages[r].present != InMemory { FramedWritable(v, r, got, now, q); }
    case _ =>
  }

  lemma FramedWritable(v: Vm, r: nat, got: Option<nat>, now: int, q: nat)
    requires Ready(v, got) && r in v.pages && q in v.pages && Framed(v, r, got, now).Done?
    ensures var w := Framed(v, r, got, now).vm; q in w.pages && w.pages[q].writable == v.pages[q].writable
  {
    hide Victim, FirstFree;
  }

  /** A page of a lazily loaded segment can be written exactly if the segment can, and a stack page always can. */
  lemma MadeWritable(v: Vm, q: nat, file: seq<Byte>, writable: bool, junk: Option<seq<Byte>>, got: Option<nat>, now: int)
    requires Inv(v) && q !in v.pages && Ready(v, got)
    ensures Apply(v, Lazy(q, file, writable)).vm.pages[q].writable == writable
    ensures StackPage(v, q, junk, got, now).Done? ==>
      q in StackPage(v, q, junk, got, now).vm.pages && StackPage(v, q, junk, got, now).vm.pages[q].writable
  {
    forall f | f in v.table ensures f.page != q { assert FrameOk(v, f); }
    if got.None? { EvictLike(v, q, junk, Victim(v.table)); }
  }

  // ---- swap slots ----

  /** Every slot that is taken holds some page. */
  ghost predicate NoLeak(v: Vm) { forall s: nat :: s < |v.free| && !v.free[s] ==> SlotUsed(v, s) }
  ghost predicate SlotUsed(v: Vm, s: nat) { exists q: nat :: q in v.pages && v.pages[q].present == InSwap(s) }

  lemma UsedBy(v: Vm, q: nat, s: nat)
    requires q in v.pages && v.pages[q].present == InSwap(s)
    ensures SlotUsed(v, s)
  {
  }

  lemma SwappedOutLeak(v: Vm, i: nat, s: nat, q: nat)
    requires NoLeak(v) && i < |v.table| && v.table[i].page in v.pages && v.table[i].kpage in v.memory && s < |v.free| == |v.swap|
    requires !v.pages[v.table[i].page].present.InSwap? && v.free[s]
    ensures NoLeak(SwappedOut(v, i, s))
  {
    var w := SwappedOut(v, i, s);
    forall t: nat | t < |w.free| && !w.free[t] ensures SlotUsed(w, t) {
      if t == s {
        UsedBy(w, v.table[i].page, s);
      } else {
        assert SlotUsed(v, t);
        var r: nat :| r in v.pages && v.pages[r].present == InSwap(t);
        UsedBy(w, r, t);
      }
    }
  }

  /** The state with a frame for `q`, before `q` says that it is in memory. */
  lemma FramedLeak(v: Vm, q: nat, got: Option<nat>, now: int)
    requires Inv(v) && NoLeak(v) && Ready(v, got) && q in v.pages && v.pages[q].present != InMemory
    requires Framed(v, q, got, now).Done?
    ensures NoLeak(Framed(v, q, got, now).vm)
    ensures Framed(v, q, got, now).vm.pages[q].present == v.pages[q].present
  {
    match got
    case Some(k) => SameSlots(v, Fresh(v, q, k, now));
    case None =>
      var i := Victim(v.table);
      EvictsToSwap(v, i);
      var s := FirstFree(v.free).value;
      SwappedOutLeak(v, i, s, q);
      SameSlots(SwappedOut(v, i, s), Reused(SwappedOut(v, i, s), q));
  }

  lemma SameSlots(v: Vm, w: Vm)
    requires NoLeak(v) && w.free == v.free && forall q: nat :: q in v.pages ==> q in w.pages && w.pages[q].present == v.pages[q].present
    ensures NoLeak(w)
  {
    forall s: nat | s < |w.free| && !w.free[s] ensures SlotUsed(w, s) {
      assert SlotUsed(v, s);
      var q: nat :| q in v.pages && v.pages[q].present == InSwap(s);
      UsedBy(w, q, s);
    }
  }

  /** Filling the frame of a page takes it out of its slot, if it had one. */
  lemma FilledLeak(v: Vm, q: nat, data: Content, s: nat)
    requires NoLeak(v) && q in v.pages && v.pages[q].kpage.Some?
    ensures !v.pages[q].present.InSwap? ==> NoLeak(Filled(v, q, data))
    ensures v.pages[q].present == InSwap(s) && s < |v.free| ==> NoLeak(Freed(Filled(v, q, data), s))
  {
    var w := Filled(v, q, data);
    forall t: nat | t < |v.free| && !v.free[t] && v.pages[q].present != InSwap(t) ensures SlotUsed(w, t) {
      assert SlotUsed(v, t);
      var r: nat :| r in v.pages && v.pages[r].present == InSwap(t);
      UsedBy(w, r, t);
    }
    if v.pages[q].present == InSwap(s) && s < |v.free| {
      forall t: nat | t < |v.free| && t != s && !v.free[t] ensures SlotUsed(Freed(w, s), t) {
        assert SlotUsed(w, t);
        var r: nat :| r in w.pages && w.pages[r].present == InSwap(t);
        UsedBy(Freed(w, s), r, t);
      }
    }
  }

  lemma LoadLeak(v: Vm, q: nat, got: Option<nat>, now: int)
    requires Inv(v) && NoLeak(v) && Ready(v, got) && q in v.pages && Load(v, q, got, now).Done?
    ensures NoLeak(Load(v, q, got, now).vm)
  {
    hide Framed, Filled, Freed, NoLeak, Inv;
    match v.pages[q].present
    case InMemory =>
    case InFilesys =>
      FramedLeak(v, q, got, now);
      FilledLeak(Framed(v, q, got, now).vm, q, Image(if v.pages[q].file.Some? then v.pages[q].file.value else []), 0);
    case InSwap(s) =>
      FramedLeak(v, q, got, now);
      var w := Framed(v, q, got, now).vm;
      FilledLeak(w, q, w.swap[s], s);
  }

  lemma StackLeak(v: Vm, q: nat, junk: Option<seq<Byte>>, got: Option<nat>, now: int)
    requires Inv(v) && NoLeak(v) && q !in v.pages && Ready(v, got) && StackPage(v, q, junk, got, now).Done?
    ensures NoLeak(StackPage(v, q, junk, got, now).vm)
  {
    hide StackPage, Framed, WithFile, NoLeak;
    LazyKeeps(v, q, [], true);
    var u := AsLazy(v, q);
    SameSlots(v, u);
    InvReady(u, got);
    StackLike(v, q, junk, got, now);
    var o := Framed(u, q, got, now);
    FramedLeak(u, q, got, now);
    FilledLeak(o.vm, q, HeldBy(o.vm, q), 0);
    var w := Filled(o.vm, q, HeldBy(o.vm, q));
    FileSlots(w, q, junk);
  }

  lemma FileSlots(w: Vm, q: nat, file: Option<seq<Byte>>)
    requires NoLeak(w) && q in w.pages
    ensures NoLeak(WithFile(w, q, file))
  {
    SameSlots(w, WithFile(w, q, file));
  }

  lemma DestroyLeak(v: Vm, q: nat)
    requires NoLeak(v) && q in v.pages
    ensures NoLeak(Destroyed(v, q))
  {
    var w := Destroyed(v, q);
    forall t: nat | t < |w.free| && !w.free[t] ensures SlotUsed(w, t) {
      assert SlotUsed(v, t);
      var r: nat :| r in v.pages && v.pages[r].present == InSwap(t);
      assert r != q;
      UsedBy(w, r, t);
    }
  }

  lemma StepLeak(v: Vm, a: Step)
    requires Inv(v) && NoLeak(v) && Enabled(v, a) && Apply(v, a).Done?
    ensures NoLeak(Apply(v, a).vm)
  {
    hide Inv, Load, StackPage, Destroyed, Ready, NoLeak;
    match a
    case Lazy(q, file, writable) => SameSlots(v, Apply(v, a).vm);
    case Stack(q, junk, got, now) => StackLeak(v, q, junk, got, now);
    case Fault(q, got, now) => LoadLeak(v, q, got, now);
    case Write(q, ofs, b) => SameSlots(v, Apply(v, a).vm);
    case Read(q) => SameSlots(v, Apply(v, a).vm);
    case Tick(now) => SameSlots(v, Apply(v, a).vm);
    case Destroy(q) => DestroyLeak(v, q);
  }

  lemma {:induction false} RunLeak(v: Vm, steps: seq<Step>)
    requires Inv(v) && NoLeak(v) && Legal(v, steps)
    ensures Inv(Final(v, steps)) && NoLeak(Final(v, steps))
    decreases |steps|
  {
    if steps != [] {
      hide Inv, NoLeak, Apply, Enabled;
      StepLeak(v, steps[0]);
      StepKeeps(v, steps[0]);
      RunLeak(Apply(v, steps[0]).vm, steps[1..]);
    }
  }

  /** From the start on, a swap slot is taken exactly when some page is in it: coming back from swap and destroying a
      page give the slot back. */
  lemma SlotsExactly(slots: nat, steps: seq<Step>, s: nat)
    requires s < slots
    requires Legal(Vm(map[], [], map[], {}, seq(slots, _ => true), seq(slots, _ => ZeroPage())), steps)
    ensures var w := Final(Vm(map[], [], map[], {}, seq(slots, _ => true), seq(slots, _ => ZeroPage())), steps);
      |w.free| == slots && (!w.free[s] <==> exists q: nat :: q in w.pages && w.pages[q].present == InSwap(s))
  {
    var v := Vm(map[], [], map[], {}, seq(slots, _ => true), seq(slots, _ => ZeroPage()));
    StartInv(slots);
    RunLeak(v, steps);
    RunSlots(v, steps);
    var w := Final(v, steps);
    if !w.free[s] { assert SlotUsed(w, s); }
    if q: nat :| q in w.pages && w.pages[q].present == InSwap(s) { assert PageOk(w, q); }
  }

  lemma StepSlots(v: Vm, a: Step)
    requires Inv(v) && Enabled(v, a) && Apply(v, a).Done?
    ensures |Apply(v, a).vm.free| == |v.free|
  {
    hide Framed, Ready;
  }

  lemma {:induction false} RunSlots(v: Vm, steps: seq<Step>)
    requires Inv(v) && Legal(v, steps)
    ensures |Final(v, steps).free| == |v.free|
    decreases |steps|
  {
    if steps != [] {
      hide Inv, Apply, Enabled;
      StepSlots(v, steps[0]);
      StepKeeps(v, steps[0]);
      RunSlots(Apply(v, steps[0]).vm, steps[1..]);
    }
  }

  // ---- the times eviction goes by ----

  ghost predicate Resident(v: Vm, q: nat) { q in v.pages && v.pages[q].present == InMemory }

  ghost predicate HasTick(v: Vm, q: nat, n: int) { exists f :: f in v.table && f.page == q && f.tick == n }

  predicate SameBits(p: Page, r: Page) { r.accessed == p.accessed && r.dirty == p.dirty }

  lemma KeepsFrame(v: Vm, w: Vm, q: nat, n: int)
    requires HasTick(v, q, n) && forall f :: f in v.table && f.page == q ==> f in w.table
    ensures HasTick(w, q, n)
  {
  }

  lemma ReusedFrame(v: Vm, i: nat, s: nat, r: nat, f: Frame)
    requires i < |v.table| && v.table[i].page in v.pages && v.table[i].kpage in v.memory && s < |v.free| == |v.swap| && r in v.pages
    requires f in v.table && f != v.table[i]
    ensures r in SwappedOut(v, i, s).pages && f in Reused(SwappedOut(v, i, s), r).table
  {
    var t := SwappedOut(v, i, s).table;
    var j: nat :| j < |v.table| && v.table[j] == f;
    assert t[if j < i then j else j - 1] == f;
    assert Reused(SwappedOut(v, i, s), r).table[if j < i then j else j - 1] == f;
  }

  /** Taking a frame for another page leaves the frames of the pages that stay. */
  lemma FramedTick(v: Vm, r: nat, got: Option<nat>, now: int, q: nat, n: int)
    requires Inv(v) && Ready(v, got) && r in v.pages && v.pages[r].present != InMemory && Framed(v, r, got, now).Done?
    requires Resident(v, q) && HasTick(v, q, n)
    ensures var w := Framed(v, r, got, now).vm;
      q in w.pages && SameBits(v.pages[q], w.pages[q]) && (w.pages[q].present == InMemory ==> HasTick(w, q, n))
  {
    match got
    case Some(k) => KeepsFrame(v, Fresh(v, r, k, now), q, n);
    case None =>
      var i := Victim(v.table);
      EvictsToSwap(v, i);
      var s := FirstFree(v.free).value;
      var w := Reused(SwappedOut(v, i, s), r);
      if w.pages[q].present == InMemory {
        forall f | f in v.table && f.page == q ensures f in w.table { ReusedFrame(v, i, s, r, f); }
        KeepsFrame(v, w, q, n);
      }
  }

  ghost predicate Touches(a: Step, q: nat) { (a.Read? || a.Write?) && a.q == q }

  /** How a step changes the pair of a page's time and its accessed bit. */
  ghost function Timed(time: int, used: bool, a: Step, q: nat): (int, bool) {
    if a.Tick? then (if used then a.now else time, false) else (time, used || Touches(a, q))
  }

  lemma FilledTick(v: Vm, r: nat, data: Content, q: nat, n: int)
    requires r in v.pages && v.pages[r].kpage.Some? && q != r && q in v.pages
    ensures var w := Filled(v, r, data);
      q in w.pages && w.pages[q] == v.pages[q] && (HasTick(v, q, n) ==> HasTick(w, q, n))
  {
    assert Filled(v, r, data).table == v.table;
  }

  lemma LoadTick(v: Vm, r: nat, got: Option<nat>, now: int, q: nat, n: int)
    requires Inv(v) && Ready(v, got) && r in v.pages && Load(v, r, got, now).Done? && Resident(v, q) && HasTick(v, q, n)
    ensures var w := Load(v, r, got, now).vm;
      Resident(w, q) ==> SameBits(v.pages[q], w.pages[q]) && HasTick(w, q, n)
  {
    hide Framed, HasTick, Inv;
    match v.pages[r].present
    case InMemory =>
    case InFilesys =>
      FramedTick(v, r, got, now, q, n);
      FilledTick(Framed(v, r, got, now).vm, r, Image(if v.pages[r].file.Some? then v.pages[r].file.value else []), q, n);
    case InSwap(s) =>
      FramedTick(v, r, got, now, q, n);
      var u := Framed(v, r, got, now).vm;
      FilledTick(u, r, u.swap[s], q, n);
      FreedTick(Filled(u, r, u.swap[s]), s, q, n);
  }

  lemma FreedTick(v: Vm, s: nat, q: nat, n: int)
    requires s < |v.free|
    ensures Freed(v, s).pages == v.pages && (HasTick(v, q, n) <==> HasTick(Freed(v, s), q, n))
  {
    assert Freed(v, s).table == v.table;
  }

  lemma StackTick(v: Vm, r: nat, junk: Option<seq<Byte>>, got: Option<nat>, now: int, q: nat, n: int)
    requires Inv(v) && r !in v.pages && Ready(v, got) && StackPage(v, r, junk, got, now).Done?
    requires Resident(v, q) && HasTick(v, q, n)
    ensures var w := StackPage(v, r, junk, got, now).vm;
      Resident(w, q) ==> SameBits(v.pages[q], w.pages[q]) && HasTick(w, q, n)
  {
    hide StackPage, Framed, WithFile;
    LazyKeeps(v, r, [], true);
    var u := AsLazy(v, r);
    InvReady(u, got);
    StackLike(v, r, junk, got, now);
    assert u.table == v.table && HasTick(u, q, n);
    FramedTick(u, r, got, now, q, n);
    var o := Framed(u, r, got, now).vm;
    FilledTick(o, r, HeldBy(o, r), q, n);
    FileTick(Filled(o, r, HeldBy(o, r)), r, junk, q, n);
  }

  lemma FileTick(v: Vm, r: nat, file: Option<seq<Byte>>, q: nat, n: int)
    requires r in v.pages && q != r && q in v.pages
    ensures q in WithFile(v, r, file).pages && WithFile(v, r, file).pages[q] == v.pages[q]
    ensures HasTick(v, q, n) ==> HasTick(WithFile(v, r, file), q, n)
  {
    assert WithFile(v, r, file).table == v.table;
  }

  lemma DestroyTick(v: Vm, r: nat, q: nat, n: int)
    requires Inv(v) && r in v.pages && q != r && Resident(v, q) && HasTick(v, q, n)
    ensures var w := Destroyed(v, r); q in w.pages && w.pages[q] == v.pages[q] && HasTick(w, q, n)
  {
    var w := Destroyed(v, r);
    assert PageOk(v, r) && PageOk(v, q);
    if v.pages[r].present == InMemory {
      WithoutFrameIs(v.table, v.pages[r].kpage.value);
      FramesApart(v, q, r);
    }
    forall f | f in v.table && f.page == q ensures f in w.table { assert FrameOk(v, f); }
    KeepsFrame(v, w, q, n);
  }

  lemma TickTick(v: Vm, now: int, q: nat, n: int)
    requires Resident(v, q) && HasTick(v, q, n)
    ensures var w := Ticked(v, now);
      && q in w.pages && !w.pages[q].accessed && w.pages[q].dirty == v.pages[q].dirty
      && HasTick(w, q, if v.pages[q].accessed then now else n)
  {
    var w := Ticked(v, now);
    var f :| f in v.table && f.page == q && f.tick == n;
    var j: nat :| j < |v.table| && v.table[j] == f;
    assert w.table[j] in w.table;
  }

  lemma StepTick(v: Vm, a: Step, q: nat, n: int)
    requires Inv(v) && Enabled(v, a) && Apply(v, a).Done? && Resident(v, q) && HasTick(v, q, n)
    requires Resident(Apply(v, a).vm, q)
    ensures var w := Apply(v, a).vm; var (n', used) := Timed(n, v.pages[q].accessed, a, q);
      && HasTick(w, q, n') && w.pages[q].accessed == used
      && w.pages[q].dirty == (v.pages[q].dirty || (a.Write? && a.q == q))
  {
    hide Inv, Load, StackPage, Destroyed, Ticked, Ready;
    match a
    case Lazy(r, file, writable) => assert Apply(v, a).vm.table == v.table;
    case Stack(r, junk, got, now) => StackTick(v, r, junk, got, now, q, n);
    case Fault(r, got, now) => LoadTick(v, r, got, now, q, n);
    case Write(r, ofs, b) => assert Apply(v, a).vm.table == v.table;
    case Read(r) => assert Apply(v, a).vm.table == v.table;
    case Tick(now) => TickTick(v, now, q, n);
    case Destroy(r) =>
      DestroyedGone(v, r);
      DestroyTick(v, r, q, n);
  }

  lemma DestroyedGone(v: Vm, q: nat)
    requires q in v.pages
    ensures q !in Destroyed(v, q).pages
  {
  }

  /** `q` is in memory all along. */
  ghost predicate Stays(v: Vm, steps: seq<Step>, q: nat)
    requires Legal(v, steps)
    decreases |steps|
  {
    Resident(v, q) && (steps != [] ==> Stays(Apply(v, steps[0]).vm, steps[1..], q))
  }

  ghost predicate Written(steps: seq<Step>, q: nat) { exists a :: a in steps && a.Write? && a.q == q }

  ghost function TimedRun(time: int, used: bool, steps: seq<Step>, q: nat): (int, bool)
    decreases |steps|
  {
    if steps == [] then (time, used)
    else
      var (t, u) := Timed(time, used, steps[0], q);
      TimedRun(t, u, steps[1..], q)
  }

  /** While a page stays in memory, the time its frame is judged by at an eviction is the last frame_tick that found it
      used since the one before, its accessed bit says whether it has been used since, and its dirty bit whether it has
      been written. */
  lemma {:induction false} TimeOfLastUse(v: Vm, steps: seq<Step>, q: nat, n: int)
    requires Inv(v) && Legal(v, steps) && Stays(v, steps, q) && HasTick(v, q, n)
    ensures var w := Final(v, steps); var (t, used) := TimedRun(n, v.pages[q].accessed, steps, q);
      && Resident(w, q) && HasTick(w, q, t) && w.pages[q].accessed == used
      && w.pages[q].dirty == (v.pages[q].dirty || Written(steps, q))
    decreases |steps|
  {
    if steps != [] {
      assert steps == [steps[0]] + steps[1..];
      hide Inv, Apply, Enabled, HasTick, Timed;
      StepTick(v, steps[0], q, n);
      StepKeeps(v, steps[0]);
      TimeOfLastUse(Apply(v, steps[0]).vm, steps[1..], q, Timed(n, v.pages[q].accessed, steps[0], q).0);
    }
  }

  lemma EvictedTimes(v: Vm, s: nat, q: nat)
    requires v.table != [] && s < |v.free| == |v.swap| && q in v.pages
    requires var f := v.table[Victim(v.table)]; f.page in v.pages && f.kpage in v.memory
    ensures var i := Victim(v.table);
      && q in SwappedOut(v, i, s).pages && v.table[i].(page := q) in Reused(SwappedOut(v, i, s), q).table
      && (forall f :: f in Reused(SwappedOut(v, i, s), q).table ==> v.table[i].tick <= f.tick)
  {
    var i := Victim(v.table);
    var t, last := Reused(SwappedOut(v, i, s), q).table, v.table[i].(page := q);
    assert t == v.table[..i] + v.table[i + 1..] + [last];
    assert t[|t| - 1] == last;
    hide Victim;
    forall j: nat | j < |t| ensures v.table[i].tick <= t[j].tick {
      if j < |t| - 1 { VictimIsOldest(v.table, if j < i then j else j + 1); }
    }
  }

  /** A page that comes into a fresh frame starts with the present time; one that takes over a frame inherits the time
      of the page evicted from it, so that it is the next victim until it is found used. */
  lemma InheritsTime(v: Vm, q: nat, got: Option<nat>, now: int)
    requires Inv(v) && Ready(v, got) && q in v.pages && v.pages[q].present == InFilesys && Load(v, q, got, now).Done?
    ensures var w := Load(v, q, got, now).vm;
      && Resident(w, q) && !w.pages[q].accessed
      && HasTick(w, q, if got.Some? then now else v.table[Victim(v.table)].tick)
      && (got.None? ==> forall f :: f in w.table ==> v.table[Victim(v.table)].tick <= f.tick)
  {
    hide Victim, SwappedOut, Reused;
    var w := Load(v, q, got, now).vm;
    match got
    case Some(k) => assert Frame(k, q, now) in w.table;
    case None =>
      EvictsToSwap(v, Victim(v.table));
      EvictedTimes(v, FirstFree(v.free).value, q);
  }
}
