/**
 vm/frame.c, vm/page.c and vm/swap.c as steps on one state: where each page's contents live, and
 the dirty bits that decide where an evicted page goes.
 */
module Paging {
  import opened Common
  import opened Seqs
  import opened BufferCache

  type Content = c: seq<Byte> | |c| == PGSIZE witness seq(PGSIZE, _ => 0)

  function ZeroPage(): Content { seq(PGSIZE, _ => 0) }

  // ---- state ----

  datatype Present = InMemory | InFilesys | InSwap(slot: nat)

  /** A supplemental page table entry with the user PTE's present, dirty and accessed bits. `file` is the part of the
      file the page is read from; the rest of the page is zeros. */
  datatype Page = Page(present: Present, kpage: Option<nat>, file: Option<seq<Byte>>, writable: bool,
                       mapped: bool, dirty: bool, accessed: bool)

  /** A frame table entry. */
  datatype Frame = Frame(kpage: nat, page: nat, tick: int)

  /** `kdirty` are the kernel pages whose own PTE is dirty; `free` and `swap` are the swap slots. */
  datatype Vm = Vm(pages: map<nat, Page>, table: seq<Frame>, memory: map<nat, Content>, kdirty: set<nat>,
                   free: seq<bool>, swap: seq<Content>)

  function Image(file: seq<Byte>): Content {
    if |file| <= PGSIZE then file + seq(PGSIZE - |file|, _ => 0) else file[..PGSIZE]
  }

  /** What the owner of page `q` sees there. */
  ghost function Contents(v: Vm, q: nat): Content
    requires Inv(v) && q in v.pages
  {
    assert PageOk(v, q);
    match v.pages[q].present
    case InMemory => v.memory[v.pages[q].kpage.value]
    case InFilesys => Image(v.pages[q].file.value)
    case InSwap(s) => v.swap[s]
  }

  // ---- invariant ----

  ghost predicate Inv(v: Vm) {
    && |v.free| == |v.swap|
    && (forall f :: f in v.table ==> FrameOk(v, f))
    && Distinct(v.table)
    && (forall q: nat :: q in v.pages ==> PageOk(v, q))
    && (forall q: nat, r: nat :: q in v.pages && r in v.pages && q != r ==> SlotsApart(v, q, r))
  }

  ghost predicate Distinct(table: seq<Frame>) {
    forall i: nat, j: nat :: i < j < |table| ==> table[i].kpage != table[j].kpage
  }

  /** A frame holds the page that says it is there, and its kernel PTE is dirty: every fill wrote through it. */
  ghost predicate FrameOk(v: Vm, f: Frame) {
    && f.kpage in v.memory && f.kpage in v.kdirty
    && f.page in v.pages && v.pages[f.page].present == InMemory && v.pages[f.page].kpage == Some(f.kpage)
  }

  ghost predicate PageOk(v: Vm, q: nat)
    requires q in v.pages
  {
    var p := v.pages[q];
    && p.mapped == p.present.InMemory?
    && match p.present
       case InMemory => p.kpage.Some? && p.kpage.value in v.memory && HasFrame(v, p.kpage.value, q)
       case InFilesys => p.file.Some?
       case InSwap(s) => s < |v.free| == |v.swap| && !v.free[s]
  }
  ghost predicate HasFrame(v: Vm, k: nat, q: nat) {
    exists f :: f in v.table && f.kpage == k && f.page == q
  }

  /** No two swapped pages share a slot. */
  ghost predicate SlotsApart(v: Vm, q: nat, r: nat)
    requires q in v.pages && r in v.pages
  {
    v.pages[q].present.InSwap? && v.pages[r].present.InSwap? ==> v.pages[q].present.slot != v.pages[r].present.slot
  }

  // ---- choosing a victim and a slot ----

  /** get_frame_to_evict: the first frame among those least recently accessed. */
  function Victim(table: seq<Frame>): (i: nat)
    requires table != []
    ensures i < |table|
  {
    if |table| == 1 then 0 else
    var r := Victim(table[..|table| - 1]);
    if table[|table| - 1].tick < table[r].tick then |table| - 1 else r
  }

  lemma {:induction false} VictimIsOldest(table: seq<Frame>, j: nat)
    requires table != [] && j < |table|
    ensures table[Victim(table)].tick <= table[j].tick
    ensures j < Victim(table) ==> table[Victim(table)].tick < table[j].tick
  {
    if |table| > 1 {
      var n := |table| - 1;
      VictimIsOldest(table[..n], if j < n then j else Victim(table[..n]));
    }
  }

  /** swalloc: the first free slot. */
  function FirstFree(free: seq<bool>): (r: Option<nat>)
    ensures r.Some? ==> r.value < |free| && free[r.value] && forall i: nat :: i < r.value ==> !free[i]
    ensures r.None? <==> forall i: nat :: i < |free| ==> !free[i]
  {
    if free == [] then None else if free[0] then Some(0) else
    match FirstFree(free[1..]) case None => None case Some(i) => Some(i + 1)
  }

  // ---- the operations ----

  /** A page of memory for page `q`, or the panic when a page has to go to swap and swap is full. */
  datatype Outcome = Panic | Done(vm: Vm)

  /** The page in frame `i` leaves memory; the frame goes to the back of the table. */
  function Evicted(v: Vm, i: nat): Outcome
    requires i < |v.table| && v.table[i].page in v.pages && v.table[i].kpage in v.memory && |v.free| == |v.swap|
  {
    var f := v.table[i];
    var p := v.pages[f.page].(kpage := None, mapped := false);
    var table := v.table[..i] + v.table[i + 1..] + [f];
    if !p.dirty && f.kpage !in v.kdirty && p.file.Some? then
      Done(v.(pages := v.pages[f.page := p.(present := InFilesys)], table := table))
    else
      match FirstFree(v.free)
      case None => Panic
      case Some(s) =>
        Done(v.(pages := v.pages[f.page := p.(present := InSwap(s))], table := table,
                free := v.free[s := false], swap := v.swap[s := v.memory[f.kpage]]))
  }

  /** falloc for page `q` when the page allocator hands out `k`, a page it has just cleared. */
  function Fresh(v: Vm, q: nat, k: nat, now: int): Vm
    requires q in v.pages
  {
    v.(pages := v.pages[q := v.pages[q].(kpage := Some(k))], table := v.table + [Frame(k, q, now)],
       memory := v.memory[k := ZeroPage()], kdirty := v.kdirty + {k})
  }

  /** falloc for page `q` when it takes over the last frame of the table. */
  function Reused(v: Vm, q: nat): Vm
    requires q in v.pages && v.table != []
  {
    var n := |v.table| - 1;
    v.(pages := v.pages[q := v.pages[q].(kpage := Some(v.table[n].kpage))], table := v.table[n := v.table[n].(page := q)])
  }

  /** Filling the frame of page `q` through its kernel address and mapping it for the user, with a clean PTE. */
  function Filled(v: Vm, q: nat, data: Content): Vm
    requires q in v.pages && v.pages[q].kpage.Some?
  {
    var k := v.pages[q].kpage.value;
    v.(pages := v.pages[q := v.pages[q].(present := InMemory, mapped := true, dirty := false, accessed := false)],
       memory := v.memory[k := data], kdirty := v.kdirty + {k})
  }

  /** falloc: a cleared page from the allocator if it has one, else the frame of an evicted page. */
  function Framed(v: Vm, q: nat, got: Option<nat>, now: int): (r: Outcome)
    requires q in v.pages && Ready(v, got)
    ensures r.Done? ==> q in r.vm.pages && r.vm.pages[q].kpage.Some? && |r.vm.free| == |v.free| && |r.vm.swap| == |v.swap|
  {
    match got
    case Some(k) => Done(Fresh(v, q, k, now))
    case None =>
      match Evicted(v, Victim(v.table))
      case Panic => Panic
      case Done(w) => Done(Reused(w, q))
  }

  predicate Ready(v: Vm, got: Option<nat>) {
    && |v.free| == |v.swap| && (got.None? ==> v.table != [])
    && (forall f :: f in v.table ==> f.page in v.pages && f.kpage in v.memory)
    && (got.Some? ==> forall f :: f in v.table ==> f.kpage != got.value)
  }

  /** load_page_into_frame. */
  function Load(v: Vm, q: nat, got: Option<nat>, now: int): Outcome
    requires q in v.pages && Ready(v, got)
  {
    match v.pages[q].present
    case InMemory => Done(v)
    case InFilesys =>
      (match Framed(v, q, got, now)
       case Panic => Panic
       case Done(w) => Done(Filled(w, q, Image(if v.pages[q].file.Some? then v.pages[q].file.value else []))))
    case InSwap(s) =>
      (match Framed(v, q, got, now)
       case Panic => Panic
       case Done(w) =>
         if s < |w.swap| && s < |w.free| then Done(Freed(Filled(w, q, w.swap[s]), s)) else Panic)
  }

  /** swfree. */
  function Freed(v: Vm, s: nat): Vm
    requires s < |v.free|
  {
    v.(free := v.free[s := true])
  }

  // ---- placing a page in a frame ----

  /** The state when page `q` has come into a fresh frame `k`. */
  lemma FreshKeeps(v: Vm, q: nat, k: nat, now: int, data: Content)
    requires Inv(v) && q in v.pages && v.pages[q].present != InMemory
    requires forall f :: f in v.table ==> f.kpage != k
    ensures var w := Filled(Fresh(v, q, k, now), q, data);
      Inv(w) && Contents(w, q) == data && forall r: nat :: r in v.pages && r != q ==> SameContents(v, w, r)
  {
    var w := Filled(Fresh(v, q, k, now), q, data);
    forall f | f in w.table ensures FrameOk(w, f) { assert f in v.table ==> FrameOk(v, f); }
    assert Frame(k, q, now) in w.table;
    forall r: nat | r in w.pages ensures PageOk(w, r) {
      assert PageOk(v, r);
      if r != q && v.pages[r].present == InMemory { StillFramed(v, w, r); }
    }
    forall r: nat, t: nat | r in w.pages && t in w.pages && r != t ensures SlotsApart(w, r, t) { assert SlotsApart(v, r, t); }
    forall r: nat | r in v.pages && r != q ensures SameContents(v, w, r) { assert PageOk(v, r); }
  }

  ghost predicate SameContents(v: Vm, w: Vm, q: nat)
    requires Inv(v) && Inv(w) && q in v.pages
  {
    q in w.pages && Contents(w, q) == Contents(v, q)
  }

  lemma StillFramed(v: Vm, w: Vm, r: nat)
    requires r in v.pages && v.pages[r].kpage.Some? && HasFrame(v, v.pages[r].kpage.value, r)
    requires forall f :: f in v.table && f.page == r ==> f in w.table
    ensures HasFrame(w, v.pages[r].kpage.value, r)
  {
  }

  /** An evicted page always goes to swap: whatever its user PTE says, the kernel PTE of its frame is dirty. */
  lemma EvictsToSwap(v: Vm, i: nat)
    requires Inv(v) && i < |v.table|
    ensures FrameOk(v, v.table[i])
    ensures Evicted(v, i) == match FirstFree(v.free) case None => Panic case Some(s) => Done(SwappedOut(v, i, s))
  {
    assert FrameOk(v, v.table[i]);
  }

  /** The state after the page in frame `i` has gone to slot `s`. */
  function SwappedOut(v: Vm, i: nat, s: nat): Vm
    requires i < |v.table| && v.table[i].page in v.pages && v.table[i].kpage in v.memory && s < |v.free| == |v.swap|
  {
    var f := v.table[i];
    v.(pages := v.pages[f.page := v.pages[f.page].(kpage := None, mapped := false, present := InSwap(s))],
       table := v.table[..i] + v.table[i + 1..] + [f],
       free := v.free[s := false], swap := v.swap[s := v.memory[f.kpage]])
  }

  /** Page `q` takes over frame `i`, whose page has gone to slot `s`, and is filled with `data`. */
  ghost function Replaced(v: Vm, i: nat, s: nat, q: nat, data: Content): Vm
    requires i < |v.table| && v.table[i].page in v.pages && v.table[i].kpage in v.memory && s < |v.free| == |v.swap|
    requires q in v.pages
  {
    Filled(Reused(SwappedOut(v, i, s), q), q, data)
  }

  /** Another frame is not the one taken over, nor does it hold one of the two pages. */
  lemma OtherFrame(v: Vm, i: nat, g: Frame, j: nat)
    requires Inv(v) && i < |v.table| && j < |v.table| && j != i && g == v.table[j]
    ensures FrameOk(v, g) && FrameOk(v, v.table[i]) && g.kpage != v.table[i].kpage && g.page != v.table[i].page
  {
    assert FrameOk(v, g) && FrameOk(v, v.table[i]);
    assert j < i ==> v.table[j].kpage != v.table[i].kpage;
    assert i < j ==> v.table[i].kpage != v.table[j].kpage;
  }

  ghost predicate Swappable(v: Vm, i: nat, s: nat, q: nat) {
    && Inv(v) && i < |v.table| && s < |v.free| && v.free[s] && q in v.pages && v.pages[q].present != InMemory
    && FrameOk(v, v.table[i])
  }

  lemma ReplacedTable(v: Vm, i: nat, s: nat, q: nat, data: Content)
    requires Swappable(v, i, s, q)
    ensures var w := Replaced(v, i, s, q, data);
      && w.table == v.table[..i] + v.table[i + 1..] + [v.table[i].(page := q)]
      && Distinct(w.table) && (forall f :: f in w.table ==> FrameOk(w, f))
  {
    var w, n := Replaced(v, i, s, q, data), |v.table| - 1;
    var last := v.table[i].(page := q);
    assert w.table == v.table[..i] + v.table[i + 1..] + [last];
    forall a: nat | a < n ensures w.table[a] == v.table[if a < i then a else a + 1] && FrameOk(w, w.table[a]) {
      OtherFrame(v, i, w.table[a], if a < i then a else a + 1);
    }
    forall a: nat, b: nat | a < b < |w.table| ensures w.table[a].kpage != w.table[b].kpage {
      OtherFrame(v, i, w.table[a], if a < i then a else a + 1);
    }
    assert FrameOk(w, last);
  }

  /** A third page keeps its place and its contents. */
  lemma ReplacedOther(v: Vm, i: nat, s: nat, q: nat, data: Content, r: nat)
    requires Swappable(v, i, s, q) && r in v.pages && r != q && r != v.table[i].page
    ensures var w := Replaced(v, i, s, q, data);
      && r in w.pages && w.pages[r] == v.pages[r] && PageOk(v, r) && PageOk(w, r)
      && match v.pages[r].present
         case InMemory => v.pages[r].kpage.Some? && v.pages[r].kpage.value in v.memory && v.pages[r].kpage.value in w.memory
                          && w.memory[v.pages[r].kpage.value] == v.memory[v.pages[r].kpage.value]
         case InFilesys => true
         case InSwap(t) => t < |v.swap| == |w.swap| && t != s && w.swap[t] == v.swap[t]
  {
    var w := Replaced(v, i, s, q, data);
    assert PageOk(v, r);
    if v.pages[r].present == InMemory {
      ReplacedTable(v, i, s, q, data);
      var f :| f in v.table && f.kpage == v.pages[r].kpage.value && f.page == r;
      var j: nat :| j < |v.table| && v.table[j] == f;
      OtherFrame(v, i, f, j);
      assert f == w.table[if j < i then j else j - 1];
      assert f in w.table;
    }
  }

  lemma ReplacedKeeps(v: Vm, i: nat, s: nat, q: nat, data: Content)
    requires Swappable(v, i, s, q)
    ensures var w := Replaced(v, i, s, q, data);
      Inv(w) && Contents(w, q) == data && forall r: nat :: r in v.pages && r != q ==> SameContents(v, w, r)
  {
    hide Replaced;
    var w, e := Replaced(v, i, s, q, data), v.table[i].page;
    ReplacedTable(v, i, s, q, data);
    ReplacedTwo(v, i, s, q, data);
    forall r: nat | r in v.pages && r != q && r != e ensures r in w.pages && PageOk(w, r) { ReplacedOther(v, i, s, q, data, r); }
    forall r: nat, t: nat | r in w.pages && t in w.pages && r != t ensures SlotsApart(w, r, t) {
      assert SlotsApart(v, r, t);
      if r != q && r != e { ReplacedOther(v, i, s, q, data, r); }
      if t != q && t != e { ReplacedOther(v, i, s, q, data, t); }
    }
    forall r: nat | r in v.pages && r != q ensures SameContents(v, w, r) {
      if r != e { ReplacedOther(v, i, s, q, data, r); }
    }
  }

  /** The page that left and the page that came. */
  lemma ReplacedTwo(v: Vm, i: nat, s: nat, q: nat, data: Content)
    requires Swappable(v, i, s, q)
    ensures var w, e := Replaced(v, i, s, q, data), v.table[i].page;
      && e != q && e in v.pages && w.pages.Keys == v.pages.Keys && |w.free| == |w.swap|
      && w.pages[e].present == InSwap(s) && PageOk(w, e) && w.swap[s] == v.memory[v.table[i].kpage]
      && v.pages[e].present == InMemory && v.pages[e].kpage == Some(v.table[i].kpage)
      && w.pages[q].present == InMemory && PageOk(w, q) && w.memory[w.pages[q].kpage.value] == data
  {
    var w := Replaced(v, i, s, q, data);
    ReplacedTable(v, i, s, q, data);
    assert v.table[i].(page := q) in w.table;
    assert HasFrame(w, v.table[i].kpage, q);
  }

  // ---- faults ----

  lemma FreedKeeps(v: Vm, s: nat)
    requires Inv(v) && s < |v.free| && forall q: nat :: q in v.pages ==> v.pages[q].present != InSwap(s)
    ensures Inv(Freed(v, s)) && forall q: nat :: q in v.pages ==> SameContents(v, Freed(v, s), q)
  {
    var w := Freed(v, s);
    forall f | f in w.table ensures FrameOk(w, f) { assert FrameOk(v, f); }
    forall q: nat | q in w.pages ensures PageOk(w, q) {
      assert PageOk(v, q);
      if v.pages[q].present == InMemory { StillFramed(v, w, q); }
    }
    forall q: nat, r: nat | q in w.pages && r in w.pages && q != r ensures SlotsApart(w, q, r) { assert SlotsApart(v, q, r); }
  }

  lemma InvReady(v: Vm, got: Option<nat>)
    requires Inv(v) && (got.None? ==> v.table != []) && (got.Some? ==> forall f :: f in v.table ==> f.kpage != got.value)
    ensures Ready(v, got)
  {
    forall f | f in v.table ensures f.page in v.pages && f.kpage in v.memory { assert FrameOk(v, f); }
  }

  /** A frame for `q`, filled with `data`, moves nobody else's contents; it fails only for want of a swap slot. */
  lemma FramedKeeps(v: Vm, q: nat, got: Option<nat>, now: int, data: Content)
    requires Inv(v) && Ready(v, got) && q in v.pages && v.pages[q].present != InMemory
    ensures Framed(v, q, got, now).Panic? <==> got.None? && FirstFree(v.free).None?
    ensures Framed(v, q, got, now).Done? ==>
      var w := Filled(Framed(v, q, got, now).vm, q, data);
      && Inv(w) && Contents(w, q) == data && (forall r: nat :: r in v.pages && r != q ==> SameContents(v, w, r))
      && w.pages.Keys == v.pages.Keys && w.pages[q].present == InMemory
  {
    match got
    case Some(k) => FreshKeeps(v, q, k, now, data);
    case None =>
      var i := Victim(v.table);
      EvictsToSwap(v, i);
      if FirstFree(v.free).Some? {
        var s := FirstFree(v.free).value;
        assert Filled(Framed(v, q, got, now).vm, q, data) == Replaced(v, i, s, q, data);
        hide Framed, Replaced, Evicted;
        ReplacedKeeps(v, i, s, q, data);
        ReplacedTwo(v, i, s, q, data);
      }
  }

  /** Taking a frame leaves the slot of a swapped page alone. */
  lemma FramedSlot(v: Vm, q: nat, got: Option<nat>, now: int, s: nat)
    requires Inv(v) && Ready(v, got) && q in v.pages && v.pages[q].present == InSwap(s) && Framed(v, q, got, now).Done?
    ensures s < |v.swap| && s < |Framed(v, q, got, now).vm.swap| && Framed(v, q, got, now).vm.swap[s] == v.swap[s]
    ensures forall r: nat :: r in v.pages && r != q ==>
      r in Framed(v, q, got, now).vm.pages && Framed(v, q, got, now).vm.pages[r].present != InSwap(s)
  {
    assert PageOk(v, q);
    if got.None? { EvictsToSwap(v, Victim(v.table)); }
    forall r: nat | r in v.pages && r != q
      ensures r in Framed(v, q, got, now).vm.pages && Framed(v, q, got, now).vm.pages[r].present != InSwap(s)
    {
      assert SlotsApart(v, q, r);
    }
  }

  /** A fault brings the page in with the contents it had, or panics when swap is full; no page's contents change. */
  lemma LoadKeeps(v: Vm, q: nat, got: Option<nat>, now: int)
    requires Inv(v) && Ready(v, got) && q in v.pages
    ensures Load(v, q, got, now).Panic? <==> v.pages[q].present != InMemory && got.None? && FirstFree(v.free).None?
    ensures Load(v, q, got, now).Done? ==>
      var w := Load(v, q, got, now).vm;
      && Inv(w) && w.pages.Keys == v.pages.Keys && w.pages[q].present == InMemory
      && (forall r: nat :: r in v.pages ==> SameContents(v, w, r))
  {
    hide Framed;
    assert PageOk(v, q);
    match v.pages[q].present
    case InMemory =>
    case InFilesys => FramedKeeps(v, q, got, now, Image(v.pages[q].file.value));
    case InSwap(s) =>
      FramedKeeps(v, q, got, now, v.swap[s]);
      if Framed(v, q, got, now).Done? {
        FramedSlot(v, q, got, now, s);
        var w := Filled(Framed(v, q, got, now).vm, q, v.swap[s]);
        FreedKeeps(w, s);
        forall r: nat | r in v.pages ensures SameContents(v, Freed(w, s), r) { assert SameContents(w, Freed(w, s), r); }
      }
  }

  /** Coming back from swap leaves the user PTE clean although the contents are not the file's: the user bit alone would
      send the page back to the file system and lose them. */
  lemma UserBitAlone(v: Vm, q: nat, got: Option<nat>, now: int)
    requires Inv(v) && Ready(v, got) && q in v.pages && v.pages[q].present.InSwap? && v.pages[q].file.Some?
    requires Contents(v, q) != Image(v.pages[q].file.value) && Load(v, q, got, now).Done?
    ensures var w := Load(v, q, got, now).vm;
      && Inv(w) && q in w.pages && w.pages[q].present == InMemory && !w.pages[q].dirty && w.pages[q].file == v.pages[q].file
      && Contents(w, q) != Image(w.pages[q].file.value)
  {
    LoadKeeps(v, q, got, now);
    assert SameContents(v, Load(v, q, got, now).vm, q);
    FramedFile(v, q, got, now);
  }

  lemma FramedFile(v: Vm, q: nat, got: Option<nat>, now: int)
    requires Inv(v) && Ready(v, got) && q in v.pages && v.pages[q].present != InMemory && Framed(v, q, got, now).Done?
    ensures Framed(v, q, got, now).vm.pages[q].file == v.pages[q].file
  {
    if got.None? { EvictsToSwap(v, Victim(v.table)); }
  }

  // ---- runs ----

  /** What user programs and the kernel do to pages. `got` is what the page allocator answers. */
  datatype Step =
    | Lazy(q: nat, file: seq<Byte>, writable: bool)               // lazy_load_segment
    | Stack(q: nat, junk: Option<seq<Byte>>, got: Option<nat>, now: int) // stack_page_alloc; `file` is left uninitialized
    | Fault(q: nat, got: Option<nat>, now: int)                   // load_page_into_frame
    | Write(q: nat, ofs: nat, b: Byte)                            // a user store
    | Read(q: nat)                                                // a user load
    | Tick(now: int)                                              // frame_tick
    | Destroy(q: nat)                                             // page_destructor

  ghost predicate Enabled(v: Vm, a: Step) {
    match a
    case Lazy(q, _, _) => q !in v.pages
    case Stack(q, _, got, _) => q !in v.pages && Ready(v, got)
    case Fault(q, got, _) => q in v.pages && Ready(v, got)
    case Write(q, ofs, _) =>
      q in v.pages && v.pages[q].mapped && v.pages[q].writable && ofs < PGSIZE && v.pages[q].kpage.Some?
      && v.pages[q].kpage.value in v.memory
    case Read(q) => q in v.pages && v.pages[q].mapped
    case Tick(_) => true
    case Destroy(q) => q in v.pages
  }

  /** The new page of stack_page_alloc before it has a frame. */
  function WithStack(v: Vm, q: nat, junk: Option<seq<Byte>>): Vm {
    v.(pages := v.pages[q := Page(InMemory, None, junk, true, false, false, false)])
  }

  function StackPage(v: Vm, q: nat, junk: Option<seq<Byte>>, got: Option<nat>, now: int): Outcome
    requires Ready(v, got)
  {
    match Framed(WithStack(v, q, junk), q, got, now)
    case Panic => Panic
    case Done(w) => Done(Filled(w, q, HeldBy(w, q)))
  }

  /** What the frame of `q` holds. */
  function HeldBy(w: Vm, q: nat): Content
    requires q in w.pages && w.pages[q].kpage.Some?
  {
    if w.pages[q].kpage.value in w.memory then w.memory[w.pages[q].kpage.value] else ZeroPage()
  }

  function Stored(v: Vm, q: nat, ofs: nat, b: Byte): Vm
    requires q in v.pages && v.pages[q].kpage.Some? && v.pages[q].kpage.value in v.memory && ofs < PGSIZE
  {
    var k := v.pages[q].kpage.value;
    v.(pages := v.pages[q := v.pages[q].(dirty := true, accessed := true)], memory := v.memory[k := v.memory[k][ofs := b]])
  }

  predicate Used(v: Vm, f: Frame) { f.page in v.pages && v.pages[f.page].accessed }

  function Ticked(v: Vm, now: int): Vm {
    v.(table := seq(|v.table|, i requires 0 <= i < |v.table| =>
                    if Used(v, v.table[i]) then v.table[i].(tick := now) else v.table[i]),
       pages := map q | q in v.pages :: if v.pages[q].present == InMemory then v.pages[q].(accessed := false) else v.pages[q])
  }

  function WithoutFrame(table: seq<Frame>, k: nat): seq<Frame> {
    if table == [] then [] else if table[0].kpage == k then table[1..] else [table[0]] + WithoutFrame(table[1..], k)
  }

  function Destroyed(v: Vm, q: nat): Vm
    requires q in v.pages
  {
    var p := v.pages[q];
    var w := v.(pages := v.pages - {q});
    match p.present
    case InMemory => if p.kpage.Some? then w.(table := WithoutFrame(v.table, p.kpage.value)) else w
    case InSwap(s) => if s < |v.free| then w.(free := v.free[s := true]) else w
    case InFilesys => w
  }

  ghost function Apply(v: Vm, a: Step): Outcome
    requires Enabled(v, a)
  {
    match a
    case Lazy(q, file, writable) =>
      Done(v.(pages := v.pages[q := Page(InFilesys, None, Some(file), writable, false, false, false)]))
    case Stack(q, junk, got, now) => StackPage(v, q, junk, got, now)
    case Fault(q, got, now) => Load(v, q, got, now)
    case Write(q, ofs, b) => Done(Stored(v, q, ofs, b))
    case Read(q) => Done(v.(pages := v.pages[q := v.pages[q].(accessed := true)]))
    case Tick(now) => Done(Ticked(v, now))
    case Destroy(q) => Done(Destroyed(v, q))
  }

  /** What a step does to the contents of an existing page `q`. */
  function Effect(c: Content, q: nat, a: Step): Content {
    if a.Write? && a.q == q && a.ofs < PGSIZE then c[a.ofs := a.b] else c
  }

  /** A change of bits that neither frames nor contents depend on. */
  ghost predicate BitsOnly(v: Vm, w: Vm) {
    && w.pages.Keys == v.pages.Keys && |w.table| == |v.table| && w.memory == v.memory && w.kdirty == v.kdirty
    && w.free == v.free && w.swap == v.swap
    && (forall i: nat :: i < |v.table| ==> w.table[i].kpage == v.table[i].kpage && w.table[i].page == v.table[i].page)
    && (forall q: nat :: q in v.pages ==> SamePlace(v.pages[q], w.pages[q]))
  }
  predicate SamePlace(p: Page, r: Page) {
    r.present == p.present && r.kpage == p.kpage && r.mapped == p.mapped && (p.present == InFilesys ==> r.file == p.file)
  }

  lemma BitsKeep(v: Vm, w: Vm)
    requires Inv(v) && BitsOnly(v, w)
    ensures Inv(w) && forall q: nat :: q in v.pages ==> SameContents(v, w, q)
  {
    forall f | f in w.table ensures FrameOk(w, f) {
      var i: nat :| i < |w.table| && w.table[i] == f;
      assert FrameOk(v, v.table[i]) && SamePlace(v.pages[f.page], w.pages[f.page]);
    }
    forall q: nat | q in v.pages ensures PageOk(w, q) {
      assert PageOk(v, q) && SamePlace(v.pages[q], w.pages[q]);
      if v.pages[q].present == InMemory {
        var f :| f in v.table && f.kpage == v.pages[q].kpage.value && f.page == q;
        var i: nat :| i < |v.table| && v.table[i] == f;
        assert w.table[i] in w.table;
      }
    }
    forall q: nat, r: nat | q in w.pages && r in w.pages && q != r ensures SlotsApart(w, q, r) {
      assert SlotsApart(v, q, r) && SamePlace(v.pages[q], w.pages[q]) && SamePlace(v.pages[r], w.pages[r]);
    }
    forall q: nat | q in v.pages ensures SameContents(v, w, q) { assert SamePlace(v.pages[q], w.pages[q]); }
  }

  lemma LazyKeeps(v: Vm, q: nat, file: seq<Byte>, writable: bool)
    requires Inv(v) && q !in v.pages
    ensures var w := v.(pages := v.pages[q := Page(InFilesys, None, Some(file), writable, false, false, false)]);
      && Inv(w) && Contents(w, q) == Image(file) && (forall r: nat :: r in v.pages ==> SameContents(v, w, r))
  {
    var w := v.(pages := v.pages[q := Page(InFilesys, None, Some(file), writable, false, false, false)]);
    forall f | f in w.table ensures FrameOk(w, f) { assert FrameOk(v, f); }
    forall r: nat | r in v.pages ensures PageOk(w, r) {
      assert PageOk(v, r);
      if v.pages[r].present == InMemory { StillFramed(v, w, r); }
    }
    forall r: nat, t: nat | r in w.pages && t in w.pages && r != t ensures SlotsApart(w, r, t) {
      assert r != q && t != q ==> SlotsApart(v, r, t);
    }
    assert PageOk(w, q);
  }

  function WithFile(w: Vm, q: nat, file: Option<seq<Byte>>): Vm
    requires q in w.pages
  {
    w.(pages := w.pages[q := w.pages[q].(file := file)])
  }

  /** The new stack page, had it been entered as a lazily loaded one. */
  function AsLazy(v: Vm, q: nat): Vm {
    v.(pages := v.pages[q := Page(InFilesys, None, Some([]), true, false, false, false)])
  }

  lemma FreshLike(v: Vm, q: nat, junk: Option<seq<Byte>>, k: nat, now: int, data: Content)
    ensures WithFile(Filled(Fresh(AsLazy(v, q), q, k, now), q, data), q, junk)
            == Filled(Fresh(WithStack(v, q, junk), q, k, now), q, data)
  {
  }

  lemma ReuseLike(v: Vm, q: nat, junk: Option<seq<Byte>>, i: nat, s: nat, data: Content)
    requires i < |v.table| && v.table[i].page in v.pages && v.table[i].kpage in v.memory && s < |v.free| == |v.swap|
    requires v.table[i].page != q
    ensures WithFile(Filled(Reused(SwappedOut(AsLazy(v, q), i, s), q), q, data), q, junk)
            == Filled(Reused(SwappedOut(WithStack(v, q, junk), i, s), q), q, data)
  {
  }

  lemma EvictLike(v: Vm, q: nat, junk: Option<seq<Byte>>, i: nat)
    requires Inv(v) && q !in v.pages && i < |v.table|
    ensures FrameOk(v, v.table[i]) && v.table[i].page != q
    ensures Evicted(WithStack(v, q, junk), i) ==
      match FirstFree(v.free) case None => Panic case Some(s) => Done(SwappedOut(WithStack(v, q, junk), i, s))
  {
    assert FrameOk(v, v.table[i]);
  }

  lemma TablesLike(v: Vm, q: nat, junk: Option<seq<Byte>>)
    ensures AsLazy(v, q).table == v.table == WithStack(v, q, junk).table
    ensures AsLazy(v, q).free == v.free
  {
  }

  lemma FreshHolds(v: Vm, q: nat, junk: Option<seq<Byte>>, k: nat, now: int)
    ensures q in AsLazy(v, q).pages && q in WithStack(v, q, junk).pages
    ensures var u, x := Fresh(AsLazy(v, q), q, k, now), Fresh(WithStack(v, q, junk), q, k, now);
      && q in u.pages && q in x.pages && u.pages[q].kpage.Some? && x.pages[q].kpage.Some? && HeldBy(u, q) == HeldBy(x, q)
      && q in Filled(u, q, HeldBy(u, q)).pages
      && WithFile(Filled(u, q, HeldBy(u, q)), q, junk) == Filled(x, q, HeldBy(x, q))
  {
    FreshLike(v, q, junk, k, now, ZeroPage());
  }

  lemma ReuseHolds(v: Vm, q: nat, junk: Option<seq<Byte>>, i: nat, s: nat)
    requires i < |v.table| && v.table[i].page in v.pages && v.table[i].kpage in v.memory && s < |v.free| == |v.swap|
    requires v.table[i].page != q
    ensures q in SwappedOut(AsLazy(v, q), i, s).pages && q in SwappedOut(WithStack(v, q, junk), i, s).pages
    ensures SwappedOut(AsLazy(v, q), i, s).table != [] && SwappedOut(WithStack(v, q, junk), i, s).table != []
    ensures var u, x := Reused(SwappedOut(AsLazy(v, q), i, s), q), Reused(SwappedOut(WithStack(v, q, junk), i, s), q);
      && q in u.pages && q in x.pages && u.pages[q].kpage.Some? && x.pages[q].kpage.Some? && HeldBy(u, q) == HeldBy(x, q)
      && q in Filled(u, q, HeldBy(u, q)).pages
      && WithFile(Filled(u, q, HeldBy(u, q)), q, junk) == Filled(x, q, HeldBy(x, q))
  {
    ReuseLike(v, q, junk, i, s, v.memory[v.table[i].kpage]);
  }

  /** A new stack page is like a lazily loaded one that is filled with what its frame happens to hold: the file pointer
      left uninitialized plays no part. */
  lemma StackLike(v: Vm, q: nat, junk: Option<seq<Byte>>, got: Option<nat>, now: int)
    requires Inv(v) && q !in v.pages && Ready(v, got) && Inv(AsLazy(v, q)) && Ready(AsLazy(v, q), got)
    ensures StackPage(v, q, junk, got, now) ==
      match Framed(AsLazy(v, q), q, got, now)
      case Panic => Panic
      case Done(w) => Done(WithFile(Filled(w, q, HeldBy(w, q)), q, junk))
  {
    hide Filled, Fresh, Reused, SwappedOut, Evicted, AsLazy, WithStack, WithFile, Inv;
    match got
    case Some(k) => FreshHolds(v, q, junk, k, now);
    case None =>
      var i := Victim(v.table);
      TablesLike(v, q, junk);
      EvictsToSwap(AsLazy(v, q), i);
      EvictLike(v, q, junk, i);
      if FirstFree(v.free).Some? { ReuseHolds(v, q, junk, i, FirstFree(v.free).value); }
  }

  lemma FileAside(v: Vm, q: nat, file: Option<seq<Byte>>)
    requires Inv(v) && q in v.pages && v.pages[q].present == InMemory
    ensures Inv(WithFile(v, q, file)) && forall r: nat :: r in v.pages ==> SameContents(v, WithFile(v, q, file), r)
  {
    assert BitsOnly(v, WithFile(v, q, file));
    BitsKeep(v, WithFile(v, q, file));
  }

  lemma StackKeeps(v: Vm, q: nat, junk: Option<seq<Byte>>, got: Option<nat>, now: int)
    requires Inv(v) && q !in v.pages && Ready(v, got)
    ensures StackPage(v, q, junk, got, now).Panic? <==> got.None? && FirstFree(v.free).None?
    ensures StackPage(v, q, junk, got, now).Done? ==>
      var w := StackPage(v, q, junk, got, now).vm;
      && Inv(w) && q in w.pages && (forall r: nat :: r in v.pages ==> SameContents(v, w, r))
  {
    hide StackPage, Filled, Framed, WithFile;
    LazyKeeps(v, q, [], true);
    var u := AsLazy(v, q);
    InvReady(u, got);
    StackLike(v, q, junk, got, now);
    var o := Framed(u, q, got, now);
    if o.Done? {
      FramedKeeps(u, q, got, now, HeldBy(o.vm, q));
      var w := Filled(o.vm, q, HeldBy(o.vm, q));
      FileAside(w, q, junk);
      forall r: nat | r in v.pages ensures SameContents(v, WithFile(w, q, junk), r) {
        assert SameContents(v, u, r) && SameContents(u, w, r) && SameContents(w, WithFile(w, q, junk), r);
      }
    } else {
      FramedKeeps(u, q, got, now, ZeroPage());
    }
  }

  /** Two pages in memory are in different frames. */
  lemma FramesApart(v: Vm, q: nat, r: nat)
    requires Inv(v) && q in v.pages && r in v.pages && q != r
    requires v.pages[q].present == InMemory && v.pages[r].present == InMemory
    ensures PageOk(v, q) && PageOk(v, r) && v.pages[q].kpage != v.pages[r].kpage
  {
    assert PageOk(v, q) && PageOk(v, r);
    var f :| f in v.table && f.kpage == v.pages[q].kpage.value && f.page == q;
    var g :| g in v.table && g.kpage == v.pages[r].kpage.value && g.page == r;
    var i: nat :| i < |v.table| && v.table[i] == f;
    var j: nat :| j < |v.table| && v.table[j] == g;
    if i < j { assert v.table[i].kpage != v.table[j].kpage; } else { assert v.table[j].kpage != v.table[i].kpage; }
  }

  lemma StoreKeeps(v: Vm, q: nat, ofs: nat, b: Byte)
    requires Inv(v) && q in v.pages && v.pages[q].mapped && v.pages[q].kpage.Some? && v.pages[q].kpage.value in v.memory
    requires ofs < PGSIZE
    ensures var w := Stored(v, q, ofs, b);
      && Inv(w) && q in w.pages && Contents(w, q) == Contents(v, q)[ofs := b]
      && (forall r: nat :: r in v.pages && r != q ==> SameContents(v, w, r))
  {
    var w := Stored(v, q, ofs, b);
    assert PageOk(v, q);
    forall f | f in w.table ensures FrameOk(w, f) { assert FrameOk(v, f); }
    forall r: nat | r in w.pages ensures PageOk(w, r) {
      assert PageOk(v, r);
      if v.pages[r].present == InMemory { StillFramed(v, w, r); }
    }
    forall r: nat, t: nat | r in w.pages && t in w.pages && r != t ensures SlotsApart(w, r, t) { assert SlotsApart(v, r, t); }
    forall r: nat | r in v.pages && r != q ensures SameContents(v, w, r) {
      if v.pages[r].present == InMemory { FramesApart(v, q, r); }
    }
  }

  lemma TickKeeps(v: Vm, now: int)
    requires Inv(v)
    ensures Inv(Ticked(v, now)) && forall r: nat :: r in v.pages ==> SameContents(v, Ticked(v, now), r)
  {
    assert BitsOnly(v, Ticked(v, now));
    BitsKeep(v, Ticked(v, now));
  }

  lemma ReadKeeps(v: Vm, q: nat)
    requires Inv(v) && q in v.pages
    ensures var w := v.(pages := v.pages[q := v.pages[q].(accessed := true)]);
      Inv(w) && forall r: nat :: r in v.pages ==> SameContents(v, w, r)
  {
    var w := v.(pages := v.pages[q := v.pages[q].(accessed := true)]);
    assert BitsOnly(v, w);
    BitsKeep(v, w);
  }

  lemma {:induction false} WithoutFrameIs(table: seq<Frame>, k: nat)
    requires Distinct(table)
    ensures Distinct(WithoutFrame(table, k))
    ensures forall f :: f in WithoutFrame(table, k) <==> f in table && f.kpage != k
  {
    if table != [] {
      var rest := table[1..];
      assert Distinct(rest) by { assert forall i: nat :: i < |rest| ==> rest[i] == table[i + 1]; }
      WithoutFrameIs(rest, k);
      assert table == [table[0]] + rest;
      assert forall f :: f in rest ==> f.kpage != table[0].kpage;
    }
  }

  /** Dropping a page with its frame or slot. */
  lemma DestroyKeeps(v: Vm, q: nat)
    requires Inv(v) && q in v.pages
    ensures Inv(Destroyed(v, q)) && forall r: nat :: r in v.pages && r != q ==> SameContents(v, Destroyed(v, q), r)
  {
    var w := Destroyed(v, q);
    assert PageOk(v, q);
    if v.pages[q].present == InMemory { WithoutFrameIs(v.table, v.pages[q].kpage.value); }
    forall f | f in w.table ensures FrameOk(w, f) { DestroyFrame(v, q, f); }
    forall r: nat | r in w.pages ensures PageOk(w, r) {
      assert PageOk(v, r) && SlotsApart(v, q, r);
      if v.pages[r].present == InMemory {
        if v.pages[q].present == InMemory { FramesApart(v, q, r); }
        StillHeld(v, w, r);
      }
    }
    forall r: nat, t: nat | r in w.pages && t in w.pages && r != t ensures SlotsApart(w, r, t) { assert SlotsApart(v, r, t); }
    forall r: nat | r in v.pages && r != q ensures SameContents(v, w, r) { assert PageOk(v, r); }
  }

  lemma StillHeld(v: Vm, w: Vm, r: nat)
    requires r in v.pages && v.pages[r].kpage.Some? && HasFrame(v, v.pages[r].kpage.value, r)
    requires forall f :: f in v.table && f.kpage == v.pages[r].kpage.value ==> f in w.table
    ensures HasFrame(w, v.pages[r].kpage.value, r)
  {
  }

  /** Frames left after a page is dropped hold other pages. */
  lemma DestroyFrame(v: Vm, q: nat, f: Frame)
    requires Inv(v) && q in v.pages && f in Destroyed(v, q).table
    ensures FrameOk(Destroyed(v, q), f)
  {
    assert PageOk(v, q);
    if v.pages[q].present == InMemory { WithoutFrameIs(v.table, v.pages[q].kpage.value); }
    assert FrameOk(v, f);
  }

  /** Every step keeps the invariant and changes the contents of existing pages only as the user writes them. */
  lemma StepKeeps(v: Vm, a: Step)
    requires Inv(v) && Enabled(v, a)
    ensures Apply(v, a).Panic? ==> FirstFree(v.free).None? && (a.Stack? || a.Fault?) && a.got.None?
    ensures Apply(v, a).Done? ==>
      var w := Apply(v, a).vm;
      && Inv(w) && (forall q: nat :: q in v.pages && a != Destroy(q) ==> q in w.pages && Contents(w, q) == Effect(Contents(v, q), q, a))
  {
    hide StackPage, Load, Stored, Ticked, Destroyed, Inv, Contents, Ready;
    match a {
      case Lazy(q, file, writable) => LazyKeeps(v, q, file, writable);
      case Stack(q, junk, got, now) => StackKeeps(v, q, junk, got, now);
      case Fault(q, got, now) => LoadKeeps(v, q, got, now);
      case Write(q, ofs, b) => StoreKeeps(v, q, ofs, b);
      case Read(q) => ReadKeeps(v, q);
      case Tick(now) => TickKeeps(v, now);
      case Destroy(q) => DestroyKeeps(v, q);
    }
    if Apply(v, a).Done? {
      var w := Apply(v, a).vm;
      forall q: nat | q in v.pages && a != Destroy(q) ensures q in w.pages && Contents(w, q) == Effect(Contents(v, q), q, a) {
        assert (a.Write? && a.q == q) || SameContents(v, w, q);
      }
    }
  }

  /** A run in which every step can be taken and none panics. */
  ghost predicate Legal(v: Vm, steps: seq<Step>)
    decreases |steps|
  {
    steps != [] ==> Enabled(v, steps[0]) && Apply(v, steps[0]).Done? && Legal(Apply(v, steps[0]).vm, steps[1..])
  }
  ghost function Final(v: Vm, steps: seq<Step>): Vm
    requires Legal(v, steps)
    decreases |steps|
  {
    if steps == [] then v else Final(Apply(v, steps[0]).vm, steps[1..])
  }

  /** What the user's stores alone make of the contents. */
  function Replay(c: Content, q: nat, steps: seq<Step>): Content
    decreases |steps|
  {
    if steps == [] then c else Replay(Effect(c, q, steps[0]), q, steps[1..])
  }

  /** Through any run of faults, evictions, ticks and stores, a page holds what its owner stored in it, and no two
      swapped pages share a slot. */
  lemma {:induction false} RunKeeps(v: Vm, steps: seq<Step>, q: nat)
    requires Inv(v) && Legal(v, steps) && q in v.pages && Destroy(q) !in steps
    ensures Inv(Final(v, steps)) && q in Final(v, steps).pages
    ensures Contents(Final(v, steps), q) == Replay(Contents(v, q), q, steps)
    decreases |steps|
  {
    if steps != [] {
      assert steps[0] in steps && forall a :: a in steps[1..] ==> a in steps;
      hide Inv, Contents, Apply, Enabled;
      StepKeeps(v, steps[0]);
      RunKeeps(Apply(v, steps[0]).vm, steps[1..], q);
    }
  }

  /** The state after falloc_init, spage_init and swalloc_init. */
  lemma StartInv(slots: nat)
    ensures Inv(Vm(map[], [], map[], {}, seq(slots, _ => true), seq(slots, _ => ZeroPage())))
  {
  }
}
