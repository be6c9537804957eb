/** vm/frame.c, vm/page.c and vm/swap.c as they run: loops over the frame table, the swap table and the swap device. */
module VirtualMemories {
  import opened Common
  import opened BufferCache
  import opened Paging

  const PG_NUM_SECTORS: nat := PGSIZE / SECTOR_SIZE

  /** The page stored in the eight sectors of slot `s`. */
  function SlotData(device: seq<Sector>, s: nat): Content
    requires (s + 1) * PG_NUM_SECTORS <= |device|
  {
    seq(PGSIZE, i requires 0 <= i < PGSIZE => device[SectorOf(s, i)][i % SECTOR_SIZE])
  }

  function SectorOf(s: nat, i: nat): (n: nat)
    requires i < PGSIZE
    ensures s * PG_NUM_SECTORS <= n < (s + 1) * PG_NUM_SECTORS
  {
    s * PG_NUM_SECTORS + i / SECTOR_SIZE
  }

  /** Sector `k` of a page. */
  function Piece(data: Content, k: nat): Sector
    requires k < PG_NUM_SECTORS
  {
    data[k * SECTOR_SIZE..(k + 1) * SECTOR_SIZE]
  }

  ghost function Slots(device: seq<Sector>, n: nat): (r: seq<Content>)
    requires n * PG_NUM_SECTORS <= |device|
    ensures |r| == n
  {
    seq(n, s requires 0 <= s < n => SlotData(device, s))
  }

  /** The device while the first `k` sectors of slot `s` have been written. */
  ghost predicate Writing(device: seq<Sector>, before: seq<Sector>, s: nat, data: Content, k: nat) {
    && |device| == |before| && k <= PG_NUM_SECTORS && (s + 1) * PG_NUM_SECTORS <= |device|
    && (forall j: nat :: j < k ==> PieceAt(device, s, j, data))
    && (forall i: nat :: i < |device| && !(s * PG_NUM_SECTORS <= i < s * PG_NUM_SECTORS + k) ==> device[i] == before[i])
  }
  ghost predicate PieceAt(device: seq<Sector>, s: nat, j: nat, data: Content) {
    j < PG_NUM_SECTORS && s * PG_NUM_SECTORS + j < |device| && device[s * PG_NUM_SECTORS + j] == Piece(data, j)
  }

  lemma WriteStep(device: seq<Sector>, before: seq<Sector>, s: nat, data: Content, k: nat)
    requires Writing(device, before, s, data, k) && k < PG_NUM_SECTORS
    ensures Writing(device[s * PG_NUM_SECTORS + k := Piece(data, k)], before, s, data, k + 1)
  {
    var d := device[s * PG_NUM_SECTORS + k := Piece(data, k)];
    forall j: nat | j < k + 1 ensures PieceAt(d, s, j, data) { assert j < k ==> PieceAt(device, s, j, data); }
  }

  /** A page written to its slot reads back, and the other slots keep theirs. */
  lemma WriteDone(device: seq<Sector>, before: seq<Sector>, s: nat, data: Content, n: nat)
    requires Writing(device, before, s, data, PG_NUM_SECTORS) && s < n && n * PG_NUM_SECTORS <= |device|
    ensures Slots(device, n) == Slots(before, n)[s := data]
  {
    forall i | 0 <= i < PGSIZE ensures SlotData(device, s)[i] == data[i] {
      assert PieceAt(device, s, i / SECTOR_SIZE, data);
    }
    assert SlotData(device, s) == data;
    forall t: nat | t < n && t != s ensures SlotData(device, t) == SlotData(before, t) {
      SlotsDiffer(s, t);
      forall i | 0 <= i < PGSIZE ensures device[SectorOf(t, i)] == before[SectorOf(t, i)] {}
    }
  }

  lemma SlotsDiffer(s: nat, t: nat)
    requires s != t
    ensures (s + 1) * PG_NUM_SECTORS <= t * PG_NUM_SECTORS || (t + 1) * PG_NUM_SECTORS <= s * PG_NUM_SECTORS
  {
  }

  class VirtualMemory {
    var pages: map<nat, Page>
    var table: seq<Frame>
    var memory: map<nat, Content>
    var kdirty: set<nat>
    const slots: array<bool>
    var device: seq<Sector>

    ghost predicate Valid()
      reads this, slots
    {
      slots.Length * PG_NUM_SECTORS <= |device|
    }

    ghost function View(): Vm
      requires Valid()
      reads this, slots
    {
      Vm(pages, table, memory, kdirty, slots[..], Slots(device, slots.Length))
    }

    /** swalloc_init over a swap device, with an empty frame table. */
    constructor (dev: seq<Sector>)
      ensures Valid() && fresh(slots) && slots.Length == |dev| / PG_NUM_SECTORS && device == dev
      ensures Inv(View()) && pages == map[] && forall i: nat :: i < slots.Length ==> slots[i]
    {
      pages, table, memory, kdirty, device := map[], [], map[], {}, dev;
      var n := |dev| / PG_NUM_SECTORS;
      slots := new bool[n];
      new;
      for i := 0 to n
        modifies slots
        invariant forall j: nat :: j < i ==> slots[j]
      {
        slots[i] := true;
      }
    }

    /** get_frame_to_evict. */
    method FrameToEvict() returns (lru: nat)
      requires table != []
      ensures lru == Victim(table) && lru < |table|
    {
      lru := 0;
      var i := 1;
      assert table[..1] == [table[0]];
      while i < |table|
        invariant 1 <= i <= |table| && lru < i && lru == Victim(table[..i])
      {
        assert table[..i + 1][..i] == table[..i];
        if table[i].tick < table[lru].tick {
          lru := i;
        }
        i := i + 1;
      }
      assert table[..i] == table;
    }

    /** swalloc. */
    method Swalloc() returns (r: Option<nat>)
      requires Valid()
      modifies slots
      ensures Valid() && r == FirstFree(old(slots[..]))
      ensures slots[..] == if r.Some? then old(slots[..])[r.value := false] else old(slots[..])
    {
      var i := 0;
      assert slots[0..] == slots[..];
      while i < slots.Length
        invariant i <= slots.Length && slots[..] == old(slots[..])
        invariant FirstFree(slots[..]) == After(FirstFree(slots[i..]), i)
      {
        assert slots[i..][1..] == slots[i + 1..];
        if slots[i] {
          slots[i] := false;
          return Some(i);
        }
        i := i + 1;
      }
      return None;
    }

    /** swfree. */
    method Swfree(s: nat)
      requires Valid() && s < slots.Length
      modifies slots
      ensures Valid() && slots[..] == old(slots[..])[s := true]
    {
      slots[s] := true;
    }

    /** swap_page_write. */
    method SwapPageWrite(s: nat, data: Content)
      requires Valid() && s < slots.Length
      modifies `device
      ensures Valid() && Slots(device, slots.Length) == Slots(old(device), slots.Length)[s := data]
    {
      ghost var before := device;
      SlotInside(s, slots.Length);
      for k := 0 to PG_NUM_SECTORS
        invariant Writing(device, before, s, data, k)
      {
        WriteStep(device, before, s, data, k);
        device := device[s * PG_NUM_SECTORS + k := Piece(data, k)];
      }
      WriteDone(device, before, s, data, slots.Length);
    }

    /** swap_page_read. */
    method SwapPageRead(s: nat) returns (data: Content)
      requires Valid() && s < slots.Length
      ensures data == Slots(device, slots.Length)[s]
    {
      SlotInside(s, slots.Length);
      var buffer: seq<Byte> := [];
      for k := 0 to PG_NUM_SECTORS
        invariant |buffer| == k * SECTOR_SIZE && buffer == SlotData(device, s)[..k * SECTOR_SIZE]
      {
        ReadStep(device, s, k);
        buffer := buffer + device[s * PG_NUM_SECTORS + k];
      }
      data := buffer;
    }

    /** Write a page to a slot of its own. */
    method SwapOut(data: Content) returns (s: Option<nat>)
      requires Valid()
      modifies `device, slots
      ensures Valid() && s == FirstFree(old(slots[..]))
      ensures s.None? ==> slots[..] == old(slots[..]) && device == old(device)
      ensures s.Some? ==> s.value < slots.Length && slots[..] == old(slots[..])[s.value := false]
      ensures s.Some? ==> Slots(device, slots.Length) == Slots(old(device), slots.Length)[s.value := data]
    {
      hide Slots;
      s := Swalloc();
      if s.Some? {
        SwapPageWrite(s.value, data);
      }
    }

    /** The part of falloc that evicts: page `q` takes over the victim's frame. */
    method TakeOver(q: nat) returns (ok: bool)
      requires Valid() && q in pages && Ready(View(), None) && forall f :: f in table ==> f.page != q
      modifies this, slots
      ensures Valid() && Framed(old(View()), q, None, 0) == if ok then Done(View()) else Panic
    {
      hide Slots, Framed, FirstFree, Victim;
      ghost var v := View();
      FramedCases(v, q, None, 0);
      var i := FrameToEvict();
      var f := table[i];
      var e := f.page;
      table := table[..i] + table[i + 1..] + [f];
      var evicted := pages[e];
      if !evicted.dirty && f.kpage !in kdirty && evicted.file.Some? {
        evicted := evicted.(present := InFilesys);
      } else {
        var s := SwapOut(memory[f.kpage]);
        if s.None? {
          return false;
        }
        evicted := evicted.(present := InSwap(s.value));
      }
      table := table[|table| - 1 := f.(page := q)];
      pages := pages[q := pages[q].(kpage := Some(f.kpage))];
      pages := pages[e := evicted.(kpage := None, mapped := false)];
      return true;
    }

    /** falloc for page `q`, which is not in memory; false is the panic of writing to swap slot -1. */
    method Falloc(q: nat, got: Option<nat>, now: int) returns (ok: bool)
      requires Valid() && q in pages && Ready(View(), got) && forall f :: f in table ==> f.page != q
      modifies this, slots
      ensures Valid() && Framed(old(View()), q, got, now) == if ok then Done(View()) else Panic
    {
      hide Slots, FirstFree, Victim, Evicted;
      if got.None? {
        ok := TakeOver(q);
        return;
      }
      var k := got.value;
      table := table + [Frame(k, q, now)];
      memory := memory[k := ZeroPage()];
      kdirty := kdirty + {k};
      pages := pages[q := pages[q].(kpage := Some(k))];
      return true;
    }

    /** load_page_into_frame for page `q`. */
    method LoadPage(q: nat, got: Option<nat>, now: int) returns (loaded: bool, panicked: bool)
      requires Valid() && Inv(View()) && q in pages && Ready(View(), got)
      modifies this, slots
      ensures Valid() && Paging.Load(old(View()), q, got, now) == if panicked then Panic else Done(View())
      ensures loaded <==> !panicked && old(pages)[q].present != InMemory
      ensures !panicked ==> Inv(View()) && q in pages && pages[q].mapped
    {
      hide Slots, Framed, Inv;
      ghost var v := View();
      LoadKeeps(v, q, got, now);
      NotFramed(v, q);
      match pages[q].present
      case InMemory => return false, false;
      case InFilesys =>
        var file := pages[q].file.value;
        var ok := Falloc(q, got, now);
        if !ok {
          return false, true;
        }
        Fill(q, Image(file));
        return true, false;
      case InSwap(s) =>
        var ok := Falloc(q, got, now);
        if !ok {
          return false, true;
        }
        var data := SwapPageRead(s);
        Fill(q, data);
        Swfree(s);
        return true, false;
    }

    /** Write the frame of `q` through its kernel address and install the user PTE. */
    method Fill(q: nat, data: Content)
      requires Valid() && q in pages && pages[q].kpage.Some?
      modifies this
      ensures Valid() && device == old(device) && View() == Filled(old(View()), q, data)
    {
      var k := pages[q].kpage.value;
      memory := memory[k := data];
      kdirty := kdirty + {k};
      pages := pages[q := pages[q].(present := InMemory, mapped := true, dirty := false, accessed := false)];
    }
  }

  /** Everything falloc can leave behind, with the evicted page's entry written last. */
  lemma FramedCases(v: Vm, q: nat, got: Option<nat>, now: int)
    requires q in v.pages && Ready(v, got) && forall f :: f in v.table ==> f.page != q
    ensures got.Some? ==> Framed(v, q, got, now) == Done(Paging.Fresh(v, q, got.value, now))
    ensures got.None? ==>
      var i := Victim(v.table);
      var f := v.table[i];
      && f.page in v.pages && f.page != q && f.kpage in v.memory
      && Framed(v, q, got, now) ==
         if !v.pages[f.page].dirty && f.kpage !in v.kdirty && v.pages[f.page].file.Some?
         then Done(Turn(v, q, i, InFilesys))
         else match FirstFree(v.free)
              case None => Panic
              case Some(s) => Done(Turn(v, q, i, InSwap(s)).(free := v.free[s := false], swap := v.swap[s := v.memory[f.kpage]]))
  {
    if got.None? {
      var i := Victim(v.table);
      assert v.table[i] in v.table;
      TurnIs(v, q, i, InFilesys);
      if FirstFree(v.free).Some? {
        var s := FirstFree(v.free).value;
        var u := v.(free := v.free[s := false], swap := v.swap[s := v.memory[v.table[i].kpage]]);
        TurnIs(u, q, i, InSwap(s));
      }
    }
  }

  /** Page `q` takes over frame `i`, whose page is now `present` elsewhere. */
  function Turn(v: Vm, q: nat, i: nat, present: Present): Vm
    requires i < |v.table| && q in v.pages && v.table[i].page in v.pages
  {
    var f := v.table[i];
    var table := v.table[..i] + v.table[i + 1..] + [f];
    v.(pages := v.pages[q := v.pages[q].(kpage := Some(f.kpage))]
                [f.page := v.pages[f.page].(present := present, kpage := None, mapped := false)],
       table := table[|table| - 1 := f.(page := q)])
  }

  lemma TurnIs(v: Vm, q: nat, i: nat, present: Present)
    requires i < |v.table| && q in v.pages && v.table[i].page in v.pages && v.table[i].page != q
    ensures var f := v.table[i];
      var p := v.pages[f.page].(kpage := None, mapped := false);
      Turn(v, q, i, present) ==
      Reused(v.(pages := v.pages[f.page := p.(present := present)], table := v.table[..i] + v.table[i + 1..] + [f]), q)
  {
  }

  lemma NotFramed(v: Vm, q: nat)
    requires Inv(v) && q in v.pages
    ensures v.pages[q].present != InMemory ==> forall f :: f in v.table ==> f.page != q
    ensures v.pages[q].present == InMemory <==> v.pages[q].mapped
    ensures v.pages[q].present == InFilesys ==> v.pages[q].file.Some?
    ensures v.pages[q].present.InSwap? ==> v.pages[q].present.slot < |v.free| == |v.swap|
  {
    forall f | f in v.table && v.pages[q].present != InMemory ensures f.page != q { assert FrameOk(v, f); }
    assert PageOk(v, q);
  }

  function After(r: Option<nat>, i: nat): Option<nat> { match r case None => None case Some(k) => Some(k + i) }

  lemma SlotInside(s: nat, n: nat)
    requires s < n
    ensures (s + 1) * PG_NUM_SECTORS <= n * PG_NUM_SECTORS
  {
  }

  lemma ReadStep(device: seq<Sector>, s: nat, k: nat)
    requires (s + 1) * PG_NUM_SECTORS <= |device| && k < PG_NUM_SECTORS
    ensures SlotData(device, s)[..k * SECTOR_SIZE] + device[s * PG_NUM_SECTORS + k] == SlotData(device, s)[..(k + 1) * SECTOR_SIZE]
  {
    var d := SlotData(device, s);
    var piece := d[k * SECTOR_SIZE..(k + 1) * SECTOR_SIZE];
    forall i | 0 <= i < SECTOR_SIZE ensures piece[i] == device[s * PG_NUM_SECTORS + k][i] {
      assert (k * SECTOR_SIZE + i) / SECTOR_SIZE == k && (k * SECTOR_SIZE + i) % SECTOR_SIZE == i;
    }
    assert piece == device[s * PG_NUM_SECTORS + k];
  }
}
