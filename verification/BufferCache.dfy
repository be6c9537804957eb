/**
 The file system's buffer cache (filesys/cache.c): 64 entries, write-back, least recently
 used eviction. Callers see one flat array of sectors, whatever is cached and whatever is
 still only on the disk.
 */
module BufferCache {
  import opened Common

  const SECTOR_SIZE: nat := 512
  const CACHE_SIZE: nat := 64

  type Sector = s: seq<Byte> | |s| == SECTOR_SIZE witness seq(SECTOR_SIZE, _ => 0)

  datatype Entry = Entry(sector: nat, free: bool, dirty: bool, tick: int, data: Sector)

  predicate Hit(e: Entry, s: nat) { !e.free && e.sector == s }

  /** `data` laid over `s` from offset `ofs`. */
  function Patch(s: Sector, ofs: nat, data: seq<Byte>): (r: Sector)
    requires ofs + |data| <= SECTOR_SIZE
  {
    s[..ofs] + data + s[ofs + |data|..]
  }

  /** What a reader sees in sector `s`: the cached copy if there is one, else the disk. */
  ghost function Seen(entries: seq<Entry>, disk: seq<Sector>, s: nat): Sector
    requires s < |disk|
  {
    if exists i :: 0 <= i < |entries| && Hit(entries[i], s)
    then var i :| 0 <= i < |entries| && Hit(entries[i], s); entries[i].data
    else disk[s]
  }

  ghost predicate Coherent(entries: seq<Entry>, disk: seq<Sector>) {
    // at most one entry per sector
    && (forall i, j :: 0 <= i < |entries| && 0 <= j < |entries| && i != j && !entries[i].free && !entries[j].free ==>
          entries[i].sector != entries[j].sector)
    // cached sectors exist, and clean ones agree with the disk
    && (forall i :: 0 <= i < |entries| && !entries[i].free ==>
          entries[i].sector < |disk| && (!entries[i].dirty ==> entries[i].data == disk[entries[i].sector]))
  }

  lemma SeenHit(entries: seq<Entry>, disk: seq<Sector>, i: nat)
    requires Coherent(entries, disk) && i < |entries| && !entries[i].free
    ensures Seen(entries, disk, entries[i].sector) == entries[i].data
  {
    var s := entries[i].sector;
    assert Hit(entries[i], s);
    forall j | 0 <= j < |entries| && Hit(entries[j], s) ensures j == i {
      assert !entries[j].free && entries[j].sector == entries[i].sector;
    }
  }

  lemma SeenMiss(entries: seq<Entry>, disk: seq<Sector>, s: nat)
    requires s < |disk| && forall i :: 0 <= i < |entries| ==> !Hit(entries[i], s)
    ensures Seen(entries, disk, s) == disk[s]
  {
  }

  /** Changing one entry and the disk at one sector leaves every sector outside the two named ones as seen before. */
  lemma SeenElsewhere(entries: seq<Entry>, disk: seq<Sector>, i: nat, e: Entry, disk': seq<Sector>, s: nat)
    requires i < |entries| && Coherent(entries, disk) && Coherent(entries[i := e], disk')
    requires |disk'| == |disk| && s < |disk|
    requires !Hit(entries[i], s) && !Hit(e, s) && disk'[s] == disk[s]
    ensures Seen(entries[i := e], disk', s) == Seen(entries, disk, s)
  {
    var entries' := entries[i := e];
    if j :| 0 <= j < |entries| && Hit(entries[j], s) {
      assert entries'[j] == entries[j];
      SeenHit(entries, disk, j);
      SeenHit(entries', disk', j);
    } else {
      assert forall j :: 0 <= j < |entries'| ==> !Hit(entries'[j], s);
      SeenMiss(entries', disk', s);
      SeenMiss(entries, disk, s);
    }
  }

  /** Writing a dirty entry back changes nothing a reader sees. */
  lemma WriteBack(entries: seq<Entry>, disk: seq<Sector>, i: nat)
    requires Coherent(entries, disk) && i < |entries| && !entries[i].free
    ensures var e := entries[i].(dirty := false); var disk' := disk[entries[i].sector := entries[i].data];
      && Coherent(entries[i := e], disk')
      && forall s :: 0 <= s < |disk| ==> Seen(entries[i := e], disk', s) == Seen(entries, disk, s)
  {
    var e := entries[i].(dirty := false);
    var disk' := disk[entries[i].sector := entries[i].data];
    var entries' := entries[i := e];
    forall s | 0 <= s < |disk| ensures Seen(entries', disk', s) == Seen(entries, disk, s) {
      if s == entries[i].sector {
        SeenHit(entries, disk, i);
        SeenHit(entries', disk', i);
      } else {
        SeenElsewhere(entries, disk, i, e, disk', s);
      }
    }
  }

  /** Loading a sector that is not cached into a free or clean entry changes nothing a reader sees. */
  lemma Load(entries: seq<Entry>, disk: seq<Sector>, i: nat, s: nat)
    requires Coherent(entries, disk) && i < |entries| && (entries[i].free || !entries[i].dirty)
    requires s < |disk| && forall j :: 0 <= j < |entries| ==> !Hit(entries[j], s)
    ensures var e := entries[i].(sector := s, free := false, dirty := false, data := disk[s]);
      && Coherent(entries[i := e], disk)
      && forall x :: 0 <= x < |disk| ==> Seen(entries[i := e], disk, x) == Seen(entries, disk, x)
  {
    var e := entries[i].(sector := s, free := false, dirty := false, data := disk[s]);
    var entries' := entries[i := e];
    assert forall j :: 0 <= j < |entries| && !entries[j].free && !Hit(entries[j], s) ==> entries[j].sector != s;
    forall x | 0 <= x < |disk| ensures Seen(entries', disk, x) == Seen(entries, disk, x) {
      if x == s {
        SeenMiss(entries, disk, s);
        SeenHit(entries', disk, i);
      } else if Hit(entries[i], x) {
        SeenHit(entries, disk, i);
        SeenMiss(entries', disk, x);
      } else {
        SeenElsewhere(entries, disk, i, e, disk, x);
      }
    }
  }

  /** Changing the data of a cached sector changes what is seen there and nowhere else. */
  lemma Modify(entries: seq<Entry>, disk: seq<Sector>, i: nat, data: Sector, dirty: bool, tick: int)
    requires Coherent(entries, disk) && i < |entries| && !entries[i].free
    requires dirty || (data == entries[i].data && dirty == entries[i].dirty)
    ensures var e := entries[i].(data := data, dirty := dirty, tick := tick);
      && Coherent(entries[i := e], disk)
      && forall s :: 0 <= s < |disk| ==>
           Seen(entries[i := e], disk, s) == if s == entries[i].sector then data else Seen(entries, disk, s)
  {
    var e := entries[i].(data := data, dirty := dirty, tick := tick);
    var entries' := entries[i := e];
    forall s | 0 <= s < |disk|
      ensures Seen(entries', disk, s) == if s == entries[i].sector then data else Seen(entries, disk, s)
    {
      if s == entries[i].sector {
        SeenHit(entries', disk, i);
      } else {
        SeenElsewhere(entries, disk, i, e, disk, s);
      }
    }
  }

  /** Where an access to sector `s` goes: to the entry that has it; if none has, to the first free one; if none is
      free, to the first of those used longest ago. */
  ghost predicate Goes(entries: seq<Entry>, s: nat, i: nat) {
    && i < |entries|
    && ((exists j :: 0 <= j < |entries| && Hit(entries[j], s)) ==> Hit(entries[i], s))
    && (!Hit(entries[i], s) ==>
          if entries[i].free then forall j :: 0 <= j < i ==> !entries[j].free
          else Oldest(entries, i))
  }
  ghost predicate Oldest(entries: seq<Entry>, i: nat)
    requires i < |entries|
  {
    && (forall j :: 0 <= j < |entries| ==> !entries[j].free && entries[i].tick <= entries[j].tick)
    && (forall j :: 0 <= j < i ==> entries[i].tick < entries[j].tick)
  }

  /** The device changes only where the entry given up was cached, and there to what readers saw. */
  ghost predicate Saves(disk: seq<Sector>, disk': seq<Sector>, view: seq<Sector>, e: Entry) {
    && |disk'| == |disk| == |view|
    && (forall x :: 0 <= x < |disk| && disk'[x] != disk[x] ==> !e.free && e.dirty && e.sector == x && disk'[x] == view[x])
  }

  /** What an access at time `now` does to the cache: one entry, the right one, has the sector and that time; the others
      are as they were, and the device got nothing but what eviction had to save. */
  ghost predicate Used(entries: seq<Entry>, entries': seq<Entry>, s: nat, now: int,
                       disk: seq<Sector>, disk': seq<Sector>, view: seq<Sector>) {
    exists i: nat :: UsedIn(entries, entries', s, now, disk, disk', view, i)
  }
  ghost predicate UsedIn(entries: seq<Entry>, entries': seq<Entry>, s: nat, now: int,
                         disk: seq<Sector>, disk': seq<Sector>, view: seq<Sector>, i: nat) {
    && |entries'| == |entries| && Goes(entries, s, i) && entries' == entries[i := entries'[i]]
    && Hit(entries'[i], s) && entries'[i].tick == now && Saves(disk, disk', view, entries[i])
    && (Hit(entries[i], s) ==> disk' == disk)
  }

  lemma GoesSomewhere(entries: seq<Entry>, s: nat)
    ensures forall i: nat :: i < |entries| && Hit(entries[i], s) ==> Goes(entries, s, i)
    ensures (forall j :: 0 <= j < |entries| ==> !Hit(entries[j], s)) ==>
      forall i: nat :: i < |entries| && (if entries[i].free then forall j :: 0 <= j < i ==> !entries[j].free else Oldest(entries, i))
        ==> Goes(entries, s, i)
  {
  }

  lemma SavesNothing(disk: seq<Sector>, view: seq<Sector>)
    requires |view| == |disk|
    ensures forall e :: Saves(disk, disk, view, e)
  {
  }

  lemma SavesEntry(disk: seq<Sector>, disk': seq<Sector>, view: seq<Sector>, e: Entry)
    requires |disk'| == |disk| == |view| && !e.free && e.sector < |disk| && view[e.sector] == e.data
    requires forall x :: 0 <= x < |disk| && x != e.sector ==> disk'[x] == disk[x]
    requires disk'[e.sector] == e.data && (!e.dirty ==> e.data == disk[e.sector])
    ensures Saves(disk, disk', view, e)
  {
  }

  lemma UsedAt(entries: seq<Entry>, entries': seq<Entry>, s: nat, now: int,
               disk: seq<Sector>, disk': seq<Sector>, view: seq<Sector>, i: nat)
    requires UsedIn(entries, entries', s, now, disk, disk', view, i)
    ensures Used(entries, entries', s, now, disk, disk', view)
  {
  }

  class Cache {
    const entries: array<Entry>
    var disk: seq<Sector>
    var clock: int            // the timer's tick count

    ghost predicate Valid() reads this, entries {
      entries.Length == CACHE_SIZE && Coherent(entries[..], disk)
    }

    /** The flat array of sectors the rest of the file system sees. */
    ghost function View(): (v: seq<Sector>)
      reads this, entries
      ensures |v| == |disk|
    {
      seq(|disk|, s requires 0 <= s < |disk| reads this, entries => Seen(entries[..], disk, s))
    }

    /** cache_init: every entry is free. */
    constructor (device: seq<Sector>, now: int)
      ensures Valid() && fresh(entries) && entries.Length == 64 && clock == now
      ensures View() == disk == device && forall i :: 0 <= i < entries.Length ==> entries[i].free
    {
      entries := new Entry[CACHE_SIZE](_ => Entry(0, true, false, 0, seq(SECTOR_SIZE, _ => 0)));
      disk := device;
      clock := now;
    }

    /** get_cache_entry_to_evict: the least recently used entry, the first of several. */
    method EntryToEvict() returns (victim: nat)
      requires entries.Length == CACHE_SIZE
      ensures victim < entries.Length
      ensures forall i :: 0 <= i < entries.Length ==> entries[victim].tick <= entries[i].tick
      ensures forall i :: 0 <= i < victim ==> entries[victim].tick < entries[i].tick
    {
      victim := 0;
      for i := 1 to CACHE_SIZE
        invariant victim < i
        invariant forall j :: 0 <= j < i ==> entries[victim].tick <= entries[j].tick
        invariant forall j :: 0 <= j < victim ==> entries[victim].tick < entries[j].tick
      {
        if entries[i].tick < entries[victim].tick {
          victim := i;
        }
      }
    }

    /** write_cache_entry_to_disk. */
    method WriteEntry(i: nat)
      requires Valid() && i < entries.Length && !entries[i].free
      modifies this`disk, entries
      ensures Valid() && View() == old(View())
      ensures entries[i] == old(entries[i]).(dirty := false)
      ensures forall j :: 0 <= j < entries.Length && j != i ==> entries[j] == old(entries[j])
      ensures |disk| == |old(disk)|
      ensures forall s :: 0 <= s < |disk| && s != entries[i].sector ==> disk[s] == old(disk[s])
      ensures disk[entries[i].sector] == entries[i].data
    {
      if entries[i].dirty {
        WriteBack(entries[..], disk, i);
        ghost var before := entries[..];
        disk := disk[entries[i].sector := entries[i].data];
        entries[i] := entries[i].(dirty := false);
        assert entries[..] == before[i := before[i].(dirty := false)];
      }
    }

    /** get_cache_entry: find the sector, else use the first free entry, else evict. */
    method GetEntry(sector: nat) returns (i: nat)
      requires Valid() && sector < |disk|
      modifies this`disk, entries
      ensures Valid() && View() == old(View()) && |disk| == |old(disk)|
      ensures i < entries.Length && Hit(entries[i], sector) && entries[i].tick == old(entries[i].tick)
      ensures forall j :: 0 <= j < entries.Length && j != i ==> entries[j] == old(entries[j])
      ensures Goes(old(entries[..]), sector, i)
      ensures Hit(old(entries[i]), sector) ==> entries[i] == old(entries[i]) && disk == old(disk)
      ensures Saves(old(disk), disk, old(View()), old(entries[i]))
    {
      hide Seen, Goes, Saves;
      ghost var before := entries[..];
      GoesSomewhere(before, sector);
      SavesNothing(disk, View());
      var spare: int := -1;
      for k := 0 to CACHE_SIZE
        invariant forall j :: 0 <= j < k ==> !Hit(entries[j], sector)
        invariant spare < k && (spare >= 0 ==> entries[spare].free && forall j :: 0 <= j < spare ==> !entries[j].free)
        invariant spare < 0 ==> forall j :: 0 <= j < k ==> !entries[j].free
      {
        if Hit(entries[k], sector) {
          return k;
        } else if spare < 0 && entries[k].free {
          spare := k;
        }
      }
      if spare >= 0 {
        i := spare;
      } else {
        i := EntryToEvict();
        SeenHit(before, disk, i);
        WriteEntry(i);
        SavesEntry(old(disk), disk, old(View()), before[i]);
      }
      Load(entries[..], disk, i, sector);
      ghost var mid := entries[..];
      entries[i] := entries[i].(sector := sector, free := false, dirty := false, data := disk[sector]);
      assert entries[..] == mid[i := entries[i]];
    }

    /** cache_read_partial. */
    method ReadPartial(sector: nat, ofs: nat, size: nat) returns (data: seq<Byte>)
      requires Valid() && sector < |disk| && ofs + size <= SECTOR_SIZE
      modifies this`disk, entries
      ensures Valid() && View() == old(View()) && |disk| == |old(disk)|
      ensures data == View()[sector][ofs..ofs + size]
      ensures Used(old(entries[..]), entries[..], sector, clock, old(disk), disk, old(View()))
    {
      var i := GetEntry(sector);
      SeenHit(entries[..], disk, i);
      data := entries[i].data[ofs..ofs + size];
      Modify(entries[..], disk, i, entries[i].data, entries[i].dirty, clock);
      ghost var before := entries[..];
      entries[i] := entries[i].(tick := clock);
      assert entries[..] == before[i := entries[i]];
      assert View()[sector] == before[i].data;
      UsedAt(old(entries[..]), entries[..], sector, clock, old(disk), disk, old(View()), i);
    }

    /** cache_write_partial; the kernel stops if the write would cross the end of the sector. */
    method WritePartial(sector: nat, data: seq<Byte>, ofs: nat) returns (ok: bool)
      requires Valid() && sector < |disk|
      modifies this`disk, entries
      ensures ok <==> ofs + |data| <= SECTOR_SIZE
      ensures Valid() && |disk| == |old(disk)|
      ensures View() == if ok then old(View())[sector := Patch(old(View())[sector], ofs, data)] else old(View())
      ensures ok ==> Used(old(entries[..]), entries[..], sector, clock, old(disk), disk, old(View()))
    {
      ok := ofs + |data| <= SECTOR_SIZE;
      if ok {
        var i := GetEntry(sector);
        SeenHit(entries[..], disk, i);
        Modify(entries[..], disk, i, Patch(entries[i].data, ofs, data), true, clock);
        ghost var before := entries[..];
        entries[i] := entries[i].(data := Patch(entries[i].data, ofs, data), dirty := true, tick := clock);
        assert entries[..] == before[i := entries[i]];
        UsedAt(old(entries[..]), entries[..], sector, clock, old(disk), disk, old(View()), i);
      }
    }

    /** write_cache_to_disk: afterwards the disk is what readers see. */
    method Flush()
      requires Valid()
      modifies this`disk, entries
      ensures Valid() && View() == old(View()) && disk == View()
    {
      for i := 0 to CACHE_SIZE
        invariant Valid() && View() == old(View()) && |disk| == |old(disk)|
        invariant forall j :: 0 <= j < i && !entries[j].free ==> !entries[j].dirty
      {
        if !entries[i].free {
          WriteEntry(i);
        }
      }
      forall s | 0 <= s < |disk| ensures disk[s] == View()[s] {
        if j :| 0 <= j < entries.Length && Hit(entries[j], s) {
          assert Hit(entries[..][j], s);
          SeenHit(entries[..], disk, j);
        }
      }
    }
  }
}
