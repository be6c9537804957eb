/**
 filesys/inode.c over the buffer cache and the free map: finding blocks, growing an inode,
 reading and writing at an offset. The file that holds the free map itself is not on this disk:
 writing it is only seen in whether it succeeded.
 */
module FileSystems {
  import opened Common
  import opened Seqs
  import opened BufferCache
  import opened Bitmaps
  import opened FreeMaps
  import opened InodeLayout
  import opened InodeGrowth
  import opened InodeFiles

  /** What inode_disk_extend reports, with the inode as it stands in memory. */
  datatype Extension = Refused(inode: InodeDisk) | Extended(inode: InodeDisk) | Stopped

  lemma PatchWhole(s: Sector, data: Sector)
    ensures Patch(s, 0, data) == data
  {
  }

  lemma ZeroStep(v: Disk, ss: seq<Word>, s: Word)
    requires s < |v|
    ensures ZeroAll(v, ss)[s := Zeros()] == ZeroAll(v, ss + [s])
  {
  }

  class FileSystem {
    const cache: Cache
    const freeMap: FreeMap

    ghost predicate Valid()
      reads this, cache, cache.entries, freeMap, freeMap.used, freeMap.used.words
    {
      && cache.Valid() && freeMap.Valid()
      && |cache.disk| <= 0x1_0000_0000 && freeMap.used.bitCnt == |cache.disk|
      && Separate(cache, freeMap)
    }

    /** The cache's memory is not the bitmap's. */
    static ghost predicate Separate(c: Cache, m: FreeMap)
    {
      (c.entries as object) != (m.used.words as object)
    }

    /** The disk as everyone sees it through the cache. */
    ghost function V(): (v: Disk)
      reads cache, cache.entries
      ensures |v| == |cache.disk|
    {
      cache.View()
    }

    constructor (c: Cache, m: FreeMap)
      requires c.Valid() && m.Valid() && |c.disk| <= 0x1_0000_0000 && m.used.bitCnt == |c.disk| && Separate(c, m)
      ensures Valid() && cache == c && freeMap == m
    {
      cache, freeMap := c, m;
    }

    /** cache_read. */
    method ReadSector(s: nat) returns (data: Sector)
      requires Valid() && s < |cache.disk|
      modifies cache`disk, cache.entries
      ensures Valid() && V() == old(V()) && data == V()[s]
    {
      data := cache.ReadPartial(s, 0, SECTOR_SIZE);
    }

    /** cache_write. */
    method WriteSector(s: nat, data: Sector)
      requires Valid() && s < |cache.disk|
      modifies cache`disk, cache.entries
      ensures Valid() && V() == old(V())[s := data]
    {
      var ok := cache.WritePartial(s, data, 0);
      PatchWhole(old(V())[s], data);
    }

    /** byte_to_sector. The index sectors it reads must exist; the length of the file is not looked at, and a position
        no index block can name gives -1. */
    method ByteToSector(d: InodeDisk, pos: nat) returns (s: Word)
      requires Valid() && |d.dblocks| == DIRECT && Readable(d, V(), pos / SECTOR_SIZE)
      modifies cache`disk, cache.entries
      ensures Valid() && V() == old(V()) && s == BlockAt(d, V(), pos / SECTOR_SIZE)
    {
      var n := pos / SECTOR_SIZE;
      if n < DIRECT {
        return d.dblocks[n];
      }
      n := n - DIRECT;
      if n < PER_BLOCK {
        var block := ReadSector(d.ind);
        return WordAt(block, n);
      }
      n := n - PER_BLOCK;
      if n < PER_BLOCK * PER_BLOCK {
        var block := ReadSector(d.dind);
        block := ReadSector(WordAt(block, n / PER_BLOCK));
        return WordAt(block, n % PER_BLOCK);
      }
      return 0xFFFF_FFFF;
    }

    /** inode_length. */
    method InodeLength(self: nat) returns (length: Word)
      requires Valid() && self < |cache.disk|
      modifies cache`disk, cache.entries
      ensures Valid() && V() == old(V()) && length == Decode(V()[self]).length
    {
      var data := ReadSector(self);
      length := Decode(data).length;
    }

    // ---- growing ----

    /** Clear the sectors `ss`, one by one. */
    method ZeroSectors(ss: seq<Word>)
      requires Valid() && forall s :: s in ss ==> s < |cache.disk|
      modifies cache`disk, cache.entries
      ensures Valid() && V() == ZeroAll(old(V()), ss)
    {
      ghost var v := V();
      ZeroNone(v);
      for i := 0 to |ss|
        invariant Valid() && |cache.disk| == |old(cache.disk)| && V() == ZeroAll(v, ss[..i])
      {
        assert ss[i] in ss;
        WriteSector(ss[i], Zeros());
        ZeroStep(v, ss[..i], ss[i]);
        assert ss[..i + 1] == ss[..i] + [ss[i]];
      }
      assert ss[..|ss|] == ss;
    }

    /** inode_disk_extend_dblock. */
    method ExtendDblock(d: InodeDisk, sectors: seq<Word>, ofs: nat, total: nat)
        returns (d': InodeDisk, rest: seq<Word>, ofs': nat, total': nat)
      requires Valid() && |d.dblocks| == DIRECT && total <= |sectors|
      requires forall s :: s in sectors ==> s < |cache.disk|
      modifies cache`disk, cache.entries
      ensures Valid()
      ensures ofs >= DIRECT ==> d' == d && rest == sectors && ofs' == ofs - DIRECT && total' == total && V() == old(V())
      ensures ofs < DIRECT ==>
        var a := Min(DIRECT - ofs, total);
        && d' == d.(dblocks := d.dblocks[..ofs] + sectors[..a] + d.dblocks[ofs + a..])
        && rest == sectors[a..] && ofs' == 0 && total' == total - a && V() == ZeroAll(old(V()), sectors[..a])
    {
      if ofs >= DIRECT {
        return d, sectors, ofs - DIRECT, total;
      }
      var a := Min(DIRECT - ofs, total);
      assert forall s :: s in sectors[..a] ==> s in sectors;
      ZeroSectors(sectors[..a]);
      d' := d.(dblocks := d.dblocks[..ofs] + sectors[..a] + d.dblocks[ofs + a..]);
      rest, ofs', total' := sectors[a..], 0, total - a;
    }

    /** inode_disk_extend_indblock_children; `ok` is false when cache_write_partial stops the kernel. */
    method ExtendChildren(b: Word, sectors: seq<Word>, ofs: nat, total: nat)
        returns (ok: bool, rest: seq<Word>, ofs': nat, total': nat)
      requires Valid() && total <= |sectors| && (ofs < PER_BLOCK ==> b < |cache.disk|)
      requires forall s :: s in sectors ==> s < |cache.disk|
      modifies cache`disk, cache.entries
      ensures Valid()
      ensures ofs >= PER_BLOCK ==>
        ok && rest == sectors && ofs' == ofs - PER_BLOCK && total' == total && V() == old(V())
      ensures ofs < PER_BLOCK ==> (ok <==> ofs + Min(total, PER_BLOCK) <= PER_BLOCK)
      ensures ofs < PER_BLOCK && ok ==>
        var n := Min(total, PER_BLOCK);
        rest == sectors[n..] && ofs' == 0 && total' == total - n && V() == Children(old(V()), b, ofs, sectors[..n])
    {
      if ofs >= PER_BLOCK {
        return true, sectors, ofs - PER_BLOCK, total;
      }
      var n := Min(total, PER_BLOCK);
      rest, ofs', total' := sectors[n..], 0, total - n;
      ok := cache.WritePartial(b, Bytes(sectors[..n]), 4 * ofs);
      if ok {
        assert V() == Put(old(V()), b, ofs, sectors[..n]);
        assert forall s :: s in sectors[..n] ==> s in sectors;
        ZeroSectors(sectors[..n]);
      }
    }

    /** The loop of inode_disk_extend_doubly_indblock_children over children that are new. */
    method ExtendNewChildren(children: seq<Word>, first: nat, sectors: seq<Word>, indirect: seq<Word>) returns (ch: seq<Word>)
      requires Valid() && |children| == PER_BLOCK && PER_BLOCK * first + |sectors| <= PER_BLOCK * PER_BLOCK
      requires |indirect| == DivUp(|sectors|, PER_BLOCK)
      requires forall s :: s in sectors || s in indirect ==> s < |cache.disk|
      modifies cache`disk, cache.entries
      ensures Valid() && (V(), ch) == Double(old(V()), children, first, 0, sectors, indirect)
    {
      hide Children;
      var ss: seq<Word>, ix: seq<Word> := sectors, indirect;
      var x: nat, total: nat := first, |sectors|;
      ch := children;
      while ss != []
        invariant Valid() && |cache.disk| == |old(cache.disk)| && |ch| == PER_BLOCK && total == |ss|
        invariant PER_BLOCK * x + |ss| <= PER_BLOCK * PER_BLOCK && |ix| == DivUp(|ss|, PER_BLOCK)
        invariant forall s :: s in ss || s in ix ==> s < |cache.disk|
        invariant Double(V(), ch, x, 0, ss, ix) == Double(old(V()), children, first, 0, sectors, indirect)
        decreases |ss|
      {
        DivUpStep(|ss|);
        assert ix[0] in ix;
        ch := ch[x := ix[0]];
        var ok, rest, _, left := ExtendChildren(ch[x], ss, 0, total);
        assert forall s :: s in rest ==> s in ss;
        assert forall s :: s in ix[1..] ==> s in ix;
        ss, ix, total, x := rest, ix[1..], left, x + 1;
      }
    }

    /** inode_disk_extend_doubly_indblock_children: a first child that exists already takes what fits, the others are
        new. */
    method ExtendDoubly(b: Word, sectors: seq<Word>, indirect: seq<Word>, ofs: nat) returns (ok: bool)
      requires Valid() && b < |cache.disk| && sectors != [] && ofs + |sectors| <= PER_BLOCK * PER_BLOCK
      requires forall s :: s in sectors || s in indirect ==> s < |cache.disk|
      requires ofs % PER_BLOCK == 0 ==> |indirect| == DivUp(|sectors|, PER_BLOCK)
      requires 0 < ofs % PER_BLOCK && ofs % PER_BLOCK + |sectors| <= PER_BLOCK ==> indirect == []
      requires ofs % PER_BLOCK != 0 ==> WordAt(V()[b], ofs / PER_BLOCK) < |cache.disk|
      modifies cache`disk, cache.entries
      ensures Valid()
      ensures ok <==> ofs % PER_BLOCK + Min(|sectors|, PER_BLOCK) <= PER_BLOCK
      ensures ok ==>
        var (v', ch') := Double(old(V()), Words(old(V())[b]), ofs / PER_BLOCK, ofs % PER_BLOCK, sectors, indirect);
        V() == v'[b := Bytes(ch')]
    {
      hide Children, Bytes, WordAt;
      var data := ReadSector(b);
      var ch := Words(data);
      var x, r := ofs / PER_BLOCK, ofs % PER_BLOCK;
      if r != 0 {
        var fits, rest, _, _ := ExtendChildren(ch[x], sectors, r, |sectors|);
        if !fits {
          return false;
        }
        ok := true;
        assert sectors[..|sectors|] == sectors && rest == [];
        OneChild(old(V()), ch, x, r, sectors);
      } else {
        ch := ExtendNewChildren(ch, x, sectors, indirect);
        ok := true;
      }
      WriteSector(b, Bytes(ch));
    }
  
    /** inode_disk_extend's last part: the doubly indirect block. */
    method PlaceDouble(d: InodeDisk, o: nat, sectors: seq<Word>, indirect: seq<Word>) returns (ok: bool, d': InodeDisk)
      requires Valid() && sectors != [] && o + |sectors| <= PER_BLOCK * PER_BLOCK
      requires |indirect| == IndexCount(SINGLE_END + o + |sectors|) - IndexCount(SINGLE_END + o)
      requires forall s :: s in sectors || s in indirect ==> s < |cache.disk|
      requires o > 0 ==> Layout(d, V(), SINGLE_END + o)
      modifies cache`disk, cache.entries
      ensures Valid() && |cache.disk| == |old(cache.disk)|
      ensures ok <==> ExtendDouble(d, old(V()), o, sectors, indirect).Grown?
      ensures ok ==> ExtendDouble(d, old(V()), o, sectors, indirect) == Grown(d', V())
    {
      hide Double, Bytes, Words, WordAt;
      d' := d;
      var ix := indirect;
      if o == 0 {
        assert ix[0] in ix && forall s :: s in ix[1..] ==> s in ix;
        d' := d'.(dind := ix[0]);
        ix := ix[1..];
      } else {
        assert InRange(d, V(), 1);
        if o % PER_BLOCK != 0 { assert InRange(d, V(), 2 + o / PER_BLOCK); }
      }
      ok := ExtendDoubly(d'.dind, sectors, ix, o);
    }

    /** inode_disk_extend's part from the indirect block on. */
    method PlaceSingle(d: InodeDisk, o: nat, sectors: seq<Word>, indirect: seq<Word>) returns (ok: bool, d': InodeDisk)
      requires Valid() && sectors != [] && DIRECT + o + |sectors| <= MAX_BLOCKS
      requires |indirect| == IndexCount(DIRECT + o + |sectors|) - IndexCount(DIRECT + o)
      requires forall s :: s in sectors || s in indirect ==> s < |cache.disk|
      requires o > 0 ==> Layout(d, V(), DIRECT + o)
      modifies cache`disk, cache.entries
      ensures Valid() && |cache.disk| == |old(cache.disk)|
      ensures ok <==> ExtendSingle(d, old(V()), o, sectors, indirect).Grown?
      ensures ok ==> ExtendSingle(d, old(V()), o, sectors, indirect) == Grown(d', V())
    {
      hide Children, ExtendDouble;
      d' := d;
      var ix := indirect;
      if o == 0 {
        assert ix[0] in ix && forall s :: s in ix[1..] ==> s in ix;
        d' := d'.(ind := ix[0]);
        ix := ix[1..];
      } else {
        assert InRange(d, V(), 0);
      }
      var fits, rest, ofs, total := ExtendChildren(d'.ind, sectors, o, |sectors|);
      if !fits || total <= 0 {
        return fits, d';
      }
      assert forall s :: s in rest ==> s in sectors;
      ok, d' := PlaceDouble(d', ofs, rest, ix);
    }

    /** inode_disk_extend past the allocation; the in-memory inode already has its new length. */
    method Place(d: InodeDisk, k: nat, sectors: seq<Word>, indirect: seq<Word>) returns (ok: bool, d': InodeDisk)
      requires Valid() && Layout(d, V(), k) && k + |sectors| <= MAX_BLOCKS
      requires |indirect| == IndexCount(k + |sectors|) - IndexCount(k)
      requires forall s :: s in sectors || s in indirect ==> s < |cache.disk|
      modifies cache`disk, cache.entries
      ensures Valid() && |cache.disk| == |old(cache.disk)|
      ensures ok <==> !Crosses(k, k + |sectors|)
      ensures ok ==> Extend(d, old(V()), k, sectors, indirect) == Grown(d', V())
    {
      hide ZeroAll, ExtendSingle;
      PanicsExactly(d, V(), k, sectors, indirect);
      ZeroNone(V());
      var d1, rest, ofs, total := ExtendDblock(d, sectors, k, |sectors|);
      assert k >= DIRECT ==> sectors[..0] == [] && sectors[0..] == sectors;
      if total <= 0 {
        return true, d1;
      }
      assert forall s :: s in rest ==> s in sectors;
      ok, d' := PlaceSingle(d1, ofs, rest, indirect);
    }
  
    /** inode_disk_extend; `written` says whether the free map could be saved. */
    method ExtendInode(d: InodeDisk, length: Word, written: bool) returns (r: Extension)
      requires Valid() && Layout(d, V(), Blocks(d.length)) && Blocks(length) <= MAX_BLOCKS
      modifies cache`disk, cache.entries, freeMap.used.words
      ensures Valid() && |cache.disk| == |old(cache.disk)|
      ensures ExtendSpec(d, old(V()), old(freeMap.used.Bits()), length, written, r, V(), freeMap.used.Bits())
    {
      hide Extend, Crosses, BitOf, IndexCount, Blocks, Layout, FreeFrom, MarkAll, AfterFailure;
      if length < d.length {
        return Refused(d);
      }
      BlocksGrow(d.length, length);
      var k, m := Blocks(d.length), Blocks(length);
      IndexCountGrows(k, m);
      var data, index := m - k, IndexCount(m) - IndexCount(k);
      var d1 := d.(length := length);
      if data + index == 0 {
        return Extended(d1);
      }
      ghost var bits, v := freeMap.used.Bits(), V();
      var ok, sectors := freeMap.Allocate(data + index, written);
      assert V() == v;
      if !ok {
        return Refused(d1);
      }
      assert sectors == Sectors(bits, data + index);
      var ss: seq<Word>, ix: seq<Word> := sectors[..data], sectors[data..];
      SectorsBound(bits, data + index);
      LayoutAside(d, V(), k, length);
      assert forall s :: s in ss || s in ix ==> s in sectors;
      assert |bits| == |cache.disk|;
      var placed, d' := Place(d1, k, ss, ix);
      r := if placed then Extended(d') else Stopped;
    }

    // ---- reading and writing ----

    /** One turn of inode_read_at's loop: the bytes from `pos` to the end of the sector, the file or the request. */
    method ReadPiece(self: nat, d: InodeDisk, pos: nat, left: nat) returns (piece: seq<Byte>)
      requires Valid() && self < |cache.disk| && d == Decode(V()[self]) && FileOk(self, d, V())
      modifies cache`disk, cache.entries
      ensures Valid() && V() == old(V())
      ensures |piece| == Chunk(d.length, pos, left)
      ensures pos + |piece| <= d.length || piece == []
      ensures piece != [] ==> piece == Contents(d, V())[pos..pos + |piece|]
    {
      hide Decode, FileOk, BlockAt, Contents, Layout, Readable, Blocks, Used, Goes, Saves;
      var length := InodeLength(self);
      var chunk := Chunk(length, pos, left);
      if chunk == 0 {
        return [];
      }
      InsideBlocks(pos, d.length);
      FileLayout(self, d, V());
      LayoutReadable(d, V(), Blocks(d.length), pos / SECTOR_SIZE);
      var s := ByteToSector(d, pos);
      PieceOfFile(self, d, V(), pos, chunk);
      piece := cache.ReadPartial(s, pos % SECTOR_SIZE, chunk);
    }

    /** inode_read_at. */
    method ReadAt(self: nat, size: nat, offset: nat) returns (data: seq<Byte>)
      requires Valid() && self < |cache.disk| && FileOk(self, Decode(V()[self]), V())
      modifies cache`disk, cache.entries
      ensures Valid() && V() == old(V())
      ensures data == Slice(Contents(Decode(V()[self]), V()), offset, size)
    {
      hide V, Valid, Decode, FileOk, Contents, Slice, Chunk, Blocks;
      var inode := ReadSector(self);
      var d := Decode(inode);
      ghost var c := Contents(d, V());
      var left, pos := size, offset;
      data := [];
      SliceNone(c, offset);
      while left > 0
        invariant Valid() && V() == old(V()) && offset <= pos <= offset + size && pos + left == offset + size
        invariant pos == offset || pos <= |c|
        invariant data == Slice(c, offset, pos - offset)
        decreases left
      {
        var piece := ReadPiece(self, d, pos, left);
        ChunkBounds(d.length, pos, left);
        if piece == [] {
          break;
        }
        SliceStep(c, offset, pos, |piece|);
        data := data + piece;
        left, pos := left - |piece|, pos + |piece|;
      }
      ChunkBounds(d.length, pos, left);
      SliceDone(c, offset, size, pos);
    }

    /** One turn of inode_write_at's loop; `d` is the in-memory inode, whose length may be ahead of the one on disk. */
    method WritePiece(self: nat, d: InodeDisk, buffer: seq<Byte>, pos: nat) returns (chunk: nat)
      requires Valid() && self < |cache.disk| && FileOk(self, Decode(V()[self]), V())
      requires Decode(V()[self]) == d.(length := Decode(V()[self]).length)
      modifies cache`disk, cache.entries
      ensures Valid() && |cache.disk| == |old(cache.disk)|
      ensures chunk == Chunk(Decode(old(V())[self]).length, pos, |buffer|) <= |buffer|
      ensures V() == if chunk == 0 then old(V()) else Poke(Decode(old(V())[self]), old(V()), pos, buffer[..chunk])
    {
      hide Decode, FileOk, BlockAt, Layout, Blocks;
      ghost var v, dd := V(), Decode(V()[self]);
      var length := InodeLength(self);
      chunk := Chunk(length, pos, |buffer|);
      if chunk == 0 {
        return;
      }
      InsideBlocks(pos, dd.length);
      FileLayout(self, dd, V());
      LayoutAside(dd, V(), Blocks(dd.length), d.length);
      LayoutReadable(d, V(), Blocks(dd.length), pos / SECTOR_SIZE);
      var s := ByteToSector(d, pos);
      DataInRange(self, dd, V(), pos);
      BlockAside(d, V(), dd.length, pos / SECTOR_SIZE);
      var ok := cache.WritePartial(s, buffer[..chunk], pos % SECTOR_SIZE);
    }

    /** inode_write_at's loop. */
    method WriteLoop(self: nat, d: InodeDisk, buffer: seq<Byte>, offset: nat) returns (n: nat)
      requires Valid() && self < |cache.disk| && FileOk(self, Decode(V()[self]), V())
      requires Decode(V()[self]) == d.(length := Decode(V()[self]).length)
      modifies cache`disk, cache.entries
      ensures Valid() && |cache.disk| == |old(cache.disk)| && V()[self] == old(V())[self]
      ensures WroteFile(self, Decode(V()[self]), old(V()), V())
      ensures n == Fits(Decode(V()[self]).length, offset, |buffer|)
      ensures Contents(Decode(V()[self]), V()) == Laid(Contents(Decode(V()[self]), old(V())), offset, buffer[..n])
    {
      hide V, Valid, Decode, FileOk, BlockAt, Uses, Contents, Laid, Chunk, Fits, WroteFile, Poke, Blocks, Overlay;
      ghost var v0 := V();
      ghost var dd := Decode(V()[self]);
      var left, pos := |buffer|, offset;
      n := 0;
      NothingWritten(self, dd, v0, offset);
      FitsNone(dd.length, offset, |buffer|);
      while left > 0
        invariant Valid() && |cache.disk| == |v0| && V()[self] == v0[self]
        invariant pos == offset + n && n + left == |buffer|
        invariant FileOk(self, dd, V()) && WroteFile(self, dd, v0, V())
        invariant n <= Fits(dd.length, offset, |buffer|)
        invariant Contents(dd, V()) == Laid(Contents(dd, v0), offset, buffer[..n])
        decreases left
      {
        ghost var v1 := V();
        var chunk := WritePiece(self, d, buffer[n..], pos);
        ChunkBounds(dd.length, pos, left);
        if chunk == 0 {
          break;
        }
        SliceOf(buffer, n, chunk);
        WriteStep(self, dd, v0, v1, V(), offset, buffer, n, chunk);
        FitsStep(dd.length, offset, |buffer|, n, chunk);
        left, pos, n := left - chunk, pos + chunk, n + chunk;
      }
      ChunkBounds(dd.length, pos, left);
      FitsDone(dd.length, offset, |buffer|, n);
    }
  
    /** inode_write_at, among other files. `stopped` is a failed assertion in the kernel. */
    method WriteAt(self: nat, buffer: seq<Byte>, offset: nat, denied: bool, written: bool, ghost files: set<nat>)
      returns (n: nat, stopped: bool)
      requires Valid() && Files(V(), files) && Marked(V(), freeMap.used.Bits(), files) && self in files
      requires offset + |buffer| < 0x1_0000_0000 && Blocks(offset + |buffer|) <= MAX_BLOCKS
      modifies cache`disk, cache.entries, freeMap.used.words
      ensures Valid() && |cache.disk| == |old(cache.disk)|
      ensures denied ==> n == 0 && !stopped && V() == old(V()) && freeMap.used.Bits() == old(freeMap.used.Bits())
      ensures !denied ==>
        (stopped <==> Stops(Decode(old(V())[self]), old(freeMap.used.Bits()), offset + |buffer|, written))
      ensures !denied && !stopped ==>
        WriteSpec(self, old(V()), old(freeMap.used.Bits()), buffer, offset, written, n, V())
      ensures !stopped ==> Files(V(), files) && OthersSame(self, files, old(V()), V())
      ensures !stopped && !denied ==> (Marked(V(), freeMap.used.Bits(), files) <==>
        NoneUses(old(V()), files, Freed(Decode(old(V())[self]), old(freeMap.used.Bits()), offset + |buffer|, written)))
      ensures !stopped && !denied && Grows(Decode(old(V())[self]), old(freeMap.used.Bits()), offset + |buffer|, written) ==>
        MarksNeeded(old(freeMap.used.Bits()), freeMap.used.Bits(), Decode(old(V())[self]).length, offset + |buffer|)
    {
      hide Files, Marked, Decode, Encode, FileOk, Contents, WroteFile, ExtendSpec, Stops, Grows, WriteSpec, OthersSame,
        Blocks, BitOf, Layout, Laid, NoneUses, Freed, MarksNeeded;
      ghost var v0, bits := V(), freeMap.used.Bits();
      SameOthers(self, files, v0);
      if denied {
        return 0, false;
      }
      InFiles(self, files, v0);
      var inode := ReadSector(self);
      var d := Decode(inode);
      var length: Word := offset + |buffer|;
      var r := ExtendInode(d, length, written);
      ghost var v1, bits1 := V(), freeMap.used.Bits();
      ExtendCases(d, v0, bits, length, written, r, v1, bits1);
      MarksCount(d, v0, bits, length, written, r, v1, bits1);
      match r
      case Stopped =>
        return 0, true;
      case Refused(d1) =>
        n := WriteLoop(self, d1, buffer, offset);
        LoopKeeps(self, files, v0, V(), bits1);
        RefusedMarks(d, v0, bits, length, written, r, v1, bits1, files);
        NotExtended(self, v0, bits, buffer, offset, written, n, V());
        stopped := false;
      case Extended(d1) =>
        ExtendedFile(self, files, v0, bits, length, written, d1, v1, bits1);
        WriteSector(self, Encode(d1));
        ghost var v2 := V();
        InFiles(self, files, v2);
        n := WriteLoop(self, d1, buffer, offset);
        LoopKeeps(self, files, v2, V(), bits1);
        OthersTwice(self, files, v0, v2, V());
        Written(self, v0, bits, buffer, offset, written, v2, n, V());
        NothingFreed(d, v0, bits, length, written, files);
        stopped := false;
    }
  
    /** inode_create in the sector `self`, which its caller has already marked. It returns true, as `ok`, whatever
        inode_disk_extend says; `made` is whether there is an inode. */
    method Create(self: nat, length: Word, isDir: bool, written: bool, ghost files: set<nat>)
      returns (ok: bool, made: bool, stopped: bool)
      requires Valid() && Files(V(), files) && Marked(V(), freeMap.used.Bits(), files) && Blocks(length) <= MAX_BLOCKS
      requires self < |cache.disk| && freeMap.used.Bits()[self] && Unused(self, files, V())
      modifies cache`disk, cache.entries, freeMap.used.words
      ensures Valid() && |cache.disk| == |old(cache.disk)|
      ensures stopped <==> Stops(EmptyInode(isDir), old(freeMap.used.Bits()), length, written)
      ensures !stopped ==> (made <==> Grows(EmptyInode(isDir), old(freeMap.used.Bits()), length, written))
      ensures ok <==> !stopped
      ensures !stopped && !made ==> V() == old(V())
      ensures !stopped && !made ==> (Marked(V(), freeMap.used.Bits(), files) <==>
        NoneUses(V(), files, Freed(EmptyInode(isDir), old(freeMap.used.Bits()), length, written)))
      ensures made ==> CreateSpec(self, length, isDir, files, old(V()), V(), freeMap.used.Bits())
      ensures made ==> MarksNeeded(old(freeMap.used.Bits()), freeMap.used.Bits(), 0, length)
    {
      hide Files, Marked, Decode, Encode, FileOk, ExtendSpec, Stops, Grows, CreateSpec, Blocks, BitOf, Layout, Unused,
        NoneUses, Freed, MarksNeeded;
      ghost var v0, bits := V(), freeMap.used.Bits();
      var d := EmptyInode(isDir);
      EmptyFile(self, isDir, v0);
      var r := ExtendInode(d, length, written);
      ghost var v1, bits1 := V(), freeMap.used.Bits();
      ExtendCases(d, v0, bits, length, written, r, v1, bits1);
      MarksCount(d, v0, bits, length, written, r, v1, bits1);
      match r
      case Stopped =>
        return false, false, true;
      case Refused(d1) =>
        RefusedMarks(d, v0, bits, length, written, r, v1, bits1, files);
        return true, false, false;
      case Extended(d1) =>
        NewFile(self, length, isDir, files, v0, bits, written, d1, v1, bits1);
        WriteSector(self, Encode(d1));
        return true, true, false;
    }
  }

  // ---- specifications ----

  /** The first `cnt` free sectors. */
  ghost function Sectors(bits: seq<bool>, cnt: nat): (ss: seq<Word>)
    requires |bits| <= 0x1_0000_0000 && cnt <= |FreeFrom(bits, 0)|
    ensures |ss| == cnt
  {
    assert forall a :: 0 <= a < cnt ==> FreeFrom(bits, 0)[a] < |bits| by {
      forall a: nat | a < cnt ensures FreeFrom(bits, 0)[a] < |bits| { FreeFromSound(bits, 0, a); }
    }
    FreeFrom(bits, 0)[..cnt]
  }

  lemma SectorsBound(bits: seq<bool>, cnt: nat)
    requires |bits| <= 0x1_0000_0000 && cnt <= |FreeFrom(bits, 0)|
    ensures forall x :: x in Sectors(bits, cnt) ==> x < |bits| && !bits[x]
    ensures NoDup(Sectors(bits, cnt))
  {
    forall a: nat | a < cnt ensures Sectors(bits, cnt)[a] < |bits| && !bits[Sectors(bits, cnt)[a]] {
      FreeFromSound(bits, 0, a);
    }
    forall a: nat, b: nat | a < b < cnt ensures Sectors(bits, cnt)[a] != Sectors(bits, cnt)[b] {
      FreeFromIncreasing(bits, 0, a, b);
    }
  }

  lemma LayoutAside(d: InodeDisk, v: Disk, k: nat, length: Word)
    requires Layout(d, v, k)
    ensures |d.dblocks| == DIRECT && Layout(d.(length := length), v, k)
  {
    LengthAside(d, v, k, length);
  }

  /** The index sectors on the way to block `n` exist. */
  ghost predicate Readable(d: InodeDisk, v: Disk, n: nat) {
    && (DIRECT <= n < SINGLE_END ==> d.ind < |v|)
    && (SINGLE_END <= n < MAX_BLOCKS ==> d.dind < |v| && WordAt(Sec(v, d.dind), (n - SINGLE_END) / PER_BLOCK) < |v|)
  }

  lemma LayoutReadable(d: InodeDisk, v: Disk, k: nat, n: nat)
    requires Layout(d, v, k) && n < k
    ensures |d.dblocks| == DIRECT && Readable(d, v, n)
  {
    if DIRECT <= n { assert InRange(d, v, 0); }
    if SINGLE_END <= n { assert InRange(d, v, 1) && InRange(d, v, 2 + (n - SINGLE_END) / PER_BLOCK); }
  }

  lemma BlocksGrow(a: nat, b: nat)
    requires a <= b
    ensures Blocks(a) <= Blocks(b)
  {
  }

  /** How many data sectors and index sectors a growth needs. */
  ghost function NeedData(d: InodeDisk, length: Word): nat
    requires d.length <= length
  {
    BlocksGrow(d.length, length);
    Blocks(length) - Blocks(d.length)
  }
  ghost function NeedIndex(d: InodeDisk, length: Word): nat
    requires d.length <= length
  {
    BlocksGrow(d.length, length);
    IndexCountGrows(Blocks(d.length), Blocks(length));
    IndexCount(Blocks(length)) - IndexCount(Blocks(d.length))
  }

  // ---- how many sectors that is ----

  /** The sectors of a file of `length` bytes, its inode aside: data, then the index blocks needed to name them. */
  function SectorsOf(length: nat): nat {
    var n := (length + 511) / 512;
    n + if n <= 12 then 0 else if n <= 140 then 1 else 2 + (n - 140 + 127) / 128
  }

  predicate Covers(k: nat, unit: nat, n: nat) { n <= k * unit }

  /** `k` units are the fewest that cover `n`. */
  ghost predicate Fewest(k: nat, unit: nat, n: nat) {
    Covers(k, unit, n) && forall j: nat :: Covers(j, unit, n) ==> k <= j
  }

  lemma DivUpFewest(n: nat, unit: nat)
    requires unit > 0
    ensures Fewest(DivUp(n, unit), unit, n)
  {
    var k := DivUp(n, unit);
    DivisionBounds(n + unit - 1, unit);
    forall j: nat | Covers(j, unit, n) ensures k <= j {
      if k > j { Times(j + 1, k, unit); }
    }
  }

  lemma DivisionBounds(a: nat, b: nat)
    requires b > 0
    ensures (a / b) * b <= a < (a / b) * b + b
  {
  }

  /** bytes_to_data_sectors gives the fewest 512-byte sectors that hold the file, and bytes_to_indirect_sectors no index
      block up to 12 of them, one up to 140, and beyond that two and the fewest of 128 entries that name the rest. */
  lemma SectorsFewest(length: nat)
    ensures var k := Blocks(length);
      && Fewest(k, 512, length) && SectorsOf(length) == k + IndexCount(k)
      && (if k <= 12 then IndexCount(k) == 0 else if k <= 140 then IndexCount(k) == 1
          else IndexCount(k) >= 2 && Fewest(IndexCount(k) - 2, 128, k - 140))
  {
    DivUpFewest(length, 512);
    var k := Blocks(length);
    if k > 140 { DivUpFewest(k - 140, 128); }
  }

  ghost function FreeSectors(bits: seq<bool>): set<nat> { set x: nat | x < |bits| && !bits[x] }

  ghost function NewlyMarked(bits: seq<bool>, bits': seq<bool>): set<nat> {
    set x: nat | x < |bits| && x < |bits'| && bits'[x] && !bits[x]
  }

  /** Nothing was unmarked, and exactly as many sectors were marked as the longer file has more than the shorter. */
  ghost predicate MarksNeeded(bits: seq<bool>, bits': seq<bool>, length: nat, length': nat) {
    && |bits'| == |bits| && (forall x: nat :: x < |bits| && bits[x] ==> bits'[x])
    && |NewlyMarked(bits, bits')| == if length' < length then 0 else SectorsOf(length') - SectorsOf(length)
  }

  lemma {:induction false} SetOfSeq<T>(s: seq<T>, x: set<T>)
    requires NoDup(s) && forall y :: y in s <==> y in x
    ensures |x| == |s|
    decreases |s|
  {
    if s != [] {
      var n := |s| - 1;
      assert s == s[..n] + [s[n]];
      SetOfSeq(s[..n], x - {s[n]});
    } else {
      assert x == {};
    }
  }

  lemma FreeCount(bits: seq<bool>)
    ensures |FreeFrom(bits, 0)| == |FreeSectors(bits)|
  {
    var s := FreeFrom(bits, 0);
    forall a: nat, b: nat | a < b < |s| ensures s[a] != s[b] { FreeFromIncreasing(bits, 0, a, b); }
    forall x: nat ensures x in s <==> x in FreeSectors(bits) {
      if x in s { var a: nat :| a < |s| && s[a] == x; FreeFromSound(bits, 0, a); }
      if x in FreeSectors(bits) { FreeFromComplete(bits, 0, x); }
    }
    SetOfSeq(s, FreeSectors(bits));
  }

  lemma NeedsSectors(d: InodeDisk, length: Word)
    requires d.length <= length
    ensures NeedData(d, length) + NeedIndex(d, length) == SectorsOf(length) - SectorsOf(d.length)
  {
    hide Blocks, IndexCount, SectorsOf;
    SectorsFewest(length);
    SectorsFewest(d.length);
  }

  /** A growth is refused exactly when it needs sectors, and there are fewer free ones or the map cannot be saved. */
  lemma GrowsExactly(d: InodeDisk, bits: seq<bool>, length: Word, written: bool)
    ensures Grows(d, bits, length, written) <==>
      || length < d.length || SectorsOf(length) == SectorsOf(d.length)
      || (written && SectorsOf(length) - SectorsOf(d.length) <= |FreeSectors(bits)|)
  {
    hide SectorsOf, FreeSectors, NeedData, NeedIndex;
    FreeCount(bits);
    if d.length <= length { NeedsSectors(d, length); }
  }

  lemma MarkedCount(bits: seq<bool>, cnt: nat)
    requires |bits| <= 0x1_0000_0000 && cnt <= |FreeFrom(bits, 0)|
    ensures |NewlyMarked(bits, MarkAll(bits, Sectors(bits, cnt)))| == cnt
  {
    SectorsBound(bits, cnt);
    hide Sectors, FreeFrom;
    var ss, new_ := Sectors(bits, cnt), NewlyMarked(bits, MarkAll(bits, Sectors(bits, cnt)));
    var s := seq(cnt, i requires 0 <= i < cnt => ss[i] as nat);
    assert forall a: nat, b: nat :: a < b < cnt ==> s[a] == ss[a] && s[b] == ss[b] && ss[a] != ss[b];
    forall x: nat ensures x in s <==> x in new_ {
      if x in s { var a: nat :| a < cnt && s[a] == x; assert ss[a] in ss; }
      if x in new_ { assert x in ss; var a: nat :| a < cnt && ss[a] == x; assert s[a] == x; }
    }
    SetOfSeq(s, new_);
  }

  lemma MarksCount(d: InodeDisk, v: Disk, bits: seq<bool>, length: Word, written: bool,
                   r: Extension, v': Disk, bits': seq<bool>)
    requires |bits| <= 0x1_0000_0000 && |d.dblocks| == DIRECT && ExtendSpec(d, v, bits, length, written, r, v', bits')
    ensures Grows(d, bits, length, written) ==> MarksNeeded(bits, bits', d.length, length)
  {
    hide Blocks, IndexCount, FreeFrom, Extend, SectorsOf, NeedData, NeedIndex, Sectors, Crosses, AfterFailure;
    assert NewlyMarked(bits, bits) == {};
    if Grows(d, bits, length, written) && d.length <= length {
      NeedsSectors(d, length);
      var cnt := NeedData(d, length) + NeedIndex(d, length);
      if cnt > 0 { MarkedCount(bits, cnt); }
    }
  }

  /** Everything inode_disk_extend can do. */
  ghost predicate ExtendSpec(d: InodeDisk, v: Disk, bits: seq<bool>, length: Word, written: bool,
                             r: Extension, v': Disk, bits': seq<bool>)
    requires |bits| <= 0x1_0000_0000 && |d.dblocks| == DIRECT
  {
    if length < d.length then r == Refused(d) && v' == v && bits' == bits
    else
      var d1 := d.(length := length);
      var data, cnt := NeedData(d, length), NeedData(d, length) + NeedIndex(d, length);
      if cnt == 0 then r == Extended(d1) && v' == v && bits' == bits
      else if !written || cnt > |FreeFrom(bits, 0)| then
        && r == Refused(d1) && v' == v
        && (var a := Min(cnt, |FreeFrom(bits, 0)|); a <= |bits| && bits' == AfterFailure(bits, a))
      else
        && bits' == MarkAll(bits, Sectors(bits, cnt))
        && if Crosses(Blocks(d.length), Blocks(length)) then r == Stopped
           else
             && Blocks(length) <= MAX_BLOCKS && r.Extended?
             && Extend(d1, v, Blocks(d.length), Sectors(bits, cnt)[..data], Sectors(bits, cnt)[data..]) == Grown(r.inode, v')
  }

  /** How many bytes one turn of the read and write loops moves. */
  function Chunk(length: nat, pos: nat, left: nat): nat {
    if pos >= length then 0 else Min(left, Min(length - pos, SECTOR_SIZE - pos % SECTOR_SIZE))
  }

  lemma ChunkBounds(length: nat, pos: nat, left: nat)
    ensures Chunk(length, pos, left) == 0 <==> left == 0 || pos >= length
    ensures Chunk(length, pos, left) <= left
    ensures Chunk(length, pos, left) > 0 ==>
      pos + Chunk(length, pos, left) <= length && pos % SECTOR_SIZE + Chunk(length, pos, left) <= SECTOR_SIZE
  {
  }

  /** The part of `c` a read of `size` bytes at `offset` returns. */
  function Slice(c: seq<Byte>, offset: nat, size: nat): seq<Byte> {
    if offset >= |c| then [] else c[offset..Min(offset + size, |c|)]
  }

  lemma SliceNone(c: seq<Byte>, offset: nat)
    ensures Slice(c, offset, 0) == []
  {
  }

  lemma SliceStep(c: seq<Byte>, offset: nat, pos: nat, n: nat)
    requires offset <= pos && pos + n <= |c| && n > 0
    ensures Slice(c, offset, pos - offset) + c[pos..pos + n] == Slice(c, offset, pos + n - offset)
  {
  }

  lemma SliceDone(c: seq<Byte>, offset: nat, size: nat, pos: nat)
    requires offset <= pos <= offset + size && (pos == offset + size || pos >= |c|)
    ensures Slice(c, offset, pos - offset) == Slice(c, offset, size)
  {
  }

  /** How many of `size` bytes fit in a file of `length` bytes from `offset` on. */
  function Fits(length: nat, offset: nat, size: nat): nat { if offset >= length then 0 else Min(size, length - offset) }

  lemma SliceOf<T>(s: seq<T>, n: nat, chunk: nat)
    requires n + chunk <= |s|
    ensures s[n..][..chunk] == s[n..n + chunk]
  {
  }

  lemma FitsNone(length: nat, offset: nat, size: nat)
    ensures 0 <= Fits(length, offset, size) <= size
  {
  }

  lemma FitsStep(length: nat, offset: nat, size: nat, n: nat, chunk: nat)
    requires chunk > 0 && offset + n + chunk <= length && n + chunk <= size
    ensures n + chunk <= Fits(length, offset, size)
  {
  }

  lemma FitsDone(length: nat, offset: nat, size: nat, n: nat)
    requires n <= Fits(length, offset, size) && (n == size || offset + n >= length)
    ensures n == Fits(length, offset, size)
  {
  }

  /** `data` laid over `c` at `offset`; nothing when there is no data. */
  function Laid(c: seq<Byte>, offset: nat, data: seq<Byte>): seq<Byte> {
    if data == [] || offset + |data| > |c| then c else Overlay(c, offset, data)
  }

  /** Only the file's own data sectors differ, and it is still the same well-formed file. */
  ghost predicate WroteFile(self: nat, d: InodeDisk, v: Disk, v': Disk) {
    && |v'| == |v| && FileOk(self, d, v')
    && (forall s: nat :: s < |v| && !Uses(self, d, v, s) ==> v'[s] == v[s])
    && (forall s: nat :: Uses(self, d, v', s) <==> Uses(self, d, v, s))
  }

  lemma NothingWritten(self: nat, d: InodeDisk, v: Disk, offset: nat)
    requires FileOk(self, d, v)
    ensures WroteFile(self, d, v, v) && Laid(Contents(d, v), offset, []) == Contents(d, v)
  {
  }

  lemma BlockAside(d: InodeDisk, v: Disk, length: Word, n: nat)
    requires |d.dblocks| == DIRECT
    ensures BlockAt(d.(length := length), v, n) == BlockAt(d, v, n)
  {
  }

  lemma FileLayout(self: nat, d: InodeDisk, v: Disk)
    requires FileOk(self, d, v)
    ensures |d.dblocks| == DIRECT && Layout(d, v, Blocks(d.length))
  {
  }

  lemma InsideBlocks(pos: nat, length: nat)
    requires pos < length
    ensures pos / SECTOR_SIZE < Blocks(length)
  {
  }

  lemma DataInRange(self: nat, d: InodeDisk, v: Disk, pos: nat)
    requires FileOk(self, d, v) && pos < d.length
    ensures BlockAt(d, v, pos / SECTOR_SIZE) < |v| && BlockAt(d, v, pos / SECTOR_SIZE) != self
  {
    InsideBlocks(pos, d.length);
    assert DataOk(self, d, v, Blocks(d.length), pos / SECTOR_SIZE);
  }

  /** Bytes of one block are consecutive bytes of the file. */
  lemma PieceOfFile(self: nat, d: InodeDisk, v: Disk, pos: nat, chunk: nat)
    requires FileOk(self, d, v) && pos + chunk <= d.length && pos % SECTOR_SIZE + chunk <= SECTOR_SIZE && chunk > 0
    ensures BlockAt(d, v, pos / SECTOR_SIZE) < |v|
    ensures v[BlockAt(d, v, pos / SECTOR_SIZE)][pos % SECTOR_SIZE..pos % SECTOR_SIZE + chunk] == Contents(d, v)[pos..pos + chunk]
  {
    DataInRange(self, d, v, pos);
    hide BlockAt;
    var piece := v[BlockAt(d, v, pos / SECTOR_SIZE)][pos % SECTOR_SIZE..pos % SECTOR_SIZE + chunk];
    forall i | 0 <= i < chunk ensures piece[i] == Contents(d, v)[pos + i] {
      assert (pos + i) / SECTOR_SIZE == pos / SECTOR_SIZE && (pos + i) % SECTOR_SIZE == pos % SECTOR_SIZE + i;
    }
  }

  lemma LaidStep(c: seq<Byte>, offset: nat, buffer: seq<Byte>, n: nat, chunk: nat)
    requires n + chunk <= |buffer| && offset + n + chunk <= |c| && chunk > 0
    ensures offset + n + chunk <= |Laid(c, offset, buffer[..n])|
    ensures Overlay(Laid(c, offset, buffer[..n]), offset + n, buffer[n..n + chunk]) == Laid(c, offset, buffer[..n + chunk])
  {
  }

  lemma WriteStep(self: nat, d: InodeDisk, v0: Disk, v1: Disk, v2: Disk, offset: nat, buffer: seq<Byte>, n: nat, chunk: nat)
    requires |d.dblocks| == DIRECT && self < |v0| == |v1| == |v2|
    requires FileOk(self, d, v0) && WroteFile(self, d, v0, v1)
    requires n + chunk <= |buffer| && offset + n + chunk <= d.length && chunk > 0
    requires (offset + n) % SECTOR_SIZE + chunk <= SECTOR_SIZE
    requires Contents(d, v1) == Laid(Contents(d, v0), offset, buffer[..n])
    requires v2 == Poke(d, v1, offset + n, buffer[n..n + chunk])
    ensures FileOk(self, d, v2) && WroteFile(self, d, v0, v2)
    ensures v2[self] == v1[self]
    ensures Contents(d, v2) == Laid(Contents(d, v0), offset, buffer[..n + chunk])
  {
    hide BlockAt, FileOk, Laid, Overlay, Blocks, Poke;
    var pos := offset + n;
    PokeFile(self, d, v1, pos, buffer[n..n + chunk]);
    FileLayout(self, d, v1);
    DataInRange(self, d, v1, pos);
    LaidStep(Contents(d, v0), offset, buffer, n, chunk);
    InsideBlocks(pos, d.length);
    assert Uses(self, d, v1, BlockAt(d, v1, pos / SECTOR_SIZE));
  }

  /** The growth is refused only for want of sectors or when the map cannot be saved. */
  ghost predicate Grows(d: InodeDisk, bits: seq<bool>, length: Word, written: bool) {
    length < d.length || NeedData(d, length) + NeedIndex(d, length) == 0
    || (written && NeedData(d, length) + NeedIndex(d, length) <= |FreeFrom(bits, 0)|)
  }

  /** The growth fails the assertion that a write ends inside its sector. */
  ghost predicate Stops(d: InodeDisk, bits: seq<bool>, length: Word, written: bool) {
    d.length <= length && Grows(d, bits, length, written) && Crosses(Blocks(d.length), Blocks(length))
  }

  lemma ExtendCases(d: InodeDisk, v: Disk, bits: seq<bool>, length: Word, written: bool,
                    r: Extension, v': Disk, bits': seq<bool>)
    requires |bits| <= 0x1_0000_0000 && |d.dblocks| == DIRECT && ExtendSpec(d, v, bits, length, written, r, v', bits')
    ensures r.Stopped? <==> Stops(d, bits, length, written)
    ensures r.Refused? ==> v' == v && r.inode.(length := d.length) == d
    ensures r.Refused? && Grows(d, bits, length, written) ==> length < d.length && bits' == bits
    ensures r.Extended? ==> d.length <= length && Grows(d, bits, length, written)
  {
    hide Blocks, IndexCount, FreeFrom, Extend;
  }

  /** How many sectors, from the start of the device, a refused growth marks as free. */
  ghost function Freed(d: InodeDisk, bits: seq<bool>, length: Word, written: bool): nat {
    if Grows(d, bits, length, written) then 0
    else Min(NeedData(d, length) + NeedIndex(d, length), |FreeFrom(bits, 0)|)
  }

  /** No file uses one of the first `a` sectors. */
  ghost predicate NoneUses(v: Disk, files: set<nat>, a: nat) {
    forall f: nat, s: nat :: f in files && f < |v| && s < a ==> !Uses(f, Decode(v[f]), v, s)
  }

  /** After a failed allocation every file's sectors are still marked exactly when no file uses one of the sectors at
      the start of the device that it cleared. */
  lemma FailureMarked(v: Disk, bits: seq<bool>, files: set<nat>, a: nat)
    requires Marked(v, bits, files) && a <= |FreeFrom(bits, 0)| && a <= |bits|
    ensures Marked(v, AfterFailure(bits, a), files) <==> NoneUses(v, files, a)
  {
    hide Uses, Decode, FreeFrom;
    var bits' := AfterFailure(bits, a);
    assert forall s: nat :: s < |bits| ==> (bits'[s] <==> s >= a && (bits[s] || s in FreeFrom(bits, 0)[..a]));
    if NoneUses(v, files, a) {
      forall f: nat, s: nat | f in files && f < |v| ensures UsedIsMarked(v, bits', f, s) {
        assert UsedIsMarked(v, bits, f, s);
      }
    }
    if Marked(v, bits', files) {
      forall f: nat, s: nat | f in files && f < |v| && s < a ensures !Uses(f, Decode(v[f]), v, s) {
        assert UsedIsMarked(v, bits', f, s);
      }
    }
  }

  lemma RefusedBits(d: InodeDisk, v: Disk, bits: seq<bool>, length: Word, written: bool,
                    r: Extension, v': Disk, bits': seq<bool>)
    requires |bits| <= 0x1_0000_0000 && |d.dblocks| == DIRECT && ExtendSpec(d, v, bits, length, written, r, v', bits')
    requires r.Refused?
    ensures var a := Freed(d, bits, length, written);
      a <= |FreeFrom(bits, 0)| && a <= |bits| && bits' == AfterFailure(bits, a)
  {
    hide Blocks, IndexCount, FreeFrom, Extend;
    FailureRestores(bits, 0);
  }

  lemma RefusedMarks(d: InodeDisk, v: Disk, bits: seq<bool>, length: Word, written: bool,
                     r: Extension, v': Disk, bits': seq<bool>, files: set<nat>)
    requires |bits| <= 0x1_0000_0000 && |d.dblocks| == DIRECT && ExtendSpec(d, v, bits, length, written, r, v', bits')
    requires r.Refused? && Marked(v, bits, files)
    ensures Marked(v, bits', files) <==> NoneUses(v, files, Freed(d, bits, length, written))
  {
    RefusedBits(d, v, bits, length, written, r, v', bits');
    FailureMarked(v, bits, files, Freed(d, bits, length, written));
  }

  lemma NothingFreed(d: InodeDisk, v: Disk, bits: seq<bool>, length: Word, written: bool, files: set<nat>)
    requires Grows(d, bits, length, written)
    ensures NoneUses(v, files, Freed(d, bits, length, written))
  {
  }

  /** What a write leaves in the file: everything when it could grow, else what fits. */
  ghost predicate WriteSpec(self: nat, v: Disk, bits: seq<bool>, buffer: seq<Byte>, offset: nat, written: bool,
                            n: nat, v': Disk)
    requires self < |v| == |v'| && offset + |buffer| < 0x1_0000_0000
  {
    var d, d' := Decode(v[self]), Decode(v'[self]);
    var c, c' := Contents(d, v), Contents(d', v');
    if Grows(d, bits, offset + |buffer|, written)
    then n == |buffer| && c' == Overlay(Pad(c, offset + |buffer|), offset, buffer)
    else n == Fits(d.length, offset, |buffer|) && n <= |buffer| && c' == Laid(c, offset, buffer[..n])
  }

  ghost predicate OthersSame(self: nat, files: set<nat>, v: Disk, v': Disk) {
    forall g :: g in files && g != self && g < |v| && g < |v'| ==> Contents(Decode(v'[g]), v') == Contents(Decode(v[g]), v)
  }

  lemma SameOthers(self: nat, files: set<nat>, v: Disk)
    ensures OthersSame(self, files, v, v)
  {
  }

  lemma OthersTwice(self: nat, files: set<nat>, v: Disk, v': Disk, v'': Disk)
    requires OthersSame(self, files, v, v') && OthersSame(self, files, v', v'') && |v| == |v'| == |v''|
    ensures OthersSame(self, files, v, v'')
  {
    hide Contents, Decode;
  }

  lemma InFiles(self: nat, files: set<nat>, v: Disk)
    requires Files(v, files) && self in files
    ensures self < |v| && FileOk(self, Decode(v[self]), v) && Layout(Decode(v[self]), v, Blocks(Decode(v[self]).length))
  {
  }

  /** Taking the first free sectors gives a growth with fresh sectors. */
  lemma FreshSectors(self: nat, d: InodeDisk, v: Disk, bits: seq<bool>, data: nat, cnt: nat)
    requires FileOk(self, d, v) && |bits| == |v| <= 0x1_0000_0000 && data <= cnt <= |FreeFrom(bits, 0)|
    requires forall s: nat :: Uses(self, d, v, s) ==> s < |bits| && bits[s]
    ensures var xs := Sectors(bits, cnt);
      && xs[..data] + xs[data..] == xs && Fresh(d, v, Blocks(d.length), xs)
      && (forall x :: x in xs ==> x < |bits| && !bits[x] && !Uses(self, d, v, x))
  {
    SectorsBound(bits, cnt);
    hide FileOk, BlockAt, Sectors;
    var xs := Sectors(bits, cnt);
    var k := Blocks(d.length);
    forall x | x in xs ensures Spare(d, v, k, x) {
      UnusedIsSpare(self, d, v, x);
    }
  }

  lemma UnusedIsSpare(self: nat, d: InodeDisk, v: Disk, x: nat)
    requires |d.dblocks| == DIRECT && x < |v| && !Uses(self, d, v, x)
    ensures Spare(d, v, Blocks(d.length), x)
  {
  }

  lemma GrowthOfNone(self: nat, d: InodeDisk, v: Disk, length: Word)
    requires FileOk(self, d, v) && d.length <= length && Blocks(length) == Blocks(d.length)
    ensures Growing(self, d, v, length, [], [], d.(length := length), v)
  {
    NoGrowth(d.(length := length), v, Blocks(d.length));
    hide FileOk, Grew, Spare;
    var none: seq<Word> := [];
    assert Fresh(d, v, Blocks(d.length), none);
    assert none + none == none;
  }

  lemma GrowthOf(self: nat, d: InodeDisk, v: Disk, length: Word, ss: seq<Word>, ix: seq<Word>)
    requires FileOk(self, d, v) && d.length <= length && Blocks(length) == Blocks(d.length) + |ss| <= MAX_BLOCKS
    requires |ix| == IndexCount(Blocks(length)) - IndexCount(Blocks(d.length)) && !Crosses(Blocks(d.length), Blocks(length))
    requires Fresh(d, v, Blocks(d.length), ss + ix) && forall x :: x in ss + ix ==> !Uses(self, d, v, x)
    ensures var g := Extend(d.(length := length), v, Blocks(d.length), ss, ix);
      g.Grown? && Growing(self, d, v, length, ss, ix, g.inode, g.disk)
  {
    FileLayout(self, d, v);
    var k, d1 := Blocks(d.length), d.(length := length);
    hide FileOk, Extend, Layout, Grew, Uses, Crosses;
    LayoutAside(d, v, k, length);
    assert Fresh(d1, v, k, ss + ix) by { LengthAside(d, v, k, length); }
    ExtendGrows(d1, v, k, ss, ix);
  }

  /** A successful inode_disk_extend is a growth by sectors that were free and are now marked. */
  lemma ExtendedGrowing(self: nat, d: InodeDisk, v: Disk, bits: seq<bool>, length: Word, written: bool,
                        d': InodeDisk, v': Disk, bits': seq<bool>) returns (ss: seq<Word>, ix: seq<Word>)
    requires FileOk(self, d, v) && |bits| == |v| <= 0x1_0000_0000 && |d.dblocks| == DIRECT
    requires forall s: nat :: Uses(self, d, v, s) ==> s < |bits| && bits[s]
    requires ExtendSpec(d, v, bits, length, written, Extended(d'), v', bits') && Blocks(length) <= MAX_BLOCKS
    ensures Growing(self, d, v, length, ss, ix, d', v') && |bits'| == |bits|
    ensures forall x :: x in ss + ix ==> x < |bits| && !bits[x] && bits'[x]
    ensures forall s: nat :: s < |bits| && bits[s] ==> bits'[s]
  {
    hide FileOk, Uses, Blocks, IndexCount, Extend, Crosses, Growing, Fresh, FreeFrom, Sectors;
    var data, cnt := NeedData(d, length), NeedData(d, length) + NeedIndex(d, length);
    if cnt == 0 {
      GrowthOfNone(self, d, v, length);
      return [], [];
    } else {
      FreshSectors(self, d, v, bits, data, cnt);
      ss, ix := Sectors(bits, cnt)[..data], Sectors(bits, cnt)[data..];
      GrowthOf(self, d, v, length, ss, ix);
    }
  }

  /** After a successful extension and the inode's write-back, the file is its old contents padded with zeros, every
      other file is as it was, and the free map covers them all. */
  lemma ExtendedFile(self: nat, files: set<nat>, v: Disk, bits: seq<bool>, length: Word, written: bool,
                     d': InodeDisk, v': Disk, bits': seq<bool>)
    requires Files(v, files) && Marked(v, bits, files) && self in files && self < |v| <= 0x1_0000_0000
    requires ExtendSpec(Decode(v[self]), v, bits, length, written, Extended(d'), v', bits') && Blocks(length) <= MAX_BLOCKS
    ensures self < |v'| == |v| && |d'.dblocks| == DIRECT
    ensures var v2 := v'[self := Encode(d')];
      && Decode(v2[self]) == d' && d'.length == length && Contents(d', v2) == Pad(Contents(Decode(v[self]), v), length)
      && Files(v2, files) && OthersSame(self, files, v, v2) && Marked(v2, bits', files)
  {
    var d := Decode(v[self]);
    InFiles(self, files, v);
    forall s: nat | Uses(self, d, v, s) ensures s < |bits| && bits[s] { assert UsedIsMarked(v, bits, self, s); }
    var ss, ix := ExtendedGrowing(self, d, v, bits, length, written, d', v', bits');
    hide Uses, FileOk, Decode, Encode, Contents, Growing, Blocks, ExtendSpec;
    FileGrows(self, d, v, length, ss, ix, d', v');
    InodeRoundTrip(d');
    var v2, xs := v'[self := Encode(d')], ss + ix;
    forall s: nat ensures Uses(self, d', v2, s) ==> Uses(self, d, v, s) || s in xs {
      FileGrowsWithin(self, d, v, length, ss, ix, d', v', s);
    }
    forall s: nat | s < |v| && !Uses(self, d, v, s) && s !in xs ensures v2[s] == v[s] {
      FileGrowsWithin(self, d, v, length, ss, ix, d', v', s);
    }
    forall g, x | g in files && x in xs ensures g < |v| && !Uses(g, Decode(v[g]), v, x) {
      assert UsedIsMarked(v, bits, g, x);
    }
    FilesKept(v, v2, files, self, xs);
    MarkedKept(v, v2, bits, bits', files, self, xs);
  }

  /** The write loop touches one file only. */
  lemma LoopKeeps(self: nat, files: set<nat>, v: Disk, v': Disk, bits: seq<bool>)
    requires Files(v, files) && self in files && self < |v| == |v'| && v'[self] == v[self]
    requires WroteFile(self, Decode(v[self]), v, v')
    ensures Files(v', files) && OthersSame(self, files, v, v')
    ensures Marked(v, bits, files) <==> Marked(v', bits, files)
  {
    hide Uses, FileOk, Decode, Contents;
    FilesKept(v, v', files, self, []);
    forall f: nat, s: nat | f in files && f < |v|
      ensures Uses(f, Decode(v'[f]), v', s) <==> Uses(f, Decode(v[f]), v, s)
    {
      if f != self { OtherFiles(v, v', files, self, [], f); }
    }
    SameUsesMarked(v, v', bits, files);
  }

  lemma SameUsesMarked(v: Disk, v': Disk, bits: seq<bool>, files: set<nat>)
    requires |v'| == |v|
    requires forall f: nat, s: nat :: f in files && f < |v| ==>
      (Uses(f, Decode(v'[f]), v', s) <==> Uses(f, Decode(v[f]), v, s))
    ensures Marked(v, bits, files) <==> Marked(v', bits, files)
  {
    hide Uses, Decode;
    forall f: nat, s: nat | f in files && f < |v| ensures UsedIsMarked(v, bits, f, s) <==> UsedIsMarked(v', bits, f, s) {
      assert Uses(f, Decode(v'[f]), v', s) <==> Uses(f, Decode(v[f]), v, s);
    }
  }

  lemma NotExtended(self: nat, v: Disk, bits: seq<bool>, buffer: seq<Byte>, offset: nat, written: bool,
                    n: nat, v': Disk)
    requires self < |v| == |v'| && v'[self] == v[self] && offset + |buffer| < 0x1_0000_0000
    requires Grows(Decode(v[self]), bits, offset + |buffer|, written) ==> offset + |buffer| < Decode(v[self]).length
    requires n == Fits(Decode(v[self]).length, offset, |buffer|)
    requires Contents(Decode(v[self]), v') == Laid(Contents(Decode(v[self]), v), offset, buffer[..n])
    ensures WriteSpec(self, v, bits, buffer, offset, written, n, v')
  {
    hide Decode, Contents, Grows;
  }

  lemma Written(self: nat, v: Disk, bits: seq<bool>, buffer: seq<Byte>, offset: nat, written: bool,
                v2: Disk, n: nat, v': Disk)
    requires self < |v| == |v'| == |v2| && v'[self] == v2[self] && offset + |buffer| < 0x1_0000_0000
    requires var d := Decode(v[self]);
      Grows(d, bits, offset + |buffer|, written) && d.length <= offset + |buffer| == Decode(v2[self]).length
      && Contents(Decode(v2[self]), v2) == Pad(Contents(d, v), offset + |buffer|)
    requires n == Fits(Decode(v2[self]).length, offset, |buffer|)
    requires Contents(Decode(v2[self]), v') == Laid(Contents(Decode(v2[self]), v2), offset, buffer[..n])
    ensures WriteSpec(self, v, bits, buffer, offset, written, n, v')
  {
    hide Decode, Contents, Grows;
    var d := Decode(v[self]);
    var c := Contents(Decode(v2[self]), v2);
    assert buffer[..|buffer|] == buffer;
    assert Laid(c, offset, buffer) == Overlay(c, offset, buffer);
  }

  // ---- creating ----

  function EmptyInode(isDir: bool): InodeDisk {
    InodeDisk(0, isDir, seq(DIRECT, _ => 0), 0, 0)
  }

  /** A new inode is all zeros but for its kind and the magic number. */
  lemma EmptyIsClear(isDir: bool, i: nat)
    requires i < 128 && i != 1 && i != 16
    ensures WordFrom(Encode(EmptyInode(isDir)), 4 * i) == 0 && (Encode(EmptyInode(isDir))[4] == 1 <==> isDir)
  {
    hide Bytes, ByteOf, WordFrom;
    var ws := InodeWords(EmptyInode(isDir));
    WordsFrom(ws, i);
    assert ws[i] == 0;
    InodeBytes(EmptyInode(isDir), 0);
  }

  ghost predicate Unused(s: nat, files: set<nat>, v: Disk) {
    s !in files && forall f :: f in files && f < |v| ==> !Uses(f, Decode(v[f]), v, s)
  }

  lemma EmptyFile(self: nat, isDir: bool, v: Disk)
    requires self < |v|
    ensures FileOk(self, EmptyInode(isDir), v) && Layout(EmptyInode(isDir), v, Blocks(EmptyInode(isDir).length))
    ensures forall s: nat :: Uses(self, EmptyInode(isDir), v, s) <==> s == self
    ensures EmptyInode(isDir).isDir == isDir && Contents(EmptyInode(isDir), v) == []
  {
  }

  lemma SameKind(self: nat, d: InodeDisk, v: Disk, length: Word, ss: seq<Word>, ix: seq<Word>, d': InodeDisk, v1: Disk)
    requires Growing(self, d, v, length, ss, ix, d', v1)
    ensures d'.isDir == d.isDir
  {
  }

  /** A new file of `length` zeros, added to files that are all as they were. */
  ghost predicate CreateSpec(self: nat, length: nat, isDir: bool, files: set<nat>, v: Disk, v': Disk, bits': seq<bool>) {
    && self < |v| == |v'|
    && Decode(v'[self]).isDir == isDir && Contents(Decode(v'[self]), v') == seq(length, _ => 0)
    && Files(v', files + {self}) && OthersSame(self, files, v, v') && Marked(v', bits', files + {self})
  }

  /** A file none of whose sectors changed. */
  lemma Untouched(g: nat, v: Disk, v': Disk, self: nat, xs: seq<Word>)
    requires g < |v| == |v'| && FileOk(g, Decode(v[g]), v)
    requires forall s: nat :: s < |v| && s != self && s !in xs ==> v'[s] == v[s]
    requires !Uses(g, Decode(v[g]), v, self) && forall x :: x in xs ==> !Uses(g, Decode(v[g]), v, x)
    ensures v'[g] == v[g] && FileOk(g, Decode(v'[g]), v')
    ensures Contents(Decode(v'[g]), v') == Contents(Decode(v[g]), v)
    ensures forall s: nat :: Uses(g, Decode(v'[g]), v', s) <==> Uses(g, Decode(v[g]), v, s)
  {
    assert Uses(g, Decode(v[g]), v, g);
    hide Uses, FileOk, Decode, Contents;
    FileFrame(g, Decode(v[g]), v, v');
  }

  /** Adding a file apart from all others. */
  lemma FilesAdd(self: nat, files: set<nat>, v: Disk, bits: seq<bool>, v': Disk, bits': seq<bool>, xs: seq<Word>)
    requires Files(v, files) && Marked(v, bits, files) && Unused(self, files, v)
    requires self < |v| == |v'| && |bits'| == |bits| && bits[self]
    requires forall s: nat :: s < |v| && s != self && s !in xs ==> v'[s] == v[s]
    requires forall x :: x in xs ==> x < |bits| && !bits[x] && bits'[x]
    requires forall s: nat :: s < |bits| && bits[s] ==> bits'[s]
    requires FileOk(self, Decode(v'[self]), v')
    requires forall s: nat :: Uses(self, Decode(v'[self]), v', s) ==> s == self || s in xs
    ensures Files(v', files + {self}) && OthersSame(self, files, v, v') && Marked(v', bits', files + {self})
  {
    hide Uses, FileOk, Decode, Contents;
    forall g, x | g in files && x in xs ensures g < |v| && !Uses(g, Decode(v[g]), v, x) {
      assert UsedIsMarked(v, bits, g, x);
    }
    forall g | g in files
      ensures g < |v| && FileOk(g, Decode(v'[g]), v') && Contents(Decode(v'[g]), v') == Contents(Decode(v[g]), v)
      ensures forall s: nat :: Uses(g, Decode(v'[g]), v', s) <==> Uses(g, Decode(v[g]), v, s)
    {
      Untouched(g, v, v', self, xs);
    }
    forall f, g, s: nat | f in files + {self} && g in files + {self} && f != g ensures Apart(v', f, g, s) {
      if f != self && g != self { assert Apart(v, f, g, s); }
    }
    forall f: nat, s: nat | f in files + {self} ensures UsedIsMarked(v', bits', f, s) {
      if f != self { assert UsedIsMarked(v, bits, f, s); }
    }
  }

  lemma NewFile(self: nat, length: Word, isDir: bool, files: set<nat>, v: Disk, bits: seq<bool>, written: bool,
                d': InodeDisk, v': Disk, bits': seq<bool>)
    requires Files(v, files) && Marked(v, bits, files) && Unused(self, files, v)
    requires self < |v| <= 0x1_0000_0000 && bits[self] && Blocks(length) <= MAX_BLOCKS
    requires ExtendSpec(EmptyInode(isDir), v, bits, length, written, Extended(d'), v', bits')
    ensures self < |v'| == |v| && |d'.dblocks| == DIRECT
    ensures CreateSpec(self, length, isDir, files, v, v'[self := Encode(d')], bits')
  {
    hide Uses, FileOk, Decode, Encode, Contents, Growing, Blocks, ExtendSpec, Files, Unused, EmptyInode, OthersSame;
    var d := EmptyInode(isDir);
    EmptyFile(self, isDir, v);
    var ss, ix := ExtendedGrowing(self, d, v, bits, length, written, d', v', bits');
    SameKind(self, d, v, length, ss, ix, d', v');
    FileGrows(self, d, v, length, ss, ix, d', v');
    InodeRoundTrip(d');
    var v2, xs := v'[self := Encode(d')], ss + ix;
    forall s: nat ensures Uses(self, d', v2, s) ==> s == self || s in xs {
      FileGrowsWithin(self, d, v, length, ss, ix, d', v', s);
    }
    forall s: nat | s < |v| && s != self && s !in xs ensures v2[s] == v[s] {
      FileGrowsWithin(self, d, v, length, ss, ix, d', v', s);
    }
    FilesAdd(self, files, v, bits, v2, bits', xs);
    assert Pad([], length) == seq(length, _ => 0);
  }

  /** What was written is read back, what was there before is kept around it, and a gap reads as zeros. */
  lemma ReadBack(self: nat, v: Disk, bits: seq<bool>, buffer: seq<Byte>, offset: nat, written: bool, n: nat, v': Disk)
    requires self < |v| == |v'| && offset + |buffer| < 0x1_0000_0000
    requires WriteSpec(self, v, bits, buffer, offset, written, n, v')
    requires Grows(Decode(v[self]), bits, offset + |buffer|, written)
    ensures var c, c' := Contents(Decode(v[self]), v), Contents(Decode(v'[self]), v');
      && Slice(c', offset, |buffer|) == buffer
      && |c'| == (if |c| < offset + |buffer| then offset + |buffer| else |c|)
      && (forall i: nat :: i < |c| && !(offset <= i < offset + |buffer|) ==> c'[i] == c[i])
      && (forall i: nat :: |c| <= i < offset ==> c'[i] == 0)
  {
    hide Decode, Contents, Grows;
  }

  lemma OneChild(v: Disk, ch: seq<Word>, x: nat, r: nat, ss: seq<Word>)
    requires |ch| == PER_BLOCK && 0 < r < PER_BLOCK && PER_BLOCK * x + r + |ss| <= PER_BLOCK * PER_BLOCK
    requires r + |ss| <= PER_BLOCK && ss != []
    ensures Double(v, ch, x, r, ss, []) == (Children(v, ch[x], r, ss), ch)
  {
    assert ss[..|ss|] == ss && ss[|ss|..] == [];
  }
}
