/**
 Files as byte sequences: what the inode and the disk stand for, and how growing a file and
 writing a piece of a sector change it.
 */
module InodeFiles {
  import opened Common
  import opened Seqs
  import opened BufferCache
  import opened InodeLayout
  import opened InodeGrowth

  // ---- a file and its bytes ----

  function ByteAt(d: InodeDisk, v: Disk, i: nat): Byte
    requires |d.dblocks| == DIRECT
  {
    Sec(v, BlockAt(d, v, i / SECTOR_SIZE))[i % SECTOR_SIZE]
  }

  ghost function Contents(d: InodeDisk, v: Disk): (c: seq<Byte>)
    requires |d.dblocks| == DIRECT
    ensures |c| == d.length
  {
    seq(d.length, i requires 0 <= i < d.length => ByteAt(d, v, i))
  }

  /** `d` describes a file whose inode is in sector `self`: all its sectors exist and differ, and the last sector is
      zero past the end of the file. */
  ghost predicate FileOk(self: nat, d: InodeDisk, v: Disk) {
    var k := Blocks(d.length);
    && Layout(d, v, k) && Spare(d, v, k, self)
    && (forall i: nat :: i < k ==> DataOk(self, d, v, k, i))
    && (forall i: nat, j: nat :: i < j < k ==> DataDiffer(d, v, i, j))
    && (forall i: nat :: d.length <= i < k * SECTOR_SIZE ==> SlackZero(d, v, i))
  }
  ghost predicate DataOk(self: nat, d: InodeDisk, v: Disk, k: nat, i: nat)
    requires |d.dblocks| == DIRECT
  {
    Spare(d, v, k, BlockAt(d, v, i)) && BlockAt(d, v, i) != self
  }
  ghost predicate DataDiffer(d: InodeDisk, v: Disk, i: nat, j: nat)
    requires |d.dblocks| == DIRECT
  {
    BlockAt(d, v, i) != BlockAt(d, v, j)
  }
  ghost predicate SlackZero(d: InodeDisk, v: Disk, i: nat)
    requires |d.dblocks| == DIRECT
  {
    ByteAt(d, v, i) == 0
  }

  /** `s` is the inode, an index block or a data block of the file. */
  ghost predicate Uses(self: nat, d: InodeDisk, v: Disk, s: nat)
    requires |d.dblocks| == DIRECT
  {
    var k := Blocks(d.length);
    || s == self
    || (exists j: nat :: j < IndexCount(k) && j < 2 + PER_BLOCK && IndexAt(d, v, j) == s)
    || (exists i: nat :: i < k && BlockAt(d, v, i) == s)
  }

  // ---- frames ----

  /** Blocks are found through the index blocks only. */
  lemma BlockFrame(d: InodeDisk, v: Disk, v': Disk, k: nat, i: nat)
    requires Layout(d, v, k) && |v'| == |v| && i < k
    requires forall j: nat :: j < IndexCount(k) && j < 2 + PER_BLOCK ==> Sec(v', IndexAt(d, v, j)) == Sec(v, IndexAt(d, v, j))
    ensures BlockAt(d, v', i) == BlockAt(d, v, i)
  {
    if DIRECT <= i < SINGLE_END {
      assert InRange(d, v, 0);
      assert Sec(v', IndexAt(d, v, 0)) == Sec(v, IndexAt(d, v, 0));
    } else if SINGLE_END <= i {
      var y := (i - SINGLE_END) / PER_BLOCK;
      assert InRange(d, v, 1) && InRange(d, v, 2 + y);
      assert Sec(v', IndexAt(d, v, 1)) == Sec(v, IndexAt(d, v, 1));
      assert Sec(v', IndexAt(d, v, 2 + y)) == Sec(v, IndexAt(d, v, 2 + y));
    }
  }

  lemma IndexFrame(d: InodeDisk, v: Disk, v': Disk, k: nat, j: nat)
    requires Layout(d, v, k) && |v'| == |v| && j < IndexCount(k)
    requires forall j: nat :: j < IndexCount(k) && j < 2 + PER_BLOCK ==> Sec(v', IndexAt(d, v, j)) == Sec(v, IndexAt(d, v, j))
    ensures j < 2 + PER_BLOCK && IndexAt(d, v', j) == IndexAt(d, v, j)
  {
    IndexCountBound(k);
    if j >= 2 {
      assert InRange(d, v, 1);
      assert Sec(v', IndexAt(d, v, 1)) == Sec(v, IndexAt(d, v, 1));
    }
  }

  /** The index blocks of the file are untouched. */
  ghost predicate SameIndex(d: InodeDisk, v: Disk, v': Disk, k: nat) {
    && |v'| == |v|
    && (forall i: nat :: i < k && |d.dblocks| == DIRECT ==> BlockAt(d, v', i) == BlockAt(d, v, i))
    && (forall j: nat :: j < IndexCount(k) && j < 2 + PER_BLOCK ==> IndexAt(d, v', j) == IndexAt(d, v, j))
  }

  lemma KeepsIndex(d: InodeDisk, v: Disk, v': Disk, k: nat)
    requires Layout(d, v, k) && |v'| == |v|
    requires forall j: nat :: j < IndexCount(k) && j < 2 + PER_BLOCK ==> Sec(v', IndexAt(d, v, j)) == Sec(v, IndexAt(d, v, j))
    ensures SameIndex(d, v, v', k) && Layout(d, v', k)
    ensures forall x: nat :: Spare(d, v, k, x) <==> Spare(d, v', k, x)
  {
    forall i: nat | i < k ensures BlockAt(d, v', i) == BlockAt(d, v, i) { BlockFrame(d, v, v', k, i); }
    forall j: nat | j < IndexCount(k) ensures j < 2 + PER_BLOCK && IndexAt(d, v', j) == IndexAt(d, v, j) {
      IndexFrame(d, v, v', k, j);
    }
    forall j: nat | j < IndexCount(k) ensures InRange(d, v', j) { assert InRange(d, v, j); }
    forall i: nat, j: nat | i < j < IndexCount(k) ensures Differ(d, v', i, j) { assert Differ(d, v, i, j); }
  }

  /** A disk that agrees on all of a file's sectors holds the same file. */
  lemma FileFrame(self: nat, d: InodeDisk, v: Disk, v': Disk)
    requires FileOk(self, d, v) && |v'| == |v|
    requires forall s: nat :: s < |v| && Uses(self, d, v, s) ==> v'[s] == v[s]
    ensures FileOk(self, d, v') && Contents(d, v') == Contents(d, v)
    ensures forall s: nat :: Uses(self, d, v', s) <==> Uses(self, d, v, s)
  {
    var k := Blocks(d.length);
    forall j: nat | j < IndexCount(k) && j < 2 + PER_BLOCK ensures Sec(v', IndexAt(d, v, j)) == Sec(v, IndexAt(d, v, j)) {
      assert InRange(d, v, j) && Uses(self, d, v, IndexAt(d, v, j));
    }
    KeepsIndex(d, v, v', k);
    forall i: nat | i < k * SECTOR_SIZE ensures ByteAt(d, v', i) == ByteAt(d, v, i) {
      var n := i / SECTOR_SIZE;
      assert DataOk(self, d, v, k, n) && Uses(self, d, v, BlockAt(d, v, n));
    }
    FileFromIndex(self, d, v, v');
  }

  /** With the index untouched and the slack still zero, the file is still well formed. */
  lemma FileFromIndex(self: nat, d: InodeDisk, v: Disk, v': Disk)
    requires FileOk(self, d, v)
    requires var k := Blocks(d.length); SameIndex(d, v, v', k) && Layout(d, v', k)
    requires forall x: nat :: Spare(d, v, Blocks(d.length), x) <==> Spare(d, v', Blocks(d.length), x)
    requires forall i: nat :: d.length <= i < Blocks(d.length) * SECTOR_SIZE ==> ByteAt(d, v', i) == ByteAt(d, v, i)
    ensures FileOk(self, d, v')
  {
    var k := Blocks(d.length);
    forall i: nat | i < k ensures DataOk(self, d, v', k, i) { assert DataOk(self, d, v, k, i); }
    forall i: nat, j: nat | i < j < k ensures DataDiffer(d, v', i, j) { assert DataDiffer(d, v, i, j); }
    forall i: nat | d.length <= i < k * SECTOR_SIZE ensures SlackZero(d, v', i) { assert SlackZero(d, v, i); }
  }

  // ---- writing a piece of a data block ----

  /** `data` laid over `c` from position `ofs`. */
  function Overlay(c: seq<Byte>, ofs: nat, data: seq<Byte>): (r: seq<Byte>)
    requires ofs + |data| <= |c|
    ensures |r| == |c|
  {
    c[..ofs] + data + c[ofs + |data|..]
  }

  /** `c` cut or padded with zeros to `n` bytes when it is shorter. */
  function Pad(c: seq<Byte>, n: nat): seq<Byte> { if n <= |c| then c else c + seq(n - |c|, _ => 0) }

  /** The disk after cache_write_partial into the block holding byte `pos`. */
  function Poke(d: InodeDisk, v: Disk, pos: nat, data: seq<Byte>): Disk
    requires |d.dblocks| == DIRECT && pos % SECTOR_SIZE + |data| <= SECTOR_SIZE
  {
    var b := BlockAt(d, v, pos / SECTOR_SIZE);
    if b < |v| then v[b := Patch(v[b], pos % SECTOR_SIZE, data)] else v
  }

  lemma PokeIndex(self: nat, d: InodeDisk, v: Disk, pos: nat, data: seq<Byte>)
    requires FileOk(self, d, v) && pos % SECTOR_SIZE + |data| <= SECTOR_SIZE && pos / SECTOR_SIZE < Blocks(d.length)
    ensures var v' := Poke(d, v, pos, data); var k := Blocks(d.length);
      && SameIndex(d, v, v', k) && Layout(d, v', k)
      && (forall x: nat :: Spare(d, v, k, x) <==> Spare(d, v', k, x))
  {
    var k := Blocks(d.length);
    var n := pos / SECTOR_SIZE;
    assert DataOk(self, d, v, k, n);
    KeepsIndex(d, v, Poke(d, v, pos, data), k);
  }

  lemma PokeByte(self: nat, d: InodeDisk, v: Disk, pos: nat, data: seq<Byte>, i: nat)
    requires FileOk(self, d, v) && pos % SECTOR_SIZE + |data| <= SECTOR_SIZE && pos / SECTOR_SIZE < Blocks(d.length)
    requires i < Blocks(d.length) * SECTOR_SIZE
    ensures ByteAt(d, Poke(d, v, pos, data), i) == if pos <= i < pos + |data| then data[i - pos] else ByteAt(d, v, i)
  {
    PokeIndex(self, d, v, pos, data);
    var k := Blocks(d.length);
    var n, m := pos / SECTOR_SIZE, i / SECTOR_SIZE;
    assert pos == SECTOR_SIZE * n + pos % SECTOR_SIZE && i == SECTOR_SIZE * m + i % SECTOR_SIZE;
    assert DataOk(self, d, v, k, n) && DataOk(self, d, v, k, m);
    if m != n {
      assert DataDiffer(d, v, if m < n then m else n, if m < n then n else m);
    } else {
      PatchAt(v[BlockAt(d, v, n)], pos % SECTOR_SIZE, data, i % SECTOR_SIZE);
    }
  }

  /** Writing inside one block of the file lays the data over its contents and keeps it well formed. */
  lemma PokeFile(self: nat, d: InodeDisk, v: Disk, pos: nat, data: seq<Byte>)
    requires FileOk(self, d, v) && pos % SECTOR_SIZE + |data| <= SECTOR_SIZE
    requires pos < d.length && pos + |data| <= d.length
    ensures var v' := Poke(d, v, pos, data);
      && FileOk(self, d, v') && Contents(d, v') == Overlay(Contents(d, v), pos, data)
      && SameIndex(d, v, v', Blocks(d.length)) && |v'| == |v|
      && (forall s: nat :: s < |v| && s != BlockAt(d, v, pos / SECTOR_SIZE) ==> v'[s] == v[s])
      && (forall s: nat :: Uses(self, d, v', s) <==> Uses(self, d, v, s))
  {
    var v' := Poke(d, v, pos, data);
    var k := Blocks(d.length);
    PokeIndex(self, d, v, pos, data);
    assert FileOk(self, d, v') && Contents(d, v') == Overlay(Contents(d, v), pos, data) by {
      hide BlockAt, Poke, FileOk;
      forall i: nat | i < k * SECTOR_SIZE
        ensures ByteAt(d, v', i) == if pos <= i < pos + |data| then data[i - pos] else ByteAt(d, v, i)
      {
        PokeByte(self, d, v, pos, data, i);
      }
      FileFromIndex(self, d, v, v');
    }
  }

  // ---- growing ----

  /** The setting of a growth: the file in `self` goes from `d` on disk `v` to `d'` on `v1`, with new data sectors `ss`
      and index sectors `ix` that no part of the file uses. */
  ghost predicate Growing(self: nat, d: InodeDisk, v: Disk, length: Word, ss: seq<Word>, ix: seq<Word>,
                          d': InodeDisk, v1: Disk)
  {
    && FileOk(self, d, v) && d.length <= length && Blocks(length) == Blocks(d.length) + |ss|
    && Fresh(d, v, Blocks(d.length), ss + ix)
    && (forall x :: x in ss + ix ==> !Uses(self, d, v, x))
    && Grew(d.(length := length), v, Blocks(d.length), ss, ix, d', v1)
  }

  /** Length plays no part in finding blocks. */
  lemma LengthAside(d: InodeDisk, v: Disk, k: nat, length: Word)
    requires |d.dblocks| == DIRECT
    ensures forall i: nat :: BlockAt(d.(length := length), v, i) == BlockAt(d, v, i)
    ensures forall j: nat :: j < 2 + PER_BLOCK ==> IndexAt(d.(length := length), v, j) == IndexAt(d, v, j)
    ensures forall x: nat :: Spare(d.(length := length), v, k, x) <==> Spare(d, v, k, x)
    ensures Layout(d, v, k) ==> Layout(d.(length := length), v, k)
  {
    var d0 := d.(length := length);
    assert forall j: nat :: j < 2 + PER_BLOCK ==> IndexAt(d0, v, j) == IndexAt(d, v, j);
    if Layout(d, v, k) {
      IndexCountBound(k);
      forall j: nat | j < IndexCount(k) ensures InRange(d0, v, j) { assert InRange(d, v, j); }
      forall i: nat, j: nat | i < j < IndexCount(k) ensures Differ(d0, v, i, j) { assert Differ(d, v, i, j); }
    }
  }

  /** An old data block after the growth: same sector, same bytes, still not an index block. */
  lemma OldBlock(self: nat, d: InodeDisk, v: Disk, length: Word, ss: seq<Word>, ix: seq<Word>, d': InodeDisk, v1: Disk, n: nat)
    requires Growing(self, d, v, length, ss, ix, d', v1) && n < Blocks(d.length)
    ensures BlockAt(d', v1, n) == BlockAt(d, v, n) < |v| == |v1|
    ensures BlockAt(d, v, n) !in ss && BlockAt(d, v, n) !in ix && BlockAt(d, v, n) != self
    ensures v1[BlockAt(d, v, n)] == v[BlockAt(d, v, n)]
    ensures Spare(d', v1, Blocks(length), BlockAt(d, v, n))
  {
    var k := Blocks(d.length);
    var d0 := d.(length := length);
    var b := BlockAt(d, v, n);
    LengthAside(d, v, k, length);
    assert DataOk(self, d, v, k, n) && Uses(self, d, v, b);
    assert forall x :: x in ss || x in ix ==> x in ss + ix;
    assert BlockKept(d0, v, k, ss, d', v1, n) && SectorKept(d0, v, k, ss, ix, v1, b);
    SpareAfter(d0, v, k, ss, ix, d', v1, b);
  }

  /** A new data block: the next new sector, all zero. */
  lemma NewBlock(self: nat, d: InodeDisk, v: Disk, length: Word, ss: seq<Word>, ix: seq<Word>, d': InodeDisk, v1: Disk, n: nat)
    requires Growing(self, d, v, length, ss, ix, d', v1) && Blocks(d.length) <= n < Blocks(length)
    ensures var b := ss[n - Blocks(d.length)];
      BlockAt(d', v1, n) == b < |v| == |v1| && b != self && v1[b] == Zeros() && Spare(d', v1, Blocks(length), b)
  {
    var k := Blocks(d.length);
    var d0 := d.(length := length);
    var b := ss[n - k];
    LengthAside(d, v, k, length);
    assert (ss + ix)[n - k] == b && b in ss + ix;
    assert Uses(self, d, v, self);
    assert forall i :: 0 <= i < |ix| ==> (ss + ix)[|ss| + i] == ix[i];
    assert BlockKept(d0, v, k, ss, d', v1, n) && SectorKept(d0, v, k, ss, ix, v1, b);
    SpareAfter(d0, v, k, ss, ix, d', v1, b);
  }

  /** Writing the grown inode back to its own sector disturbs nothing. */
  lemma InodeWritten(self: nat, d: InodeDisk, v: Disk, length: Word, ss: seq<Word>, ix: seq<Word>, d': InodeDisk, v1: Disk)
    requires Growing(self, d, v, length, ss, ix, d', v1)
    ensures self < |v1| == |v|
    ensures var v2 := v1[self := Encode(d')]; var m := Blocks(length);
      && SameIndex(d', v1, v2, m) && Layout(d', v2, m) && Spare(d', v2, m, self)
      && (forall x: nat :: Spare(d', v1, m, x) <==> Spare(d', v2, m, x))
  {
    var k, m := Blocks(d.length), Blocks(length);
    var d0 := d.(length := length);
    LengthAside(d, v, k, length);
    assert forall x :: x in ss + ix ==> Spare(d0, v, k, x);
    GrewLayout(d0, v, k, ss, ix, d', v1);
    assert Uses(self, d, v, self);
    assert forall x :: x in ix ==> x in ss + ix;
    SpareAfter(d0, v, k, ss, ix, d', v1, self);
    KeepsIndex(d', v1, v1[self := Encode(d')], m);
  }

  lemma GrownDiffer(self: nat, d: InodeDisk, v: Disk, length: Word, ss: seq<Word>, ix: seq<Word>, d': InodeDisk, v1: Disk,
                    i: nat, j: nat)
    requires Growing(self, d, v, length, ss, ix, d', v1) && i < j < Blocks(length)
    ensures |d'.dblocks| == DIRECT && BlockAt(d', v1, i) != BlockAt(d', v1, j)
  {
    var k := Blocks(d.length);
    if j < k {
      OldBlock(self, d, v, length, ss, ix, d', v1, i);
      OldBlock(self, d, v, length, ss, ix, d', v1, j);
      assert DataDiffer(d, v, i, j);
    } else {
      NewBlock(self, d, v, length, ss, ix, d', v1, j);
      if i < k {
        OldBlock(self, d, v, length, ss, ix, d', v1, i);
      } else {
        NewBlock(self, d, v, length, ss, ix, d', v1, i);
        assert (ss + ix)[i - k] == ss[i - k] && (ss + ix)[j - k] == ss[j - k];
      }
    }
  }

  lemma GrownByte(self: nat, d: InodeDisk, v: Disk, length: Word, ss: seq<Word>, ix: seq<Word>, d': InodeDisk, v1: Disk, i: nat)
    requires Growing(self, d, v, length, ss, ix, d', v1) && i < Blocks(length) * SECTOR_SIZE
    ensures self < |v1| && |d'.dblocks| == DIRECT
    ensures ByteAt(d', v1[self := Encode(d')], i) == if i < d.length then ByteAt(d, v, i) else 0
  {
    InodeWritten(self, d, v, length, ss, ix, d', v1);
    var k, n := Blocks(d.length), i / SECTOR_SIZE;
    if n < k {
      OldBlock(self, d, v, length, ss, ix, d', v1, n);
      if i >= d.length { assert SlackZero(d, v, i); }
    } else {
      NewBlock(self, d, v, length, ss, ix, d', v1, n);
    }
  }

  /** Growing a file pads its contents with zeros and keeps it well formed. */
  lemma FileGrows(self: nat, d: InodeDisk, v: Disk, length: Word, ss: seq<Word>, ix: seq<Word>, d': InodeDisk, v1: Disk)
    requires Growing(self, d, v, length, ss, ix, d', v1)
    ensures self < |v1| == |v| && d'.length == length && |d'.dblocks| == DIRECT
    ensures var v2 := v1[self := Encode(d')];
      FileOk(self, d', v2) && Contents(d', v2) == Pad(Contents(d, v), length)
  {
    var k, m := Blocks(d.length), Blocks(length);
    InodeWritten(self, d, v, length, ss, ix, d', v1);
    var v2 := v1[self := Encode(d')];
    hide Encode, Growing;
    forall i: nat | i < m ensures DataOk(self, d', v2, m, i) {
      if i < k { OldBlock(self, d, v, length, ss, ix, d', v1, i); } else { NewBlock(self, d, v, length, ss, ix, d', v1, i); }
    }
    forall i: nat, j: nat | i < j < m ensures DataDiffer(d', v2, i, j) {
      GrownDiffer(self, d, v, length, ss, ix, d', v1, i, j);
    }
    forall i: nat | i < m * SECTOR_SIZE
      ensures ByteAt(d', v2, i) == if i < d.length then ByteAt(d, v, i) else 0
    {
      GrownByte(self, d, v, length, ss, ix, d', v1, i);
    }
  }

  /** The grown file uses what it used before and the new sectors; nothing else on the disk has changed. */
  lemma FileGrowsWithin(self: nat, d: InodeDisk, v: Disk, length: Word, ss: seq<Word>, ix: seq<Word>, d': InodeDisk, v1: Disk,
                        s: nat)
    requires Growing(self, d, v, length, ss, ix, d', v1)
    ensures self < |v1| == |v| && d'.length == length && |d'.dblocks| == DIRECT
    ensures var v2 := v1[self := Encode(d')];
      && (Uses(self, d', v2, s) ==> Uses(self, d, v, s) || s in ss || s in ix)
      && (s < |v| && !Uses(self, d, v, s) && s !in ss && s !in ix ==> v2[s] == v[s])
  {
    var k, m := Blocks(d.length), Blocks(length);
    var d0 := d.(length := length);
    InodeWritten(self, d, v, length, ss, ix, d', v1);
    LengthAside(d, v, k, length);
    var v2 := v1[self := Encode(d')];
    hide Encode;
    if Uses(self, d', v2, s) && s != self {
      if j: nat :| j < IndexCount(m) && j < 2 + PER_BLOCK && IndexAt(d', v2, j) == s {
        assert IndexAt(d', v1, j) == s && IndexKept(d0, v, k, ix, d', v1, j);
      } else {
        var i: nat :| i < m && BlockAt(d', v2, i) == s;
        if i < k { OldBlock(self, d, v, length, ss, ix, d', v1, i); } else { NewBlock(self, d, v, length, ss, ix, d', v1, i); }
      }
    }
    if s < |v| && !Uses(self, d, v, s) && s !in ss && s !in ix {
      assert SectorKept(d0, v, k, ss, ix, v1, s);
    }
  }

  // ---- the whole file system ----

  /** Every inode in `files` describes a well-formed file, and no two files share a sector. */
  ghost predicate Files(v: Disk, files: set<nat>) {
    && (forall f :: f in files ==> f < |v| && FileOk(f, Decode(v[f]), v))
    && (forall f, g, s: nat :: f in files && g in files && f != g && f < |v| && g < |v| ==> Apart(v, f, g, s))
  }
  ghost predicate Apart(v: Disk, f: nat, g: nat, s: nat)
    requires f < |v| && g < |v|
  {
    !(Uses(f, Decode(v[f]), v, s) && Uses(g, Decode(v[g]), v, s))
  }

  /** Every sector a file uses is marked in the free map. */
  ghost predicate Marked(v: Disk, bits: seq<bool>, files: set<nat>) {
    |bits| == |v| && forall f: nat, s: nat :: f in files && f < |v| ==> UsedIsMarked(v, bits, f, s)
  }
  ghost predicate UsedIsMarked(v: Disk, bits: seq<bool>, f: nat, s: nat)
    requires f < |v|
  {
    Uses(f, Decode(v[f]), v, s) ==> s < |bits| && bits[s]
  }

  /** A change confined to `f`'s sectors and to sectors no file uses leaves every other file alone. */
  lemma OtherFiles(v: Disk, v': Disk, files: set<nat>, f: nat, xs: seq<Word>, g: nat)
    requires Files(v, files) && f in files && g in files && g != f && |v'| == |v|
    requires forall s: nat :: s < |v| && !Uses(f, Decode(v[f]), v, s) && s !in xs ==> v'[s] == v[s]
    requires forall x :: x in xs ==> !Uses(g, Decode(v[g]), v, x)
    ensures v'[g] == v[g] && FileOk(g, Decode(v'[g]), v')
    ensures Contents(Decode(v'[g]), v') == Contents(Decode(v[g]), v)
    ensures forall s: nat :: Uses(g, Decode(v'[g]), v', s) <==> Uses(g, Decode(v[g]), v, s)
  {
    forall s: nat | s < |v| && Uses(g, Decode(v[g]), v, s) ensures v'[s] == v[s] {
      assert Apart(v, f, g, s);
    }
    assert Uses(g, Decode(v[g]), v, g);
    FileFrame(g, Decode(v[g]), v, v');
  }

  lemma FilesKept(v: Disk, v': Disk, files: set<nat>, f: nat, xs: seq<Word>)
    requires Files(v, files) && f in files && |v'| == |v|
    requires forall s: nat :: s < |v| && !Uses(f, Decode(v[f]), v, s) && s !in xs ==> v'[s] == v[s]
    requires forall g, x :: g in files && x in xs ==> !Uses(g, Decode(v[g]), v, x)
    requires FileOk(f, Decode(v'[f]), v')
    requires forall s: nat :: Uses(f, Decode(v'[f]), v', s) ==> Uses(f, Decode(v[f]), v, s) || s in xs
    ensures Files(v', files)
    ensures forall g :: g in files && g != f ==> Contents(Decode(v'[g]), v') == Contents(Decode(v[g]), v)
  {
    forall g | g in files && g != f
      ensures FileOk(g, Decode(v'[g]), v') && Contents(Decode(v'[g]), v') == Contents(Decode(v[g]), v)
      ensures forall s: nat :: Uses(g, Decode(v'[g]), v', s) <==> Uses(g, Decode(v[g]), v, s)
    {
      OtherFiles(v, v', files, f, xs, g);
    }
    forall g, h, s: nat | g in files && h in files && g != h ensures Apart(v', g, h, s) {
      assert Apart(v, g, h, s);
    }
  }

  lemma MarkedKept(v: Disk, v': Disk, bits: seq<bool>, bits': seq<bool>, files: set<nat>, f: nat, xs: seq<Word>)
    requires Files(v, files) && Marked(v, bits, files) && f in files && |v'| == |v| && |bits'| == |bits|
    requires forall s: nat :: s < |v| && !Uses(f, Decode(v[f]), v, s) && s !in xs ==> v'[s] == v[s]
    requires forall g, x :: g in files && x in xs ==> !Uses(g, Decode(v[g]), v, x)
    requires forall s: nat :: Uses(f, Decode(v'[f]), v', s) ==> Uses(f, Decode(v[f]), v, s) || s in xs
    requires forall x :: x in xs ==> x < |bits'| && bits'[x]
    requires forall s: nat :: s < |bits| && bits[s] ==> bits'[s]
    ensures Marked(v', bits', files)
  {
    forall g: nat, s: nat | g in files && g < |v'| ensures UsedIsMarked(v', bits', g, s) {
      hide Uses, FileOk, Decode, Contents;
      assert UsedIsMarked(v, bits, g, s);
      if g != f { OtherFiles(v, v', files, f, xs, g); }
    }
  }
}
