/**
 How filesys/inode.c lays a file out on the disk: an inode sector, 12 direct blocks, an
 indirect block of 128 sector numbers and a doubly indirect block of 128 indirect blocks.
 Sector numbers are stored as 32-bit little-endian words.
 */
module InodeLayout {
  import opened Common
  import opened BufferCache

  const DIRECT: nat := 12
  const PER_BLOCK: nat := 128
  const SINGLE_END: nat := DIRECT + PER_BLOCK
  const MAX_BLOCKS: nat := SINGLE_END + PER_BLOCK * PER_BLOCK

  type Word = x: int | 0 <= x < 0x1_0000_0000

  const INODE_MAGIC: Word := 0x494e4f44

  function Zeros(): (z: Sector)
    ensures forall i :: 0 <= i < SECTOR_SIZE ==> z[i] == 0
  {
    seq(SECTOR_SIZE, _ => 0)
  }

  // ---- words in sectors ----

  function ByteOf(w: Word, b: nat): Byte {
    if b == 0 then w % 256 else if b == 1 then w / 256 % 256 else if b == 2 then w / 256 / 256 % 256 else w / 256 / 256 / 256
  }

  function Join(a: Byte, b: Byte, c: Byte, d: Byte): Word { a + 256 * b + 65536 * c + 16777216 * d }

  function WordAt(s: Sector, i: nat): Word
    requires i < PER_BLOCK
  {
    Join(s[4 * i], s[4 * i + 1], s[4 * i + 2], s[4 * i + 3])
  }

  /** The bytes of an array of words, as they lie in memory. */
  function Bytes(ws: seq<Word>): (b: seq<Byte>)
    ensures |b| == 4 * |ws|
  {
    seq(4 * |ws|, k requires 0 <= k < 4 * |ws| => ByteOf(ws[k / 4], k % 4))
  }

  function Words(s: Sector): (ws: seq<Word>)
    ensures |ws| == PER_BLOCK
  {
    seq(PER_BLOCK, i requires 0 <= i < PER_BLOCK => WordAt(s, i))
  }

  lemma JoinBytes(w: Word)
    ensures Join(ByteOf(w, 0), ByteOf(w, 1), ByteOf(w, 2), ByteOf(w, 3)) == w
  {
  }

  lemma BytesAt(ws: seq<Word>, j: nat)
    requires j < |ws|
    ensures Bytes(ws)[4 * j] == ByteOf(ws[j], 0) && Bytes(ws)[4 * j + 1] == ByteOf(ws[j], 1)
    ensures Bytes(ws)[4 * j + 2] == ByteOf(ws[j], 2) && Bytes(ws)[4 * j + 3] == ByteOf(ws[j], 3)
  {
    assert (4 * j) / 4 == (4 * j + 1) / 4 == (4 * j + 2) / 4 == (4 * j + 3) / 4 == j;
    assert (4 * j) % 4 == 0 && (4 * j + 1) % 4 == 1 && (4 * j + 2) % 4 == 2 && (4 * j + 3) % 4 == 3;
  }

  lemma PatchAt(s: Sector, ofs: nat, data: seq<Byte>, k: nat)
    requires ofs + |data| <= SECTOR_SIZE && k < SECTOR_SIZE
    ensures Patch(s, ofs, data)[k] == if ofs <= k < ofs + |data| then data[k - ofs] else s[k]
  {
  }

  lemma PatchWord(s: Sector, ofs: nat, data: seq<Byte>, i: nat)
    requires 4 * ofs + |data| <= SECTOR_SIZE && |data| % 4 == 0 && i < PER_BLOCK
    ensures var p := Patch(s, 4 * ofs, data);
      WordAt(p, i) == if ofs <= i < ofs + |data| / 4
        then Join(data[4 * (i - ofs)], data[4 * (i - ofs) + 1], data[4 * (i - ofs) + 2], data[4 * (i - ofs) + 3])
        else WordAt(s, i)
  {
    PatchAt(s, 4 * ofs, data, 4 * i);
    PatchAt(s, 4 * ofs, data, 4 * i + 1);
    PatchAt(s, 4 * ofs, data, 4 * i + 2);
    PatchAt(s, 4 * ofs, data, 4 * i + 3);
    hide Join, Patch;
  }

  /** Writing words at a word offset changes exactly those words. */
  lemma PatchedWord(s: Sector, ofs: nat, ws: seq<Word>, i: nat)
    requires ofs + |ws| <= PER_BLOCK && i < PER_BLOCK
    ensures WordAt(Patch(s, 4 * ofs, Bytes(ws)), i) == if ofs <= i < ofs + |ws| then ws[i - ofs] else WordAt(s, i)
  {
    hide Join, Patch, WordAt, Bytes, ByteOf;
    assert |Bytes(ws)| == 4 * |ws|;
    PatchWord(s, ofs, Bytes(ws), i);
    if ofs <= i < ofs + |ws| {
      BytesAt(ws, i - ofs);
      JoinBytes(ws[i - ofs]);
    }
  }

  /** A whole sector of words reads back. */
  lemma WordsBytes(ws: seq<Word>, i: nat)
    requires |ws| == PER_BLOCK && i < PER_BLOCK
    ensures |Bytes(ws)| == SECTOR_SIZE && WordAt(Bytes(ws), i) == ws[i]
  {
    BytesAt(ws, i);
    JoinBytes(ws[i]);
  }

  // ---- the inode sector ----

  datatype InodeDisk = InodeDisk(length: Word, isDir: bool, dblocks: seq<Word>, ind: Word, dind: Word)

  function InodeWords(d: InodeDisk): (ws: seq<Word>)
    requires |d.dblocks| == DIRECT
    ensures |ws| == PER_BLOCK
  {
    [d.length, if d.isDir then 1 else 0] + d.dblocks + [d.ind, d.dind, INODE_MAGIC] + seq(111, _ => 0)
  }

  function Encode(d: InodeDisk): Sector
    requires |d.dblocks| == DIRECT
  {
    Bytes(InodeWords(d))
  }

  function Decode(s: Sector): (d: InodeDisk)
    ensures |d.dblocks| == DIRECT
  {
    InodeDisk(WordAt(s, 0), s[4] != 0, seq(DIRECT, i requires 0 <= i < DIRECT => WordAt(s, 2 + i)), WordAt(s, 14), WordAt(s, 15))
  }

  /** An inode written to its sector reads back unchanged. */
  lemma InodeRoundTrip(d: InodeDisk)
    requires |d.dblocks| == DIRECT
    ensures Decode(Encode(d)) == d
  {
    var ws := InodeWords(d);
    WordsBytes(ws, 0);
    WordsBytes(ws, 14);
    WordsBytes(ws, 15);
    BytesAt(ws, 1);
    assert Encode(d)[4 * 1] == ByteOf(ws[1], 0);
    forall i | 0 <= i < DIRECT ensures Decode(Encode(d)).dblocks[i] == d.dblocks[i] {
      WordsBytes(ws, 2 + i);
    }
  }

  /** The little-endian word at byte `ofs`. */
  function WordFrom(s: seq<Byte>, ofs: nat): int
    requires ofs + 4 <= |s|
  {
    s[ofs] as int + 0x100 * (s[ofs + 1] as int) + 0x10000 * (s[ofs + 2] as int) + 0x100_0000 * (s[ofs + 3] as int)
  }

  lemma WordsFrom(ws: seq<Word>, j: nat)
    requires j < |ws|
    ensures WordFrom(Bytes(ws), 4 * j) == ws[j]
  {
    hide Bytes;
    BytesAt(ws, j);
    JoinBytes(ws[j]);
  }

  /** struct inode_disk, byte for byte: the length, the directory flag, twelve direct blocks, the indirect and the doubly
      indirect block, the magic number, and zeros to the end of the sector. */
  lemma InodeBytes(d: InodeDisk, i: nat)
    requires |d.dblocks| == 12
    ensures var s := Encode(d);
      && |s| == 512 && WordFrom(s, 0) == d.length && s[4] == (if d.isDir then 1 else 0) && s[5] == s[6] == s[7] == 0
      && (i < 12 ==> WordFrom(s, 8 + 4 * i) == d.dblocks[i])
      && WordFrom(s, 56) == d.ind && WordFrom(s, 60) == d.dind && WordFrom(s, 64) == 0x494e4f44
      && (i < 111 ==> WordFrom(s, 68 + 4 * i) == 0)
  {
    hide Bytes;
    var ws := InodeWords(d);
    WordsFrom(ws, 0);
    BytesAt(ws, 1);
    if i < 12 { WordsFrom(ws, 2 + i); }
    WordsFrom(ws, 14);
    WordsFrom(ws, 15);
    WordsFrom(ws, 16);
    if i < 111 { WordsFrom(ws, 17 + i); }
  }

  // ---- sizes ----

  function DivUp(x: nat, y: nat): nat requires y > 0 { (x + y - 1) / y }

  /** bytes_to_data_sectors. */
  function Blocks(length: nat): nat { DivUp(length, SECTOR_SIZE) }

  /** bytes_to_indirect_sectors, by number of data blocks. */
  function IndexCount(k: nat): nat {
    if k <= DIRECT then 0 else if k <= SINGLE_END then 1 else 2 + DivUp(k - SINGLE_END, PER_BLOCK)
  }

  // ---- finding a block ----

  type Disk = seq<Sector>

  function Sec(v: Disk, s: nat): Sector { if s < |v| then v[s] else Zeros() }

  /** byte_to_sector, by block number. */
  function BlockAt(d: InodeDisk, v: Disk, n: nat): Word
    requires |d.dblocks| == DIRECT
  {
    if n < DIRECT then d.dblocks[n]
    else if n < SINGLE_END then WordAt(Sec(v, d.ind), n - DIRECT)
    else if n < MAX_BLOCKS then
      var q := n - SINGLE_END;
      WordAt(Sec(v, WordAt(Sec(v, d.dind), q / PER_BLOCK)), q % PER_BLOCK)
    else 0xFFFF_FFFF
  }

  /** Where the number of block `n` is found: in the inode for the first 12, in the indirect block for the next 128, and
      for the next 128 * 128 in the child block that the doubly indirect block names. */
  lemma BlockFound(d: InodeDisk, v: Disk, n: nat)
    requires |d.dblocks| == 12 && d.ind < |v| && d.dind < |v|
    ensures n < 12 ==> BlockAt(d, v, n) == d.dblocks[n]
    ensures 12 <= n < 140 ==> BlockAt(d, v, n) == WordFrom(v[d.ind], 4 * (n - 12))
    ensures 140 <= n < 16524 ==>
      var child := WordFrom(v[d.dind], 4 * ((n - 140) / 128));
      0 <= child < |v| ==> BlockAt(d, v, n) == WordFrom(v[child], 4 * ((n - 140) % 128))
    ensures n >= 16524 ==> BlockAt(d, v, n) == 0xFFFF_FFFF
  {
  }

  /** The file's index blocks, in the order they are allocated. */
  function IndexAt(d: InodeDisk, v: Disk, j: nat): Word
    requires j < 2 + PER_BLOCK
  {
    if j == 0 then d.ind else if j == 1 then d.dind else WordAt(Sec(v, d.dind), j - 2)
  }

  lemma IndexCountBound(k: nat)
    requires k <= MAX_BLOCKS
    ensures IndexCount(k) <= 2 + PER_BLOCK
  {
  }

  lemma IndexCountGrows(k: nat, m: nat)
    requires k <= m
    ensures IndexCount(k) <= IndexCount(m)
  {
  }
}
