/**
 Growing a file: what inode_disk_extend and its helpers do to the inode and the disk, and
 why every block then is where byte_to_sector looks for it.
 */
module InodeGrowth {
  import opened Common
  import opened Seqs
  import opened BufferCache
  import opened InodeLayout

  // ---- the writes ----

  /** The sectors `ss` filled with zeros. */
  function ZeroAll(v: Disk, ss: seq<Word>): (r: Disk)
    ensures |r| == |v|
  {
    seq(|v|, s requires 0 <= s < |v| => if s in ss then Zeros() else v[s])
  }

  /** The words `ws` written into block `b` at word offset `ofs`. */
  function Put(v: Disk, b: nat, ofs: nat, ws: seq<Word>): (r: Disk)
    requires ofs + |ws| <= PER_BLOCK
    ensures |r| == |v|
  {
    if b < |v| then v[b := Patch(v[b], 4 * ofs, Bytes(ws))] else v
  }

  /** inode_disk_extend_indblock_children: enter `ss` into index block `b`, then clear those sectors. */
  function Children(v: Disk, b: nat, ofs: nat, ss: seq<Word>): (r: Disk)
    requires ofs + |ss| <= PER_BLOCK
    ensures |r| == |v|
  {
    ZeroAll(Put(v, b, ofs, ss), ss)
  }

  lemma ChildrenWord(v: Disk, b: nat, ofs: nat, ss: seq<Word>, i: nat)
    requires ofs + |ss| <= PER_BLOCK && b < |v| && b !in ss && i < PER_BLOCK
    ensures WordAt(Children(v, b, ofs, ss)[b], i) == if ofs <= i < ofs + |ss| then ss[i - ofs] else WordAt(v[b], i)
  {
    PatchedWord(v[b], ofs, ss, i);
  }

  lemma ChildrenElsewhere(v: Disk, b: nat, ofs: nat, ss: seq<Word>, s: nat)
    requires ofs + |ss| <= PER_BLOCK && s < |v|
    ensures s in ss ==> Children(v, b, ofs, ss)[s] == Zeros()
    ensures s !in ss && s != b ==> Children(v, b, ofs, ss)[s] == v[s]
  {
  }

  // ---- what it means to have grown ----

  /** The index blocks of a file of `k` data blocks exist and are all different. */
  ghost predicate Layout(d: InodeDisk, v: Disk, k: nat) {
    && |d.dblocks| == DIRECT && k <= MAX_BLOCKS
    && (forall j: nat :: j < IndexCount(k) ==> InRange(d, v, j))
    && (forall i: nat, j: nat :: i < j < IndexCount(k) ==> Differ(d, v, i, j))
  }
  ghost predicate InRange(d: InodeDisk, v: Disk, j: nat) { j < 2 + PER_BLOCK && IndexAt(d, v, j) < |v| }
  ghost predicate Differ(d: InodeDisk, v: Disk, i: nat, j: nat) {
    i < 2 + PER_BLOCK && j < 2 + PER_BLOCK && IndexAt(d, v, i) != IndexAt(d, v, j)
  }

  /** `x` is a sector of the device that is not one of the file's index blocks. */
  ghost predicate Spare(d: InodeDisk, v: Disk, k: nat, x: nat) {
    x < |v| && forall j: nat :: j < IndexCount(k) && j < 2 + PER_BLOCK ==> IndexAt(d, v, j) != x
  }

  /** New sectors: all different and none of them an index block already. */
  ghost predicate Fresh(d: InodeDisk, v: Disk, k: nat, xs: seq<Word>) {
    NoDup(xs) && forall x :: x in xs ==> Spare(d, v, k, x)
  }

  /** From `k` data blocks the file has grown by the data sectors `ss`, using the index sectors `ix`. */
  ghost predicate Grew(d: InodeDisk, v: Disk, k: nat, ss: seq<Word>, ix: seq<Word>, d': InodeDisk, v': Disk) {
    var m := k + |ss|;
    && |d.dblocks| == DIRECT && |d'.dblocks| == DIRECT && m <= MAX_BLOCKS && |v'| == |v|
    && d'.length == d.length && d'.isDir == d.isDir
    && IndexCount(m) == IndexCount(k) + |ix|
    && (forall i: nat :: i < m ==> BlockKept(d, v, k, ss, d', v', i))
    && (forall j: nat :: j < IndexCount(m) ==> IndexKept(d, v, k, ix, d', v', j))
    && (forall s: nat :: s < |v| ==> SectorKept(d, v, k, ss, ix, v', s))
  }
  ghost predicate BlockKept(d: InodeDisk, v: Disk, k: nat, ss: seq<Word>, d': InodeDisk, v': Disk, i: nat)
    requires |d.dblocks| == DIRECT && |d'.dblocks| == DIRECT
  {
    i < k + |ss| && BlockAt(d', v', i) == if i < k then BlockAt(d, v, i) else ss[i - k]
  }
  ghost predicate IndexKept(d: InodeDisk, v: Disk, k: nat, ix: seq<Word>, d': InodeDisk, v': Disk, j: nat) {
    && j < 2 + PER_BLOCK && j < IndexCount(k) + |ix|
    && IndexAt(d', v', j) == if j < IndexCount(k) then IndexAt(d, v, j) else ix[j - IndexCount(k)]
  }
  ghost predicate SectorKept(d: InodeDisk, v: Disk, k: nat, ss: seq<Word>, ix: seq<Word>, v': Disk, s: nat)
    requires s < |v| && |v'| == |v|
  {
    && (s in ss ==> v'[s] == Zeros())
    && (s !in ss && s !in ix && Spare(d, v, k, s) ==> v'[s] == v[s])
  }

  /** Growth keeps the index blocks well formed. */
  lemma GrewLayout(d: InodeDisk, v: Disk, k: nat, ss: seq<Word>, ix: seq<Word>, d': InodeDisk, v': Disk)
    requires Layout(d, v, k) && Fresh(d, v, k, ss + ix) && Grew(d, v, k, ss, ix, d', v')
    ensures Layout(d', v', k + |ss|)
  {
    var m := k + |ss|;
    IndexCountBound(m);
    forall j: nat | j < IndexCount(m) ensures InRange(d', v', j) {
      assert IndexKept(d, v, k, ix, d', v', j);
      if j < IndexCount(k) { assert InRange(d, v, j); } else { assert (ss + ix)[|ss| + j - IndexCount(k)] in ss + ix; }
    }
    forall i: nat, j: nat | i < j < IndexCount(m) ensures Differ(d', v', i, j) {
      assert IndexKept(d, v, k, ix, d', v', i) && IndexKept(d, v, k, ix, d', v', j);
      if j < IndexCount(k) {
        assert Differ(d, v, i, j);
      } else {
        var y := |ss| + j - IndexCount(k);
        assert (ss + ix)[y] == ix[j - IndexCount(k)] && (ss + ix)[y] in ss + ix;
        if i >= IndexCount(k) { assert (ss + ix)[|ss| + i - IndexCount(k)] == ix[i - IndexCount(k)]; }
      }
    }
  }

  /** A sector spare before and after. */
  lemma SpareAfter(d: InodeDisk, v: Disk, k: nat, ss: seq<Word>, ix: seq<Word>, d': InodeDisk, v': Disk, x: nat)
    requires Grew(d, v, k, ss, ix, d', v') && Spare(d, v, k, x) && x !in ix
    ensures Spare(d', v', k + |ss|, x)
  {
    forall j: nat | j < IndexCount(k + |ss|) && j < 2 + PER_BLOCK ensures IndexAt(d', v', j) != x {
      assert IndexKept(d, v, k, ix, d', v', j);
    }
  }

  /** Growing in two steps is growing. */
  lemma GrewTwice(d0: InodeDisk, v0: Disk, k: nat, ss1: seq<Word>, ix1: seq<Word>, d1: InodeDisk, v1: Disk,
                  ss2: seq<Word>, ix2: seq<Word>, d2: InodeDisk, v2: Disk)
    requires Fresh(d0, v0, k, ss1 + ss2 + (ix1 + ix2))
    requires Grew(d0, v0, k, ss1, ix1, d1, v1) && Grew(d1, v1, k + |ss1|, ss2, ix2, d2, v2)
    ensures Grew(d0, v0, k, ss1 + ss2, ix1 + ix2, d2, v2)
  {
    var ss, ix := ss1 + ss2, ix1 + ix2;
    var m := k + |ss|;
    forall i: nat | i < m ensures BlockKept(d0, v0, k, ss, d2, v2, i) {
      assert BlockKept(d1, v1, k + |ss1|, ss2, d2, v2, i);
      if i < k + |ss1| { assert BlockKept(d0, v0, k, ss1, d1, v1, i); }
    }
    forall j: nat | j < IndexCount(m) ensures IndexKept(d0, v0, k, ix, d2, v2, j) {
      assert IndexKept(d1, v1, k + |ss1|, ix2, d2, v2, j);
      if j < IndexCount(k + |ss1|) { assert IndexKept(d0, v0, k, ix1, d1, v1, j); }
    }
    forall s: nat | s < |v0| ensures SectorKept(d0, v0, k, ss, ix, v2, s) {
      GrewTwiceSector(d0, v0, k, ss1, ix1, d1, v1, ss2, ix2, d2, v2, s);
    }
  }

  lemma GrewTwiceSector(d0: InodeDisk, v0: Disk, k: nat, ss1: seq<Word>, ix1: seq<Word>, d1: InodeDisk, v1: Disk,
                        ss2: seq<Word>, ix2: seq<Word>, d2: InodeDisk, v2: Disk, s: nat)
    requires Fresh(d0, v0, k, ss1 + ss2 + (ix1 + ix2)) && s < |v0|
    requires Grew(d0, v0, k, ss1, ix1, d1, v1) && Grew(d1, v1, k + |ss1|, ss2, ix2, d2, v2)
    ensures SectorKept(d0, v0, k, ss1 + ss2, ix1 + ix2, v2, s)
  {
    assert SectorKept(d0, v0, k, ss1, ix1, v1, s) && SectorKept(d1, v1, k + |ss1|, ss2, ix2, v2, s);
    var all := ss1 + ss2 + (ix1 + ix2);
    if s in ss1 {
      PartsApart(ss1, ss2, ix1, ix2, s);
      assert s in all;
      assert Spare(d0, v0, k, s);
      SpareAfter(d0, v0, k, ss1, ix1, d1, v1, s);
    } else if s !in ss2 && s !in ix1 && s !in ix2 && Spare(d0, v0, k, s) {
      SpareAfter(d0, v0, k, ss1, ix1, d1, v1, s);
    }
  }

  lemma PartsApart<T>(a: seq<T>, b: seq<T>, c: seq<T>, e: seq<T>, x: T)
    requires NoDup(a + b + (c + e)) && x in a
    ensures x !in b && x !in c && x !in e
  {
    var all := a + b + (c + e);
    var i :| 0 <= i < |a| && a[i] == x;
    assert all[i] == x;
    assert forall j :: 0 <= j < |b| ==> all[|a| + j] == b[j];
    assert forall j :: 0 <= j < |c| ==> all[|a| + |b| + j] == c[j];
    assert forall j :: 0 <= j < |e| ==> all[|a| + |b| + |c| + j] == e[j];
  }

  // ---- the three places a block can go ----

  /** inode_disk_extend_dblock. */
  lemma DirectGrows(d: InodeDisk, v: Disk, k: nat, ss: seq<Word>)
    requires |d.dblocks| == DIRECT && k + |ss| <= DIRECT
    ensures Grew(d, v, k, ss, [], d.(dblocks := d.dblocks[..k] + ss + d.dblocks[k + |ss|..]), ZeroAll(v, ss))
  {
  }

  /** Entering blocks into the singly indirect block. */
  lemma SingleGrows(d: InodeDisk, v: Disk, k: nat, ss: seq<Word>, ix: seq<Word>)
    requires Layout(d, v, k) && DIRECT <= k && k + |ss| <= SINGLE_END && ss != []
    requires ix == (if k == DIRECT then [d.ind] else []) && d.ind < |v| && d.ind !in ss
    ensures Grew(d, v, k, ss, ix, d, Children(v, d.ind, k - DIRECT, ss))
  {
    hide Children, WordAt;
    var v' := Children(v, d.ind, k - DIRECT, ss);
    forall i: nat | i < k + |ss| ensures BlockKept(d, v, k, ss, d, v', i) { SingleBlock(d, v, k, ss, i); }
    forall s: nat | s < |v| ensures SectorKept(d, v, k, ss, ix, v', s) { SingleSector(d, v, k, ss, ix, s); }
  }

  lemma SingleBlock(d: InodeDisk, v: Disk, k: nat, ss: seq<Word>, i: nat)
    requires |d.dblocks| == DIRECT && DIRECT <= k && k + |ss| <= SINGLE_END && d.ind < |v| && d.ind !in ss && i < k + |ss|
    ensures BlockKept(d, v, k, ss, d, Children(v, d.ind, k - DIRECT, ss), i)
  {
    hide Children, WordAt;
    if i >= DIRECT { ChildrenWord(v, d.ind, k - DIRECT, ss, i - DIRECT); }
  }

  lemma SingleSector(d: InodeDisk, v: Disk, k: nat, ss: seq<Word>, ix: seq<Word>, s: nat)
    requires DIRECT <= k && k + |ss| <= SINGLE_END && s < |v| && ix == (if k == DIRECT then [d.ind] else [])
    ensures SectorKept(d, v, k, ss, ix, Children(v, d.ind, k - DIRECT, ss), s)
  {
    hide Children, WordAt;
    ChildrenElsewhere(v, d.ind, k - DIRECT, ss, s);
    assert k > DIRECT && Spare(d, v, k, s) ==> IndexAt(d, v, 0) != s;
  }

  /** The number of data blocks when the doubly indirect block's child `x` has `r` entries. */
  function InChild(x: nat, r: nat): nat { SINGLE_END + PER_BLOCK * x + r }

  /** Blocks `ss` go into child `x` of the doubly indirect block from entry `r` on; `ch` is the new list of children. */
  ghost predicate ChildStep(d: InodeDisk, v: Disk, x: nat, r: nat, ss: seq<Word>, ix: seq<Word>, ch: seq<Word>) {
    && x < PER_BLOCK && ss != [] && r + |ss| <= PER_BLOCK && |ch| == PER_BLOCK
    && Layout(d, v, InChild(x, r)) && Fresh(d, v, InChild(x, r), ss + ix)
    && d.dind < |v| && ch[x] < |v|
    && (forall y: nat :: y < PER_BLOCK && y != x ==> ch[y] == WordAt(v[d.dind], y))
    && ix == (if x == 0 && r == 0 then [d.dind] else []) + (if r == 0 then [ch[x]] else [])
    && (r != 0 ==> ch[x] == WordAt(v[d.dind], x))
  }

  /** The child and the doubly indirect block are apart from each other, from the new data and from older children. */
  ghost predicate ChildApart(d: InodeDisk, v: Disk, x: nat, ss: seq<Word>, ch: seq<Word>)
    requires x < PER_BLOCK && |ch| == PER_BLOCK
  {
    && ch[x] != d.dind && ch[x] != d.ind && d.ind != d.dind
    && ch[x] !in ss && d.dind !in ss && d.ind !in ss && d.ind < |v|
    && (forall y: nat :: y < x ==> ch[y] != ch[x] && ch[y] !in ss && ch[y] < |v| && ch[y] != d.dind)
  }

  lemma IndexCountInChild(x: nat, r: nat)
    requires x < PER_BLOCK && r <= PER_BLOCK
    ensures r > 0 ==> IndexCount(InChild(x, r)) == 3 + x
    ensures r == 0 ==> IndexCount(InChild(x, r)) == if x == 0 then 1 else 2 + x
  {
  }

  lemma ChildIsApart(d: InodeDisk, v: Disk, x: nat, r: nat, ss: seq<Word>, ix: seq<Word>, ch: seq<Word>)
    requires ChildStep(d, v, x, r, ss, ix, ch)
    ensures ChildApart(d, v, x, ss, ch)
  {
    var k := InChild(x, r);
    var all := ss + ix;
    IndexCountInChild(x, r);
    assert InRange(d, v, 0);
    assert forall i :: 0 <= i < |ix| ==> all[|ss| + i] == ix[i];
    forall i | 0 <= i < |ss| ensures ss[i] !in ix && Spare(d, v, k, ss[i]) {
      assert all[i] == ss[i] && all[i] in all;
    }
    forall i | 0 <= i < |ix| ensures Spare(d, v, k, ix[i]) {
      assert all[|ss| + i] in all;
    }
    NotIndex(d, v, k, ss, ix, 0);
    if r == 0 {
      assert ix[|ix| - 1] == ch[x];
      if x == 0 { assert ix[0] == d.dind && all[|ss|] != all[|ss| + 1]; }
    }
    if k > SINGLE_END {
      assert Differ(d, v, 0, 1) && InRange(d, v, 1);
      NotIndex(d, v, k, ss, ix, 1);
    }
    if r != 0 {
      assert Differ(d, v, 1, 2 + x) && Differ(d, v, 0, 2 + x);
      NotIndex(d, v, k, ss, ix, 2 + x);
    }
    forall y: nat | y < x ensures ch[y] != ch[x] && ch[y] !in ss && ch[y] < |v| && ch[y] != d.dind {
      assert InRange(d, v, 2 + y) && Differ(d, v, 1, 2 + y);
      NotIndex(d, v, k, ss, ix, 2 + y);
      if r != 0 { assert Differ(d, v, 2 + y, 2 + x); }
    }
  }

  lemma NotIndex(d: InodeDisk, v: Disk, k: nat, ss: seq<Word>, ix: seq<Word>, j: nat)
    requires Fresh(d, v, k, ss + ix) && j < IndexCount(k) && j < 2 + PER_BLOCK
    ensures IndexAt(d, v, j) !in ss && IndexAt(d, v, j) !in ix
  {
    assert forall x :: x in ss || x in ix ==> x in ss + ix && Spare(d, v, k, x);
  }

  /** The disk after such a step. */
  function ChildDone(d: InodeDisk, v: Disk, x: nat, r: nat, ss: seq<Word>, ch: seq<Word>): Disk
    requires x < PER_BLOCK && r + |ss| <= PER_BLOCK && |ch| == PER_BLOCK && d.dind < |v|
  {
    Children(v[d.dind := Bytes(ch)], ch[x], r, ss)
  }

  lemma ChildGrows(d: InodeDisk, v: Disk, x: nat, r: nat, ss: seq<Word>, ix: seq<Word>, ch: seq<Word>)
    requires ChildStep(d, v, x, r, ss, ix, ch)
    ensures Grew(d, v, InChild(x, r), ss, ix, d, ChildDone(d, v, x, r, ss, ch))
  {
    var k := InChild(x, r);
    var v' := ChildDone(d, v, x, r, ss, ch);
    IndexCountInChild(x, r);
    IndexCountInChild(x, r + |ss|);
    assert k + |ss| == InChild(x, r + |ss|);
    ChildIsApart(d, v, x, r, ss, ix, ch);
    forall i: nat | i < k + |ss| ensures BlockKept(d, v, k, ss, d, v', i) {
      if i < SINGLE_END {
        ChildKeepsSingle(d, v, x, r, ss, ch, i);
      } else {
        ChildKeepsDouble(d, v, x, r, ss, ch, i);
      }
    }
    forall j: nat | j < IndexCount(k + |ss|) ensures IndexKept(d, v, k, ix, d, v', j) {
      ChildKeepsIndex(d, v, x, r, ss, ix, ch, j);
    }
    forall s: nat | s < |v| ensures SectorKept(d, v, k, ss, ix, v', s) {
      ChildKeepsSectors(d, v, x, r, ss, ix, ch, s);
    }
  }

  lemma ChildKeepsSectors(d: InodeDisk, v: Disk, x: nat, r: nat, ss: seq<Word>, ix: seq<Word>, ch: seq<Word>, s: nat)
    requires ChildStep(d, v, x, r, ss, ix, ch) && s < |v|
    ensures SectorKept(d, v, InChild(x, r), ss, ix, ChildDone(d, v, x, r, ss, ch), s)
  {
    var k := InChild(x, r);
    ChildrenElsewhere(v[d.dind := Bytes(ch)], ch[x], r, ss, s);
    IndexCountInChild(x, r);
    if s !in ss && s !in ix && Spare(d, v, k, s) {
      assert s != d.dind by { if k > SINGLE_END { assert IndexAt(d, v, 1) != s; } }
      assert s != ch[x] by { if r > 0 { assert IndexAt(d, v, 2 + x) != s; } }
    }
  }

  lemma ChildKeepsIndex(d: InodeDisk, v: Disk, x: nat, r: nat, ss: seq<Word>, ix: seq<Word>, ch: seq<Word>, j: nat)
    requires ChildStep(d, v, x, r, ss, ix, ch) && ChildApart(d, v, x, ss, ch)
    requires j < IndexCount(InChild(x, r + |ss|))
    ensures IndexKept(d, v, InChild(x, r), ix, d, ChildDone(d, v, x, r, ss, ch), j)
  {
    hide WordAt, Children, Bytes, IndexCount;
    IndexCountInChild(x, r);
    IndexCountInChild(x, r + |ss|);
    ChildrenElsewhere(v[d.dind := Bytes(ch)], ch[x], r, ss, d.dind);
    if j >= 2 { WordsBytes(ch, j - 2); }
  }

  lemma ChildKeepsSingle(d: InodeDisk, v: Disk, x: nat, r: nat, ss: seq<Word>, ch: seq<Word>, i: nat)
    requires |d.dblocks| == DIRECT && x < PER_BLOCK && r + |ss| <= PER_BLOCK && |ch| == PER_BLOCK && d.dind < |v|
    requires ChildApart(d, v, x, ss, ch) && i < SINGLE_END
    ensures BlockKept(d, v, InChild(x, r), ss, d, ChildDone(d, v, x, r, ss, ch), i)
  {
    ChildrenElsewhere(v[d.dind := Bytes(ch)], ch[x], r, ss, d.ind);
  }

  /** Child `y`'s entry `z`, after the step. */
  lemma ChildEntry(d: InodeDisk, v: Disk, x: nat, r: nat, ss: seq<Word>, ch: seq<Word>, y: nat, z: nat)
    requires |d.dblocks| == DIRECT && x < PER_BLOCK && r + |ss| <= PER_BLOCK && |ch| == PER_BLOCK && d.dind < |v|
    requires ChildApart(d, v, x, ss, ch) && ch[x] < |v| && y <= x && z < PER_BLOCK
    ensures BlockAt(d, ChildDone(d, v, x, r, ss, ch), InChild(y, z)) ==
      if y < x then WordAt(Sec(v, ch[y]), z)
      else if r <= z < r + |ss| then ss[z - r] else WordAt(Sec(v, ch[x]), z)
  {
    hide WordAt, Children, Bytes, BlockAt;
    var w := v[d.dind := Bytes(ch)];
    var v' := ChildDone(d, v, x, r, ss, ch);
    InDouble(d, v', y, z);
    ChildrenElsewhere(w, ch[x], r, ss, d.dind);
    WordsBytes(ch, y);
    assert WordAt(Sec(v', d.dind), y) == ch[y];
    if y < x {
      ChildrenElsewhere(w, ch[x], r, ss, ch[y]);
    } else {
      ChildrenWord(w, ch[x], r, ss, z);
    }
  }

  lemma ChildKeepsDouble(d: InodeDisk, v: Disk, x: nat, r: nat, ss: seq<Word>, ch: seq<Word>, i: nat)
    requires |d.dblocks| == DIRECT && x < PER_BLOCK && r + |ss| <= PER_BLOCK && |ch| == PER_BLOCK && d.dind < |v|
    requires ChildApart(d, v, x, ss, ch) && SINGLE_END <= i < InChild(x, r + |ss|) && ch[x] < |v|
    requires forall y: nat :: y < PER_BLOCK && y != x ==> ch[y] == WordAt(v[d.dind], y)
    requires r != 0 ==> ch[x] == WordAt(v[d.dind], x)
    ensures BlockKept(d, v, InChild(x, r), ss, d, ChildDone(d, v, x, r, ss, ch), i)
  {
    hide WordAt, ChildDone, BlockAt, InChild, ChildApart;
    var y, z := ChildPlace(i, x, r, |ss|);
    ChildEntry(d, v, x, r, ss, ch, y, z);
    InDouble(d, v, y, z);
  }

  /** Which child block `i` is in, and where. */
  lemma ChildPlace(i: nat, x: nat, r: nat, n: nat) returns (y: nat, z: nat)
    requires x < PER_BLOCK && r + n <= PER_BLOCK && SINGLE_END <= i < InChild(x, r + n)
    ensures i == InChild(y, z) && y <= x && z < PER_BLOCK
    ensures i < InChild(x, r) <==> y < x || z < r
    ensures y == x && z >= r ==> z < r + n && i - InChild(x, r) == z - r
    ensures i < InChild(x, r) + n
  {
    y, z := (i - SINGLE_END) / PER_BLOCK, (i - SINGLE_END) % PER_BLOCK;
  }

  lemma InDouble(d: InodeDisk, v: Disk, y: nat, z: nat)
    requires |d.dblocks| == DIRECT && y < PER_BLOCK && z < PER_BLOCK
    ensures BlockAt(d, v, InChild(y, z)) == WordAt(Sec(v, WordAt(Sec(v, d.dind), y)), z)
  {
    var q := InChild(y, z) - SINGLE_END;
    assert q / PER_BLOCK == y && q % PER_BLOCK == z;
  }

  // ---- the whole of inode_disk_extend ----

  function Min(a: nat, b: nat): nat { if a < b then a else b }

  /** inode_disk_extend_doubly_indblock_children: fill child `x` from entry `r`, then further children. */
  function Double(v: Disk, ch: seq<Word>, x: nat, r: nat, ss: seq<Word>, ix: seq<Word>): (res: (Disk, seq<Word>))
    requires |ch| == PER_BLOCK && r < PER_BLOCK && PER_BLOCK * x + r + |ss| <= PER_BLOCK * PER_BLOCK
    requires |ix| == if r == 0 then DivUp(|ss|, PER_BLOCK) else 0
    requires r > 0 ==> r + |ss| <= PER_BLOCK
    ensures |res.0| == |v| && |res.1| == PER_BLOCK
    decreases |ss|
  {
    if ss == [] then (v, ch)
    else
      var n := Min(|ss|, PER_BLOCK);
      var ch1 := if r == 0 then ch[x := ix[0]] else ch;
      Double(Children(v, ch1[x], r, ss[..n]), ch1, x + 1, 0, ss[n..], if r == 0 then ix[1..] else [])
  }

  datatype Growth = Panic | Grown(inode: InodeDisk, disk: Disk)

  /** The last stage, `o` blocks into the doubly indirect part. */
  function ExtendDouble(d: InodeDisk, v: Disk, o: nat, ss: seq<Word>, ix: seq<Word>): Growth
    requires ss != [] && o + |ss| <= PER_BLOCK * PER_BLOCK
    requires |ix| == IndexCount(SINGLE_END + o + |ss|) - IndexCount(SINGLE_END + o)
  {
    var d1 := if o == 0 then d.(dind := ix[0]) else d;
    var r := o % PER_BLOCK;
    if r + Min(|ss|, PER_BLOCK) > PER_BLOCK then Panic
    else
      var (v1, ch) := Double(v, Words(Sec(v, d1.dind)), o / PER_BLOCK, r, ss, if o == 0 then ix[1..] else ix);
      Grown(d1, if d1.dind < |v1| then v1[d1.dind := Bytes(ch)] else v1)
  }

  /** The second stage, `o` blocks past the direct ones. */
  function ExtendSingle(d: InodeDisk, v: Disk, o: nat, ss: seq<Word>, ix: seq<Word>): Growth
    requires ss != [] && DIRECT + o + |ss| <= MAX_BLOCKS
    requires |ix| == IndexCount(DIRECT + o + |ss|) - IndexCount(DIRECT + o)
  {
    var d1 := if o == 0 then d.(ind := ix[0]) else d;
    var ix1 := if o == 0 then ix[1..] else ix;
    if o >= PER_BLOCK then ExtendDouble(d1, v, o - PER_BLOCK, ss, ix1)
    else
      var n := Min(|ss|, PER_BLOCK);
      if o + n > PER_BLOCK then Panic
      else
        var v1 := Children(v, d1.ind, o, ss[..n]);
        if n == |ss| then Grown(d1, v1) else ExtendDouble(d1, v1, 0, ss[n..], ix1)
  }

  /** How many of `need` new blocks the direct slots take. */
  function DirectTaken(k: nat, need: nat): nat { if k < DIRECT then Min(DIRECT - k, need) else 0 }

  /** inode_disk_extend past the allocation: from `k` to `k + |ss|` data blocks. */
  function Extend(d: InodeDisk, v: Disk, k: nat, ss: seq<Word>, ix: seq<Word>): Growth
    requires |d.dblocks| == DIRECT && k + |ss| <= MAX_BLOCKS
    requires |ix| == IndexCount(k + |ss|) - IndexCount(k)
  {
    var a := DirectTaken(k, |ss|);
    var d1 := if k < DIRECT then d.(dblocks := d.dblocks[..k] + ss[..a] + d.dblocks[k + a..]) else d;
    var v1 := ZeroAll(v, ss[..a]);
    if a == |ss| then Grown(d1, v1)
    else ExtendSingle(d1, v1, if k < DIRECT then 0 else k - DIRECT, ss[a..], ix)
  }

  /** The growth starts inside a partly filled index block and goes past its end. */
  predicate Crosses(k: nat, m: nat) {
    k > DIRECT && (k - DIRECT) % PER_BLOCK != 0 && m > DIRECT + ((k - DIRECT) / PER_BLOCK + 1) * PER_BLOCK
  }

  lemma DoublePanics(d: InodeDisk, v: Disk, o: nat, ss: seq<Word>, ix: seq<Word>)
    requires ss != [] && o + |ss| <= PER_BLOCK * PER_BLOCK
    requires |ix| == IndexCount(SINGLE_END + o + |ss|) - IndexCount(SINGLE_END + o)
    ensures ExtendDouble(d, v, o, ss, ix).Panic? <==> o % PER_BLOCK != 0 && o % PER_BLOCK + |ss| > PER_BLOCK
  {
    hide Words, Bytes, Double;
  }

  lemma SinglePanics(d: InodeDisk, v: Disk, o: nat, ss: seq<Word>, ix: seq<Word>)
    requires ss != [] && DIRECT + o + |ss| <= MAX_BLOCKS
    requires |ix| == IndexCount(DIRECT + o + |ss|) - IndexCount(DIRECT + o)
    ensures ExtendSingle(d, v, o, ss, ix).Panic? <==> o % PER_BLOCK != 0 && o % PER_BLOCK + |ss| > PER_BLOCK
  {
    hide ExtendDouble, Children, IndexCount;
    if o >= PER_BLOCK {
      assert SINGLE_END + (o - PER_BLOCK) == DIRECT + o;
      DoublePanics(d, v, o - PER_BLOCK, ss, ix);
      assert (o - PER_BLOCK) % PER_BLOCK == o % PER_BLOCK;
    } else if o == 0 {
      SingleIndexes(|ss|);
      if |ss| > PER_BLOCK {
        var d1 := d.(ind := ix[0]);
        DoublePanics(d1, Children(v, d1.ind, 0, ss[..PER_BLOCK]), 0, ss[PER_BLOCK..], ix[1..]);
      }
    } else {
      assert o % PER_BLOCK == o;
      if o + |ss| <= PER_BLOCK {
        assert Min(|ss|, PER_BLOCK) == |ss|;
      }
    }
  }

  /** Growing from the direct blocks takes the singly indirect block and then what lies past it. */
  lemma SingleIndexes(n: nat)
    requires n > 0
    ensures IndexCount(DIRECT + n) > IndexCount(DIRECT)
    ensures n > PER_BLOCK ==>
      IndexCount(SINGLE_END + (n - PER_BLOCK)) - IndexCount(SINGLE_END) == IndexCount(DIRECT + n) - IndexCount(DIRECT) - 1
  {
  }

  /** inode_disk_extend stops the kernel exactly when the growth crosses the end of a partly filled index block. */
  lemma PanicsExactly(d: InodeDisk, v: Disk, k: nat, ss: seq<Word>, ix: seq<Word>)
    requires |d.dblocks| == DIRECT && k + |ss| <= MAX_BLOCKS
    requires |ix| == IndexCount(k + |ss|) - IndexCount(k)
    ensures Extend(d, v, k, ss, ix).Panic? <==> Crosses(k, k + |ss|)
  {
    hide ExtendSingle;
    var a := DirectTaken(k, |ss|);
    if a < |ss| {
      var d1 := if k < DIRECT then d.(dblocks := d.dblocks[..k] + ss[..a] + d.dblocks[k + a..]) else d;
      SinglePanics(d1, ZeroAll(v, ss[..a]), if k < DIRECT then 0 else k - DIRECT, ss[a..], ix);
    }
  }

  // ---- its correctness ----

  /** The two halves of the new sectors are fresh for the two halves of the growth. */
  lemma FreshParts(d: InodeDisk, v: Disk, k: nat, ss1: seq<Word>, ss2: seq<Word>, ix1: seq<Word>, ix2: seq<Word>)
    requires Fresh(d, v, k, ss1 + ss2 + (ix1 + ix2))
    ensures Fresh(d, v, k, ss1 + ix1) && NoDup(ss2 + ix2)
    ensures forall x :: x in ss2 + ix2 ==> Spare(d, v, k, x) && x !in ix1
  {
    var all := ss1 + ss2 + (ix1 + ix2);
    var n1, n2, m1 := |ss1|, |ss2|, |ix1|;
    forall i, j | 0 <= i < j < |ss1 + ix1| ensures (ss1 + ix1)[i] != (ss1 + ix1)[j] {
      assert (ss1 + ix1)[i] == all[if i < n1 then i else i + n2] && (ss1 + ix1)[j] == all[if j < n1 then j else j + n2];
    }
    forall i, j | 0 <= i < j < |ss2 + ix2| ensures (ss2 + ix2)[i] != (ss2 + ix2)[j] {
      assert (ss2 + ix2)[i] == all[if i < n2 then n1 + i else n1 + m1 + i]
          && (ss2 + ix2)[j] == all[if j < n2 then n1 + j else n1 + m1 + j];
    }
    forall x | x in ss1 + ix1 ensures Spare(d, v, k, x) { assert x in all; }
    forall x | x in ss2 + ix2 ensures Spare(d, v, k, x) && x !in ix1 {
      assert x in all;
      var j :| 0 <= j < |ss2 + ix2| && (ss2 + ix2)[j] == x;
      assert all[if j < n2 then n1 + j else n1 + m1 + j] == x;
      assert forall i :: 0 <= i < m1 ==> all[n1 + n2 + i] == ix1[i];
    }
  }

  lemma FreshRest(d: InodeDisk, v: Disk, k: nat, ss1: seq<Word>, ss2: seq<Word>, ix1: seq<Word>, ix2: seq<Word>,
                  d': InodeDisk, v': Disk)
    requires Fresh(d, v, k, ss1 + ss2 + (ix1 + ix2)) && Grew(d, v, k, ss1, ix1, d', v')
    ensures Fresh(d', v', k + |ss1|, ss2 + ix2)
  {
    FreshParts(d, v, k, ss1, ss2, ix1, ix2);
    forall x | x in ss2 + ix2 ensures Spare(d', v', k + |ss1|, x) {
      SpareAfter(d, v, k, ss1, ix1, d', v', x);
    }
  }

  /** The doubly indirect block is written last; until then its new list of children is only in memory. */
  lemma WriteLater(v: Disk, c: nat, r: nat, ss: seq<Word>, b: nat, data: Sector)
    requires r + |ss| <= PER_BLOCK && b < |v| && b != c && b !in ss
    ensures Children(v[b := data], c, r, ss) == Children(v, c, r, ss)[b := data]
  {
  }

  lemma DivUpStep(n: nat)
    requires n > 0
    ensures DivUp(n, PER_BLOCK) == 1 + DivUp(n - Min(n, PER_BLOCK), PER_BLOCK)
  {
  }

  /** Filling the doubly indirect block's children, seen on the disk the final write will leave. */
  lemma {:induction false} DoubleGrows(d: InodeDisk, v: Disk, ch: seq<Word>, x: nat, r: nat, ss: seq<Word>,
                                       pre: seq<Word>, ix: seq<Word>)
    requires |d.dblocks| == DIRECT && |ch| == PER_BLOCK && r < PER_BLOCK && d.dind < |v| && ss != []
    requires PER_BLOCK * x + r + |ss| <= PER_BLOCK * PER_BLOCK
    requires |ix| == if r == 0 then DivUp(|ss|, PER_BLOCK) else 0
    requires r > 0 ==> r + |ss| <= PER_BLOCK && ch[x] < |v|
    requires pre == if x == 0 && r == 0 then [d.dind] else []
    requires Layout(d, v[d.dind := Bytes(ch)], InChild(x, r))
    requires Fresh(d, v[d.dind := Bytes(ch)], InChild(x, r), ss + (pre + ix))
    ensures var (v', ch') := Double(v, ch, x, r, ss, ix);
      Grew(d, v[d.dind := Bytes(ch)], InChild(x, r), ss, pre + ix, d, v'[d.dind := Bytes(ch')])
    decreases |ss|
  {
    hide Grew, Fresh, Layout, Bytes, Children, IndexCount;
    var w := v[d.dind := Bytes(ch)];
    var n := Min(|ss|, PER_BLOCK);
    var ss1, ss2 := ss[..n], ss[n..];
    var ch1 := if r == 0 then ch[x := ix[0]] else ch;
    var ix1, ix2 := pre + ix[..if r == 0 then 1 else 0], ix[if r == 0 then 1 else 0..];
    assert ss1 + ss2 == ss && ix1 + ix2 == pre + ix;
    FreshParts(d, w, InChild(x, r), ss1, ss2, ix1, ix2);
    FirstChild(d, v, ch, x, r, ss1, ix1, ch1);
    var v1 := Children(v, ch1[x], r, ss1);
    var w1 := v1[d.dind := Bytes(ch1)];
    if ss2 == [] {
      assert ss1 == ss && ix1 == pre + ix by { DivUpStep(|ss|); }
      assert Double(v1, ch1, x + 1, 0, ss2, ix2) == (v1, ch1);
    } else {
      assert InChild(x, r) + |ss1| == InChild(x + 1, 0);
      GrewLayout(d, w, InChild(x, r), ss1, ix1, d, w1);
      FreshRest(d, w, InChild(x, r), ss1, ss2, ix1, ix2, d, w1);
      DivUpStep(|ss|);
      assert [] + ix2 == ix2;
      DoubleGrows(d, v1, ch1, x + 1, 0, ss2, [], ix2);
      var (v2, ch2) := Double(v1, ch1, x + 1, 0, ss2, ix2);
      GrewTwice(d, w, InChild(x, r), ss1, ix1, d, w1, ss2, ix2, d, v2[d.dind := Bytes(ch2)]);
    }
  }

  lemma FirstChild(d: InodeDisk, v: Disk, ch: seq<Word>, x: nat, r: nat, ss: seq<Word>, ix: seq<Word>, ch1: seq<Word>)
    requires |ch| == PER_BLOCK && x < PER_BLOCK && r < PER_BLOCK && r + |ss| <= PER_BLOCK && ss != [] && d.dind < |v|
    requires r == 0 ==> ix != [] && ch1 == ch[x := ix[|ix| - 1]]
    requires r > 0 ==> ch1 == ch && ch[x] < |v|
    requires |ch1| == PER_BLOCK
    requires ix == (if x == 0 && r == 0 then [d.dind] else []) + (if r == 0 then [ch1[x]] else [])
    requires Layout(d, v[d.dind := Bytes(ch)], InChild(x, r)) && Fresh(d, v[d.dind := Bytes(ch)], InChild(x, r), ss + ix)
    ensures Grew(d, v[d.dind := Bytes(ch)], InChild(x, r), ss, ix, d, Children(v, ch1[x], r, ss)[d.dind := Bytes(ch1)])
  {
    hide Grew, Bytes, Children, WordAt;
    var w := v[d.dind := Bytes(ch)];
    forall y: nat | y < PER_BLOCK ensures WordAt(w[d.dind], y) == ch[y] { WordsBytes(ch, y); }
    if r == 0 { assert (ss + ix)[|ss| + |ix| - 1] == ch1[x] && ch1[x] in ss + ix; }
    assert ChildStep(d, w, x, r, ss, ix, ch1);
    ChildGrows(d, w, x, r, ss, ix, ch1);
    ChildIsApart(d, w, x, r, ss, ix, ch1);
    assert w[d.dind := Bytes(ch1)] == v[d.dind := Bytes(ch1)];
    WriteLater(v, ch1[x], r, ss, d.dind, Bytes(ch1));
  }

  lemma ByteJoin(a: Byte, b: Byte, c: Byte, e: Byte)
    ensures var w := Join(a, b, c, e);
      ByteOf(w, 0) == a && ByteOf(w, 1) == b && ByteOf(w, 2) == c && ByteOf(w, 3) == e
  {
    var w := Join(a, b, c, e);
    var w1, w2 := w / 256, w / 256 / 256;
    assert w1 == b + 256 * c + 65536 * e;
    assert w2 == c + 256 * e;
    assert w2 / 256 == e;
  }

  /** Reading a block as words and writing the words back changes nothing. */
  lemma BytesWords(s: Sector)
    ensures Bytes(Words(s)) == s
  {
    hide Bytes, Words;
    forall k: nat | k < SECTOR_SIZE ensures Bytes(Words(s))[k] == s[k] { ByteOfWords(s, k); }
  }

  lemma ByteOfWords(s: Sector, k: nat)
    requires k < SECTOR_SIZE
    ensures Bytes(Words(s))[k] == s[k]
  {
    hide ByteOf, Bytes, Join;
    var i := k / 4;
    assert k == 4 * i || k == 4 * i + 1 || k == 4 * i + 2 || k == 4 * i + 3;
    BytesAt(Words(s), i);
    ByteJoin(s[4 * i], s[4 * i + 1], s[4 * i + 2], s[4 * i + 3]);
  }

  /** Two inodes that agree on a file's first `k` blocks grow alike. */
  ghost predicate SameUpTo(d: InodeDisk, d1: InodeDisk, k: nat) {
    && d1.dblocks == d.dblocks && d1.length == d.length && d1.isDir == d.isDir
    && (k > DIRECT ==> d1.ind == d.ind) && (k > SINGLE_END ==> d1.dind == d.dind)
  }

  lemma GrewAlike(d: InodeDisk, d1: InodeDisk, v: Disk, k: nat, ss: seq<Word>, ix: seq<Word>, d2: InodeDisk, v2: Disk)
    requires SameUpTo(d, d1, k) && k <= MAX_BLOCKS && Grew(d1, v, k, ss, ix, d2, v2)
    ensures Grew(d, v, k, ss, ix, d2, v2)
  {
    forall i: nat | i < k + |ss| ensures BlockKept(d, v, k, ss, d2, v2, i) { assert BlockKept(d1, v, k, ss, d2, v2, i); }
    forall j: nat | j < IndexCount(k + |ss|) ensures IndexKept(d, v, k, ix, d2, v2, j) {
      assert IndexKept(d1, v, k, ix, d2, v2, j);
    }
    forall s: nat | s < |v| ensures SectorKept(d, v, k, ss, ix, v2, s) {
      assert SectorKept(d1, v, k, ss, ix, v2, s);
      if Spare(d, v, k, s) { SpareAlike(d, d1, v, k, s); }
    }
  }

  lemma SpareAlike(d: InodeDisk, d1: InodeDisk, v: Disk, k: nat, x: nat)
    requires SameUpTo(d, d1, k) && Spare(d, v, k, x)
    ensures Spare(d1, v, k, x)
  {
    forall j: nat | j < IndexCount(k) && j < 2 + PER_BLOCK ensures IndexAt(d1, v, j) != x {
      assert IndexAt(d, v, j) != x;
    }
  }

  lemma LayoutAlike(d: InodeDisk, d1: InodeDisk, v: Disk, k: nat, xs: seq<Word>)
    requires SameUpTo(d, d1, k) && Layout(d, v, k) && Fresh(d, v, k, xs)
    ensures Layout(d1, v, k) && Fresh(d1, v, k, xs)
  {
    IndexCountBound(k);
    forall j: nat | j < IndexCount(k) ensures InRange(d1, v, j) { assert InRange(d, v, j); }
    forall i: nat, j: nat | i < j < IndexCount(k) ensures Differ(d1, v, i, j) { assert Differ(d, v, i, j); }
    forall x | x in xs ensures Spare(d1, v, k, x) { SpareAlike(d, d1, v, k, x); }
  }

  lemma DoubleStage(d: InodeDisk, v: Disk, o: nat, ss: seq<Word>, ix: seq<Word>)
    requires ss != [] && o + |ss| <= PER_BLOCK * PER_BLOCK
    requires |ix| == IndexCount(SINGLE_END + o + |ss|) - IndexCount(SINGLE_END + o)
    requires Layout(d, v, SINGLE_END + o) && Fresh(d, v, SINGLE_END + o, ss + ix)
    requires ExtendDouble(d, v, o, ss, ix).Grown?
    ensures var g := ExtendDouble(d, v, o, ss, ix); Grew(d, v, SINGLE_END + o, ss, ix, g.inode, g.disk)
  {
    hide Grew, Bytes, Words, Double, WordAt;
    var k := SINGLE_END + o;
    var x, r := o / PER_BLOCK, o % PER_BLOCK;
    var d1 := if o == 0 then d.(dind := ix[0]) else d;
    var pre, ix1 := if o == 0 then [d1.dind] else [], if o == 0 then ix[1..] else ix;
    assert pre + ix1 == ix;
    assert o == PER_BLOCK * x + r && k == InChild(x, r);
    LayoutAlike(d, d1, v, k, ss + ix);
    DindInRange(d, v, o, ss, ix, d1);
    var ch := Words(v[d1.dind]);
    BytesWords(v[d1.dind]);
    assert v[d1.dind := Bytes(ch)] == v;
    DoubleCounts(o, |ss|, x, r);
    hide Layout, Fresh;
    DoubleGrows(d1, v, ch, x, r, ss, pre, ix1);
    var g := ExtendDouble(d, v, o, ss, ix);
    GrewAlike(d, d1, v, k, ss, ix, g.inode, g.disk);
  }

  lemma DoubleCounts(o: nat, n: nat, x: nat, r: nat)
    requires n > 0 && o == PER_BLOCK * x + r && r < PER_BLOCK && r + Min(n, PER_BLOCK) <= PER_BLOCK
    ensures r > 0 ==> r + n <= PER_BLOCK
    ensures IndexCount(SINGLE_END + o + n) - IndexCount(SINGLE_END + o) ==
            (if o == 0 then 1 else 0) + (if r == 0 then DivUp(n, PER_BLOCK) else 0)
  {
  }

  lemma DindInRange(d: InodeDisk, v: Disk, o: nat, ss: seq<Word>, ix: seq<Word>, d1: InodeDisk)
    requires Layout(d, v, SINGLE_END + o) && Fresh(d, v, SINGLE_END + o, ss + ix)
    requires d1 == if o == 0 && ix != [] then d.(dind := ix[0]) else d
    requires o == 0 ==> ix != []
    ensures d1.dind < |v|
    ensures o % PER_BLOCK > 0 ==> Words(v[d1.dind])[o / PER_BLOCK] < |v|
  {
    if o == 0 {
      assert (ss + ix)[|ss|] == ix[0] && ix[0] in ss + ix;
    } else {
      assert InRange(d, v, 1);
      if o % PER_BLOCK > 0 { assert InRange(d, v, 2 + o / PER_BLOCK); }
    }
  }

  lemma SingleStage(d: InodeDisk, v: Disk, o: nat, ss: seq<Word>, ix: seq<Word>)
    requires ss != [] && DIRECT + o + |ss| <= MAX_BLOCKS
    requires |ix| == IndexCount(DIRECT + o + |ss|) - IndexCount(DIRECT + o)
    requires Layout(d, v, DIRECT + o) && Fresh(d, v, DIRECT + o, ss + ix)
    requires ExtendSingle(d, v, o, ss, ix).Grown?
    ensures var g := ExtendSingle(d, v, o, ss, ix); Grew(d, v, DIRECT + o, ss, ix, g.inode, g.disk)
  {
    hide Grew, Fresh, Layout, ExtendDouble, Children;
    var k := DIRECT + o;
    var g := ExtendSingle(d, v, o, ss, ix);
    var d1 := if o == 0 then d.(ind := ix[0]) else d;
    var ix1, ix2 := if o == 0 then ix[..1] else [], if o == 0 then ix[1..] else ix;
    assert ix1 + ix2 == ix;
    LayoutAlike(d, d1, v, k, ss + ix);
    if o >= PER_BLOCK {
      DoubleStage(d1, v, o - PER_BLOCK, ss, ix2);
    } else {
      var n := Min(|ss|, PER_BLOCK);
      var ss1, ss2 := ss[..n], ss[n..];
      assert ss1 + ss2 == ss;
      FreshParts(d1, v, k, ss1, ss2, ix1, ix2);
      SingleOk(d1, v, o, ss1, ix1);
      var v1 := Children(v, d1.ind, o, ss1);
      if n == |ss| {
        assert ss1 == ss && ix2 == [] && ix1 == ix;
      } else {
        assert k + |ss1| == SINGLE_END;
        GrewLayout(d1, v, k, ss1, ix1, d1, v1);
        FreshRest(d1, v, k, ss1, ss2, ix1, ix2, d1, v1);
        DoubleStage(d1, v1, 0, ss2, ix2);
        GrewTwice(d1, v, k, ss1, ix1, d1, v1, ss2, ix2, g.inode, g.disk);
      }
      GrewAlike(d, d1, v, k, ss, ix, g.inode, g.disk);
    }
  }

  lemma SingleOk(d: InodeDisk, v: Disk, o: nat, ss: seq<Word>, ix: seq<Word>)
    requires ss != [] && o + |ss| <= PER_BLOCK && Layout(d, v, DIRECT + o) && Fresh(d, v, DIRECT + o, ss + ix)
    requires ix == if o == 0 then [d.ind] else []
    ensures Grew(d, v, DIRECT + o, ss, ix, d, Children(v, d.ind, o, ss))
  {
    hide Grew, Children, WordAt;
    IndApart(d, v, o, ss, ix);
    SingleGrows(d, v, DIRECT + o, ss, ix);
  }

  lemma IndApart(d: InodeDisk, v: Disk, o: nat, ss: seq<Word>, ix: seq<Word>)
    requires o < PER_BLOCK && Layout(d, v, DIRECT + o) && Fresh(d, v, DIRECT + o, ss + ix)
    requires ix == if o == 0 then [d.ind] else []
    ensures d.ind < |v| && d.ind !in ss
  {
    hide WordAt;
    if o == 0 {
      assert (ss + ix)[|ss|] == d.ind && d.ind in ss + ix;
      assert forall i :: 0 <= i < |ss| ==> (ss + ix)[i] == ss[i];
    } else {
      assert InRange(d, v, 0);
      NotIndex(d, v, DIRECT + o, ss, ix, 0);
    }
  }

  /** The main result: a growth that does not cross puts block `k + i` in the `i`th new sector, clears every new data
      sector, uses exactly the index sectors handed to it and leaves every other block and sector alone. */
  lemma ExtendGrows(d: InodeDisk, v: Disk, k: nat, ss: seq<Word>, ix: seq<Word>)
    requires Layout(d, v, k) && k + |ss| <= MAX_BLOCKS
    requires |ix| == IndexCount(k + |ss|) - IndexCount(k)
    requires Fresh(d, v, k, ss + ix) && !Crosses(k, k + |ss|)
    ensures var g := Extend(d, v, k, ss, ix);
      && g.Grown? && Grew(d, v, k, ss, ix, g.inode, g.disk)
      && Layout(g.inode, g.disk, k + |ss|)
  {
    hide Grew, Fresh, ExtendSingle, ZeroAll;
    PanicsExactly(d, v, k, ss, ix);
    var g := Extend(d, v, k, ss, ix);
    var a := DirectTaken(k, |ss|);
    if k < DIRECT {
      var ss1, ss2 := ss[..a], ss[a..];
      assert ss1 + ss2 == ss && [] + ix == ix;
      var d1 := d.(dblocks := d.dblocks[..k] + ss1 + d.dblocks[k + a..]);
      var v1 := ZeroAll(v, ss1);
      DirectGrows(d, v, k, ss1);
      if a == |ss| {
        assert ss1 == ss && ix == [];
      } else {
        assert k + a == DIRECT;
        FreshParts(d, v, k, ss1, ss2, [], ix);
        GrewLayout(d, v, k, ss1, [], d1, v1);
        FreshRest(d, v, k, ss1, ss2, [], ix, d1, v1);
        SingleStage(d1, v1, 0, ss2, ix);
        GrewTwice(d, v, k, ss1, [], d1, v1, ss2, ix, g.inode, g.disk);
      }
    } else {
      ZeroNone(v);
      assert ss[..0] == [] && ss[0..] == ss;
      if ss == [] { NoGrowth(d, v, k); } else { SingleStage(d, v, k - DIRECT, ss, ix); }
    }
    GrewLayout(d, v, k, ss, ix, g.inode, g.disk);
  }

  lemma ZeroNone(v: Disk)
    ensures ZeroAll(v, []) == v
  {
  }

  lemma NoGrowth(d: InodeDisk, v: Disk, k: nat)
    requires |d.dblocks| == DIRECT && k <= MAX_BLOCKS
    ensures Grew(d, v, k, [], [], d, v)
  {
    IndexCountBound(k);
  }
}
