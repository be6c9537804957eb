/** filesys/free-map.c: which sectors of the file system device are in use. */
module FreeMaps {
  import opened Bitmaps

  /** The free sectors from `i` on, in order. */
  function FreeFrom(bits: seq<bool>, i: nat): seq<nat>
    requires i <= |bits|
    decreases |bits| - i
  {
    if i == |bits| then [] else (if bits[i] then [] else [i]) + FreeFrom(bits, i + 1)
  }

  function MarkAll(bits: seq<bool>, ss: seq<nat>): seq<bool> {
    seq(|bits|, i requires 0 <= i < |bits| => bits[i] || i in ss)
  }

  lemma MarkAllStep(bits: seq<bool>, ss: seq<nat>, i: nat)
    requires i < |bits|
    ensures MarkAll(bits, ss)[i := true] == MarkAll(bits, ss + [i])
    ensures i !in ss ==> MarkAll(bits, ss)[i] == bits[i]
  {
  }

  lemma FreeStep(bits: seq<bool>, ss: seq<nat>, i: nat)
    requires i < |bits|
    ensures ss + FreeFrom(bits, i) == (if bits[i] then ss else ss + [i]) + FreeFrom(bits, i + 1)
  {
  }

  lemma FreeNone(bits: seq<bool>)
    ensures FreeFrom(bits, |bits|) == []
  {
  }

  lemma MarkNone(bits: seq<bool>)
    ensures MarkAll(bits, []) == bits
  {
  }

  /** Everything FreeFrom lists is a free sector from `i` on. */
  lemma {:induction false} FreeFromSound(bits: seq<bool>, i: nat, a: nat)
    requires i <= |bits| && a < |FreeFrom(bits, i)|
    ensures i <= FreeFrom(bits, i)[a] < |bits| && !bits[FreeFrom(bits, i)[a]]
    decreases |bits| - i
  {
    if bits[i] {
      FreeFromSound(bits, i + 1, a);
    } else if a > 0 {
      FreeFromSound(bits, i + 1, a - 1);
    }
  }

  /** FreeFrom misses no free sector. */
  lemma {:induction false} FreeFromComplete(bits: seq<bool>, i: nat, s: nat)
    requires i <= s < |bits| && !bits[s]
    ensures s in FreeFrom(bits, i)
    decreases |bits| - i
  {
    if i < s {
      FreeFromComplete(bits, i + 1, s);
    }
  }

  /** FreeFrom lists in increasing order, so nothing twice. */
  lemma {:induction false} FreeFromIncreasing(bits: seq<bool>, i: nat, a: nat, b: nat)
    requires i <= |bits| && a < b < |FreeFrom(bits, i)|
    ensures FreeFrom(bits, i)[a] < FreeFrom(bits, i)[b]
    decreases |bits| - i
  {
    if bits[i] {
      FreeFromIncreasing(bits, i + 1, a, b);
    } else if a > 0 {
      FreeFromIncreasing(bits, i + 1, a - 1, b - 1);
    } else {
      FreeFromSound(bits, i + 1, b - 1);
    }
  }

  /** What a failed allocation leaves: the `a` sectors it took are marked, then the first `a` bits are cleared. */
  function AfterFailure(bits: seq<bool>, a: nat): seq<bool>
    requires a <= |FreeFrom(bits, 0)| && a <= |bits|
  {
    Fill(MarkAll(bits, FreeFrom(bits, 0)[..a]), 0, a, false)
  }

  lemma FreeFromFits(bits: seq<bool>, i: nat)
    requires i <= |bits|
    ensures |FreeFrom(bits, i)| <= |bits| - i
    decreases |bits| - i
  {
    if i < |bits| { FreeFromFits(bits, i + 1); }
  }

  lemma {:induction false} FreePrefix(bits: seq<bool>, i: nat, a: nat)
    requires i + a <= |bits| && forall s :: i <= s < i + a ==> !bits[s]
    ensures a <= |FreeFrom(bits, i)| && forall j :: 0 <= j < a ==> FreeFrom(bits, i)[j] == i + j
    decreases a
  {
    if a > 0 { FreePrefix(bits, i + 1, a - 1); }
  }

  /** A failed allocation puts the map back exactly when the sectors it took were the first ones of the device:
      otherwise it frees sectors that were in use and leaks those it took. */
  lemma FailureRestores(bits: seq<bool>, a: nat)
    requires a <= |FreeFrom(bits, 0)| && a <= |bits|
    ensures AfterFailure(bits, a) == bits <==> AllAre(bits, 0, a, false)
  {
    var r := AfterFailure(bits, a);
    assert forall i :: 0 <= i < a ==> r[i] == false;
    if AllAre(bits, 0, a, false) {
      FreePrefix(bits, 0, a);
      assert forall i :: a <= i < |bits| ==> i !in FreeFrom(bits, 0)[..a];
      assert forall i :: 0 <= i < |bits| ==> r[i] == bits[i];
    } else {
      var i :| 0 <= i < a && bits[i];
      assert r[i] != bits[i];
    }
  }

  /** Sector 0, the free map's own inode, is always in use: after any failed allocation that had found a free
      sector, the map calls sector 0 free. */
  lemma FailureFreesSectorZero(bits: seq<bool>, a: nat)
    requires 0 < a <= |FreeFrom(bits, 0)| && a <= |bits| && bits[0]
    ensures AfterFailure(bits, a) != bits && !AfterFailure(bits, a)[0]
  {
    FailureRestores(bits, a);
  }

  class FreeMap {
    const used: Bitmap

    ghost predicate Valid() reads this, used { used.Valid() }

    /** Wraps a device's bitmap. */
    constructor (m: Bitmap)
      requires m.Valid()
      ensures Valid() && used == m
    {
      used := m;
    }

    /** free_map_allocate's scan: mark free sectors from the start until `cnt` are found. */
    method Take(cnt: nat) returns (sectors: seq<nat>)
      requires Valid()
      modifies used.words
      ensures Valid()
      ensures var free := FreeFrom(old(used.Bits()), 0);
        sectors == free[..if cnt < |free| then cnt else |free|]
      ensures used.Bits() == MarkAll(old(used.Bits()), sectors)
    {
      hide BitOf, MarkAll, FreeFrom;
      ghost var before := used.Bits();
      MarkNone(before);
      sectors := [];
      var i := 0;
      while i < used.bitCnt && |sectors| < cnt
        invariant 0 <= i <= used.bitCnt && |sectors| <= cnt
        invariant used.Bits() == MarkAll(before, sectors)
        invariant forall s :: s in sectors ==> s < i
        invariant FreeFrom(before, 0) == sectors + FreeFrom(before, i)
      {
        MarkAllStep(before, sectors, i);
        FreeStep(before, sectors, i);
        var taken := used.Test(i);
        if !taken {
          sectors := sectors + [i];
          used.Mark(i);
        }
        i := i + 1;
      }
      FreeNone(before);
    }

    /** free_map_allocate; `written` says whether the map could be saved to its file. */
    method Allocate(cnt: nat, written: bool) returns (ok: bool, sectors: seq<nat>)
      requires Valid()
      modifies used.words
      ensures Valid()
      ensures ok <==> cnt == 0 || (written && cnt <= |FreeFrom(old(used.Bits()), 0)|)
      ensures ok ==> cnt <= |FreeFrom(old(used.Bits()), 0)| && sectors == FreeFrom(old(used.Bits()), 0)[..cnt]
      ensures ok ==> used.Bits() == MarkAll(old(used.Bits()), sectors)
      ensures !ok ==>
        var free := |FreeFrom(old(used.Bits()), 0)|; var a := if cnt < free then cnt else free;
        a <= |old(used.Bits())| && used.Bits() == AfterFailure(old(used.Bits()), a)
    {
      hide BitOf;
      ghost var before := used.Bits();
      if cnt == 0 {
        assert MarkAll(before, []) == before;
        return true, [];
      }
      FreeFromFits(before, 0);
      sectors := Take(cnt);
      if |sectors| == cnt && written {
        return true, sectors;
      }
      used.SetMultiple(0, |sectors|, false);
      ok := false;
    }

    /** free_map_release. */
    method Release(sector: nat, cnt: nat)
      requires Valid() && sector + cnt <= used.bitCnt && AllAre(used.Bits(), sector, cnt, true)
      modifies used.words
      ensures Valid() && used.Bits() == Fill(old(used.Bits()), sector, cnt, false)
    {
      used.SetMultiple(sector, cnt, false);
    }
  }
}
