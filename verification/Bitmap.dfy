/** lib/kernel/bitmap.c: an array of 32-bit words that stands for a sequence of booleans. */
module Bitmaps {
  import opened Common

  const ELEM_BITS: nat := 32

  function ElemIdx(i: nat): nat { i / ELEM_BITS }

  /** 1 << n, one doubling at a time. */
  function Shift(n: nat): bv32 { if n == 0 then 1 else Shift(n - 1) << 1 }

  function BitMask(i: nat): bv32 { Shift(i % ELEM_BITS) }

  function ElemCnt(bits: nat): nat { (bits + ELEM_BITS - 1) / ELEM_BITS }

  function And(a: bv32, b: bv32): bv32 { a & b }

  function Or(a: bv32, b: bv32): bv32 { a | b }

  function AndNot(a: bv32, b: bv32): bv32 { a & !b }

  predicate BitOf(w: bv32, i: nat) { And(w, BitMask(i)) != 0 }

  /** `m` is a single bit that can be doubled `r` more times. */
  ghost predicate Room(m: bv32, r: nat)
    decreases r
  {
    m != 0 && m & (m - 1) == 0 && (r == 0 || (m < 0x8000_0000 && Room(m << 1, r - 1)))
  }

  lemma RoomOne()
    ensures Room(1, 31)
  {
    assert Room(0x8000_0000, 0) && Room(0x4000_0000, 1);
    assert Room(0x2000_0000, 2) && Room(0x1000_0000, 3);
    assert Room(0x0800_0000, 4) && Room(0x0400_0000, 5);
    assert Room(0x0200_0000, 6) && Room(0x0100_0000, 7);
    assert Room(0x0080_0000, 8) && Room(0x0040_0000, 9);
    assert Room(0x0020_0000, 10) && Room(0x0010_0000, 11);
    assert Room(0x0008_0000, 12) && Room(0x0004_0000, 13);
    assert Room(0x0002_0000, 14) && Room(0x0001_0000, 15);
    assert Room(0x0000_8000, 16) && Room(0x0000_4000, 17);
    assert Room(0x0000_2000, 18) && Room(0x0000_1000, 19);
    assert Room(0x0000_0800, 20) && Room(0x0000_0400, 21);
    assert Room(0x0000_0200, 22) && Room(0x0000_0100, 23);
    assert Room(0x0000_0080, 24) && Room(0x0000_0040, 25);
    assert Room(0x0000_0020, 26) && Room(0x0000_0010, 27);
    assert Room(0x0000_0008, 28) && Room(0x0000_0004, 29);
    assert Room(0x0000_0002, 30);
  }

  lemma {:induction false} ShiftRoom(n: nat)
    requires n < ELEM_BITS
    ensures Room(Shift(n), 31 - n)
  {
    if n == 0 { RoomOne(); } else { ShiftRoom(n - 1); }
  }

  lemma Doubling(m: bv32)
    requires 0 < m < 0x8000_0000
    ensures m < m << 1
  {
  }

  lemma {:induction false} ShiftGrows(a: nat, b: nat)
    requires a < b < ELEM_BITS
    ensures Shift(a) < Shift(b)
  {
    ShiftRoom(b - 1);
    Doubling(Shift(b - 1));
    if a < b - 1 { ShiftGrows(a, b - 1); }
  }

  lemma SingleBitsApart(m: bv32, k: bv32)
    requires m != 0 && k != 0 && m & (m - 1) == 0 && k & (k - 1) == 0 && m < k
    ensures m & k == 0 && k & m == 0
  {
  }

  /** Different bits have masks without a common bit. */
  lemma ShiftsApart(a: nat, b: nat)
    requires a < ELEM_BITS && b < ELEM_BITS
    ensures Shift(a) != 0
    ensures a != b ==> And(Shift(a), Shift(b)) == 0
    ensures Shift(b) != 0
  {
    ShiftRoom(a);
    ShiftRoom(b);
    if a < b {
      ShiftGrows(a, b);
      SingleBitsApart(Shift(a), Shift(b));
    } else if b < a {
      ShiftGrows(b, a);
      SingleBitsApart(Shift(b), Shift(a));
    }
  }

  lemma RawElsewhere(w: bv32, m: bv32, k: bv32)
    requires m & k == 0
    ensures (w | m) & k == w & k
    ensures (w & !m) & k == w & k
  {
  }

  lemma OrElsewhere(w: bv32, m: bv32, k: bv32)
    requires And(m, k) == 0
    ensures And(Or(w, m), k) == And(w, k)
  {
    RawElsewhere(w, m, k);
  }

  lemma AndNotElsewhere(w: bv32, m: bv32, k: bv32)
    requires And(m, k) == 0
    ensures And(AndNot(w, m), k) == And(w, k)
  {
    RawElsewhere(w, m, k);
  }

  lemma SameMask(w: bv32, m: bv32)
    ensures And(Or(w, m), m) == m && And(AndNot(w, m), m) == 0
  {
  }

  /** Or-ing and and-ing with a mask changes the masked bit only. */
  lemma MaskBits(w: bv32, i: nat, j: nat)
    ensures BitOf(Or(w, BitMask(i)), j) <==> i % ELEM_BITS == j % ELEM_BITS || BitOf(w, j)
    ensures BitOf(AndNot(w, BitMask(i)), j) <==> i % ELEM_BITS != j % ELEM_BITS && BitOf(w, j)
  {
    hide And, Or, AndNot, Shift;
    ShiftsApart(i % ELEM_BITS, j % ELEM_BITS);
    if i % ELEM_BITS == j % ELEM_BITS {
      SameMask(w, BitMask(i));
    } else {
      OrElsewhere(w, BitMask(i), BitMask(j));
      AndNotElsewhere(w, BitMask(i), BitMask(j));
    }
  }

  function Fill(s: seq<bool>, start: nat, cnt: nat, value: bool): (r: seq<bool>)
    requires start + cnt <= |s|
  {
    s[..start] + seq(cnt, _ => value) + s[start + cnt..]
  }

  lemma FillStep(s: seq<bool>, start: nat, i: nat, value: bool)
    requires start + i < |s|
    ensures Fill(s, start, i, value)[start + i := value] == Fill(s, start, i + 1, value)
  {
  }

  predicate AllAre(s: seq<bool>, start: nat, cnt: nat, value: bool)
    requires start + cnt <= |s|
  {
    forall i :: start <= i < start + cnt ==> s[i] == value
  }

  /** `r` is the first run of `cnt` bits equal to `value` at or after `start`. */
  ghost predicate FirstRun(s: seq<bool>, start: nat, cnt: nat, value: bool, r: Option<nat>) {
    match r
    case Some(i) =>
      && start <= i && i + cnt <= |s| && AllAre(s, i, cnt, value)
      && forall j: nat :: start <= j < i ==> !AllAre(s, j, cnt, value)
    case None => forall j: nat :: start <= j && j + cnt <= |s| ==> !AllAre(s, j, cnt, value)
  }

  /** A bitmap takes the fewest 32-bit words that hold its bits. */
  lemma WordsFewest(bits: nat, j: nat)
    ensures bits <= 32 * ElemCnt(bits) && (bits <= 32 * j ==> ElemCnt(bits) <= j)
  {
  }

  class Bitmap {
    const bitCnt: nat
    const words: array<bv32>

    ghost predicate Valid() reads this { words.Length == ElemCnt(bitCnt) }

    /** The sequence of booleans the words stand for. */
    ghost function Bits(): (s: seq<bool>)
      requires Valid()
      reads this, words
      ensures |s| == bitCnt
    {
      seq(bitCnt, i requires 0 <= i < bitCnt && Valid() reads this, words => BitOf(words[ElemIdx(i)], i))
    }

    /** bitmap_create: storage comes uninitialized and is then cleared bit by bit. */
    constructor (cnt: nat)
      ensures Valid() && fresh(words) && bitCnt == cnt
      ensures Bits() == seq(cnt, _ => false)
    {
      bitCnt := cnt;
      words := new bv32[ElemCnt(cnt)];
      new;
      SetMultiple(0, cnt, false);
    }

    /** bitmap_mark. */
    method Mark(i: nat)
      requires Valid() && i < bitCnt
      modifies words
      ensures Bits() == old(Bits())[i := true]
    {
      ghost var w := words[ElemIdx(i)];
      words[ElemIdx(i)] := Or(words[ElemIdx(i)], BitMask(i));
      forall j: nat | j < bitCnt ensures Bits()[j] == old(Bits())[i := true][j] {
        hide BitOf, Or;
        MaskBits(w, i, j);
      }
    }

    /** bitmap_reset. */
    method Reset(i: nat)
      requires Valid() && i < bitCnt
      modifies words
      ensures Bits() == old(Bits())[i := false]
    {
      ghost var w := words[ElemIdx(i)];
      words[ElemIdx(i)] := AndNot(words[ElemIdx(i)], BitMask(i));
      forall j: nat | j < bitCnt ensures Bits()[j] == old(Bits())[i := false][j] {
        hide BitOf, AndNot;
        MaskBits(w, i, j);
      }
    }

    /** bitmap_test. */
    method Test(i: nat) returns (b: bool)
      requires Valid() && i < bitCnt
      ensures b == Bits()[i]
    {
      b := And(words[ElemIdx(i)], BitMask(i)) != 0;
    }

    /** bitmap_set_multiple. */
    method SetMultiple(start: nat, cnt: nat, value: bool)
      requires Valid() && start + cnt <= bitCnt
      modifies words
      ensures Bits() == Fill(old(Bits()), start, cnt, value)
    {
      hide BitOf;
      ghost var before := Bits();
      assert before == Fill(before, start, 0, value);
      for i := 0 to cnt
        invariant Bits() == Fill(before, start, i, value)
      {
        if value {
          Mark(start + i);
        } else {
          Reset(start + i);
        }
        FillStep(before, start, i, value);
      }
    }

    /** bitmap_contains. */
    method Contains(start: nat, cnt: nat, value: bool) returns (found: bool)
      requires Valid() && start + cnt <= bitCnt
      ensures found <==> !AllAre(Bits(), start, cnt, !value)
    {
      hide BitOf;
      for i := 0 to cnt
        invariant AllAre(Bits(), start, i, !value)
      {
        var b := Test(start + i);
        if b == value {
          return true;
        }
      }
      return false;
    }

    /** bitmap_scan. */
    method Scan(start: nat, cnt: nat, value: bool) returns (r: Option<nat>)
      requires Valid() && start <= bitCnt
      ensures FirstRun(Bits(), start, cnt, value, r)
    {
      if cnt <= bitCnt {
        var last := bitCnt - cnt;
        var i := start;
        while i <= last
          invariant start <= i
          invariant forall j: nat :: start <= j < i && j + cnt <= bitCnt ==> !AllAre(Bits(), j, cnt, value)
          decreases last + 1 - i
        {
          var other := Contains(i, cnt, !value);
          if !other {
            return Some(i);
          }
          i := i + 1;
        }
      }
      return None;
    }

    /** bitmap_scan_and_flip. */
    method ScanAndFlip(start: nat, cnt: nat, value: bool) returns (r: Option<nat>)
      requires Valid() && start <= bitCnt
      modifies words
      ensures FirstRun(old(Bits()), start, cnt, value, r)
      ensures Bits() == if r.Some? then Fill(old(Bits()), r.value, cnt, !value) else old(Bits())
    {
      r := Scan(start, cnt, value);
      if r.Some? {
        SetMultiple(r.value, cnt, !value);
      }
    }
  }
}
