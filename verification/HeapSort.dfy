/** lib/stdlib.c: heap sort in place and binary search, for any strcmp-style comparison. */
module HeapSorts {

  /** `cmp` compares like strcmp under some total preorder. */
  ghost predicate Order<T(!new)>(cmp: (T, T) -> int) {
    && (forall x, y :: cmp(x, y) > 0 <==> cmp(y, x) < 0)
    && (forall x, y, z :: cmp(x, y) <= 0 && cmp(y, z) <= 0 ==> cmp(x, z) <= 0)
  }

  // ---- heaps, with elements numbered from 1 ----

  function At<T>(s: seq<T>, i: nat): T
    requires 1 <= i <= |s|
  {
    s[i - 1]
  }

  function Swap<T>(s: seq<T>, i: nat, j: nat): (r: seq<T>)
    requires 1 <= i <= |s| && 1 <= j <= |s|
    ensures |r| == |s|
  {
    s[i - 1 := At(s, j)][j - 1 := At(s, i)]
  }

  /** No child exceeds its parent. */
  predicate EdgeOk<T>(cmp: (T, T) -> int, s: seq<T>, k: nat)
    requires 2 <= k <= |s|
  {
    cmp(At(s, k), At(s, k / 2)) <= 0
  }

  /** Among the first `n` elements, every parent from `lo` on is at least its children, except perhaps at `i`. */
  ghost predicate HeapBut<T>(cmp: (T, T) -> int, s: seq<T>, lo: nat, n: nat, i: nat) {
    && n <= |s|
    && (forall k: nat :: 2 <= k <= n && lo <= k / 2 && k / 2 != i ==> EdgeOk(cmp, s, k))
  }

  ghost predicate Heap<T>(cmp: (T, T) -> int, s: seq<T>, lo: nat, n: nat) {
    n <= |s| && forall k: nat :: 2 <= k <= n && lo <= k / 2 ==> EdgeOk(cmp, s, k)
  }

  /** The children of `i` do not exceed its parent either. */
  ghost predicate Bridged<T>(cmp: (T, T) -> int, s: seq<T>, lo: nat, n: nat, i: nat) {
    n <= |s| && forall k: nat :: 2 <= k <= n && k / 2 == i && lo <= i / 2 && 1 <= i / 2 ==> cmp(At(s, k), At(s, i / 2)) <= 0
  }

  /** The largest of `i` and its children, as heapify finds it. */
  function Largest<T>(cmp: (T, T) -> int, s: seq<T>, i: nat, n: nat): (m: nat)
    requires 1 <= i <= n <= |s|
    ensures m == i || (m / 2 == i && m <= n)
  {
    var m := if 2 * i <= n && cmp(At(s, 2 * i), At(s, i)) > 0 then 2 * i else i;
    if 2 * i + 1 <= n && cmp(At(s, 2 * i + 1), At(s, m)) > 0 then 2 * i + 1 else m
  }

  /** heapify: the element at `i` floats down. */
  function Sift<T>(cmp: (T, T) -> int, s: seq<T>, i: nat, n: nat): (r: seq<T>)
    requires 1 <= i <= n <= |s|
    ensures |r| == |s|
    decreases n - i
  {
    var m := Largest(cmp, s, i, n);
    if m == i then s else Sift(cmp, Swap(s, i, m), m, n)
  }

  lemma LargestIs<T(!new)>(cmp: (T, T) -> int, s: seq<T>, i: nat, n: nat, k: nat)
    requires Order(cmp) && 1 <= i <= n <= |s| && 2 <= k <= n && k / 2 == i
    ensures var m := Largest(cmp, s, i, n); cmp(At(s, k), At(s, m)) <= 0 && cmp(At(s, i), At(s, m)) <= 0
  {
    assert k == 2 * i || k == 2 * i + 1;
  }

  lemma SwapAt<T>(s: seq<T>, i: nat, j: nat, k: nat)
    requires 1 <= i <= |s| && 1 <= j <= |s| && 1 <= k <= |s|
    ensures At(Swap(s, i, j), k) == if k == i then At(s, j) else if k == j then At(s, i) else At(s, k)
  {
  }

  /** One swap moves the single violation down to the child that came up. */
  lemma SwapMoves<T(!new)>(cmp: (T, T) -> int, s: seq<T>, lo: nat, n: nat, i: nat)
    requires Order(cmp) && 1 <= lo <= i <= n <= |s| && HeapBut(cmp, s, lo, n, i) && Bridged(cmp, s, lo, n, i)
    requires Largest(cmp, s, i, n) != i
    ensures var m := Largest(cmp, s, i, n);
      HeapBut(cmp, Swap(s, i, m), lo, n, m) && Bridged(cmp, Swap(s, i, m), lo, n, m)
  {
    var m := Largest(cmp, s, i, n);
    var t := Swap(s, i, m);
    hide Largest, Swap;
    forall k: nat | 2 <= k <= n && lo <= k / 2 && k / 2 != m ensures EdgeOk(cmp, t, k) {
      SwapAt(s, i, m, k);
      SwapAt(s, i, m, k / 2);
      if k / 2 == i { LargestIs(cmp, s, i, n, k); } else { assert EdgeOk(cmp, s, k); }
    }
    forall k: nat | 2 <= k <= n && k / 2 == m ensures cmp(At(t, k), At(t, m / 2)) <= 0 {
      SwapAt(s, i, m, k);
      SwapAt(s, i, m, i);
      assert EdgeOk(cmp, s, k);
    }
  }

  /** heapify restores the heap from a single violation, wherever it is. */
  lemma {:induction false} SiftHeaps<T(!new)>(cmp: (T, T) -> int, s: seq<T>, lo: nat, n: nat, i: nat)
    requires Order(cmp) && 1 <= lo <= i <= n <= |s| && HeapBut(cmp, s, lo, n, i) && Bridged(cmp, s, lo, n, i)
    ensures Heap(cmp, Sift(cmp, s, i, n), lo, n)
    decreases n - i
  {
    var m := Largest(cmp, s, i, n);
    if m == i {
      forall k: nat | 2 <= k <= n && lo <= k / 2 ensures EdgeOk(cmp, s, k) {
        if k / 2 == i { LargestIs(cmp, s, i, n, k); }
      }
    } else {
      SwapMoves(cmp, s, lo, n, i);
      SiftHeaps(cmp, Swap(s, i, m), lo, n, m);
    }
  }

  lemma SwapSame<T>(s: seq<T>, i: nat, j: nat, n: nat)
    requires 1 <= i <= n <= |s| && 1 <= j <= n
    ensures multiset(Swap(s, i, j)) == multiset(s) && Swap(s, i, j)[n..] == s[n..]
    ensures multiset(Swap(s, i, j)[..n]) == multiset(s[..n])
  {
    SwapMultiset(s, i, j);
    SwapMultiset(s[..n], i, j);
    assert Swap(s, i, j)[..n] == Swap(s[..n], i, j);
  }

  lemma SwapMultiset<T>(s: seq<T>, i: nat, j: nat)
    requires 1 <= i <= |s| && 1 <= j <= |s|
    ensures multiset(Swap(s, i, j)) == multiset(s)
  {
    var x, y := s[i - 1], s[j - 1];
    var u := s[i - 1 := y];
    assert u[j - 1] == y && Swap(s, i, j) == u[j - 1 := x];
    UpdateMultiset(s, i - 1, y);
    UpdateMultiset(u, j - 1, x);
    Exchange(multiset(s), x, y);
  }

  lemma Exchange<T>(m: multiset<T>, x: T, y: T)
    requires multiset{x} <= m
    ensures m - multiset{x} + multiset{y} - multiset{y} + multiset{x} == m
  {
  }

  lemma UpdateMultiset<T>(s: seq<T>, i: nat, x: T)
    requires i < |s|
    ensures multiset(s[i := x]) == multiset(s) - multiset{s[i]} + multiset{x} && multiset{s[i]} <= multiset(s)
  {
    assert s == s[..i] + [s[i]] + s[i + 1..];
    assert s[i := x] == s[..i] + [x] + s[i + 1..];
  }

  /** heapify only rearranges the first `n` elements. */
  lemma {:induction false} SiftSame<T>(cmp: (T, T) -> int, s: seq<T>, i: nat, n: nat)
    requires 1 <= i <= n <= |s|
    ensures multiset(Sift(cmp, s, i, n)) == multiset(s) && Sift(cmp, s, i, n)[n..] == s[n..]
    ensures multiset(Sift(cmp, s, i, n)[..n]) == multiset(s[..n])
    decreases n - i
  {
    var m := Largest(cmp, s, i, n);
    if m != i {
      SwapSame(s, i, m, n);
      SiftSame(cmp, Swap(s, i, m), m, n);
    }
  }

  /** The root of a heap is its largest element. */
  lemma {:induction false} RootIsLargest<T(!new)>(cmp: (T, T) -> int, s: seq<T>, n: nat, k: nat)
    requires Order(cmp) && Heap(cmp, s, 1, n) && 1 <= k <= n
    ensures cmp(At(s, k), At(s, 1)) <= 0
    decreases k
  {
    if k > 1 {
      assert EdgeOk(cmp, s, k);
      RootIsLargest(cmp, s, n, k / 2);
    }
  }

  // ---- sorting ----

  ghost predicate Sorted<T>(cmp: (T, T) -> int, s: seq<T>) {
    forall i: nat, j: nat :: i < j < |s| ==> cmp(s[i], s[j]) <= 0
  }

  /** The elements from `n` on are sorted and none before them exceeds one of them. */
  ghost predicate Split<T>(cmp: (T, T) -> int, s: seq<T>, n: nat) {
    && n <= |s| && Sorted(cmp, s[n..])
    && (forall x, y :: x in s[..n] && y in s[n..] ==> cmp(x, y) <= 0)
  }

  /** Moving the root behind the heap keeps the sorted part sorted and leaves one violation, at the root. */
  lemma ExtractMax<T(!new)>(cmp: (T, T) -> int, s: seq<T>, i: nat)
    requires Order(cmp) && 2 <= i <= |s| && Heap(cmp, s, 1, i) && Split(cmp, s, i)
    ensures var t := Swap(s, 1, i);
      Split(cmp, t, i - 1) && HeapBut(cmp, t, 1, i - 1, 1) && Bridged(cmp, t, 1, i - 1, 1)
  {
    var t := Swap(s, 1, i);
    var x := At(s, 1);
    assert t[i - 1] == x && t[i..] == s[i..] && t[i - 1..] == [x] + s[i..];
    SwapSame(s, 1, i, i);
    assert x in s[..i];
    forall y | y in t[..i - 1] ensures y in s[..i] && cmp(y, x) <= 0 {
      assert y in t[..i];
      assert y in multiset(t[..i]);
      var k: nat :| k < i && s[..i][k] == y;
      RootIsLargest(cmp, s, i, k + 1);
    }
    assert Sorted(cmp, t[i - 1..]) by { SortedCons(cmp, x, s[i..]); }
    forall k: nat | 2 <= k <= i - 1 && k / 2 != 1 ensures EdgeOk(cmp, t, k) {
      SwapAt(s, 1, i, k);
      SwapAt(s, 1, i, k / 2);
      assert EdgeOk(cmp, s, k);
    }
  }

  lemma SortedCons<T>(cmp: (T, T) -> int, x: T, s: seq<T>)
    requires Sorted(cmp, s) && forall y :: y in s ==> cmp(x, y) <= 0
    ensures Sorted(cmp, [x] + s)
  {
    var t := [x] + s;
    forall i: nat, j: nat | i < j < |t| ensures cmp(t[i], t[j]) <= 0 {
      assert t[j] == s[j - 1] && s[j - 1] in s;
      if i > 0 { assert t[i] == s[i - 1]; }
    }
  }

  /** Rearranging the first `n` elements keeps them on their side. */
  lemma SplitSame<T>(cmp: (T, T) -> int, s: seq<T>, t: seq<T>, n: nat)
    requires Split(cmp, s, n) && |t| == |s| && multiset(t[..n]) == multiset(s[..n]) && t[n..] == s[n..]
    ensures Split(cmp, t, n)
  {
    forall x | x in t[..n] ensures x in s[..n] { assert x in multiset(t[..n]); }
  }

  /** do_swap of elements `i` and `j`. */
  method DoSwap<T>(a: array<T>, i: nat, j: nat)
    requires 1 <= i <= a.Length && 1 <= j <= a.Length
    modifies a
    ensures a[..] == Swap(old(a[..]), i, j)
  {
    a[i - 1], a[j - 1] := a[j - 1], a[i - 1];
  }

  /** heapify on the first `cnt` elements. */
  method Heapify<T>(cmp: (T, T) -> int, a: array<T>, start: nat, cnt: nat)
    requires 1 <= start <= cnt <= a.Length
    modifies a
    ensures a[..] == Sift(cmp, old(a[..]), start, cnt)
  {
    hide Swap;
    var i := start;
    while true
      invariant 1 <= i <= cnt && Sift(cmp, a[..], i, cnt) == Sift(cmp, old(a[..]), start, cnt)
      decreases cnt - i
    {
      var left, right, max := 2 * i, 2 * i + 1, i;
      if left <= cnt && cmp(a[left - 1], a[max - 1]) > 0 {
        max := left;
      }
      if right <= cnt && cmp(a[right - 1], a[max - 1]) > 0 {
        max := right;
      }
      assert max == Largest(cmp, a[..], i, cnt);
      if max == i {
        return;
      }
      DoSwap(a, i, max);
      i := max;
    }
  }

  /** The first loop of sort. */
  method BuildHeap<T(!new)>(cmp: (T, T) -> int, a: array<T>)
    requires Order(cmp)
    modifies a
    ensures Heap(cmp, a[..], 1, a.Length) && multiset(a[..]) == multiset(old(a[..]))
  {
    hide Sift, Heap, Order;
    var i := a.Length / 2;
    AllLeaves(cmp, a[..], i);
    while i > 0
      invariant 0 <= i <= a.Length / 2 && Heap(cmp, a[..], i + 1, a.Length) && multiset(a[..]) == multiset(old(a[..]))
    {
      BuildStep(cmp, a[..], i);
      Heapify(cmp, a, i, a.Length);
      i := i - 1;
    }
  }

  /** sort. */
  method Sort<T(!new)>(cmp: (T, T) -> int, a: array<T>)
    requires Order(cmp)
    modifies a
    ensures Sorted(cmp, a[..]) && multiset(a[..]) == multiset(old(a[..]))
  {
    hide Sift, Swap, Heap, Split, Order, Sorted;
    BuildHeap(cmp, a);
    var i := a.Length;
    NothingSorted(cmp, a[..]);
    while i > 1
      invariant 0 <= i <= a.Length && Heap(cmp, a[..], 1, i) && Split(cmp, a[..], i)
      invariant multiset(a[..]) == multiset(old(a[..]))
    {
      ExtractStep(cmp, a[..], i);
      DoSwap(a, 1, i);
      Heapify(cmp, a, 1, i - 1);
      i := i - 1;
    }
    AllSorted(cmp, a[..], i);
  }

  lemma BuildStep<T(!new)>(cmp: (T, T) -> int, s: seq<T>, i: nat)
    requires Order(cmp) && 1 <= i <= |s| && Heap(cmp, s, i + 1, |s|)
    ensures Heap(cmp, Sift(cmp, s, i, |s|), i, |s|) && multiset(Sift(cmp, s, i, |s|)) == multiset(s)
  {
    hide Sift, Heap, HeapBut, Bridged, Order;
    OneMore(cmp, s, i, |s|);
    SiftHeaps(cmp, s, i, |s|, i);
    SiftSame(cmp, s, i, |s|);
  }

  /** One turn of the second loop. */
  lemma ExtractStep<T(!new)>(cmp: (T, T) -> int, s: seq<T>, i: nat)
    requires Order(cmp) && 2 <= i <= |s| && Heap(cmp, s, 1, i) && Split(cmp, s, i)
    ensures var u := Sift(cmp, Swap(s, 1, i), 1, i - 1);
      Heap(cmp, u, 1, i - 1) && Split(cmp, u, i - 1) && multiset(u) == multiset(s)
  {
    hide Sift, Swap, Heap, HeapBut, Bridged, Order, Split;
    var t := Swap(s, 1, i);
    ExtractMax(cmp, s, i);
    SwapMultiset(s, 1, i);
    SiftHeaps(cmp, t, 1, i - 1, 1);
    SiftSame(cmp, t, 1, i - 1);
    SplitSame(cmp, t, Sift(cmp, t, 1, i - 1), i - 1);
  }

  lemma AllLeaves<T>(cmp: (T, T) -> int, s: seq<T>, i: nat)
    requires i == |s| / 2
    ensures Heap(cmp, s, i + 1, |s|)
  {
  }

  lemma OneMore<T>(cmp: (T, T) -> int, s: seq<T>, i: nat, n: nat)
    requires Heap(cmp, s, i + 1, n)
    ensures HeapBut(cmp, s, i, n, i) && Bridged(cmp, s, i, n, i)
  {
  }

  lemma NothingSorted<T>(cmp: (T, T) -> int, s: seq<T>)
    ensures Split(cmp, s, |s|)
  {
  }

  lemma AllSorted<T>(cmp: (T, T) -> int, s: seq<T>, n: nat)
    requires Split(cmp, s, n) && n <= 1
    ensures Sorted(cmp, s)
  {
    if n == 0 {
      assert s[0..] == s;
    } else {
      assert s == [s[0]] + s[1..] && s[0] in s[..1];
      SortedCons(cmp, s[0], s[1..]);
    }
  }

  // ---- binary search ----

  /** binary_search: the place of an element equal to the key, or none if there is none. */
  method BinarySearch<T(!new)>(cmp: (T, T) -> int, key: T, a: array<T>) returns (found: bool, at: nat)
    requires Order(cmp) && Sorted(cmp, a[..])
    ensures found ==> at < a.Length && cmp(key, a[at]) == 0
    ensures !found ==> forall i: nat :: i < a.Length ==> cmp(key, a[i]) != 0
  {
    var first, last := 0, a.Length;
    while first < last
      invariant 0 <= first <= last <= a.Length
      invariant forall i: nat :: i < first ==> cmp(key, a[i]) > 0
      invariant forall i: nat :: last <= i < a.Length ==> cmp(key, a[i]) < 0
    {
      var middle := first + (last - first) / 2;
      var c := cmp(key, a[middle]);
      if c < 0 {
        forall i: nat | middle <= i < a.Length ensures cmp(key, a[i]) < 0 { Beyond(cmp, key, a[..], middle, i); }
        last := middle;
      } else if c > 0 {
        forall i: nat | i <= middle ensures cmp(key, a[i]) > 0 { Below(cmp, key, a[..], middle, i); }
        first := middle + 1;
      } else {
        return true, middle;
      }
    }
    return false, 0;
  }

  lemma Trans<T(!new)>(cmp: (T, T) -> int, x: T, y: T, z: T)
    requires Order(cmp)
    ensures cmp(x, y) <= 0 && cmp(y, z) <= 0 ==> cmp(x, z) <= 0
    ensures cmp(x, z) > 0 <==> cmp(z, x) < 0
    ensures cmp(y, z) > 0 <==> cmp(z, y) < 0
  {
  }

  lemma Beyond<T(!new)>(cmp: (T, T) -> int, key: T, s: seq<T>, m: nat, i: nat)
    requires Order(cmp) && Sorted(cmp, s) && m <= i < |s| && cmp(key, s[m]) < 0
    ensures cmp(key, s[i]) < 0
  {
    Trans(cmp, s[m], s[i], key);
    assert m < i ==> cmp(s[m], s[i]) <= 0;
  }

  lemma Below<T(!new)>(cmp: (T, T) -> int, key: T, s: seq<T>, m: nat, i: nat)
    requires Order(cmp) && Sorted(cmp, s) && i <= m < |s| && cmp(key, s[m]) > 0
    ensures cmp(key, s[i]) > 0
  {
    Trans(cmp, key, s[i], s[m]);
    assert i < m ==> cmp(s[i], s[m]) <= 0;
  }
}
