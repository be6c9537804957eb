/**
 The natural merge sort of lib/kernel/list.c on sequences: what merging two runs and passing once
 over the list do to the order of the elements.
 */
module MergeSorts {
  import opened Seqs

  // ---- orders, runs and stability ----

  /** `less` is a strict weak order on the elements of `s`. */
  ghost predicate Order<T>(less: (T, T) -> bool, s: seq<T>) {
    && (forall x :: x in s ==> !less(x, x))
    && (forall x, y, z :: x in s && y in s && z in s && less(x, y) && less(y, z) ==> less(x, z))
    && (forall x, y, z :: x in s && y in s && z in s && !less(x, y) && !less(y, z) ==> !less(x, z))
  }

  predicate InStep<T>(less: (T, T) -> bool, s: seq<T>, i: nat)
    requires 0 < i < |s|
  {
    !less(s[i], s[i - 1])
  }

  /** is_sorted: no element is less than the one before it. */
  ghost predicate Sorted<T>(less: (T, T) -> bool, s: seq<T>) {
    forall i: nat :: 0 < i < |s| ==> InStep(less, s, i)
  }

  ghost predicate Before<T>(s: seq<T>, x: T, y: T) {
    exists i: nat, j: nat :: i < j < |s| && s[i] == x && s[j] == y
  }

  /** `t` has the elements of `s`, and two elements change places only when the later one is the lesser. */
  ghost predicate Stable<T>(less: (T, T) -> bool, s: seq<T>, t: seq<T>) {
    && multiset(t) == multiset(s)
    && (forall x, y :: x in s && y in s && Before(s, x, y) && !less(y, x) ==> Before(t, x, y))
  }

  lemma OrderOf<T>(less: (T, T) -> bool, s: seq<T>, t: seq<T>)
    requires Order(less, s) && forall x :: x in t ==> x in s
    ensures Order(less, t)
  {
  }

  lemma SameElements<T>(s: seq<T>, t: seq<T>)
    requires multiset(s) == multiset(t)
    ensures |s| == |t|
    ensures forall x :: x in s ==> x in t
    ensures forall x :: x in t ==> x in s
  {
    assert |multiset(s)| == |s| && |multiset(t)| == |t|;
    forall x | x in s ensures x in t { assert x in multiset(s); }
    forall x | x in t ensures x in s { assert x in multiset(t); }
  }

  /** In a sorted sequence nothing is less than anything before it. */
  lemma {:induction false} SortedPair<T>(less: (T, T) -> bool, s: seq<T>, i: nat, j: nat)
    requires Order(less, s) && Sorted(less, s) && i < j < |s|
    ensures !less(s[j], s[i])
    decreases j
  {
    assert InStep(less, s, j);
    if i < j - 1 { SortedPair(less, s, i, j - 1); }
  }

  lemma SortedCons<T>(less: (T, T) -> bool, x: T, s: seq<T>)
    requires Sorted(less, s) && (s == [] || !less(s[0], x))
    ensures Sorted(less, [x] + s)
  {
    var t := [x] + s;
    forall i: nat | 0 < i < |t| ensures InStep(less, t, i) {
      if i > 1 { assert InStep(less, s, i - 1); }
    }
  }

  lemma SortedTail<T>(less: (T, T) -> bool, s: seq<T>)
    requires Sorted(less, s) && s != []
    ensures Sorted(less, s[1..])
  {
    forall i: nat | 0 < i < |s| - 1 ensures InStep(less, s[1..], i) { assert InStep(less, s, i + 1); }
  }

  lemma StableSame<T>(less: (T, T) -> bool, s: seq<T>)
    ensures Stable(less, s, s)
  {
  }

  lemma StableTwice<T>(less: (T, T) -> bool, s: seq<T>, t: seq<T>, u: seq<T>)
    requires Stable(less, s, t) && Stable(less, t, u)
    ensures Stable(less, s, u)
  {
    SameElements(s, t);
  }

  lemma BeforeAt<T>(s: seq<T>, i: nat, j: nat)
    requires i < j < |s|
    ensures Before(s, s[i], s[j])
  {
  }

  /** Where two elements of a concatenation stand. */
  lemma BeforeJoin<T>(a: seq<T>, b: seq<T>, x: T, y: T)
    ensures Before(a + b, x, y) <==> Before(a, x, y) || Before(b, x, y) || (x in a && y in b)
  {
    var s := a + b;
    if Before(s, x, y) {
      var i: nat, j: nat :| i < j < |s| && s[i] == x && s[j] == y;
      if j < |a| {
        BeforeAt(a, i, j);
      } else if i >= |a| {
        BeforeAt(b, i - |a|, j - |a|);
      }
    }
    if Before(a, x, y) {
      var i: nat, j: nat :| i < j < |a| && a[i] == x && a[j] == y;
      BeforeAt(s, i, j);
    }
    if Before(b, x, y) {
      var i: nat, j: nat :| i < j < |b| && b[i] == x && b[j] == y;
      BeforeAt(s, i + |a|, j + |a|);
    }
    if x in a && y in b {
      var i: nat :| i < |a| && a[i] == x;
      var j: nat :| j < |b| && b[j] == y;
      BeforeAt(s, i, j + |a|);
    }
  }

  /** Rearranging two parts separately. */
  lemma StableJoin<T>(less: (T, T) -> bool, a: seq<T>, a': seq<T>, b: seq<T>, b': seq<T>)
    requires Stable(less, a, a') && Stable(less, b, b')
    ensures Stable(less, a + b, a' + b')
  {
    SameElements(a, a');
    SameElements(b, b');
    forall x, y | x in a + b && y in a + b && Before(a + b, x, y) && !less(y, x) ensures Before(a' + b', x, y) {
      BeforeJoin(a, b, x, y);
      BeforeJoin(a', b', x, y);
    }
  }

  /** Moving `y` in front of elements it is less than. */
  lemma StableFront<T>(less: (T, T) -> bool, xs: seq<T>, y: T)
    requires forall x :: x in xs ==> less(y, x)
    ensures Stable(less, xs + [y], [y] + xs)
  {
    forall u, v | u in xs + [y] && v in xs + [y] && Before(xs + [y], u, v) && !less(v, u) ensures Before([y] + xs, u, v) {
      BeforeJoin(xs, [y], u, v);
      BeforeJoin([y], xs, u, v);
    }
  }

  /** The sorted stable rearrangement is unique: it is decided which of two elements comes first. */
  lemma SortDecides<T>(less: (T, T) -> bool, s: seq<T>, t: seq<T>, x: T, y: T)
    requires Order(less, s) && NoDup(t) && Sorted(less, t) && Stable(less, s, t) && Before(s, x, y)
    ensures if less(y, x) then Before(t, y, x) else Before(t, x, y)
  {
    SameElements(s, t);
    OrderOf(less, s, t);
    if less(y, x) {
      assert x in s && y in s;
      assert x in t && y in t;
      var i: nat :| i < |t| && t[i] == x;
      var j: nat :| j < |t| && t[j] == y;
      if i < j { SortedPair(less, t, i, j); }
      if j < i { BeforeAt(t, j, i); }
    }
  }

  lemma NotBoth<T>(s: seq<T>, x: T, y: T)
    requires NoDup(s) && Before(s, x, y)
    ensures x in s && y in s && x != y && !Before(s, y, x)
  {
  }

  lemma SomeOrder<T>(s: seq<T>, x: T, y: T)
    requires x in s && y in s && x != y
    ensures Before(s, x, y) || Before(s, y, x)
  {
    var i: nat :| i < |s| && s[i] == x;
    var j: nat :| j < |s| && s[j] == y;
    if i < j { BeforeAt(s, i, j); } else { BeforeAt(s, j, i); }
  }

  ghost predicate SameOrder<T>(t: seq<T>, u: seq<T>) {
    && NoDup(t) && NoDup(u) && multiset(t) == multiset(u)
    && (forall x, y :: x in t && y in t && Before(t, x, y) ==> Before(u, x, y))
  }

  lemma SameFirst<T>(t: seq<T>, u: seq<T>)
    requires SameOrder(t, u) && t != []
    ensures |u| == |t| && u[0] == t[0]
  {
    SameElements(t, u);
    assert u[0] in u && t[0] in t && u[0] in t;
    var k: nat :| k < |t| && t[k] == u[0];
    if k > 0 { BeforeAt(t, 0, k); }
  }

  lemma SameTails<T>(x: T, t: seq<T>, u: seq<T>)
    requires SameOrder([x] + t, [x] + u)
    ensures SameOrder(t, u)
  {
    var tt, uu := [x] + t, [x] + u;
    assert tt[1..] == t && uu[1..] == u;
    assert multiset(tt) == multiset{x} + multiset(t) && multiset(uu) == multiset{x} + multiset(u);
    assert multiset(t) == multiset(tt) - multiset{x} && multiset(u) == multiset(uu) - multiset{x};
    assert NoDup(t) && x !in t by { assert forall i :: 0 <= i < |t| ==> tt[i + 1] == t[i]; }
    assert NoDup(u) by { assert forall i :: 0 <= i < |u| ==> uu[i + 1] == u[i]; }
    forall p, q | p in t && q in t && Before(t, p, q) ensures Before(u, p, q) {
      hide Before;
      BeforeJoin([x], t, p, q);
      BeforeJoin([x], u, p, q);
      assert p in tt && q in tt && Before(uu, p, q);
      NoneBefore(x, p, q);
    }
  }

  lemma NoneBefore<T>(x: T, p: T, q: T)
    ensures !Before([x], p, q)
  {
  }

  lemma {:induction false} SameOrderSame<T>(t: seq<T>, u: seq<T>)
    requires SameOrder(t, u)
    ensures t == u
  {
    hide Before;
    if t == [] {
      SameElements(t, u);
    } else {
      SameFirst(t, u);
      assert t == [t[0]] + t[1..] && u == [t[0]] + u[1..];
      SameTails(t[0], t[1..], u[1..]);
      SameOrderSame(t[1..], u[1..]);
    }
  }

  /** There is only one sorted stable rearrangement. */
  lemma SortUnique<T>(less: (T, T) -> bool, s: seq<T>, t: seq<T>, u: seq<T>)
    requires Order(less, s) && NoDup(t) && NoDup(u)
    requires Sorted(less, t) && Stable(less, s, t) && Sorted(less, u) && Stable(less, s, u)
    ensures t == u
  {
    SameElements(s, t);
    forall x, y | x in t && y in t && Before(t, x, y) ensures Before(u, x, y) {
      hide Before, Order, Stable, Sorted;
      NotBoth(t, x, y);
      SomeOrder(s, x, y);
      if Before(s, x, y) {
        SortDecides(less, s, t, x, y);
        SortDecides(less, s, u, x, y);
      } else {
        SortDecides(less, s, t, y, x);
        SortDecides(less, s, u, y, x);
      }
    }
    SameOrderSame(t, u);
  }

  // ---- merging two runs ----

  /** inplace_merge on values: on a tie the element of the first run goes first. */
  function Merge<T>(less: (T, T) -> bool, xs: seq<T>, ys: seq<T>): (r: seq<T>)
    ensures |r| == |xs| + |ys|
  {
    if xs == [] then ys
    else if ys == [] then xs
    else if less(ys[0], xs[0]) then [ys[0]] + Merge(less, xs, ys[1..])
    else [xs[0]] + Merge(less, xs[1..], ys)
  }

  lemma {:induction false} MergeSorted<T>(less: (T, T) -> bool, xs: seq<T>, ys: seq<T>)
    requires Order(less, xs + ys) && Sorted(less, xs) && Sorted(less, ys)
    ensures Sorted(less, Merge(less, xs, ys))
  {
    if xs != [] && ys != [] {
      var x, y := xs[0], ys[0];
      assert x in xs + ys && y in xs + ys;
      if less(y, x) {
        SortedTail(less, ys);
        OrderOf(less, xs + ys, xs + ys[1..]);
        MergeSorted(less, xs, ys[1..]);
        if |ys| > 1 { assert InStep(less, ys, 1); }
        SortedCons(less, y, Merge(less, xs, ys[1..]));
      } else {
        SortedTail(less, xs);
        OrderOf(less, xs + ys, xs[1..] + ys);
        MergeSorted(less, xs[1..], ys);
        if |xs| > 1 { assert InStep(less, xs, 1); }
        SortedCons(less, x, Merge(less, xs[1..], ys));
      }
    }
  }

  lemma AllAbove<T>(less: (T, T) -> bool, xs: seq<T>, y: T, all: seq<T>)
    requires Order(less, all) && Sorted(less, xs) && xs != [] && y in all && less(y, xs[0])
    requires forall x :: x in xs ==> x in all
    ensures forall x :: x in xs ==> less(y, x)
  {
    OrderOf(less, all, xs);
    forall i: nat | i < |xs| ensures less(y, xs[i]) {
      assert xs[0] in all && xs[i] in all;
      if i > 0 { SortedPair(less, xs, 0, i); }
    }
  }

  lemma TakeSecond<T>(less: (T, T) -> bool, xs: seq<T>, ys: seq<T>, rest: seq<T>)
    requires ys != [] && (forall x :: x in xs ==> less(ys[0], x)) && Stable(less, xs + ys[1..], rest)
    ensures Stable(less, xs + ys, [ys[0]] + rest)
  {
    hide Stable;
    var y := ys[0];
    StableFront(less, xs, y);
    StableSame(less, [y]);
    StableSame(less, ys[1..]);
    StableJoin(less, xs + [y], [y] + xs, ys[1..], ys[1..]);
    assert xs + ys == (xs + [y]) + ys[1..];
    StableJoin(less, [y], [y], xs + ys[1..], rest);
    assert ([y] + xs) + ys[1..] == [y] + (xs + ys[1..]);
    StableTwice(less, xs + ys, [y] + (xs + ys[1..]), [y] + rest);
  }

  lemma {:induction false} MergeStable<T>(less: (T, T) -> bool, xs: seq<T>, ys: seq<T>)
    requires Order(less, xs + ys) && Sorted(less, xs) && Sorted(less, ys)
    ensures Stable(less, xs + ys, Merge(less, xs, ys))
  {
    hide Stable, Order, Sorted;
    StableSame(less, xs + ys);
    if xs == [] {
      assert xs + ys == ys;
    } else if ys == [] {
      assert xs + ys == xs;
    } else {
      var x, y := xs[0], ys[0];
      StableSame(less, [x]);
      if less(y, x) {
        AllAbove(less, xs, y, xs + ys);
        SortedTail(less, ys);
        OrderOf(less, xs + ys, xs + ys[1..]);
        MergeStable(less, xs, ys[1..]);
        TakeSecond(less, xs, ys, Merge(less, xs, ys[1..]));
      } else {
        SortedTail(less, xs);
        OrderOf(less, xs + ys, xs[1..] + ys);
        MergeStable(less, xs[1..], ys);
        StableJoin(less, [x], [x], xs[1..] + ys, Merge(less, xs[1..], ys));
        assert xs + ys == [x] + (xs[1..] + ys);
      }
    }
  }

  // ---- natural runs and one pass ----

  /** Length of the nondecreasing run at the front. */
  function RunLen<T>(less: (T, T) -> bool, s: seq<T>): (n: nat)
    requires s != []
    ensures 1 <= n <= |s|
  {
    if |s| == 1 || less(s[1], s[0]) then 1 else 1 + RunLen(less, s[1..])
  }

  /** How often an element is less than the one before: one less than the number of natural runs. */
  function Descents<T>(less: (T, T) -> bool, s: seq<T>): nat {
    if |s| < 2 then 0 else (if less(s[1], s[0]) then 1 else 0) + Descents(less, s[1..])
  }

  /** find_end_of_run finds a sorted run that ends at a descent. */
  lemma {:induction false} RunIsSorted<T>(less: (T, T) -> bool, s: seq<T>)
    requires s != []
    ensures Sorted(less, s[..RunLen(less, s)])
    ensures RunLen(less, s) < |s| ==> less(s[RunLen(less, s)], s[RunLen(less, s) - 1])
    ensures Descents(less, s) == if RunLen(less, s) < |s| then 1 + Descents(less, s[RunLen(less, s)..]) else 0
  {
    var n := RunLen(less, s);
    if n == 1 {
      assert |s| > 1 ==> s[1..][0] == s[1];
    } else {
      RunIsSorted(less, s[1..]);
      assert s[..n] == [s[0]] + s[1..][..n - 1];
      SortedCons(less, s[0], s[1..][..n - 1]);
      assert s[n..] == s[1..][n - 1..];
    }
  }

  /** Where the second run ends. */
  function SecondEnd<T>(less: (T, T) -> bool, s: seq<T>): (e: nat)
    requires s != [] && RunLen(less, s) < |s|
    ensures RunLen(less, s) < e <= |s|
  {
    RunLen(less, s) + RunLen(less, s[RunLen(less, s)..])
  }

  function MergedFront<T>(less: (T, T) -> bool, s: seq<T>): (r: seq<T>)
    requires s != [] && RunLen(less, s) < |s|
    ensures |r| == SecondEnd(less, s)
  {
    Merge(less, s[..RunLen(less, s)], s[RunLen(less, s)..SecondEnd(less, s)])
  }

  /** One pass of list_sort's outer loop: merge the runs two by two. */
  function Pass<T>(less: (T, T) -> bool, s: seq<T>): (r: seq<T>)
    ensures |r| == |s|
    decreases |s|
  {
    if s == [] || RunLen(less, s) == |s| then s
    else MergedFront(less, s) + Pass(less, s[SecondEnd(less, s)..])
  }

  /** How many runs the pass puts out. */
  function PassRuns<T>(less: (T, T) -> bool, s: seq<T>): nat
    decreases |s|
  {
    if s == [] then 0 else if RunLen(less, s) == |s| then 1
    else 1 + PassRuns(less, s[SecondEnd(less, s)..])
  }

  lemma PassUnfold<T>(less: (T, T) -> bool, s: seq<T>)
    requires s != []
    ensures RunLen(less, s) == |s| ==> Pass(less, s) == s && PassRuns(less, s) == 1
    ensures RunLen(less, s) < |s| ==>
      && Pass(less, s) == MergedFront(less, s) + Pass(less, s[SecondEnd(less, s)..])
      && PassRuns(less, s) == 1 + PassRuns(less, s[SecondEnd(less, s)..])
  {
    hide RunLen, MergedFront, SecondEnd;
  }

  lemma {:induction false} PassStable<T>(less: (T, T) -> bool, s: seq<T>)
    requires Order(less, s)
    ensures Stable(less, s, Pass(less, s))
    decreases |s|
  {
    hide Merge, Stable, Order, Sorted, RunLen, Pass, PassRuns, MergedFront, SecondEnd;
    StableSame(less, s);
    if s == [] {
      PassNone(less, s);
    } else {
      PassUnfold(less, s);
      if RunLen(less, s) < |s| {
        var b := SecondEnd(less, s);
        FrontIs(less, s);
        OrderOf(less, s, s[b..]);
        PassStable(less, s[b..]);
        StableJoin(less, s[..b], MergedFront(less, s), s[b..], Pass(less, s[b..]));
        assert s == s[..b] + s[b..];
      }
    }
  }

  /** The first output run of a pass. */
  lemma FrontIs<T>(less: (T, T) -> bool, s: seq<T>)
    requires Order(less, s) && s != [] && RunLen(less, s) < |s|
    ensures Sorted(less, MergedFront(less, s)) && Stable(less, s[..SecondEnd(less, s)], MergedFront(less, s))
  {
    hide Merge, Stable, Order, Sorted, RunLen;
    var a, b := RunLen(less, s), SecondEnd(less, s);
    TwoRuns(less, s, a, b);
    assert s[..a] + s[a..b] == s[..b];
  }

  lemma FrontDescents<T>(less: (T, T) -> bool, s: seq<T>)
    requires s != [] && RunLen(less, s) < |s|
    ensures var b := SecondEnd(less, s);
      Descents(less, s) == if b < |s| then 2 + Descents(less, s[b..]) else 1
  {
    hide Sorted, RunLen, Descents;
    var a, b := RunLen(less, s), SecondEnd(less, s);
    RunIsSorted(less, s);
    RunIsSorted(less, s[a..]);
    assert s[a..][b - a..] == s[b..];
  }

  lemma PassNone<T>(less: (T, T) -> bool, s: seq<T>)
    requires s == []
    ensures Pass(less, s) == s && PassRuns(less, s) == 0
  {
  }

  lemma TwoRuns<T>(less: (T, T) -> bool, s: seq<T>, a: nat, b: nat)
    requires Order(less, s) && s != [] && a == RunLen(less, s) < |s| && b == a + RunLen(less, s[a..])
    ensures Sorted(less, s[..a]) && Sorted(less, s[a..b]) && Order(less, s[..a] + s[a..b])
    ensures Sorted(less, Merge(less, s[..a], s[a..b]))
    ensures Stable(less, s[..a] + s[a..b], Merge(less, s[..a], s[a..b]))
  {
    hide Merge, Sorted, Stable, Order, RunLen, Descents;
    RunIsSorted(less, s);
    RunIsSorted(less, s[a..]);
    assert s[a..][..b - a] == s[a..b];
    OrderOf(less, s, s[..a] + s[a..b]);
    MergeSorted(less, s[..a], s[a..b]);
    MergeStable(less, s[..a], s[a..b]);
  }

  lemma {:induction false} SortedNoDescents<T>(less: (T, T) -> bool, s: seq<T>)
    ensures Sorted(less, s) <==> Descents(less, s) == 0
  {
    if |s| >= 2 {
      SortedNoDescents(less, s[1..]);
      if Sorted(less, s) {
        assert InStep(less, s, 1);
        SortedTail(less, s);
      }
      if Descents(less, s) == 0 {
        assert s == [s[0]] + s[1..];
        SortedCons(less, s[0], s[1..]);
      }
    }
  }

  lemma {:induction false} DescentsJoin<T>(less: (T, T) -> bool, a: seq<T>, b: seq<T>)
    ensures Descents(less, a + b) <= Descents(less, a) + Descents(less, b) + (if a == [] || b == [] then 0 else 1)
  {
    if a == [] {
      assert a + b == b;
    } else if |a| == 1 {
      assert (a + b)[1..] == b;
    } else {
      DescentsJoin(less, a[1..], b);
      assert (a + b)[1..] == a[1..] + b;
    }
  }

  /** The runs left after a pass are at most the runs it put out, and it puts out half as many as it found, rounded up. */
  lemma {:induction false} PassHalves<T>(less: (T, T) -> bool, s: seq<T>)
    requires Order(less, s)
    ensures PassRuns(less, s) == if s == [] then 0 else (Descents(less, s) + 2) / 2
    ensures s != [] ==> Descents(less, Pass(less, s)) <= PassRuns(less, s) - 1
    decreases |s|
  {
    hide Merge, Sorted, Stable, Order, RunLen, Pass, PassRuns, MergedFront, SecondEnd, Descents;
    if s == [] {
      PassNone(less, s);
    } else {
      PassUnfold(less, s);
      RunIsSorted(less, s);
      if RunLen(less, s) < |s| {
        var b := SecondEnd(less, s);
        FrontIs(less, s);
        FrontDescents(less, s);
        SortedNoDescents(less, MergedFront(less, s));
        DescentsJoin(less, MergedFront(less, s), Pass(less, s[b..]));
        OrderOf(less, s, s[b..]);
        PassHalves(less, s[b..]);
        if b == |s| { NoDescents(less, Pass(less, s[b..])); }
      }
    }
  }

  lemma NoDescents<T>(less: (T, T) -> bool, s: seq<T>)
    requires s == []
    ensures Descents(less, s) == 0
  {
  }

  /** list_sort's loop ends: a pass that puts out more than one run leaves strictly fewer runs, and one that puts out
      at most one run leaves the list sorted. */
  lemma PassProgress<T>(less: (T, T) -> bool, s: seq<T>)
    requires Order(less, s)
    ensures PassRuns(less, s) > 1 ==> Descents(less, Pass(less, s)) < Descents(less, s)
    ensures PassRuns(less, s) <= 1 ==> Sorted(less, Pass(less, s))
  {
    PassHalves(less, s);
    SortedNoDescents(less, Pass(less, s));
  }
}
