/** lib/kernel/list.c: doubly linked lists with a head and a tail sentinel, rewired in place. */
module Lists {
  import opened Seqs
  import opened MergeSorts

  class Elem {
    var prev: Elem?
    var next: Elem?
  }

  // ---- well-formed lists ----

  /** `c` is a whole list: head, interior elements, tail, in order. */
  ghost predicate Linked(c: seq<Elem>)
    reads c
  {
    && |c| >= 2 && NoDup(c) && c[0].prev == null && c[|c| - 1].next == null
    && (forall i: nat :: i + 1 < |c| ==> Link(c, i))
  }

  ghost predicate Link(c: seq<Elem>, i: nat)
    requires i + 1 < |c|
    reads c
  {
    c[i].next == c[i + 1] && c[i + 1].prev == c[i]
  }

  /** Where the element at `i` comes from when those from `f` up to `l` move in front of the one at `b`. */
  ghost function Source(b: nat, f: nat, l: nat, i: nat): nat
    requires b <= f <= l || f <= l <= b
  {
    if b <= f then
      if b <= i < b + (l - f) then i - b + f else if b + (l - f) <= i < l then i - (l - f) else i
    else
      if f <= i < f + (b - l) then i - f + l else if f + (b - l) <= i < b then i - (b - l) else i
  }

  /** `c` with the elements from `f` up to `l` moved in front of the one at `b`. */
  ghost function Moved<T>(c: seq<T>, b: nat, f: nat, l: nat): (r: seq<T>)
    requires b <= f <= l <= |c| || f <= l <= b <= |c|
    ensures |r| == |c|
  {
    seq(|c|, i requires 0 <= i < |c| => c[Source(b, f, l, i)])
  }

  lemma MovedBack<T>(c: seq<T>, b: nat, f: nat, l: nat)
    requires b <= f <= l <= |c|
    ensures Moved(c, b, f, l) == c[..b] + c[f..l] + c[b..f] + c[l..]
  {
  }

  lemma MovedOn<T>(c: seq<T>, b: nat, f: nat, l: nat)
    requires f <= l <= b <= |c|
    ensures Moved(c, b, f, l) == c[..f] + c[l..b] + c[f..l] + c[b..]
  {
  }

  ghost predicate NextSet(c: seq<Elem>, b: nat, f: nat, l: nat, k: nat)
    requires 0 < b < |c| && 0 < f < l < |c| && k < |c|
    reads c
  {
    c[k].next == if k == f - 1 then c[l] else if k == l - 1 then c[b] else if k == b - 1 then c[f]
                 else if k + 1 < |c| then c[k + 1] else null
  }
  ghost predicate PrevSet(c: seq<Elem>, b: nat, f: nat, l: nat, k: nat)
    requires 0 < b < |c| && 0 < f < l < |c| && k < |c|
    reads c
  {
    c[k].prev == if k == l then c[f - 1] else if k == f then c[b - 1] else if k == b then c[l - 1]
                 else if k > 0 then c[k - 1] else null
  }

  lemma MovedNoDup<T>(c: seq<T>, b: nat, f: nat, l: nat)
    requires (b <= f <= l <= |c| || f <= l <= b <= |c|) && NoDup(c)
    ensures NoDup(Moved(c, b, f, l))
  {
    forall i, j | 0 <= i < j < |c| ensures Moved(c, b, f, l)[i] != Moved(c, b, f, l)[j] {
      assert Source(b, f, l, i) != Source(b, f, l, j);
    }
  }

  lemma MovedSame<T>(c: seq<T>, b: nat, f: nat, l: nat)
    requires b <= f == l <= |c| || f <= l == b <= |c| || f == l <= b <= |c|
    ensures Moved(c, b, f, l) == c
  {
  }

  lemma SourceEnds(b: nat, f: nat, l: nat, n: nat)
    requires 0 < b < n && 0 < f < l < n && (b < f || l < b)
    ensures Source(b, f, l, 0) == 0 && Source(b, f, l, n - 1) == n - 1
  {
  }

  lemma RewiredLink(c: seq<Elem>, b: nat, f: nat, l: nat, i: nat)
    requires 0 < b < |c| && 0 < f < l < |c| && (b < f || l < b) && i + 1 < |c|
    requires forall k: nat :: k < |c| ==> NextSet(c, b, f, l, k) && PrevSet(c, b, f, l, k)
    ensures Link(Moved(c, b, f, l), i)
  {
    assert NextSet(c, b, f, l, Source(b, f, l, i));
    assert PrevSet(c, b, f, l, Source(b, f, l, i + 1));
  }

  /** The six pointers list_splice sets are the ones that change. */
  lemma Rewired(c: seq<Elem>, b: nat, f: nat, l: nat)
    requires 0 < b < |c| && 0 < f < l < |c| && (b < f || l < b) && NoDup(c)
    requires forall k: nat :: k < |c| ==> NextSet(c, b, f, l, k) && PrevSet(c, b, f, l, k)
    ensures Linked(Moved(c, b, f, l))
  {
    MovedNoDup(c, b, f, l);
    hide NoDup, Source;
    SourceEnds(b, f, l, |c|);
    assert PrevSet(c, b, f, l, 0) && NextSet(c, b, f, l, |c| - 1);
    forall i: nat | i + 1 < |c| ensures Link(Moved(c, b, f, l), i) {
      hide Moved;
      RewiredLink(c, b, f, l, i);
    }
  }

  /** `c` without its elements from `f` up to `l`, and `d` with them in front of the one at `b`. */
  ghost function Cut<T>(c: seq<T>, f: nat, l: nat): seq<T>
    requires f <= l <= |c|
  {
    c[..f] + c[l..]
  }
  ghost function Pasted<T>(c: seq<T>, f: nat, l: nat, d: seq<T>, b: nat): seq<T>
    requires f <= l <= |c| && b <= |d|
  {
    d[..b] + c[f..l] + d[b..]
  }

  /** The pointers of two lists after list_splice has set its six. */
  ghost predicate CutSet(c: seq<Elem>, f: nat, l: nat, d: seq<Elem>, b: nat, k: nat)
    requires 0 < f < l < |c| && 0 < b < |d| && k < |c|
    reads c
  {
    && c[k].next == (if k == f - 1 then c[l] else if k == l - 1 then d[b] else if k + 1 < |c| then c[k + 1] else null)
    && c[k].prev == (if k == l then c[f - 1] else if k == f then d[b - 1] else if k > 0 then c[k - 1] else null)
  }
  ghost predicate PasteSet(c: seq<Elem>, f: nat, l: nat, d: seq<Elem>, b: nat, k: nat)
    requires 0 < f < l < |c| && 0 < b < |d| && k < |d|
    reads d
  {
    && d[k].next == (if k == b - 1 then c[f] else if k + 1 < |d| then d[k + 1] else null)
    && d[k].prev == (if k == b then c[l - 1] else if k > 0 then d[k - 1] else null)
  }

  lemma CutNoDup<T>(c: seq<T>, f: nat, l: nat, d: seq<T>, b: nat)
    requires f <= l <= |c| && b <= |d| && NoDup(c) && NoDup(d) && forall x :: x in c ==> x !in d
    ensures NoDup(Cut(c, f, l)) && NoDup(Pasted(c, f, l, d, b))
  {
    assert forall i :: 0 <= i < |c| ==> c[i] in c && c[i] !in d;
    assert forall i :: 0 <= i < |d| ==> d[i] in d;
  }

  lemma CutLinked(c: seq<Elem>, f: nat, l: nat, d: seq<Elem>, b: nat)
    requires 0 < f < l < |c| && 0 < b < |d| && NoDup(c) && NoDup(d) && (forall x :: x in c ==> x !in d)
    requires forall k: nat :: k < |c| ==> CutSet(c, f, l, d, b, k)
    ensures Linked(Cut(c, f, l))
  {
    CutNoDup(c, f, l, d, b);
    hide NoDup;
    assert CutSet(c, f, l, d, b, 0) && CutSet(c, f, l, d, b, |c| - 1);
    var n := Cut(c, f, l);
    forall i: nat | i + 1 < |n| ensures Link(n, i) {
      var j, j' := if i < f then i else i + l - f, if i + 1 < f then i + 1 else i + 1 + l - f;
      assert CutSet(c, f, l, d, b, j) && CutSet(c, f, l, d, b, j');
    }
  }

  lemma PasteLinked(c: seq<Elem>, f: nat, l: nat, d: seq<Elem>, b: nat)
    requires 0 < f < l < |c| && 0 < b < |d| && NoDup(c) && NoDup(d) && (forall x :: x in c ==> x !in d)
    requires forall k: nat :: k < |c| ==> CutSet(c, f, l, d, b, k)
    requires forall k: nat :: k < |d| ==> PasteSet(c, f, l, d, b, k)
    ensures Linked(Pasted(c, f, l, d, b))
  {
    CutNoDup(c, f, l, d, b);
    hide NoDup;
    assert PasteSet(c, f, l, d, b, 0) && PasteSet(c, f, l, d, b, |d| - 1);
    var n := Pasted(c, f, l, d, b);
    forall i: nat | i + 1 < |n| ensures Link(n, i) {
      PasteLink(c, f, l, d, b, i);
    }
  }

  lemma PasteLink(c: seq<Elem>, f: nat, l: nat, d: seq<Elem>, b: nat, i: nat)
    requires 0 < f < l < |c| && 0 < b < |d| && i + 1 < |Pasted(c, f, l, d, b)|
    requires forall k: nat :: k < |c| ==> CutSet(c, f, l, d, b, k)
    requires forall k: nat :: k < |d| ==> PasteSet(c, f, l, d, b, k)
    ensures Link(Pasted(c, f, l, d, b), i)
  {
    var e := b + l - f;
    if i + 1 < b {
      assert PasteSet(c, f, l, d, b, i) && PasteSet(c, f, l, d, b, i + 1);
    } else if i + 1 == b {
      assert PasteSet(c, f, l, d, b, i) && CutSet(c, f, l, d, b, f);
    } else if i + 1 < e {
      assert CutSet(c, f, l, d, b, i - b + f) && CutSet(c, f, l, d, b, i + 1 - b + f);
    } else if i + 1 == e {
      assert CutSet(c, f, l, d, b, l - 1) && PasteSet(c, f, l, d, b, b);
    } else {
      assert PasteSet(c, f, l, d, b, i - (l - f)) && PasteSet(c, f, l, d, b, i + 1 - (l - f));
    }
  }

  /** list_splice's six assignments. `all` are the elements of the lists concerned. */
  method Relink(before: Elem, first: Elem, last: Elem, ghost all: set<Elem>)
    requires {before, first, last} <= all && last.prev in all && first.prev in all && before.prev in all
    requires first != last && before != first && last.prev.next == last && first.prev.next == first && before.prev.next == before
    requires last.prev != before && before.prev != first.prev && (before != last ==> before.prev != last.prev)
    requires first.prev != last.prev
    modifies all
    ensures before == last ==> forall e :: e in all ==> e.next == old(e.next) && e.prev == old(e.prev)
    ensures before != last ==> forall e :: e in all ==>
      e.next == if e == old(before.prev) then first else if e == old(last.prev) then before
                else if e == old(first.prev) then last else old(e.next)
    ensures before != last ==> forall e :: e in all ==>
      e.prev == if e == before then old(last.prev) else if e == first then old(before.prev)
                else if e == last then old(first.prev) else old(e.prev)
  {
    var lst := last.prev;
    first.prev.next := lst.next;
    lst.next.prev := first.prev;
    first.prev := before.prev;
    lst.next := before;
    before.prev.next := first;
    before.prev := lst;
  }

  /** list_splice within one list. */
  method Splice(before: Elem, first: Elem, last: Elem, ghost c: seq<Elem>, ghost b: nat, ghost f: nat, ghost l: nat)
    requires Linked(c) && 0 < b < |c| && 0 < f <= l < |c| && (b < f || l <= b)
    requires c[b] == before && c[f] == first && c[l] == last
    modifies c
    ensures Linked(Moved(c, b, f, l))
  {
    hide Moved, Source;
    if f == l || b == l {
      MovedSame(c, b, f, l);
    }
    if first == last {
      return;
    }
    assert Link(c, l - 1) && Link(c, f - 1) && Link(c, b - 1);
    Relink(before, first, last, Elements(c));
    if b == l {
      forall i: nat | i + 1 < |c| ensures Link(c, i) { assert old(Link(c, i)); }
    } else {
      forall k: nat | k < |c| ensures NextSet(c, b, f, l, k) && PrevSet(c, b, f, l, k) {
        assert k + 1 < |c| ==> old(Link(c, k));
        assert k > 0 ==> old(Link(c, k - 1));
      }
      Rewired(c, b, f, l);
    }
  }

  ghost function Elements(c: seq<Elem>): (r: set<Elem>)
    ensures forall k: nat :: k < |c| ==> c[k] in r
    ensures forall x :: x in r ==> x in c
  {
    set x | x in c
  }

  lemma CutNothing<T>(c: seq<T>, f: nat, d: seq<T>, b: nat)
    requires f <= |c| && b <= |d|
    ensures Cut(c, f, f) == c && Pasted(c, f, f, d, b) == d
  {
  }

  /** Both pointers of the element at `k`. */
  ghost predicate Around(c: seq<Elem>, k: nat)
    requires k < |c|
    reads c
  {
    c[k].next == (if k + 1 < |c| then c[k + 1] else null) && c[k].prev == (if k > 0 then c[k - 1] else null)
  }

  lemma Ends(c: seq<Elem>, f: nat, l: nat)
    requires Linked(c) && 0 < f <= l < |c|
    ensures NoDup(c) && forall k: nat :: k < |c| ==> Around(c, k)
    ensures c[f - 1] != c[f] && c[l - 1] != c[l] && (f < l ==> c[f - 1] != c[l - 1] && c[f] != c[l])
  {
    forall k: nat | k < |c| ensures Around(c, k) {
      assert k + 1 < |c| ==> Link(c, k);
      assert k > 0 ==> Link(c, k - 1);
    }
  }

  /** list_splice from the list `c` into another list `d`. */
  method SpliceInto(before: Elem, first: Elem, last: Elem, ghost c: seq<Elem>, ghost f: nat, ghost l: nat,
                    ghost d: seq<Elem>, ghost b: nat)
    requires Linked(c) && Linked(d) && (forall x :: x in c ==> x !in d) && 0 < f <= l < |c| && 0 < b < |d|
    requires d[b] == before && c[f] == first && c[l] == last
    modifies c, d
    ensures Linked(Cut(c, f, l)) && Linked(Pasted(c, f, l, d, b))
  {
    hide Cut, Pasted, Linked;
    CutNothing(c, f, d, b);
    Ends(c, f, l);
    Ends(d, b, b);
    if first == last {
      return;
    }
    assert Around(c, f - 1) && Around(c, f) && Around(c, l - 1) && Around(c, l) && Around(d, b - 1) && Around(d, b);
    assert forall k: nat :: k < |c| ==> c[k] in c && c[k] !in d;
    assert forall k: nat :: k < |d| ==> d[k] in d && d[k] !in c;
    Relink(before, first, last, Elements(c) + Elements(d));
    forall k: nat | k < |c| ensures CutSet(c, f, l, d, b, k) {
      assert old(Around(c, k));
    }
    forall k: nat | k < |d| ensures PasteSet(c, f, l, d, b, k) {
      assert old(Around(d, k));
    }
    CutLinked(c, f, l, d, b);
    PasteLinked(c, f, l, d, b);
  }

  /** list_insert. */
  method Insert(before: Elem, elem: Elem, ghost c: seq<Elem>, ghost b: nat)
    requires Linked(c) && 0 < b < |c| && c[b] == before && elem !in c
    modifies c, elem
    ensures Linked(c[..b] + [elem] + c[b..])
  {
    assert Link(c, b - 1);
    elem.prev := before.prev;
    elem.next := before;
    before.prev.next := elem;
    before.prev := elem;
    ghost var n := c[..b] + [elem] + c[b..];
    forall i: nat | i + 1 < |n| ensures Link(n, i) {
      assert i + 1 < |c| ==> old(Link(c, i));
      assert i > 0 ==> old(Link(c, i - 1));
    }
  }

  /** list_remove. */
  method RemoveElem(elem: Elem, ghost c: seq<Elem>, ghost b: nat) returns (next: Elem)
    requires Linked(c) && 0 < b < |c| - 1 && c[b] == elem
    modifies c
    ensures Linked(c[..b] + c[b + 1..]) && next == c[b + 1]
  {
    assert Link(c, b - 1) && Link(c, b);
    elem.prev.next := elem.next;
    elem.next.prev := elem.prev;
    next := elem.next;
    ghost var n := c[..b] + c[b + 1..];
    forall i: nat | i + 1 < |n| ensures Link(n, i) {
      assert old(Link(c, i));
      assert old(Link(c, i + 1));
    }
  }

  // ---- sorting ----

  /** find_end_of_run. */
  method FindEndOfRun(a: Elem, b: Elem, less: (Elem, Elem) -> bool, ghost c: seq<Elem>, ghost i: nat, ghost j: nat)
    returns (e: Elem, ghost r: nat)
    requires Linked(c) && 0 < i < j < |c| && c[i] == a && c[j] == b
    ensures r == i + RunLen(less, c[i..j]) && r <= j && e == c[r]
  {
    assert Link(c, i);
    e, r := a.next, i + 1;
    while e != b && !less(e, e.prev)
      invariant i < r <= j && e == c[r] && e.prev == c[r - 1]
      invariant RunLen(less, c[i..j]) == (r - 1 - i) + RunLen(less, c[r - 1..j])
      decreases j - r
    {
      assert c[r - 1..j][1..] == c[r..j];
      assert Link(c, r);
      e, r := e.next, r + 1;
    }
    assert r < j ==> c[r - 1..j][1] == c[r];
  }

  /** The list in the middle of a merge. */
  ghost function Joined<T>(pre: seq<T>, done: seq<T>, xs: seq<T>, ys: seq<T>, post: seq<T>): seq<T> {
    pre + done + xs + ys + post
  }

  lemma JoinedKeep<T>(pre: seq<T>, done: seq<T>, xs: seq<T>, ys: seq<T>, post: seq<T>)
    requires xs != []
    ensures Joined(pre, done, xs, ys, post) == Joined(pre, done + [xs[0]], xs[1..], ys, post)
  {
    assert done + [xs[0]] + xs[1..] == done + xs;
  }

  lemma JoinedParts<T>(pre: seq<T>, done: seq<T>, xs: seq<T>, ys: seq<T>, post: seq<T>)
    ensures var p, n := |pre| + |done|, Joined(pre, done, xs, ys, post); var q := p + |xs|;
      q <= |n| && n[..p] == pre + done && n[p..q] == xs && n[q..] == ys + post
  {
  }

  lemma Regrouped<T>(pre: seq<T>, done: seq<T>, y: T, xs: seq<T>, ys: seq<T>, post: seq<T>)
    ensures Joined(pre, done + [y], xs, ys, post) == (pre + done) + [y] + xs + (ys + post)
  {
    assert pre + (done + [y]) == (pre + done) + [y];
    var a := (pre + done) + [y] + xs;
    assert (a + ys) + post == a + (ys + post);
  }

  lemma FirstOfRest<T>(n: seq<T>, q: nat, rest: seq<T>, post: seq<T>)
    requires q <= |n| && n[q..] == rest + post && rest != [] && post != []
    ensures q + 1 < |n| && n[q..q + 1] == [rest[0]] && n[q + 1..] == rest[1..] + post
  {
    assert n[q..][1..] == n[q + 1..];
    assert n[q..][0] == n[q];
  }

  lemma JoinedMove<T>(pre: seq<T>, done: seq<T>, xs: seq<T>, ys: seq<T>, post: seq<T>)
    requires ys != [] && post != []
    ensures var p, n := |pre| + |done|, Joined(pre, done, xs, ys, post); var q := p + |xs|;
      && q + 1 < |n| && Moved(n, p, q, q + 1) == Joined(pre, done + [ys[0]], xs, ys[1..], post)
      && Moved(n, p, q, q + 1)[q + 1] == n[q + 1]
  {
    hide Moved, Joined;
    var p, n := |pre| + |done|, Joined(pre, done, xs, ys, post);
    var q := p + |xs|;
    JoinedParts(pre, done, xs, ys, post);
    FirstOfRest(n, q, ys, post);
    MovedBack(n, p, q, q + 1);
    Regrouped(pre, done, ys[0], xs, ys[1..], post);
    assert Moved(n, p, q, q + 1)[q + 1] == n[q + 1..][0];
  }

  lemma MovedSet<T>(c: seq<T>, b: nat, f: nat, l: nat)
    requires b <= f <= l <= |c| || f <= l <= b <= |c|
    ensures forall x :: x in Moved(c, b, f, l) ==> x in c
  {
  }

  /** `c`'s runs from `p` and from `q` up to `e` are being merged: `done` is merged, `xs` and `ys` are left. */
  ghost predicate Merging<T>(less: (T, T) -> bool, c: seq<T>, p: nat, q: nat, e: nat,
                             n: seq<T>, done: seq<T>, xs: seq<T>, ys: seq<T>)
  {
    && p <= q <= e < |c| == |n| && p + |done| + |xs| + |ys| == e
    && n == Joined(c[..p], done, xs, ys, c[e..])
    && done + Merge(less, xs, ys) == Merge(less, c[p..q], c[q..e])
    && (forall x :: x in n ==> x in c)
  }

  lemma MergingStart<T>(less: (T, T) -> bool, c: seq<T>, p: nat, q: nat, e: nat)
    requires p <= q <= e < |c|
    ensures Merging(less, c, p, q, e, c, [], c[p..q], c[q..e])
  {
    hide Merge;
    assert c == Joined(c[..p], [], c[p..q], c[q..e], c[e..]);
  }

  lemma MergingAt<T>(less: (T, T) -> bool, c: seq<T>, p: nat, q: nat, e: nat, n: seq<T>, done: seq<T>, xs: seq<T>, ys: seq<T>)
    requires Merging(less, c, p, q, e, n, done, xs, ys)
    ensures var x := p + |done|; var y := x + |xs|;
      && y + |ys| == e < |n| == |c| && n[e] == c[e] && (forall z :: z in n ==> z in c)
      && (xs != [] ==> n[x] == xs[0])
      && (ys != [] ==> n[y] == ys[0])
  {
    hide Merge;
  }

  lemma MergeTake<T>(less: (T, T) -> bool, xs: seq<T>, ys: seq<T>)
    requires xs != [] && ys != []
    ensures Merge(less, xs, ys) ==
      if less(ys[0], xs[0]) then [ys[0]] + Merge(less, xs, ys[1..]) else [xs[0]] + Merge(less, xs[1..], ys)
  {
  }

  lemma KeepFirst<T>(less: (T, T) -> bool, c: seq<T>, p: nat, q: nat, e: nat, n: seq<T>, done: seq<T>, xs: seq<T>, ys: seq<T>)
    requires Merging(less, c, p, q, e, n, done, xs, ys) && xs != [] && ys != [] && !less(ys[0], xs[0])
    ensures Merging(less, c, p, q, e, n, done + [xs[0]], xs[1..], ys)
  {
    hide Merge, Joined;
    MergeTake(less, xs, ys);
    JoinedKeep(c[..p], done, xs, ys, c[e..]);
    assert (done + [xs[0]]) + Merge(less, xs[1..], ys) == done + ([xs[0]] + Merge(less, xs[1..], ys));
  }

  lemma TakeLess<T>(less: (T, T) -> bool, c: seq<T>, p: nat, q: nat, e: nat, n: seq<T>, done: seq<T>, xs: seq<T>, ys: seq<T>)
    requires Merging(less, c, p, q, e, n, done, xs, ys) && xs != [] && ys != [] && less(ys[0], xs[0])
    ensures var x := p + |done|; var y := x + |xs|;
      && y + 1 < |n|
      && Merging(less, c, p, q, e, Moved(n, x, y, y + 1), done + [ys[0]], xs, ys[1..])
      && Moved(n, x, y, y + 1)[y + 1] == n[y + 1]
  {
    hide Merge, Joined, Moved;
    MergeTake(less, xs, ys);
    assert (done + [ys[0]]) + Merge(less, xs, ys[1..]) == done + ([ys[0]] + Merge(less, xs, ys[1..]));
    JoinedMove(c[..p], done, xs, ys, c[e..]);
    MovedSet(n, p + |done|, p + |done| + |xs|, p + |done| + |xs| + 1);
  }

  lemma MergingEnd<T>(less: (T, T) -> bool, c: seq<T>, p: nat, q: nat, e: nat, n: seq<T>, done: seq<T>, xs: seq<T>, ys: seq<T>)
    requires Merging(less, c, p, q, e, n, done, xs, ys) && (xs == [] || ys == [])
    ensures n == c[..p] + Merge(less, c[p..q], c[q..e]) + c[e..]
  {
    assert Merge(less, xs, ys) == xs + ys;
    hide Merge;
    assert n == c[..p] + (done + (xs + ys)) + c[e..];
  }

  /** inplace_merge of the runs from `p` and from `q` up to `e`. */
  method InplaceMerge(a: Elem, ab: Elem, b: Elem, less: (Elem, Elem) -> bool, ghost c: seq<Elem>,
                      ghost p: nat, ghost q: nat, ghost e: nat) returns (ghost n: seq<Elem>)
    requires Linked(c) && 0 < p < q < e < |c| && c[p] == a && c[q] == ab && c[e] == b
    requires Sorted(less, c[p..q]) && Sorted(less, c[q..e])
    modifies c
    ensures n == c[..p] + Merge(less, c[p..q], c[q..e]) + c[e..] && Linked(n)
    ensures forall x :: x in n ==> x in c
  {
    hide Merge, Moved, Sorted, Merging;
    var a0, a1b0 := a, ab;
    ghost var done, xs, ys := [], c[p..q], c[q..e];
    n := c;
    MergingStart(less, c, p, q, e);
    MergingAt(less, c, p, q, e, n, done, xs, ys);
    while a0 != a1b0 && a1b0 != b
      invariant Merging(less, c, p, q, e, n, done, xs, ys) && Linked(n)
      invariant |n| == |c| && p + |done| + |xs| + |ys| == e
      invariant a0 == n[p + |done|] && a1b0 == n[p + |done| + |xs|]
      decreases |xs| + |ys|
    {
      MergingAt(less, c, p, q, e, n, done, xs, ys);
      ghost var x, y := p + |done|, p + |done| + |xs|;
      if !less(a1b0, a0) {
        KeepFirst(less, c, p, q, e, n, done, xs, ys);
        assert Link(n, x);
        a0 := a0.next;
        done, xs := done + [xs[0]], xs[1..];
      } else {
        TakeLess(less, c, p, q, e, n, done, xs, ys);
        assert Link(n, y);
        a1b0 := a1b0.next;
        assert forall i: nat :: i < |n| ==> n[i] in c;
        Splice(a0, a1b0.prev, a1b0, n, x, y, y + 1);
        n, done, ys := Moved(n, x, y, y + 1), done + [ys[0]], ys[1..];
        MergingAt(less, c, p, q, e, n, done, xs, ys);
      }
    }
    MergingAt(less, c, p, q, e, n, done, xs, ys);
    MergingEnd(less, c, p, q, e, n, done, xs, ys);
  }

  /** The interior elements. */
  ghost function Inside<T>(c: seq<T>): seq<T>
    requires |c| >= 2
  {
    c[1..|c| - 1]
  }

  /** In the middle of a pass over `c`: the output runs end at `k` and the rest is untouched. */
  ghost predicate Passing<T>(less: (T, T) -> bool, c: seq<T>, n: seq<T>, k: nat, runs: nat) {
    && |n| == |c| && 1 <= k < |c| && n[0] == c[0] && n[|c| - 1] == c[|c| - 1]
    && n[1..k] + Pass(less, n[k..|c| - 1]) == Pass(less, Inside(c))
    && runs + PassRuns(less, n[k..|c| - 1]) == PassRuns(less, Inside(c))
    && (forall x :: x in n ==> x in c)
  }

  lemma PassStart<T>(less: (T, T) -> bool, c: seq<T>)
    requires |c| >= 2
    ensures Passing(less, c, c, 1, 0)
  {
    hide Pass, PassRuns;
    assert c[1..1] + Pass(less, Inside(c)) == Pass(less, Inside(c));
  }

  lemma {:induction false} RunsFound<T>(less: (T, T) -> bool, s: seq<T>, q: nat, e: nat)
    requires s != [] && q == RunLen(less, s) < |s| && e == q + RunLen(less, s[q..])
    ensures Sorted(less, s[..q]) && Sorted(less, s[q..e])
    ensures Pass(less, s) == Merge(less, s[..q], s[q..e]) + Pass(less, s[e..])
    ensures PassRuns(less, s) == 1 + PassRuns(less, s[e..])
  {
    hide Sorted, RunLen, Merge, Descents, Pass, PassRuns;
    PassUnfold(less, s);
    RunIsSorted(less, s);
    RunIsSorted(less, s[q..]);
    assert s[q..][..e - q] == s[q..e];
  }

  lemma SubSlices<T>(n: seq<T>, k: nat, q: nat, e: nat, l: nat)
    requires k <= q <= e <= l <= |n|
    ensures var s := n[k..l];
      s[..q - k] == n[k..q] && s[q - k..] == n[q..l] && s[q - k..e - k] == n[q..e] && s[e - k..] == n[e..l]
  {
    var s := n[k..l];
    assert |s| == l - k && forall i :: 0 <= i < l - k ==> s[i] == n[k + i];
    assert s[..q - k] == n[k..q];
    assert s[q - k..] == n[q..l];
    assert s[q - k..e - k] == n[q..e];
    assert s[e - k..] == n[e..l];
  }

  lemma PassStep<T>(less: (T, T) -> bool, c: seq<T>, n: seq<T>, k: nat, runs: nat, q: nat, e: nat)
    requires Passing(less, c, n, k, runs) && k < q < e < |c|
    requires q == k + RunLen(less, n[k..|c| - 1]) && e == q + RunLen(less, n[q..|c| - 1])
    ensures Sorted(less, n[k..q]) && Sorted(less, n[q..e])
    ensures var m := n[..k] + Merge(less, n[k..q], n[q..e]) + n[e..];
      (forall x :: x in m ==> x in n) ==> Passing(less, c, m, e, runs + 1) && m[e] == n[e]
  {
    hide Sorted, RunLen, Merge, Pass, PassRuns;
    var s, l := n[k..|c| - 1], |c| - 1;
    SubSlices(n, k, q, e, l);
    RunsFound(less, s, q - k, e - k);
    var g := Merge(less, n[k..q], n[q..e]);
    var m := n[..k] + g + n[e..];
    assert m[1..e] == n[1..k] + g && m[e..l] == n[e..l];
    assert n[1..k] + (g + Pass(less, n[e..l])) == (n[1..k] + g) + Pass(less, n[e..l]);
  }

  lemma PassLast<T>(less: (T, T) -> bool, c: seq<T>, n: seq<T>, k: nat, runs: nat)
    requires Passing(less, c, n, k, runs)
    requires k == |c| - 1 || k + RunLen(less, n[k..|c| - 1]) == |c| - 1
    ensures Inside(n) == Pass(less, Inside(c))
    ensures PassRuns(less, Inside(c)) == if k == |c| - 1 then runs else runs + 1
  {
    hide RunLen, Merge;
    var s := n[k..|c| - 1];
    assert Inside(n) == n[1..k] + s;
  }

  /** One turn of list_sort's outer loop. */
  method MergePass(head: Elem, tail: Elem, less: (Elem, Elem) -> bool, ghost c: seq<Elem>) returns (runs: nat, ghost n: seq<Elem>)
    requires Linked(c) && c[0] == head && c[|c| - 1] == tail
    modifies c
    ensures Linked(n) && |n| == |c| && n[0] == head && n[|n| - 1] == tail && (forall x :: x in n ==> x in c)
    ensures Inside(n) == Pass(less, Inside(c)) && runs == PassRuns(less, Inside(c))
  {
    hide RunLen, Merge, Pass, PassRuns, Inside, Sorted;
    assert Link(c, 0);
    runs, n := 0, c;
    var a0 := head.next;
    ghost var k := 1;
    PassStart(less, c);
    while a0 != tail
      invariant Passing(less, c, n, k, runs) && Linked(n) && a0 == n[k]
      decreases |c| - k
    {
      var a1b0, b1;
      ghost var q, e;
      a1b0, q := FindEndOfRun(a0, tail, less, n, k, |c| - 1);
      if a1b0 == tail {
        PassLast(less, c, n, k, runs);
        runs := runs + 1;
        return;
      }
      b1, e := FindEndOfRun(a1b0, tail, less, n, q, |c| - 1);
      PassStep(less, c, n, k, runs, q, e);
      assert forall i: nat :: i < |n| ==> n[i] in c;
      ghost var m := InplaceMerge(a0, a1b0, b1, less, n, k, q, e);
      n, k, a0, runs := m, e, b1, runs + 1;
    }
    PassLast(less, c, n, k, runs);
  }

  /** list_sort. */
  method Sort(head: Elem, tail: Elem, less: (Elem, Elem) -> bool, ghost c: seq<Elem>) returns (ghost n: seq<Elem>)
    requires Linked(c) && c[0] == head && c[|c| - 1] == tail && Order(less, Inside(c))
    modifies c
    ensures Linked(n) && |n| == |c| && n[0] == head && n[|n| - 1] == tail
    ensures Sorted(less, Inside(n)) && Stable(less, Inside(c), Inside(n))
  {
    hide Pass, PassRuns, Inside, Sorted, Stable, Order, Descents;
    ghost var s := Inside(c);
    n := c;
    StableSame(less, s);
    var more := true;
    while more
      invariant Linked(n) && |n| == |c| && n[0] == head && n[|n| - 1] == tail && (forall x :: x in n ==> x in c)
      invariant Stable(less, s, Inside(n)) && (more || Sorted(less, Inside(n)))
      decreases more, Descents(less, Inside(n))
    {
      PassKeeps(less, s, Inside(n));
      assert forall i: nat :: i < |n| ==> n[i] in c;
      var runs;
      runs, n := MergePass(head, tail, less, n);
      more := runs > 1;
    }
  }

  lemma PassKeeps<T>(less: (T, T) -> bool, s: seq<T>, t: seq<T>)
    requires Order(less, s) && Stable(less, s, t)
    ensures Order(less, t) && Stable(less, s, Pass(less, t)) && Order(less, Pass(less, t))
    ensures PassRuns(less, t) > 1 ==> Descents(less, Pass(less, t)) < Descents(less, t)
    ensures PassRuns(less, t) <= 1 ==> Sorted(less, Pass(less, t))
  {
    hide Pass, PassRuns, Descents, Sorted, Order, Before;
    SameElements(s, t);
    OrderOf(less, s, t);
    PassStable(less, t);
    StableTwice(less, s, t, Pass(less, t));
    SameElements(s, Pass(less, t));
    OrderOf(less, s, Pass(less, t));
    PassProgress(less, t);
  }

  // ---- reversing ----

  /** The list with its interior the other way round. */
  ghost function Reversed<T>(c: seq<T>): (r: seq<T>)
    requires |c| >= 2
    ensures |r| == |c|
  {
    seq(|c|, i requires 0 <= i < |c| => if i == 0 || i == |c| - 1 then c[i] else c[|c| - 1 - i])
  }

  /** Reversing twice restores the list, and reversing once turns every pair of interior elements round. */
  lemma ReversedTwice<T>(c: seq<T>)
    requires |c| >= 2
    ensures Reversed(Reversed(c)) == c
    ensures forall i: nat, j: nat :: 0 < i < j < |c| - 1 ==> Before(Inside(Reversed(c)), c[j], c[i])
  {
    forall i: nat, j: nat | 0 < i < j < |c| - 1 ensures Before(Inside(Reversed(c)), c[j], c[i]) {
      var r := Inside(Reversed(c));
      var x, y := |c| - 2 - j, |c| - 2 - i;
      assert r[x] == c[j] && r[y] == c[i];
    }
  }

  lemma ReversedNoDup<T>(c: seq<T>)
    requires |c| >= 2 && NoDup(c)
    ensures NoDup(Reversed(c))
  {
  }

  /** The elements before `k` have been turned round, the others not. */
  ghost predicate Turned(c: seq<Elem>, k: nat, i: nat)
    requires 0 < i < |c| - 1
    reads c
  {
    if i < k then c[i].next == c[i - 1] && c[i].prev == c[i + 1]
    else c[i].next == c[i + 1] && c[i].prev == c[i - 1]
  }

  /** All elements turned and the four outer pointers exchanged. */
  lemma ReversedLinked(c: seq<Elem>)
    requires |c| > 2 && NoDup(c) && c[0].prev == null && c[|c| - 1].next == null
    requires c[0].next == c[|c| - 2] && c[|c| - 1].prev == c[1] && c[|c| - 2].prev == c[0] && c[1].next == c[|c| - 1]
    requires forall i: nat :: 0 < i < |c| - 1 ==> (i > 1 ==> c[i].next == c[i - 1]) && (i + 2 < |c| ==> c[i].prev == c[i + 1])
    ensures Linked(Reversed(c))
  {
    ReversedNoDup(c);
    hide NoDup;
    var n := Reversed(c);
    forall i: nat | i + 1 < |n| ensures Link(n, i) {
    }
  }

  /** list_reverse. */
  method Reverse(head: Elem, tail: Elem, ghost c: seq<Elem>)
    requires Linked(c) && c[0] == head && c[|c| - 1] == tail
    modifies c
    ensures Linked(Reversed(c))
  {
    assert Link(c, 0);
    if head.next != tail {
      var e := head.next;
      ghost var k := 1;
      forall i: nat | 0 < i < |c| - 1 ensures Turned(c, 1, i) { assert Link(c, i) && Link(c, i - 1); }
      assert Link(c, |c| - 2);
      while e != tail
        invariant 1 <= k < |c| && e == c[k]
        invariant forall i: nat :: 0 < i < |c| - 1 ==> Turned(c, k, i)
        invariant head.next == c[1] && head.prev == null && tail.prev == c[|c| - 2] && tail.next == null
        decreases |c| - k
      {
        assert Turned(c, k, k);
        label before:
        e.prev, e.next := e.next, e.prev;
        ghost var done := k + 1;
        forall i: nat | 0 < i < |c| - 1 ensures Turned(c, done, i) { assert old@before(Turned(c, k, i)); }
        e, k := e.prev, done;
      }
      assert Turned(c, k, 1) && Turned(c, k, |c| - 2);
      label turned:
      head.next, tail.prev := tail.prev, head.next;
      var hp, tn := head.next.prev, tail.prev.next;
      head.next.prev := tn;
      tail.prev.next := hp;
      forall i: nat | 0 < i < |c| - 1
        ensures (i > 1 ==> c[i].next == c[i - 1]) && (i + 2 < |c| ==> c[i].prev == c[i + 1])
      {
        assert old@turned(Turned(c, k, i));
      }
      ReversedLinked(c);
    } else {
      assert Reversed(c) == c;
    }
  }

  // ---- ordered insertion ----

  /** list_insert_ordered. */
  method InsertOrdered(head: Elem, tail: Elem, elem: Elem, less: (Elem, Elem) -> bool, ghost c: seq<Elem>)
    returns (ghost b: nat)
    requires Linked(c) && c[0] == head && c[|c| - 1] == tail && elem !in c
    modifies c, elem
    ensures 0 < b < |c| && Linked(c[..b] + [elem] + c[b..])
    ensures (forall i: nat :: 0 < i < b ==> !less(elem, c[i])) && (b < |c| - 1 ==> less(elem, c[b]))
  {
    assert Link(c, 0);
    var e := head.next;
    b := 1;
    while e != tail && !less(elem, e)
      invariant 0 < b < |c| && e == c[b]
      invariant forall i: nat :: 0 < i < b ==> !less(elem, c[i])
      decreases |c| - b
    {
      assert Link(c, b);
      e, b := e.next, b + 1;
    }
    Insert(e, elem, c, b);
  }

  /** Put after everything it is not less than, the new element keeps a sorted list sorted. */
  lemma InsertOrderedSorted<T>(less: (T, T) -> bool, s: seq<T>, x: T, b: nat)
    requires Order(less, s + [x]) && Sorted(less, s) && b <= |s|
    requires (forall i: nat :: i < b ==> !less(x, s[i])) && (b < |s| ==> less(x, s[b]))
    ensures Sorted(less, s[..b] + [x] + s[b..])
  {
    var t := s[..b] + [x] + s[b..];
    assert forall y :: y in s ==> y in s + [x];
    assert x in s + [x];
    forall i: nat | 0 < i < |t| ensures InStep(less, t, i) {
      if i < b {
        assert InStep(less, s, i);
      } else if i > b + 1 {
        assert InStep(less, s, i - 1);
      } else if i == b + 1 {
        assert s[b] in s && t[b] == x && t[b + 1] == s[b];
      }
    }
  }

  // ---- removing adjacent duplicates ----

  predicate Alike<T>(less: (T, T) -> bool, x: T, y: T) { !less(x, y) && !less(y, x) }

  /** What list_unique keeps of `s` after an element `x` that it has kept. */
  function Kept<T>(less: (T, T) -> bool, x: T, s: seq<T>): seq<T> {
    if s == [] then [] else if Alike(less, x, s[0]) then Kept(less, x, s[1..]) else [s[0]] + Kept(less, s[0], s[1..])
  }
  /** And what it takes out. */
  function Dropped<T>(less: (T, T) -> bool, x: T, s: seq<T>): seq<T> {
    if s == [] then [] else if Alike(less, x, s[0]) then [s[0]] + Dropped(less, x, s[1..]) else Dropped(less, s[0], s[1..])
  }

  /** Nothing is lost, and everything taken out is alike to something kept. */
  lemma {:induction false} UniqueSplits<T>(less: (T, T) -> bool, x: T, s: seq<T>)
    ensures multiset(Kept(less, x, s)) + multiset(Dropped(less, x, s)) == multiset(s)
    ensures forall y :: y in Dropped(less, x, s) ==> exists k :: k in [x] + Kept(less, x, s) && !less(k, y) && !less(y, k)
  {
    if s != [] {
      assert s == [s[0]] + s[1..];
      if Alike(less, x, s[0]) {
        UniqueSplits(less, x, s[1..]);
        assert x in [x] + Kept(less, x, s);
      } else {
        UniqueSplits(less, s[0], s[1..]);
        forall y | y in Dropped(less, x, s) ensures exists k :: k in [x] + Kept(less, x, s) && !less(k, y) && !less(y, k) {
          var k :| k in [s[0]] + Kept(less, s[0], s[1..]) && !less(k, y) && !less(y, k);
          assert k in [x] + Kept(less, x, s);
        }
      }
    }
  }

  /** Whatever the list, no two neighbours that are left are equal. */
  lemma {:induction false} UniqueApart<T>(less: (T, T) -> bool, x: T, s: seq<T>, i: nat)
    requires i < |Kept(less, x, s)|
    ensures var k := [x] + Kept(less, x, s); less(k[i], k[i + 1]) || less(k[i + 1], k[i])
    decreases |s|
  {
    if Alike(less, x, s[0]) {
      UniqueApart(less, x, s[1..], i);
    } else if i > 0 {
      UniqueApart(less, s[0], s[1..], i - 1);
    }
  }

  lemma SkipAlike<T>(less: (T, T) -> bool, x: T, s: seq<T>)
    requires s != [] && Order(less, [x] + s) && Sorted(less, [x] + s)
    ensures Order(less, [x] + s[1..]) && Sorted(less, [x] + s[1..])
  {
    var all, t := [x] + s, [x] + s[1..];
    OrderOf(less, all, t);
    forall i: nat | 0 < i < |t| ensures InStep(less, t, i) {
      assert InStep(less, all, i + 1) && t[i] == all[i + 1];
      if i == 1 { SortedPair(less, all, 0, 2); }
    }
  }

  lemma StartRest<T>(less: (T, T) -> bool, x: T, s: seq<T>)
    requires s != [] && Order(less, [x] + s) && Sorted(less, [x] + s)
    ensures s == [s[0]] + s[1..] && Order(less, s) && Sorted(less, s) && !less(s[0], x)
  {
    var all := [x] + s;
    assert InStep(less, all, 1) && all[1..] == s;
    SortedTail(less, all);
    OrderOf(less, all, s);
  }

  ghost predicate Increasing<T>(less: (T, T) -> bool, s: seq<T>) {
    forall i: nat :: 0 < i < |s| ==> Rises(less, s, i)
  }
  predicate Rises<T>(less: (T, T) -> bool, s: seq<T>, i: nat)
    requires 0 < i < |s|
  {
    less(s[i - 1], s[i])
  }

  lemma IncreasingCons<T>(less: (T, T) -> bool, x: T, s: seq<T>)
    requires s != [] && less(x, s[0]) && Increasing(less, s)
    ensures Increasing(less, [x] + s)
  {
    forall i: nat | 0 < i < |s| + 1 ensures Rises(less, [x] + s, i) {
      if i > 1 { assert Rises(less, s, i - 1); }
    }
  }

  /** From a sorted list, list_unique keeps a strictly increasing one. */
  lemma {:induction false} UniqueIncreasing<T>(less: (T, T) -> bool, x: T, s: seq<T>)
    requires Order(less, [x] + s) && Sorted(less, [x] + s)
    ensures Increasing(less, [x] + Kept(less, x, s))
  {
    hide Order, Sorted;
    if s != [] {
      StartRest(less, x, s);
      if Alike(less, x, s[0]) {
        SkipAlike(less, x, s);
        UniqueIncreasing(less, x, s[1..]);
      } else {
        UniqueIncreasing(less, s[0], s[1..]);
        IncreasingCons(less, x, [s[0]] + Kept(less, s[0], s[1..]));
      }
    }
  }

  /** In the middle of list_unique: `n` is what is left of `c`, kept up to `k`. */
  ghost predicate Pruning<T>(less: (T, T) -> bool, c: seq<T>, n: seq<T>, k: nat) {
    && |c| > 2 && 0 < k < |n| - 1 && n[..2] == c[..2] && n[|n| - 1] == c[|c| - 1]
    && n[2..k + 1] + Kept(less, n[k], n[k + 1..|n| - 1]) == Kept(less, c[1], c[2..|c| - 1])
  }

  /** And `m` is `d` with what has been taken out so far. */
  ghost predicate Collecting<T>(less: (T, T) -> bool, c: seq<T>, d: seq<T>, n: seq<T>, m: seq<T>, k: nat) {
    && |c| > 2 && |d| >= 2 && 0 < k < |n| - 1 && |m| >= |d|
    && m[..|d| - 1] == d[..|d| - 1] && m[|m| - 1] == d[|d| - 1]
    && m[|d| - 1..|m| - 1] + Dropped(less, n[k], n[k + 1..|n| - 1]) == Dropped(less, c[1], c[2..|c| - 1])
  }

  /** The two lists have no element in common and took theirs from `c` and `d`. */
  ghost predicate Dealt<T>(c: seq<T>, d: seq<T>, n: seq<T>, m: seq<T>) {
    (forall x :: x in n ==> x in c) && (forall x :: x in m ==> x in c || x in d) && (forall x :: x in n ==> x !in m)
  }

  lemma DealtStart<T>(c: seq<T>, d: seq<T>)
    requires forall x :: x in c ==> x !in d
    ensures Dealt(c, d, c, d)
  {
  }

  lemma PruneStart<T>(less: (T, T) -> bool, c: seq<T>)
    requires |c| > 2
    ensures Pruning(less, c, c, 1)
  {
    var none: seq<T> := [];
    assert c[2..2] == none;
    assert none + Kept(less, c[1], c[2..|c| - 1]) == Kept(less, c[1], c[2..|c| - 1]);
  }

  lemma CollectStart<T>(less: (T, T) -> bool, c: seq<T>, d: seq<T>)
    requires |c| > 2 && |d| >= 2
    ensures Collecting(less, c, d, c, d, 1)
  {
    var none: seq<T> := [];
    assert d[|d| - 1..|d| - 1] == none;
    assert none + Dropped(less, c[1], c[2..|c| - 1]) == Dropped(less, c[1], c[2..|c| - 1]);
  }

  lemma PruneDrop<T>(less: (T, T) -> bool, c: seq<T>, n: seq<T>, k: nat)
    requires Pruning(less, c, n, k) && k < |n| - 2 && Alike(less, n[k], n[k + 1])
    ensures Pruning(less, c, n[..k + 1] + n[k + 2..], k)
  {
    var x, rest := n[k], n[k + 1..|n| - 1];
    assert rest[1..] == n[k + 2..|n| - 1];
    assert Kept(less, x, rest) == Kept(less, x, rest[1..]);
    hide Kept, Alike;
    var n' := n[..k + 1] + n[k + 2..];
    assert n'[2..k + 1] == n[2..k + 1] && n'[k + 1..|n'| - 1] == rest[1..];
  }

  lemma CollectDrop<T>(less: (T, T) -> bool, c: seq<T>, d: seq<T>, n: seq<T>, m: seq<T>, k: nat)
    requires Collecting(less, c, d, n, m, k) && k < |n| - 2 && Alike(less, n[k], n[k + 1])
    ensures Collecting(less, c, d, n[..k + 1] + n[k + 2..], m[..|m| - 1] + [n[k + 1]] + m[|m| - 1..], k)
  {
    var x, rest := n[k], n[k + 1..|n| - 1];
    assert rest[1..] == n[k + 2..|n| - 1];
    assert Dropped(less, x, rest) == [rest[0]] + Dropped(less, x, rest[1..]);
    hide Dropped, Alike;
    var n', m' := n[..k + 1] + n[k + 2..], m[..|m| - 1] + [n[k + 1]] + m[|m| - 1..];
    assert n'[k + 1..|n'| - 1] == rest[1..];
    assert m'[|d| - 1..|m'| - 1] == m[|d| - 1..|m| - 1] + [rest[0]];
  }

  lemma PruneKeep<T>(less: (T, T) -> bool, c: seq<T>, n: seq<T>, k: nat)
    requires Pruning(less, c, n, k) && k < |n| - 2 && !Alike(less, n[k], n[k + 1])
    ensures Pruning(less, c, n, k + 1)
  {
    var x, rest := n[k], n[k + 1..|n| - 1];
    assert rest[1..] == n[k + 2..|n| - 1];
    assert Kept(less, x, rest) == [rest[0]] + Kept(less, rest[0], rest[1..]);
    hide Kept, Alike;
    assert n[2..k + 2] == n[2..k + 1] + [rest[0]];
  }

  lemma CollectKeep<T>(less: (T, T) -> bool, c: seq<T>, d: seq<T>, n: seq<T>, m: seq<T>, k: nat)
    requires Collecting(less, c, d, n, m, k) && k < |n| - 2 && !Alike(less, n[k], n[k + 1])
    ensures Collecting(less, c, d, n, m, k + 1)
  {
    var x, rest := n[k], n[k + 1..|n| - 1];
    assert rest[1..] == n[k + 2..|n| - 1];
    assert Dropped(less, x, rest) == Dropped(less, rest[0], rest[1..]);
  }

  lemma PruneEnd<T>(less: (T, T) -> bool, c: seq<T>, n: seq<T>, k: nat)
    requires Pruning(less, c, n, k) && k == |n| - 2
    ensures n == c[..2] + Kept(less, c[1], c[2..|c| - 1]) + [c[|c| - 1]]
  {
    assert n == n[..2] + n[2..k + 1] + [n[k + 1]];
  }

  lemma CollectEnd<T>(less: (T, T) -> bool, c: seq<T>, d: seq<T>, n: seq<T>, m: seq<T>, k: nat)
    requires Collecting(less, c, d, n, m, k) && k == |n| - 2
    ensures m == d[..|d| - 1] + Dropped(less, c[1], c[2..|c| - 1]) + [d[|d| - 1]]
  {
    assert m == m[..|d| - 1] + m[|d| - 1..|m| - 1] + [m[|m| - 1]];
  }

  lemma LinkAt(c: seq<Elem>, i: nat)
    requires Linked(c) && (i == 0 || i + 1 < |c|)
    ensures i + 1 < |c| && c[i].next == c[i + 1]
  {
    assert Link(c, i);
  }

  lemma DistinctEnds(c: seq<Elem>)
    requires Linked(c)
    ensures |c| >= 2 && forall i: nat :: i + 1 < |c| ==> c[i] != c[|c| - 1]
  {
  }

  lemma AtEnd(c: seq<Elem>, k: nat)
    requires Linked(c) && k + 1 < |c| && c[k + 1] == c[|c| - 1]
    ensures k == |c| - 2
  {
  }

  /** list_unique over a list `c`, appending what it takes out to the list `d`, or to none if `duplicates` is null. */
  method Unique(head: Elem, tail: Elem, duplicates: Elem?, less: (Elem, Elem) -> bool, ghost c: seq<Elem>,
                ghost d: seq<Elem>)
    returns (ghost n: seq<Elem>, ghost m: seq<Elem>)
    requires Linked(c) && c[0] == head && c[|c| - 1] == tail
    requires if duplicates == null then d == [] else Linked(d) && d[|d| - 1] == duplicates
    requires forall x :: x in c ==> x !in d
    modifies c, d
    ensures Linked(n) && (if duplicates == null then m == [] else Linked(m))
    ensures |c| == 2 ==> n == c && m == d
    ensures |c| > 2 ==> n == c[..2] + Kept(less, c[1], c[2..|c| - 1]) + [tail]
    ensures |c| > 2 && duplicates != null ==>
      m == d[..|d| - 1] + Dropped(less, c[1], c[2..|c| - 1]) + [duplicates]
  {
    hide Pruning, Collecting, Kept, Dropped, Dealt, Linked;
    n, m := c, d;
    DealtStart(c, d);
    LinkAt(c, 0);
    if head.next == tail {
      DistinctEnds(c);
      return;
    }
    DistinctEnds(c);
    LinkAt(c, 1);
    var elem: Elem := head.next;
    var next: Elem := elem.next;
    ghost var k := 1;
    PruneStart(less, c);
    if duplicates != null {
      DistinctEnds(d);
      CollectStart(less, c, d);
    }
    while next != tail
      invariant Linked(n) && 0 < k < |n| - 1 && elem == n[k] && next == n[k + 1] && n[|n| - 1] == tail
      invariant if duplicates == null then m == [] else Linked(m) && m != [] && m[|m| - 1] == duplicates
      invariant Pruning(less, c, n, k) && Dealt(c, d, n, m)
      invariant duplicates != null ==> Collecting(less, c, d, n, m, k)
      decreases |n| - k
    {
      DistinctEnds(n);
      if !less(elem, next) && !less(next, elem) {
        PruneDrop(less, c, n, k);
        if duplicates != null {
          CollectDrop(less, c, d, n, m, k);
          n, m := TakeOut(next, duplicates, c, d, n, m, k + 1);
        } else {
          n := Discard(next, c, n, k + 1);
        }
      } else {
        PruneKeep(less, c, n, k);
        if duplicates != null {
          CollectKeep(less, c, d, n, m, k);
        }
        elem, k := next, k + 1;
      }
      LinkAt(n, k);
      next := elem.next;
    }
    AtEnd(n, k);
    PruneEnd(less, c, n, k);
    if duplicates != null {
      CollectEnd(less, c, d, n, m, k);
    }
  }

  lemma DealtMove<T>(c: seq<T>, d: seq<T>, n: seq<T>, m: seq<T>, i: nat)
    requires Dealt(c, d, n, m) && NoDup(n) && i < |n| && m != []
    ensures Dealt(c, d, n[..i] + n[i + 1..], m[..|m| - 1] + [n[i]] + m[|m| - 1..])
  {
    var n', m' := n[..i] + n[i + 1..], m[..|m| - 1] + [n[i]] + m[|m| - 1..];
    assert forall x :: x in n' ==> x in n && x != n[i];
    assert forall x :: x in m' ==> x in m || x == n[i];
  }

  lemma DealtApart(c: seq<Elem>, d: seq<Elem>, n: seq<Elem>, m: seq<Elem>)
    requires Dealt(c, d, n, m)
    ensures forall j: nat :: j < |n| ==> n[j] in c && n[j] !in m
    ensures forall j: nat :: j < |m| ==> (m[j] in c || m[j] in d) && m[j] !in n
  {
  }

  lemma LinkedNoDup(c: seq<Elem>)
    requires Linked(c)
    ensures NoDup(c) && |c| >= 2
  {
  }

  /** Unlink one element and push it onto the back of the other list. */
  method TakeOut(elem: Elem, tail: Elem, ghost c: seq<Elem>, ghost d: seq<Elem>, ghost n: seq<Elem>, ghost m: seq<Elem>,
                 ghost i: nat)
    returns (ghost n': seq<Elem>, ghost m': seq<Elem>)
    requires Linked(n) && Linked(m) && 0 < i < |n| - 1 && elem == n[i] && tail == m[|m| - 1] && Dealt(c, d, n, m)
    modifies c, d
    ensures n' == n[..i] + n[i + 1..] && Linked(n')
    ensures m' == m[..|m| - 1] + [elem] + m[|m| - 1..] && Linked(m')
    ensures Dealt(c, d, n', m')
  {
    hide Linked, Link, Dealt, NoDup;
    LinkedNoDup(n);
    LinkedNoDup(m);
    DealtApart(c, d, n, m);
    n' := n[..i] + n[i + 1..];
    m' := m[..|m| - 1] + [elem] + m[|m| - 1..];
    DealtMove(c, d, n, m, i);
    assert elem in n && elem !in m;
    var next := RemoveElem(elem, n, i);
    assert Linked(m);
    Insert(tail, elem, m, |m| - 1);
  }

  /** Unlink one element and forget it. */
  method Discard(elem: Elem, ghost c: seq<Elem>, ghost n: seq<Elem>, ghost i: nat) returns (ghost n': seq<Elem>)
    requires Linked(n) && 0 < i < |n| - 1 && elem == n[i] && Dealt(c, [], n, [])
    modifies c
    ensures n' == n[..i] + n[i + 1..] && Linked(n') && Dealt(c, [], n', [])
  {
    n' := n[..i] + n[i + 1..];
    assert forall j: nat :: j < |n| ==> n[j] in n;
    assert forall x :: x in n' ==> x in n;
    var next := RemoveElem(elem, n, i);
  }
}
