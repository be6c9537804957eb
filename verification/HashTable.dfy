/** lib/kernel/hash.c: a chained hash table that resizes itself, refining a set keyed by equivalence. */
module HashTables {
  import opened Common

  // ---- bits ----

  /** Bitwise and. */
  function And(x: nat, y: nat): nat {
    if x == 0 || y == 0 then 0 else 2 * And(x / 2, y / 2) + (if x % 2 == 1 && y % 2 == 1 then 1 else 0)
  }

  /** turn_off_least_1bit. */
  function TurnOff(x: nat): nat
    requires x > 0
  {
    And(x, x - 1)
  }

  predicate IsPowerOf2(x: nat) { x != 0 && TurnOff(x) == 0 }

  /** The power of two given by the highest bit. */
  function HighBit(x: nat): (p: nat)
    requires x > 0
    ensures 0 < p <= x < 2 * p
  {
    if x == 1 then 1 else 2 * HighBit(x / 2)
  }

  lemma {:induction false} AndSelf(x: nat)
    ensures And(x, x) == x
  {
    if x > 0 { AndSelf(x / 2); }
  }

  lemma TurnOffOdd(y: nat)
    ensures TurnOff(2 * y + 1) == 2 * y
  {
    if y > 0 { AndSelf(y); }
  }

  lemma TurnOffEven(y: nat)
    requires y > 0
    ensures TurnOff(2 * y) == 2 * TurnOff(y)
  {
    assert (2 * y - 1) / 2 == y - 1 && (2 * y - 1) % 2 == 1;
  }

  /** Turning a bit off makes the number smaller and leaves the highest bit, unless it was the only one. */
  lemma {:induction false} TurnOffKeeps(x: nat)
    requires x > 0
    ensures TurnOff(x) < x
    ensures TurnOff(x) == 0 <==> HighBit(x) == x
    ensures TurnOff(x) > 0 ==> HighBit(TurnOff(x)) == HighBit(x)
  {
    hide And, TurnOff, HighBit;
    var y := x / 2;
    HighBitDoubles(y);
    if x % 2 == 1 {
      TurnOffOdd(y);
    } else {
      TurnOffEven(y);
      TurnOffKeeps(y);
      if TurnOff(y) > 0 { HighBitDoubles(TurnOff(y)); }
    }
  }

  lemma HighBitDoubles(y: nat)
    ensures y > 0 ==> HighBit(2 * y) == 2 * HighBit(y) && HighBit(2 * y + 1) == 2 * HighBit(y)
    ensures HighBit(1) == 1
  {
  }

  lemma PowerIsHighBit(x: nat)
    requires x > 0
    ensures IsPowerOf2(x) <==> HighBit(x) == x
  {
    TurnOffKeeps(x);
  }

  /** For a power of two, masking with one less takes the remainder. */
  lemma {:induction false} MaskIsRemainder(h: nat, m: nat)
    requires m > 0 && HighBit(m) == m
    ensures And(h, m - 1) == h % m
  {
    if m > 1 {
      var k := m / 2;
      assert m == 2 * k && HighBit(k) == k;
      MaskIsRemainder(h / 2, k);
      assert (m - 1) / 2 == k - 1 && (m - 1) % 2 == 1;
      assert And(h, m - 1) == 2 * (h / 2 % k) + h % 2;
      Halves(h, k);
    }
  }

  lemma Halves(h: nat, k: nat)
    requires k > 0
    ensures 2 * (h / 2 % k) + h % 2 == h % (2 * k)
  {
    var q, r := h / 2 / k, h / 2 % k;
    assert h / 2 == q * k + r;
    assert h == 2 * (q * k + r) + h % 2 == q * (2 * k) + (2 * r + h % 2);
    Remainder(h, 2 * k, q, 2 * r + h % 2);
  }

  lemma Remainder(h: nat, m: nat, q: nat, r: nat)
    requires h == q * m + r && r < m
    ensures h % m == r
  {
    var a := h / m;
    assert h == a * m + h % m;
    if a < q { Times(a + 1, q, m); }
    if q < a { Times(q + 1, a, m); }
  }

  // ---- elements and buckets ----

  predicate Equal<E>(less: (E, E) -> bool, x: E, y: E) { !less(x, y) && !less(y, x) }

  /** What the table asks of its functions: equality by `less` is an equivalence, and equal elements hash alike. */
  ghost predicate Good<E(!new)>(hash: E -> nat, less: (E, E) -> bool) {
    && (forall x :: !less(x, x))
    && (forall x, y, z :: Equal(less, x, y) && Equal(less, y, z) ==> Equal(less, x, z))
    && (forall x, y :: Equal(less, x, y) ==> hash(x) == hash(y))
  }

  /** find_bucket's index. */
  function Index(h: nat, cnt: nat): nat
    requires cnt > 0
  {
    And(h, cnt - 1)
  }

  function Flat<E>(buckets: seq<seq<E>>): seq<E> {
    if buckets == [] then [] else buckets[0] + Flat(buckets[1..])
  }

  /** Every element is in the bucket its hash selects. */
  ghost predicate Placed<E>(hash: E -> nat, buckets: seq<seq<E>>) {
    forall i: nat, k: nat :: i < |buckets| && k < |buckets[i]| ==> InPlace(hash, buckets, i, k)
  }
  ghost predicate InPlace<E>(hash: E -> nat, buckets: seq<seq<E>>, i: nat, k: nat)
    requires i < |buckets| && k < |buckets[i]|
  {
    Index(hash(buckets[i][k]), |buckets|) == i
  }

  /** No two elements are equal. */
  ghost predicate Apart<E>(less: (E, E) -> bool, s: seq<E>) {
    forall i: nat, j: nat :: i < j < |s| ==> !Equal(less, s[i], s[j])
  }

  lemma {:induction false} FlatJoin<E>(a: seq<seq<E>>, b: seq<seq<E>>)
    ensures Flat(a + b) == Flat(a) + Flat(b)
  {
    if a == [] {
      assert a + b == b;
    } else {
      FlatJoin(a[1..], b);
      assert (a + b)[1..] == a[1..] + b && (a + b)[0] == a[0];
      Rebracket(a[0], Flat(a[1..]), Flat(b));
    }
  }

  lemma Rebracket<E>(a: seq<E>, b: seq<E>, c: seq<E>)
    ensures (a + b) + c == a + (b + c)
  {
  }

  lemma SplitAt<T>(s: seq<T>, i: nat)
    requires i < |s|
    ensures s == s[..i] + ([s[i]] + s[i + 1..])
  {
  }

  /** Splitting a table at one bucket. */
  lemma FlatAt<E>(buckets: seq<seq<E>>, i: nat)
    requires i < |buckets|
    ensures Flat(buckets) == Flat(buckets[..i]) + buckets[i] + Flat(buckets[i + 1..])
  {
    hide Flat;
    SplitAt(buckets, i);
    FlatJoin(buckets[..i], [buckets[i]] + buckets[i + 1..]);
    FlatJoin([buckets[i]], buckets[i + 1..]);
    FlatOne(buckets[i]);
    Rebracket(Flat(buckets[..i]), buckets[i], Flat(buckets[i + 1..]));
  }

  lemma FlatPut<E>(buckets: seq<seq<E>>, i: nat, b: seq<E>)
    requires i < |buckets|
    ensures multiset(Flat(buckets[i := b])) == multiset(Flat(buckets)) - multiset(buckets[i]) + multiset(b)
    ensures multiset(buckets[i]) <= multiset(Flat(buckets))
  {
    var n := buckets[i := b];
    FlatAt(buckets, i);
    FlatAt(n, i);
    assert n[..i] == buckets[..i] && n[i + 1..] == buckets[i + 1..];
  }

  /** An element of the table, by bucket and place. */
  lemma {:induction false} InSomeBucket<E>(buckets: seq<seq<E>>, x: E) returns (i: nat, k: nat)
    requires x in Flat(buckets)
    ensures i < |buckets| && k < |buckets[i]| && buckets[i][k] == x
  {
    if x in buckets[0] {
      i := 0;
      k :| k < |buckets[0]| && buckets[0][k] == x;
    } else {
      i, k := InSomeBucket(buckets[1..], x);
      i := i + 1;
    }
  }

  lemma ApartOnce<E(!new)>(hash: E -> nat, less: (E, E) -> bool, s: seq<E>, i: nat, j: nat)
    requires Good(hash, less) && Apart(less, s) && i < |s| && j < |s| && Equal(less, s[i], s[j])
    ensures i == j
  {
  }

  /** Rearranging keeps elements apart. */
  lemma ApartSame<E(!new)>(hash: E -> nat, less: (E, E) -> bool, s: seq<E>, t: seq<E>)
    requires Good(hash, less) && Apart(less, s) && multiset(t) == multiset(s)
    ensures Apart(less, t)
  {
    forall i: nat, j: nat | i < j < |t| ensures !Equal(less, t[i], t[j]) {
      assert t[i] in multiset(t) && t[j] in multiset(t);
      var a: nat :| a < |s| && s[a] == t[i];
      var b: nat :| b < |s| && s[b] == t[j];
      if Equal(less, t[i], t[j]) {
        ApartOnce(hash, less, s, a, b);
        Twice(t, i, j);
        Once(hash, less, s, a);
      }
    }
  }

  lemma Twice<E>(t: seq<E>, i: nat, j: nat)
    requires i < j < |t| && t[i] == t[j]
    ensures multiset(t)[t[i]] >= 2
  {
    assert t == t[..j] + [t[j]] + t[j + 1..];
    assert t[i] in t[..j];
  }

  lemma Once<E(!new)>(hash: E -> nat, less: (E, E) -> bool, s: seq<E>, a: nat)
    requires Good(hash, less) && Apart(less, s) && a < |s|
    ensures multiset(s)[s[a]] == 1
  {
    var x := s[a];
    assert s == s[..a] + [x] + s[a + 1..];
    assert x !in s[..a] && x !in s[a + 1..];
  }

  // ---- the table ----

  ghost predicate TableOk<E(!new)>(hash: E -> nat, less: (E, E) -> bool, buckets: seq<seq<E>>) {
    && Good(hash, less) && |buckets| >= 4 && IsPowerOf2(|buckets|)
    && Placed(hash, buckets) && Apart(less, Flat(buckets))
  }

  lemma IndexFits(h: nat, cnt: nat)
    requires IsPowerOf2(cnt)
    ensures Index(h, cnt) == h % cnt < cnt
  {
    PowerIsHighBit(cnt);
    MaskIsRemainder(h, cnt);
  }

  /** An equal element can only be in the bucket find_bucket names. */
  lemma EqualInBucket<E(!new)>(hash: E -> nat, less: (E, E) -> bool, buckets: seq<seq<E>>, x: E, e: E)
    requires TableOk(hash, less, buckets) && x in Flat(buckets) && Equal(less, x, e)
    ensures Index(hash(e), |buckets|) < |buckets| && x in buckets[Index(hash(e), |buckets|)]
  {
    hide And, Index, IsPowerOf2, Flat, Apart;
    IndexFits(hash(e), |buckets|);
    var i, k := InSomeBucket(buckets, x);
    assert InPlace(hash, buckets, i, k);
  }

  lemma {:induction false} BucketInTable<E>(buckets: seq<seq<E>>, i: nat, x: E)
    requires i < |buckets| && x in buckets[i]
    ensures x in Flat(buckets)
  {
    FlatAt(buckets, i);
  }

  /** insert_elem of an element with no equal in the table. */
  lemma InsertOk<E(!new)>(hash: E -> nat, less: (E, E) -> bool, buckets: seq<seq<E>>, e: E)
    requires TableOk(hash, less, buckets) && forall x :: x in Flat(buckets) ==> !Equal(less, x, e)
    ensures var i := Index(hash(e), |buckets|);
      && i < |buckets| && TableOk(hash, less, buckets[i := [e] + buckets[i]])
      && multiset(Flat(buckets[i := [e] + buckets[i]])) == multiset(Flat(buckets)) + multiset{e}
  {
    hide And, Index, IsPowerOf2, Flat, Placed, Good, Apart, Equal;
    IndexFits(hash(e), |buckets|);
    var i := Index(hash(e), |buckets|);
    var n := buckets[i := [e] + buckets[i]];
    FlatPut(buckets, i, [e] + buckets[i]);
    PushPlaced(hash, buckets, i, e);
    FirstApart(less, e, Flat(buckets));
    ApartSame(hash, less, [e] + Flat(buckets), Flat(n));
  }

  /** remove_elem of the element at place `k` of bucket `i`. */
  lemma RemoveOk<E(!new)>(hash: E -> nat, less: (E, E) -> bool, buckets: seq<seq<E>>, i: nat, k: nat)
    requires TableOk(hash, less, buckets) && i < |buckets| && k < |buckets[i]|
    ensures var n := buckets[i := buckets[i][..k] + buckets[i][k + 1..]];
      && TableOk(hash, less, n)
      && multiset(Flat(n)) == multiset(Flat(buckets)) - multiset{buckets[i][k]} && buckets[i][k] in Flat(buckets)
      && (forall x :: x in Flat(n) ==> x in Flat(buckets) && !Equal(less, x, buckets[i][k]))
  {
    hide And, Index, IsPowerOf2, Flat;
    var b, x := buckets[i], buckets[i][k];
    var n := buckets[i := b[..k] + b[k + 1..]];
    assert b == b[..k] + [x] + b[k + 1..];
    FlatPut(buckets, i, b[..k] + b[k + 1..]);
    forall j: nat, m: nat | j < |n| && m < |n[j]| ensures InPlace(hash, n, j, m) {
      if j != i { assert InPlace(hash, buckets, j, m); } else { assert InPlace(hash, buckets, j, if m < k then m else m + 1); }
    }
    BucketInTable(buckets, i, x);
    assert multiset(Flat(n) + [x]) == multiset(Flat(buckets));
    ApartSame(hash, less, Flat(buckets), Flat(n) + [x]);
    LastApart(less, Flat(n), x);
    SameMembers(Flat(n) + [x], Flat(buckets));
  }

  lemma FirstApart<E>(less: (E, E) -> bool, x: E, s: seq<E>)
    requires Apart(less, s) && forall y :: y in s ==> !Equal(less, y, x)
    ensures Apart(less, [x] + s)
  {
    var t := [x] + s;
    forall i: nat, j: nat | i < j < |t| ensures !Equal(less, t[i], t[j]) {
      assert t[j] == s[j - 1] && s[j - 1] in s;
      if i > 0 { assert t[i] == s[i - 1] && !Equal(less, s[i - 1], s[j - 1]); } else { assert !Equal(less, s[j - 1], x); }
    }
  }

  lemma LastApart<E>(less: (E, E) -> bool, s: seq<E>, x: E)
    requires Apart(less, s + [x])
    ensures Apart(less, s) && forall y :: y in s ==> !Equal(less, y, x)
  {
    var t := s + [x];
    assert forall i: nat :: i < |s| ==> t[i] == s[i];
    forall i: nat | i < |s| ensures !Equal(less, s[i], x) {
      assert t[i] == s[i] && t[|s|] == x;
      assert !Equal(less, t[i], t[|s|]);
    }
  }

  lemma SameMembers<E>(s: seq<E>, t: seq<E>)
    requires multiset(s) == multiset(t)
    ensures forall x :: x in s ==> x in t
  {
    forall x | x in s ensures x in t { assert x in multiset(s); }
  }

  /** The number of buckets for `cnt` elements: the largest power of two that leaves two or more to a bucket, but at
      least four. */
  ghost predicate Best(n: nat, cnt: nat) {
    IsPowerOf2(n) && 4 <= n && if cnt / 2 < 4 then n == 4 else n <= cnt / 2 < 2 * n
  }

  class HashTable<E(!new)> {
    const hash: E -> nat
    const less: (E, E) -> bool
    var buckets: seq<seq<E>>
    var elemCnt: nat

    ghost predicate Valid()
      reads this
    {
      TableOk(hash, less, buckets) && elemCnt == |Flat(buckets)|
    }

    /** The elements, in the order the iterator meets them. */
    ghost function Elems(): seq<E>
      reads this
    {
      Flat(buckets)
    }

    /** hash_init and hash_clear: four empty buckets. */
    constructor (h: E -> nat, l: (E, E) -> bool)
      requires Good(h, l)
      ensures Valid() && Elems() == [] && hash == h && less == l && Best(|buckets|, elemCnt)
    {
      hash, less, buckets, elemCnt := h, l, [[], [], [], []], 0;
      new;
      FlatEmpty<E>(4);
      assert buckets == seq(4, _ => []);
      FourBuckets();
    }

    /** find_elem in the bucket with index `i`. */
    method FindElem(i: nat, e: E) returns (k: Option<nat>)
      requires i < |buckets|
      ensures k.Some? ==> k.value < |buckets[i]| && Equal(less, buckets[i][k.value], e)
      ensures k.None? ==> forall x :: x in buckets[i] ==> !Equal(less, x, e)
    {
      var j := 0;
      while j < |buckets[i]|
        invariant j <= |buckets[i]| && forall m: nat :: m < j ==> !Equal(less, buckets[i][m], e)
      {
        if !less(buckets[i][j], e) && !less(e, buckets[i][j]) {
          return Some(j);
        }
        j := j + 1;
      }
      return None;
    }

    /** find_bucket, then find_elem. */
    method Locate(e: E) returns (i: nat, k: Option<nat>)
      requires Valid()
      ensures i == Index(hash(e), |buckets|) < |buckets|
      ensures k.Some? ==> k.value < |buckets[i]| && Equal(less, buckets[i][k.value], e) && buckets[i][k.value] in Elems()
      ensures k.None? ==> forall x :: x in Elems() ==> !Equal(less, x, e)
    {
      hide And, Index, Flat, Apart, Placed;
      IndexFits(hash(e), |buckets|);
      i := Index(hash(e), |buckets|);
      k := FindElem(i, e);
      if k.Some? {
        BucketInTable(buckets, i, buckets[i][k.value]);
      } else {
        forall x | x in Elems() ensures !Equal(less, x, e) {
          if Equal(less, x, e) { EqualInBucket(hash, less, buckets, x, e); }
        }
      }
    }

    /** hash_find. */
    method Find(e: E) returns (r: Option<E>)
      requires Valid()
      ensures r.Some? ==> r.value in Elems() && !less(r.value, e) && !less(e, r.value)
      ensures r.None? ==> forall x :: x in Elems() ==> less(x, e) || less(e, x)
    {
      var i, k := Locate(e);
      r := if k.Some? then Some(buckets[i][k.value]) else None;
    }

    /** hash_insert; `room` says whether a new bucket array can be allocated. */
    method Insert(e: E, room: bool) returns (old_: Option<E>)
      requires Valid()
      modifies this
      ensures Valid()
      ensures old_.Some? ==> old_.value in old(Elems()) && !less(old_.value, e) && !less(e, old_.value)
      ensures old_.None? ==> forall x :: x in old(Elems()) ==> less(x, e) || less(e, x)
      ensures multiset(Elems()) == multiset(old(Elems())) + if old_.None? then multiset{e} else multiset{}
      ensures if room then Best(|buckets|, elemCnt) else |buckets| == |old(buckets)|
    {
      hide And, Index, Flat, Apart, Placed;
      var i, k := Locate(e);
      if k.Some? {
        old_ := Some(buckets[i][k.value]);
      } else {
        old_ := None;
        InsertOk(hash, less, buckets, e);
        SizeOf(Flat(buckets[i := [e] + buckets[i]]), Flat(buckets) + [e]);
        elemCnt := elemCnt + 1;
        buckets := buckets[i := [e] + buckets[i]];
      }
      Rehash(room);
    }

    /** hash_replace. */
    method Replace(e: E, room: bool) returns (old_: Option<E>)
      requires Valid()
      modifies this
      ensures Valid()
      ensures old_.Some? ==> old_.value in old(Elems()) && !less(old_.value, e) && !less(e, old_.value)
      ensures old_.None? ==> forall x :: x in old(Elems()) ==> less(x, e) || less(e, x)
      ensures multiset(Elems()) ==
        multiset(old(Elems())) - (if old_.Some? then multiset{old_.value} else multiset{}) + multiset{e}
      ensures if room then Best(|buckets|, elemCnt) else |buckets| == |old(buckets)|
    {
      hide And, Index, Flat, Apart, Placed;
      var i, k := Locate(e);
      old_ := None;
      if k.Some? {
        old_ := Some(buckets[i][k.value]);
        RemoveAt(i, k.value, e);
      }
      InsertOk(hash, less, buckets, e);
      SizeOf(Flat(buckets[i := [e] + buckets[i]]), Flat(buckets) + [e]);
      elemCnt := elemCnt + 1;
      buckets := buckets[i := [e] + buckets[i]];
      Rehash(room);
    }

    /** hash_delete. */
    method Delete(e: E, room: bool) returns (found: Option<E>)
      requires Valid()
      modifies this
      ensures Valid()
      ensures found.Some? ==> found.value in old(Elems()) && !less(found.value, e) && !less(e, found.value)
      ensures found.None? ==> forall x :: x in old(Elems()) ==> less(x, e) || less(e, x)
      ensures multiset(Elems()) == multiset(old(Elems())) - if found.Some? then multiset{found.value} else multiset{}
      ensures if room && found.Some? then Best(|buckets|, elemCnt) else |buckets| == |old(buckets)|
    {
      hide And, Index, Flat, Apart, Placed;
      var i, k := Locate(e);
      found := None;
      if k.Some? {
        found := Some(buckets[i][k.value]);
        RemoveAt(i, k.value, e);
        assert multiset(Elems()) == multiset(old(Elems())) - multiset{found.value};
        Rehash(room);
      } else {
        assert multiset(Elems()) == multiset(old(Elems())) - multiset{};
      }
    }

    /** remove_elem. */
    method RemoveAt(i: nat, k: nat, ghost e: E)
      requires Valid() && i < |buckets| && k < |buckets[i]| && Equal(less, buckets[i][k], e)
      modifies this
      ensures Valid() && |buckets| == |old(buckets)|
      ensures multiset(Elems()) == multiset(old(Elems())) - multiset{old(buckets)[i][k]}
      ensures forall x :: x in Elems() ==> !Equal(less, x, e)
    {
      hide And, Index, Flat, Apart, Placed;
      ghost var x := buckets[i][k];
      RemoveOk(hash, less, buckets, i, k);
      ghost var n := buckets[i := buckets[i][..k] + buckets[i][k + 1..]];
      SizeOf(Flat(n) + [x], Flat(buckets));
      forall y | y in Flat(n) ensures !Equal(less, y, e) { NotEqualTo(hash, less, y, x, e); }
      elemCnt := elemCnt - 1;
      buckets := buckets[i := buckets[i][..k] + buckets[i][k + 1..]];
    }

    /** The bucket count rehash aims at. */
    method BestBucketCnt() returns (n: nat)
      ensures Best(n, elemCnt)
    {
      n := elemCnt / 2;
      if n < 4 {
        n := 4;
      }
      ghost var m := n;
      while !IsPowerOf2(n)
        invariant 0 < n <= m && HighBit(n) == HighBit(m)
        decreases n
      {
        TurnOffKeeps(n);
        n := TurnOff(n);
      }
      PowerIsHighBit(n);
      HighBitOf4();
    }

    /** rehash. */
    method Rehash(room: bool)
      requires Valid()
      modifies `buckets
      ensures Valid() && multiset(Elems()) == multiset(old(Elems()))
      ensures if room then Best(|buckets|, elemCnt) else buckets == old(buckets)
    {
      hide And, Index, Flat, Apart, Placed, IsPowerOf2;
      var oldBuckets := buckets;
      var n := BestBucketCnt();
      if n == |oldBuckets| || !room {
        return;
      }
      buckets := seq(n, _ => []);
      FlatEmpty<E>(n);
      PlacedEmpty<E>(hash, n);
      assert oldBuckets[..0] == seq(0, _ => []);
      FlatEmpty<E>(0);
      for i := 0 to |oldBuckets|
        invariant |buckets| == n && Placed(hash, buckets) && multiset(Flat(buckets)) == multiset(Flat(oldBuckets[..i]))
      {
        buckets := MoveBucket(oldBuckets[i], buckets);
        assert oldBuckets[..i + 1] == oldBuckets[..i] + [oldBuckets[i]];
        FlatJoin(oldBuckets[..i], [oldBuckets[i]]);
        FlatOne(oldBuckets[i]);
      }
      assert oldBuckets[..|oldBuckets|] == oldBuckets;
      ApartSame(hash, less, Flat(oldBuckets), Flat(buckets));
      SizeOf(Flat(oldBuckets), Flat(buckets));
    }

    /** The inner loop of rehash: push each element of an old bucket onto the front of its new one. */
    method MoveBucket(bucket: seq<E>, into: seq<seq<E>>) returns (moved: seq<seq<E>>)
      requires IsPowerOf2(|into|) && Placed(hash, into)
      ensures |moved| == |into| && Placed(hash, moved)
      ensures multiset(Flat(moved)) == multiset(Flat(into)) + multiset(bucket)
    {
      hide And, Index, Flat, Placed, IsPowerOf2;
      moved := into;
      for k := 0 to |bucket|
        invariant |moved| == |into| && Placed(hash, moved)
        invariant multiset(Flat(moved)) == multiset(Flat(into)) + multiset(bucket[..k])
      {
        IndexFits(hash(bucket[k]), |moved|);
        var i := Index(hash(bucket[k]), |moved|);
        PushPlaced(hash, moved, i, bucket[k]);
        FlatPut(moved, i, [bucket[k]] + moved[i]);
        assert bucket[..k + 1] == bucket[..k] + [bucket[k]];
        moved := moved[i := [bucket[k]] + moved[i]];
      }
      assert bucket[..|bucket|] == bucket;
    }
  }

  /** struct hash_iterator: the bucket it is in and the place there, -1 at the bucket's head. */
  class HashIterator<E(!new)> {
    const table: HashTable<E>
    var bucket: nat
    var place: int
    ghost var met: nat

    /** `met` elements have been met, and the position is that of the last one. */
    ghost predicate Valid()
      reads this, table
    {
      && table.Valid() && bucket < |table.buckets| && -1 <= place < |table.buckets[bucket]|
      && met == |Flat(table.buckets[..bucket])| + place + 1
    }

    /** hash_first. */
    constructor (h: HashTable<E>)
      requires h.Valid()
      ensures Valid() && table == h && met == 0
    {
      table, bucket, place, met := h, 0, -1, 0;
      new;
      assert table.buckets[..0] == seq(0, _ => []);
      FlatEmpty<E>(0);
    }

    /** hash_next: the next element in order, each once, then none. */
    method Next() returns (r: Option<E>)
      requires Valid()
      modifies this
      ensures met <= |old(table.Elems())| && table.Valid()
      ensures old(met) < |table.Elems()| ==> Valid() && met == old(met) + 1 && r == Some(table.Elems()[old(met)])
      ensures old(met) == |table.Elems()| ==> r.None?
      ensures old(met) <= |table.Elems()|
    {
      hide And, Index, Apart, Placed, IsPowerOf2, Flat;
      MetAt(table.buckets, bucket);
      place := place + 1;
      while place == |table.buckets[bucket]|
        invariant bucket < |table.buckets| && 0 <= place <= |table.buckets[bucket]|
        invariant met == old(met) == |Flat(table.buckets[..bucket])| + place
        decreases |table.buckets| - bucket
      {
        MetAt(table.buckets, bucket);
        bucket := bucket + 1;
        if bucket >= |table.buckets| {
          assert table.buckets[..bucket] == table.buckets;
          return None;
        }
        place := 0;
      }
      FlatAt(table.buckets, bucket);
      MetAt(table.buckets, bucket);
      Middle(Flat(table.buckets[..bucket]), table.buckets[bucket], Flat(table.buckets[bucket + 1..]), place);
      met := met + 1;
      return Some(table.buckets[bucket][place]);
    }
  }

  lemma Middle<E>(a: seq<E>, b: seq<E>, c: seq<E>, k: nat)
    requires k < |b|
    ensures |a| + k < |a + b + c| && (a + b + c)[|a| + k] == b[k]
  {
  }

  /** How many elements come before the bucket after `i`. */
  lemma MetAt<E>(buckets: seq<seq<E>>, i: nat)
    requires i < |buckets|
    ensures |Flat(buckets[..i + 1])| == |Flat(buckets[..i])| + |buckets[i]| <= |Flat(buckets)|
  {
    assert buckets[..i + 1] == buckets[..i] + [buckets[i]];
    FlatJoin(buckets[..i], [buckets[i]]);
    FlatOne(buckets[i]);
    FlatAt(buckets, i);
  }

  /** Meeting the elements in the order of `Elems` meets each of them exactly once. */
  lemma EachOnce<E(!new)>(hash: E -> nat, less: (E, E) -> bool, buckets: seq<seq<E>>, x: E)
    requires TableOk(hash, less, buckets) && x in Flat(buckets)
    ensures exists k: nat :: k < |Flat(buckets)| && Flat(buckets)[k] == x &&
              forall m: nat :: m < |Flat(buckets)| && Flat(buckets)[m] == x ==> m == k
  {
    var s := Flat(buckets);
    var k: nat :| k < |s| && s[k] == x;
    forall m: nat | m < |s| && s[m] == x ensures m == k { ApartOnce(hash, less, s, m, k); }
  }

  lemma NotEqualTo<E(!new)>(hash: E -> nat, less: (E, E) -> bool, y: E, x: E, e: E)
    requires Good(hash, less) && !Equal(less, y, x) && Equal(less, x, e)
    ensures !Equal(less, y, e)
  {
    assert Equal(less, e, x);
  }

  lemma SizeOf<E>(s: seq<E>, t: seq<E>)
    requires multiset(s) == multiset(t)
    ensures |s| == |t|
  {
    assert |multiset(s)| == |s| && |multiset(t)| == |t|;
  }

  lemma {:induction false} FlatEmpty<E>(n: nat)
    ensures Flat(seq<seq<E>>(n, _ => [])) == []
  {
    if n > 0 {
      FlatEmpty<E>(n - 1);
      assert seq<seq<E>>(n, _ => [])[1..] == seq<seq<E>>(n - 1, _ => []);
    }
  }

  lemma PlacedEmpty<E>(hash: E -> nat, n: nat)
    ensures Placed(hash, seq<seq<E>>(n, _ => []))
  {
  }

  lemma FlatOne<E>(b: seq<E>)
    ensures Flat([b]) == b
  {
  }

  lemma FourBuckets()
    ensures IsPowerOf2(4)
  {
    HighBitOf4();
    PowerIsHighBit(4);
  }

  lemma HighBitOf4()
    ensures HighBit(4) == 4
  {
    assert HighBit(2) == 2;
  }

  lemma PushPlaced<E>(hash: E -> nat, buckets: seq<seq<E>>, i: nat, e: E)
    requires Placed(hash, buckets) && i < |buckets| && Index(hash(e), |buckets|) == i
    ensures Placed(hash, buckets[i := [e] + buckets[i]])
  {
    hide And, Index;
    var n := buckets[i := [e] + buckets[i]];
    forall j: nat, k: nat | j < |n| && k < |n[j]| ensures InPlace(hash, n, j, k) {
      if j != i { assert InPlace(hash, buckets, j, k); } else if k > 0 { assert InPlace(hash, buckets, j, k - 1); }
    }
  }
}
