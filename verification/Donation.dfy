/**
 Priority donation: a thread's effective priority is the largest base priority among the
 threads that wait, directly or through others, for a lock it holds. The kernel follows at
 most MAX_DEPTH such links.
 */
module Donation {
  import opened Seqs
  import opened Synch

  const MAX_DEPTH: nat := 8

  function Prio(prio: map<Tid, int>, t: Tid): int { if t in prio then prio[t] else 0 }

  /** The threads queued on the locks `ls`, in list order. */
  function Queued(sy: Sync, ls: seq<SemaId>): seq<Tid> {
    if ls == [] then [] else Waiters(sy, ls[0]) + Queued(sy, ls[1..])
  }

  lemma {:induction false} QueuedMember(sy: Sync, ls: seq<SemaId>, w: Tid)
    ensures w in Queued(sy, ls) <==> exists l :: l in ls && w in Waiters(sy, l)
  {
    if ls != [] {
      QueuedMember(sy, ls[1..], w);
      assert ls == [ls[0]] + ls[1..];
    }
  }

  /** The threads that wait for a lock `t` holds. */
  function Donors(sy: Sync, t: Tid): seq<Tid> { Queued(sy, Held(sy, t)) }

  /** Effective priority of `t`, following at most `d` links. */
  function Donated(prio: map<Tid, int>, sy: Sync, t: Tid, d: nat): int
    decreases d, 0
  {
    if d == 0 then Prio(prio, t) else Best(prio, sy, Donors(sy, t), d - 1, Prio(prio, t))
  }

  /** The largest of `acc` and the donated priorities of `ws`. */
  function Best(prio: map<Tid, int>, sy: Sync, ws: seq<Tid>, d: nat, acc: int): int
    decreases d, 1, |ws|
  {
    if ws == [] then acc else Best(prio, sy, ws[1..], d, Max(acc, Donated(prio, sy, ws[0], d)))
  }

  function Max(a: int, b: int): int { if b > a then b else a }

  /** Best is an upper bound. */
  lemma {:induction false} BestBounds(prio: map<Tid, int>, sy: Sync, ws: seq<Tid>, d: nat, acc: int, w: Tid)
    ensures acc <= Best(prio, sy, ws, d, acc)
    ensures w in ws ==> Donated(prio, sy, w, d) <= Best(prio, sy, ws, d, acc)
    decreases |ws|
  {
    if ws != [] {
      BestBounds(prio, sy, ws[1..], d, Max(acc, Donated(prio, sy, ws[0], d)), w);
      assert ws == [ws[0]] + ws[1..];
    }
  }

  /** Best is reached, by `acc` or by the thread returned. */
  lemma {:induction false} BestReached(prio: map<Tid, int>, sy: Sync, ws: seq<Tid>, d: nat, acc: int)
    returns (w: Tid)
    ensures Best(prio, sy, ws, d, acc) == acc
         || (w in ws && Best(prio, sy, ws, d, acc) == Donated(prio, sy, w, d))
    decreases |ws|
  {
    w := 0;
    if ws != [] {
      w := BestReached(prio, sy, ws[1..], d, Max(acc, Donated(prio, sy, ws[0], d)));
      if w !in ws[1..] || Best(prio, sy, ws, d, acc) != Donated(prio, sy, w, d) {
        w := ws[0];
      }
    }
  }

  // ---- the meaning: a maximum over waiting chains ----

  /** p[i+1] waits for a lock held by p[i]. */
  ghost predicate Chain(sy: Sync, p: seq<Tid>) {
    p != [] && forall i, j :: 0 <= i && j == i + 1 && j < |p| ==> p[j] in Donors(sy, p[i])
  }

  ghost function Last(p: seq<Tid>): Tid requires p != [] { p[|p| - 1] }

  /** Donated covers every chain of at most `d` links. */
  lemma {:induction false} DonatedCovers(prio: map<Tid, int>, sy: Sync, p: seq<Tid>, d: nat)
    requires Chain(sy, p) && |p| <= d + 1
    ensures Prio(prio, Last(p)) <= Donated(prio, sy, p[0], d)
    decreases d
  {
    if |p| > 1 {
      DonatedCovers(prio, sy, p[1..], d - 1);
      BestBounds(prio, sy, Donors(sy, p[0]), d - 1, Prio(prio, p[0]), p[1]);
    } else if d > 0 {
      BestBounds(prio, sy, Donors(sy, p[0]), d - 1, Prio(prio, p[0]), 0);
    }
  }

  /** Donated is reached at the end of some chain of at most `d` links. */
  lemma {:induction false} DonatedReached(prio: map<Tid, int>, sy: Sync, t: Tid, d: nat) returns (p: seq<Tid>)
    ensures Chain(sy, p) && p[0] == t && |p| <= d + 1
    ensures Prio(prio, Last(p)) == Donated(prio, sy, t, d)
    decreases d
  {
    p := [t];
    if d > 0 && Donated(prio, sy, t, d) != Prio(prio, t) {
      var w := BestReached(prio, sy, Donors(sy, t), d - 1, Prio(prio, t));
      var q := DonatedReached(prio, sy, w, d - 1);
      p := [t] + q;
    }
  }

  /** When no chain from `t` has more than MAX_DEPTH links, nothing is missed, however long the chains considered. */
  lemma UnboundedWhenShort(prio: map<Tid, int>, sy: Sync, t: Tid, p: seq<Tid>)
    requires forall q :: Chain(sy, q) && q[0] == t ==> |q| <= MAX_DEPTH + 1
    requires Chain(sy, p) && p[0] == t
    ensures Prio(prio, Last(p)) <= Donated(prio, sy, t, MAX_DEPTH)
  {
    DonatedCovers(prio, sy, p, MAX_DEPTH);
  }

  /** Threads that wait for each other in a circle donate to each other: all get the same priority when the
      circle is short enough. */
  lemma CycleOfTwo(prio: map<Tid, int>, sy: Sync, a: Tid, b: Tid)
    requires Donors(sy, a) == [b] && Donors(sy, b) == [a]
    ensures Donated(prio, sy, a, MAX_DEPTH) == Donated(prio, sy, b, MAX_DEPTH)
    ensures Donated(prio, sy, a, MAX_DEPTH) == if Prio(prio, a) > Prio(prio, b) then Prio(prio, a) else Prio(prio, b)
  {
    DonatedCovers(prio, sy, [a, b], MAX_DEPTH);
    DonatedCovers(prio, sy, [b, a], MAX_DEPTH);
    var p := DonatedReached(prio, sy, a, MAX_DEPTH);
    var q := DonatedReached(prio, sy, b, MAX_DEPTH);
    CycleStays(sy, a, b, p);
    CycleStays(sy, b, a, q);
  }

  lemma {:induction false} CycleStays(sy: Sync, a: Tid, b: Tid, p: seq<Tid>)
    requires Donors(sy, a) == [b] && Donors(sy, b) == [a] && Chain(sy, p) && p[0] == a
    ensures Last(p) == a || Last(p) == b
    decreases |p|
  {
    if |p| > 1 {
      CycleStays(sy, b, a, p[1..]);
    }
  }

  // ---- how donation changes with the state ----

  lemma OwnPriorityCounts(prio: map<Tid, int>, sy: Sync, t: Tid, d: nat)
    ensures Prio(prio, t) <= Donated(prio, sy, t, d)
  {
    DonatedCovers(prio, sy, [t], d);
  }

  lemma {:induction false} DeeperIsHigher(prio: map<Tid, int>, sy: Sync, t: Tid, d: nat)
    ensures Donated(prio, sy, t, d) <= Donated(prio, sy, t, d + 1)
  {
    var p := DonatedReached(prio, sy, t, d);
    DonatedCovers(prio, sy, p, d + 1);
  }

  /** Outside `skip` the two states agree, and nobody in `skip` waits for anything. */
  ghost predicate Agree(prio: map<Tid, int>, sy: Sync, prio': map<Tid, int>, sy': Sync, skip: set<Tid>) {
    forall x: Tid ::
      && (x !in skip ==> Prio(prio, x) == Prio(prio', x) && Donors(sy, x) == Donors(sy', x))
      && (forall w :: w in Donors(sy, x) ==> w !in skip)
  }

  /** A change confined to threads that nobody counts on as waiters is not felt by anyone else. */
  lemma {:induction false} DonatedFrame(prio: map<Tid, int>, sy: Sync, prio': map<Tid, int>, sy': Sync,
                                        skip: set<Tid>, t: Tid, d: nat)
    requires Agree(prio, sy, prio', sy', skip) && t !in skip
    ensures Donated(prio, sy, t, d) == Donated(prio', sy', t, d)
    decreases d, 0
  {
    if d > 0 {
      BestFrame(prio, sy, prio', sy', skip, Donors(sy, t), d - 1, Prio(prio, t));
    }
  }

  lemma {:induction false} BestFrame(prio: map<Tid, int>, sy: Sync, prio': map<Tid, int>, sy': Sync,
                                     skip: set<Tid>, ws: seq<Tid>, d: nat, acc: int)
    requires Agree(prio, sy, prio', sy', skip) && forall w :: w in ws ==> w !in skip
    ensures Best(prio, sy, ws, d, acc) == Best(prio', sy', ws, d, acc)
    decreases d, 1, |ws|
  {
    if ws != [] {
      DonatedFrame(prio, sy, prio', sy', skip, ws[0], d);
      BestFrame(prio, sy, prio', sy', skip, ws[1..], d, Max(acc, Donated(prio, sy, ws[0], d)));
    }
  }

  /** The queue of `ls` looks only at the locks in it. */
  lemma {:induction false} QueuedFrame(sy: Sync, sy': Sync, ls: seq<SemaId>)
    requires forall l :: l in ls ==> Waiters(sy, l) == Waiters(sy', l)
    ensures Queued(sy, ls) == Queued(sy', ls)
  {
    if ls != [] {
      assert ls == [ls[0]] + ls[1..];
      QueuedFrame(sy, sy', ls[1..]);
    }
  }

  /** What a thread loses with one lock is at most what that lock's waiters gave. */
  lemma LosingALock(prio: map<Tid, int>, sy: Sync, sy': Sync, t: Tid, l: SemaId)
    requires Agree(prio, sy, prio, sy', {t})
    requires forall w :: w in Donors(sy, t) ==> w in Donors(sy', t) || w in Waiters(sy', l)
    ensures Donated(prio, sy, t, MAX_DEPTH)
         <= Best(prio, sy', Waiters(sy', l), MAX_DEPTH - 1, Donated(prio, sy', t, MAX_DEPTH))
  {
    var w := BestReached(prio, sy, Donors(sy, t), MAX_DEPTH - 1, Prio(prio, t));
    BestBounds(prio, sy', Donors(sy', t), MAX_DEPTH - 1, Prio(prio, t), w);
    BestBounds(prio, sy', Waiters(sy', l), MAX_DEPTH - 1, Donated(prio, sy', t, MAX_DEPTH), w);
    if w in Donors(sy, t) {
      DonatedFrame(prio, sy, prio, sy', {t}, w, MAX_DEPTH - 1);
    }
  }

  /** Gaining a lock can only raise. */
  lemma GainingALock(prio: map<Tid, int>, sy: Sync, sy': Sync, t: Tid)
    requires Agree(prio, sy, prio, sy', {t})
    requires forall w :: w in Donors(sy, t) ==> w in Donors(sy', t)
    ensures Donated(prio, sy, t, MAX_DEPTH) <= Donated(prio, sy', t, MAX_DEPTH)
  {
    var w := BestReached(prio, sy, Donors(sy, t), MAX_DEPTH - 1, Prio(prio, t));
    BestBounds(prio, sy', Donors(sy', t), MAX_DEPTH - 1, Prio(prio, t), w);
    if w in Donors(sy, t) {
      DonatedFrame(prio, sy, prio, sy', {t}, w, MAX_DEPTH - 1);
    }
  }
}
