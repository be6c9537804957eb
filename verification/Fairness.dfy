/**
 Who runs next: equal threads take turns in the order they became ready, a thread runs for one
 time slice, and a sleeper wakes at its time and not before.
 */
module Fairness {
  import opened Common
  import opened Seqs
  import opened Synch
  import opened Donation
  import opened Scheduler
  import opened SchedulerProofs

  /** `a` stands before `b`. */
  ghost predicate Before<T>(s: seq<T>, a: T, b: T) {
    exists i: nat, j: nat :: i < j < |s| && s[i] == a && s[j] == b
  }

  lemma BeforeAt<T>(s: seq<T>, i: nat, j: nat)
    requires i < j < |s|
    ensures Before(s, s[i], s[j])
  {
  }

  lemma Last<T>(s: seq<T>, x: T, a: T)
    requires a in s
    ensures Before(s + [x], a, x)
  {
    var i: nat :| i < |s| && s[i] == a;
    assert (s + [x])[i] == a && (s + [x])[|s|] == x;
  }

  lemma PushBefore<T>(s: seq<T>, x: T, a: T, b: T)
    requires a in s && b in s && x !in s
    ensures Before(s + [x], a, b) <==> Before(s, a, b)
  {
    var r := s + [x];
    if Before(r, a, b) {
      var i: nat, j: nat :| i < j < |r| && r[i] == a && r[j] == b;
      assert j < |s|;
      BeforeAt(s, i, j);
    }
    if Before(s, a, b) {
      var i: nat, j: nat :| i < j < |s| && s[i] == a && s[j] == b;
      BeforeAt(r, i, j);
    }
  }

  lemma CutBefore<T>(s: seq<T>, n: nat, a: T, b: T)
    requires n < |s| && a != s[n] && b != s[n]
    ensures Before(s, a, b) ==> Before(s[..n] + s[n + 1..], a, b)
  {
    var r := s[..n] + s[n + 1..];
    if Before(s, a, b) {
      var i: nat, j: nat :| i < j < |s| && s[i] == a && s[j] == b;
      var i', j' := if i < n then i else i - 1, if j < n then j else j - 1;
      assert r[i'] == a && r[j'] == b;
    }
  }

  lemma CutAfter<T>(s: seq<T>, n: nat, a: T, b: T)
    requires n < |s|
    ensures Before(s[..n] + s[n + 1..], a, b) ==> Before(s, a, b)
  {
    var r := s[..n] + s[n + 1..];
    if Before(r, a, b) {
      var i: nat, j: nat :| i < j < |r| && r[i] == a && r[j] == b;
      var i', j' := if i < n then i else i + 1, if j < n then j else j + 1;
      assert s[i'] == a && s[j'] == b;
    }
  }

  /** Taking one element out leaves the others in their order. */
  lemma RemoveBefore<T>(s: seq<T>, x: T, a: T, b: T)
    requires NoDup(s) && a != x && b != x && x in s
    ensures Before(Remove(s, x), a, b) <==> Before(s, a, b)
  {
    hide Before;
    var n: nat :| n < |s| && s[n] == x;
    RemoveAt(s, n);
    CutBefore(s, n, a, b);
    CutAfter(s, n, a, b);
  }

  // ---- thread_yield ----

  /** The state schedule() is entered in by thread_yield of a thread other than the idle one. */
  lemma YieldShape(k: Kernel)
    requires Lists(k) && k.cur != k.idle
    ensures var q := k.ready + [k.cur];
      && NoDup(q) && k.cur !in k.ready
      && Yield(k).cur in q && Yield(k).ready == Remove(q, Yield(k).cur)
      && Yield(k).prio == k.prio && Yield(k).sy == k.sy && Yield(k).idle == k.idle
      && (forall t: Tid :: Eff(Yield(k), t) == Eff(k, t))
      && (exists i: nat :: FirstMaximum(k, q, i, Yield(k).cur))
  {
    var q := k.ready + [k.cur];
    assert Placed(k, Some(k.cur), k.cur);
    NoDupPush(k.ready, k.cur);
    var k1 := SetStatus(k, k.cur, Ready).(ready := q);
    assert forall t: Tid :: Eff(k1, t) == Eff(k, t);
    var i := HighestFromIsFirstMaximum(k1, q[0], q[1..]);
    assert [q[0]] + q[1..] == q;
    assert FirstMaximum(k1, q, i, Highest(k1, q));
    assert FirstMaximum(k, q, i, Highest(k1, q)) by { SameMaximum(k, k1, q, i, Highest(k1, q)); }
  }

  lemma SameMaximum(k: Kernel, k1: Kernel, q: seq<Tid>, i: nat, m: Tid)
    requires FirstMaximum(k1, q, i, m) && forall t: Tid :: Eff(k1, t) == Eff(k, t)
    ensures FirstMaximum(k, q, i, m)
  {
    hide Eff;
  }

  /** A yield comes back to the same thread exactly when every ready thread is strictly below it. */
  lemma YieldComesBack(k: Kernel)
    requires Lists(k) && k.cur != k.idle
    ensures Yield(k).cur == k.cur <==> forall t :: t in k.ready ==> Eff(k, t) < Eff(k, k.cur)
  {
    YieldShape(k);
    hide Eff, Yield;
    var q := k.ready + [k.cur];
    var i: nat :| FirstMaximum(k, q, i, Yield(k).cur);
    if Yield(k).cur == k.cur {
      assert i == |k.ready|;
      forall t | t in k.ready ensures Eff(k, t) < Eff(k, k.cur) {
        var j: nat :| j < |k.ready| && k.ready[j] == t;
        assert q[j] == t;
      }
    }
    if forall t :: t in k.ready ==> Eff(k, t) < Eff(k, k.cur) {
      assert q[|k.ready|] == k.cur;
    }
  }

  /** Of several highest threads the one that has been ready longest runs; the one that yields is the last of them. */
  lemma YieldPicksFirst(k: Kernel, t: Tid)
    requires Lists(k) && k.cur != k.idle && t in k.ready && t != Yield(k).cur && Eff(k, t) == Eff(k, Yield(k).cur)
    ensures Yield(k).cur in k.ready && Before(k.ready, Yield(k).cur, t)
  {
    YieldShape(k);
    hide Eff, Yield;
    var q := k.ready + [k.cur];
    var i: nat :| FirstMaximum(k, q, i, Yield(k).cur);
    var j: nat :| j < |k.ready| && k.ready[j] == t;
    assert q[j] == t;
    assert i < j;
    BeforeAt(k.ready, i, j);
  }

  /** After a yield the ready list holds who was ready and the thread that yielded, except the one that runs now; they
      stand in their old order, the thread that yielded behind all of them. */
  lemma YieldOrder(k: Kernel, a: Tid, b: Tid)
    requires Lists(k) && k.cur != k.idle
    ensures a in Yield(k).ready <==> (a in k.ready || a == k.cur) && a != Yield(k).cur
    ensures a in k.ready && b in k.ready && a in Yield(k).ready && b in Yield(k).ready ==>
      (Before(Yield(k).ready, a, b) <==> Before(k.ready, a, b))
    ensures a in k.ready && a in Yield(k).ready && Yield(k).cur != k.cur ==> Before(Yield(k).ready, a, k.cur)
  {
    YieldShape(k);
    hide Yield;
    var q := k.ready + [k.cur];
    RemoveIsErase(q, Yield(k).cur);
    if a in k.ready && a != Yield(k).cur {
      if b in k.ready && b != Yield(k).cur {
        PushBefore(k.ready, k.cur, a, b);
        RemoveBefore(q, Yield(k).cur, a, b);
      }
      if Yield(k).cur != k.cur {
        Last(k.ready, k.cur, a);
        RemoveBefore(q, Yield(k).cur, a, k.cur);
      }
    }
  }

  function Yields(k: Kernel, n: nat): Kernel
    decreases n
  {
    if n == 0 then k else Yields(Yield(k), n - 1)
  }

  ghost predicate AllEqual(k: Kernel) { forall t :: t in k.ready ==> Eff(k, t) == Eff(k, k.cur) }

  lemma EqualYield(k: Kernel)
    requires Lists(k) && k.cur != k.idle && AllEqual(k) && k.ready != []
    ensures Yield(k).cur == k.ready[0] && Yield(k).ready == k.ready[1..] + [k.cur]
    ensures Lists(Yield(k)) && Yield(k).cur != Yield(k).idle && AllEqual(Yield(k))
  {
    YieldShape(k);
    YieldLists(k);
    assert Placed(k, Some(k.cur), k.ready[0]);
    EqualFirst(k);
    RemoveAt(k.ready + [k.cur], 0);
    assert (k.ready + [k.cur])[1..] == k.ready[1..] + [k.cur];
  }

  lemma EqualFirst(k: Kernel)
    requires Lists(k) && k.cur != k.idle && AllEqual(k) && k.ready != []
    ensures Yield(k).cur == k.ready[0] && AllEqual(Yield(k))
  {
    YieldShape(k);
    hide Eff, Yield, Lists;
    var q := k.ready + [k.cur];
    var i: nat :| FirstMaximum(k, q, i, Yield(k).cur);
    assert q[0] == k.ready[0] && k.ready[0] in k.ready;
    assert q[i] == k.cur || q[i] in k.ready;
    assert i == 0;
    forall t | t in Yield(k).ready ensures Eff(Yield(k), t) == Eff(Yield(k), Yield(k).cur) {
      assert t in k.ready || t == k.cur;
    }
  }

  /** Whose turn it is after `n` turns, when `c` has it and `r` come after. */
  function Turn<T>(c: T, r: seq<T>, n: nat): T { ([c] + r)[n % (|r| + 1)] }

  lemma RingStep<T>(c: T, r: seq<T>, n: nat)
    requires r != [] && n > 0
    ensures Turn(r[0], r[1..] + [c], n - 1) == Turn(c, r, n)
  {
    var m := |r| + 1;
    var i := (n - 1) % m;
    ModStep(n - 1, m);
  }

  lemma ModStep(n: nat, m: nat)
    requires m > 0
    ensures (n + 1) % m == if n % m == m - 1 then 0 else n % m + 1
  {
    var q, r := n / m, n % m;
    assert n == q * m + r;
    if r == m - 1 {
      assert n + 1 == (q + 1) * m;
      ModOf(q + 1, 0, m);
    } else {
      ModOf(q, r + 1, m);
    }
  }

  lemma ModOf(q: nat, r: nat, m: nat)
    requires r < m
    ensures (q * m + r) % m == r
  {
    var d, e := (q * m + r) / m, (q * m + r) % m;
    assert q * m + r == d * m + e;
    assert (q - d) * m == e - r && (d - q) * m == r - e;
    if q > d { Times(1, q - d, m); }
    if q < d { Times(1, d - q, m); }
  }

  lemma TurnNow<T>(c: T, r: seq<T>, n: nat)
    ensures Turn(c, r, 0) == c && (r == [] ==> Turn(c, r, n) == c)
  {
  }

  /** Threads of equal priority that do nothing but yield take turns: each runs once in as many yields as there are
      threads, in the order of the ready list. */
  lemma {:induction false} RoundRobin(k: Kernel, n: nat)
    requires Lists(k) && k.cur != k.idle && AllEqual(k)
    ensures Yields(k, n).cur == Turn(k.cur, k.ready, n)
    decreases n
  {
    hide Yield, Eff, Lists, AllEqual, Turn;
    TurnNow(k.cur, k.ready, n);
    if n > 0 {
      if k.ready == [] {
        Alone(k, n);
      } else {
        EqualYield(k);
        RoundRobin(Yield(k), n - 1);
        RingStep(k.cur, k.ready, n);
      }
    }
  }

  lemma HeadIn<T>(s: seq<T>)
    ensures s != [] ==> s[0] in s
  {
  }

  lemma {:induction false} Alone(k: Kernel, n: nat)
    requires Lists(k) && k.cur != k.idle && k.ready == []
    ensures Yields(k, n).cur == k.cur
    decreases n
  {
    if n > 0 {
      YieldComesBack(k);
      YieldLists(k);
      YieldOrder(k, k.cur, k.cur);
      assert Yield(k).ready == [] by {
        HeadIn(Yield(k).ready);
        forall t ensures t !in Yield(k).ready { YieldOrder(k, t, t); }
      }
      Alone(Yield(k), n - 1);
    }
  }

  // ---- queues ----

  /** A thread made ready goes behind everybody who was. */
  lemma ReadyLast(k: Kernel, t: Tid, a: Tid, b: Tid)
    requires t !in k.ready && a in k.ready
    ensures a in MakeReady(k, t).ready && Before(MakeReady(k, t).ready, a, t)
    ensures b in k.ready ==> (Before(MakeReady(k, t).ready, a, b) <==> Before(k.ready, a, b))
  {
    Last(k.ready, t, a);
    if b in k.ready { PushBefore(k.ready, t, a, b); }
  }

  /** A thread that has to wait for a semaphore goes behind everybody who waits for it. */
  lemma WaitsLast(sy: Sync, t: Tid, s: SemaId, cont: Cont, a: Tid, b: Tid)
    requires t !in Waiters(sy, s) && a in Waiters(sy, s)
    ensures Before(Waiters(DownQueued(sy, t, s, cont), s), a, t)
    ensures b in Waiters(sy, s) ==>
      (Before(Waiters(DownQueued(sy, t, s, cont), s), a, b) <==> Before(Waiters(sy, s), a, b))
  {
    Last(Waiters(sy, s), t, a);
    if b in Waiters(sy, s) { PushBefore(Waiters(sy, s), t, a, b); }
  }

  /** A waiter on a condition goes behind everybody who waits for it. */
  lemma CondLast(sy: Sync, t: Tid, c: CondId, l: SemaId, p: SemaId, a: SemaId, b: SemaId)
    requires p !in CondList(sy, c) && a in CondList(sy, c)
    ensures Before(CondList(CondWaitBegun(sy, t, c, l, p), c), a, p)
    ensures b in CondList(sy, c) ==>
      (Before(CondList(CondWaitBegun(sy, t, c, l, p), c), a, b) <==> Before(CondList(sy, c), a, b))
  {
    CondWaitLists(sy, t, c, l, p, c);
    Last(CondList(sy, c), p, a);
    if b in CondList(sy, c) { PushBefore(CondList(sy, c), p, a, b); }
  }

  /** Of the highest waiters for a semaphore, sema_up wakes the one that has waited longest; nobody else leaves the
      queue, and the others keep their order. */
  lemma UpWakesFirst(k: Kernel, s: SemaId, t: Tid, u: Tid)
    requires NoDup(Waiters(k.sy, s)) && t in Waiters(k.sy, s)
    ensures Choice(k, s).Some? && Eff(k, t) <= Eff(k, Choice(k, s).value)
    ensures t != Choice(k, s).value && Eff(k, t) == Eff(k, Choice(k, s).value) ==>
      Before(Waiters(k.sy, s), Choice(k, s).value, t)
    ensures var q := Waiters(Raised(k.sy, s, Choice(k, s)), s);
      && (t in q <==> t != Choice(k, s).value)
      && (t in q && u in q ==> (Before(q, t, u) <==> Before(Waiters(k.sy, s), t, u)))
  {
    var q := Waiters(k.sy, s);
    var m := Highest(k, q);
    HighestIsMax(k, q, t);
    var i := HighestFromIsFirstMaximum(k, q[0], q[1..]);
    assert [q[0]] + q[1..] == q;
    assert FirstMaximum(k, q, i, m);
    RemoveIsErase(q, m);
    if t != m {
      if Eff(k, t) == Eff(k, m) { EarlierMaximum(k, q, i, m, t); }
      if u != m { RemoveBefore(q, m, t, u); }
    }
  }

  lemma EarlierMaximum(k: Kernel, q: seq<Tid>, i: nat, m: Tid, t: Tid)
    requires FirstMaximum(k, q, i, m) && t in q && t != m && Eff(k, t) == Eff(k, m)
    ensures Before(q, m, t)
  {
    hide Eff;
    var j: nat :| j < |q| && q[j] == t;
    BeforeAt(q, i, j);
  }

  // ---- cond_signal ----

  ghost function Urgency(k: Kernel, p: SemaId): int { if Waiters(k.sy, p) == [] then -1 else Prio(k.prio, Highest(k, Waiters(k.sy, p))) }

  /** The scan settles on a largest urgency above `high`, and on the first place in `ps` that has it. */
  lemma {:induction false} PickFromFirst(k: Kernel, ps: seq<SemaId>, best: SemaId, high: int, j: nat)
    requires j < |ps| && Waiters(k.sy, ps[j]) != [] && Urgency(k, ps[j]) > high
    ensures var p := PickFrom(k, ps, best, high);
      && Waiters(k.sy, p) != [] && Urgency(k, p) >= Urgency(k, ps[j])
      && (Urgency(k, p) == Urgency(k, ps[j]) ==> exists i: nat :: i <= j && ps[i] == p)
    decreases |ps|
  {
    hide Highest;
    var p := PickFrom(k, ps, best, high);
    var u := Urgency(k, ps[0]);
    if Waiters(k.sy, ps[0]) == [] || u <= high {
      PickFromFirst(k, ps[1..], best, high, j - 1);
      Later(ps, p, j, Urgency(k, p) == Urgency(k, ps[j]));
    } else {
      PickAtLeast(k, ps[1..], ps[0], u);
      if j > 0 && Urgency(k, ps[j]) > u {
        PickFromFirst(k, ps[1..], ps[0], u, j - 1);
        Later(ps, p, j, Urgency(k, p) == Urgency(k, ps[j]));
      } else {
        PickStays(k, ps[1..], ps[0], u);
        assert ps[0] == ps[0];
      }
    }
  }

  lemma Later(ps: seq<SemaId>, p: SemaId, j: nat, c: bool)
    requires 0 < j < |ps| && (c ==> exists i: nat :: i <= j - 1 && ps[1..][i] == p)
    ensures c ==> exists i: nat :: i <= j && ps[i] == p
  {
    if c {
      var i: nat :| i <= j - 1 && ps[1..][i] == p;
      assert ps[i + 1] == p;
    }
  }

  /** A later place is taken only if it is higher. */
  lemma {:induction false} PickStays(k: Kernel, ps: seq<SemaId>, best: SemaId, high: int)
    requires Waiters(k.sy, best) != [] && Urgency(k, best) == high
    ensures var p := PickFrom(k, ps, best, high); p == best || Urgency(k, p) > high
    decreases |ps|
  {
    hide Highest;
    if ps != [] {
      if Waiters(k.sy, ps[0]) != [] && Urgency(k, ps[0]) > high {
        PickAtLeast(k, ps[1..], ps[0], Urgency(k, ps[0]));
      } else {
        PickStays(k, ps[1..], best, high);
      }
    }
  }

  /** Of all waiters of base priority 0 or more, cond_signal's scan settles on one of the highest, and of several on the
      one that has waited longest. */
  lemma PickIsFirst(k: Kernel, ps: seq<SemaId>, j: nat)
    requires j < |ps| && Waiters(k.sy, ps[j]) != [] && Urgency(k, ps[j]) >= 0
    ensures var p := Pick(k, ps);
      && Waiters(k.sy, p) != [] && Urgency(k, p) >= Urgency(k, ps[j])
      && (Urgency(k, p) == Urgency(k, ps[j]) ==> exists i: nat :: i <= j && ps[i] == p)
  {
    PickFromFirst(k, ps, ps[0], -1, j);
  }

  // ---- who is preempted, and when ----

  /** thread_unblock takes the processor away exactly when the woken thread is higher than the running one. */
  lemma UnblockPreempts(k: Kernel, t: Tid)
    requires Lists(MakeReady(k, t))
    ensures Unblock(k, t).cur == k.cur <==> Eff(k, t) <= Eff(k, k.cur)
  {
    var k1 := MakeReady(k, t);
    assert Eff(k1, t) == Eff(k, t) && Eff(k1, k.cur) == Eff(k, k.cur);
    assert t in k1.ready;
    if Eff(k, t) > Eff(k, k.cur) {
      if k.cur == k.idle {
        IdleYields(k1);
      } else {
        YieldComesBack(k1);
      }
    }
  }

  lemma IdleYields(k: Kernel)
    requires Lists(k) && k.cur == k.idle && k.ready != []
    ensures Yield(k).cur != k.cur
  {
    var k1 := SetStatus(k, k.cur, Ready).(ready := k.ready);
    var m := Highest(k1, k1.ready);
    assert Placed(k, Some(k.cur), m);
  }

  /** The timer interrupt asks for a yield exactly when the slice is over or a thread it wakes is higher than the
      running one. */
  lemma TickAsks(k: Kernel)
    ensures Looped(k).1 <==> k.slice + 1 >= 4 || exists t :: t in k.sleeping && Wakeup(k, t) <= k.ticks + 1 && Eff(k, t) > Eff(k, k.cur)
  {
    var k1 := Ticked(k);
    var y := k1.slice >= TIME_SLICE;
    assert forall t: Tid :: Eff(k1, t) == Eff(k, t) && (Due(k1, t) <==> Wakeup(k, t) <= k.ticks + 1);
    WakeLoopAsks(k1, 0, y);
    assert k1.sleeping[0..] == k.sleeping;
  }

  ghost predicate HigherDue(k: Kernel, s: seq<Tid>) { exists t :: t in s && Due(k, t) && Eff(k, t) > Eff(k, k.cur) }

  lemma {:induction false} WakeLoopAsks(k: Kernel, i: nat, y: bool)
    requires i <= |k.sleeping|
    ensures WakeLoop(k, i, y).1 <==> y || HigherDue(k, k.sleeping[i..])
    decreases |k.sleeping| - i
  {
    if i < |k.sleeping| {
      WakeLoopUnfold(k, i, y);
      WakeSleeperShape(k, i);
      var k1, t := WakeSleeper(k, i), k.sleeping[i];
      var rest := k.sleeping[i + 1..];
      assert k.sleeping[i..] == [t] + rest;
      if Due(k, t) {
        QueueChange(k, k1.sy);
        SameEff(k, k1);
        WakeLoopAsks(k1, i, y || Eff(k1, t) > Eff(k1, k1.cur));
        SameHigher(k, k1, rest);
        HigherFirst(k, t, rest);
      } else {
        WakeLoopAsks(k, i + 1, y);
        HigherFirst(k, t, rest);
      }
    }
  }

  lemma SameHigher(k: Kernel, k1: Kernel, s: seq<Tid>)
    requires k1.cur == k.cur && k1.ticks == k.ticks && k1.wakeup == k.wakeup && forall t: Tid :: Eff(k1, t) == Eff(k, t)
    ensures HigherDue(k1, s) <==> HigherDue(k, s)
  {
    hide Eff;
  }

  lemma HigherFirst(k: Kernel, t: Tid, s: seq<Tid>)
    ensures HigherDue(k, [t] + s) <==> (Due(k, t) && Eff(k, t) > Eff(k, k.cur)) || HigherDue(k, s)
  {
    hide Eff;
    var q := [t] + s;
    assert forall u :: u in q <==> u == t || u in s;
  }

  /** thread_set_priority yields exactly when a ready thread's donated priority is above the new base priority. */
  lemma ScanDecides(k: Kernel, was: int)
    ensures PcOf(ScanStep(k, was).sy, k.cur).Yielding? <==> exists t :: t in k.ready && Eff(k, t) > Prio(k.prio, k.cur)
    ensures PcOf(ScanStep(k, was).sy, k.cur) == Normal <==> forall t :: t in k.ready ==> Eff(k, t) <= Prio(k.prio, k.cur)
  {
    if k.ready != [] {
      var m := Highest(k, k.ready);
      forall t | t in k.ready ensures Eff(k, t) <= Eff(k, m) { HighestIsMax(k, k.ready, t); }
    }
  }

  /** A new thread starts with the priority it was given. */
  lemma CreatedWith(k: Kernel, t: Tid, p: int)
    requires Inv(k) && t !in k.status
    ensures Prio(NewThread(k, t, p).prio, t) == p && Eff(NewThread(k, t, p), t) == p
    ensures forall u: Tid :: u != t ==> Prio(NewThread(k, t, p).prio, u) == Prio(k.prio, u)
  {
    assert Queued(NewThread(k, t, p).sy, []) == [];
  }

  // ---- time slices ----

  function Ticks(k: Kernel, n: nat): Kernel
    decreases n
  {
    if n == 0 then k else Ticks(TickStep(k), n - 1)
  }

  lemma {:induction false} WakeLoopQuiet(k: Kernel, i: nat, y: bool)
    requires i <= |k.sleeping| && forall t :: t in k.sleeping ==> !Due(k, t)
    ensures WakeLoop(k, i, y) == (k, y)
    decreases |k.sleeping| - i
  {
    if i < |k.sleeping| {
      WakeLoopUnfold(k, i, y);
      WakeLoopQuiet(k, i + 1, y);
    }
  }

  /** A tick at which nobody wakes. */
  lemma QuietTick(k: Kernel)
    requires forall t :: t in k.sleeping ==> Wakeup(k, t) > k.ticks + 1
    ensures TickStep(k) == if k.slice + 1 >= 4 then Yield(Ticked(k)) else Ticked(k)
  {
    WakeLoopQuiet(Ticked(k), 0, Ticked(k).slice >= TIME_SLICE);
  }

  lemma TickedSame(k: Kernel)
    requires Lists(k)
    ensures Lists(Ticked(k)) && forall t: Tid :: Eff(Ticked(k), t) == Eff(k, t)
  {
    var k1 := Ticked(k);
    forall t: Tid ensures Placed(k1, Some(k1.cur), t) { assert Placed(k, Some(k.cur), t); }
    forall t: Tid, s: SemaId ensures QueuePlaced(k1, t, s) { assert QueuePlaced(k, t, s); }
  }

  /** A thread that nobody disturbs runs for four ticks; then everybody ready who is not below it comes before it. */
  lemma {:induction false} TimeSlice(k: Kernel, n: nat)
    requires Lists(k) && k.cur != k.idle && k.slice + n <= 4 && forall t :: t in k.sleeping ==> Wakeup(k, t) > k.ticks + n
    ensures Ticks(k, n).ticks == k.ticks + n
    ensures k.slice + n < 4 ==> Ticks(k, n).cur == k.cur && Ticks(k, n).slice == k.slice + n && Ticks(k, n).ready == k.ready
    ensures n > 0 && k.slice + n == 4 ==>
      Ticks(k, n).slice == 0 && (Ticks(k, n).cur == k.cur <==> forall t :: t in k.ready ==> Eff(k, t) < Eff(k, k.cur))
    decreases n
  {
    if n > 0 {
      QuietTick(k);
      TickedSame(k);
      if k.slice + 1 >= 4 {
        YieldComesBack(Ticked(k));
        hide Eff;
        assert Ticks(TickStep(k), 0) == TickStep(k);
      } else {
        hide Eff, Yield, Lists;
        TimeSlice(Ticked(k), n - 1);
      }
    }
  }

  /** Whoever is switched in starts a new slice. */
  lemma SliceStarts(k: Kernel)
    ensures Schedule(k).slice == 0 && Yield(k).slice == 0 && Block(k).slice == 0
  {
  }

  // ---- sleeping ----

  ghost predicate SameClock(k: Kernel, k': Kernel) {
    k'.sleeping == k.sleeping && k'.wakeup == k.wakeup && k'.ticks == k.ticks
  }

  lemma ClockKept(k: Kernel, step: Step)
    requires !step.Tick? && !step.Sleep?
    ensures SameClock(k, Apply(k, step))
  {
    hide Eff, Highest, Choice, Schedule, Yield, Unblock, Wake, DownStep;
    match step
    case Down(s) => DownClock(Enter(k, s, Return), s, Return);
    case Acquire(l) => DownClock(Enter(k, l, Record), l, Record);
    case Up(s) => WakeClock(k, Raised(k.sy, s, Choice(k, s)), Choice(k, s));
    case InterruptUp(s) => WakeClock(k, Raised(k.sy, s, Choice(k, s)), Choice(k, s));
    case CondSignal(c, l, p) => WakeClock(k, Signalled(k.sy, c, p, Choice(k, p)), Choice(k, p));
    case Continue => ContinueClock(k);
    case YieldCpu => YieldClock(k);
    case Create(t, p) => UnblockClock(NewThread(k, t, p), t);
    case Exit => ScheduleClock(SetStatus(k, k.cur, Dying));
    case IdleBlock => ScheduleClock(SetStatus(k, k.cur, Blocked));
    case _ =>
  }

  lemma ScheduleClock(k: Kernel)
    ensures SameClock(k, Schedule(k))
  {
  }

  lemma YieldClock(k: Kernel)
    ensures SameClock(k, Yield(k))
  {
  }

  lemma UnblockClock(k: Kernel, t: Tid)
    ensures SameClock(k, Unblock(k, t))
  {
    hide Eff;
    YieldClock(MakeReady(k, t));
  }

  lemma WakeClock(k: Kernel, sy': Sync, w: Option<Tid>)
    ensures SameClock(k, Wake(k, sy', w))
  {
    hide Unblock;
    if w.Some? { UnblockClock(k.(sy := sy'), w.value); }
  }

  lemma DownClock(k: Kernel, s: SemaId, cont: Cont)
    ensures SameClock(k, DownStep(k, s, cont))
  {
    hide Schedule;
    ScheduleClock(SetStatus(k.(sy := DownQueued(k.sy, k.cur, s, cont)), k.cur, Blocked));
  }

  lemma ContinueClock(k: Kernel)
    ensures SameClock(k, ContinueStep(k))
  {
    hide Eff, Highest, Choice, Yield, Wake, DownStep;
    match PcOf(k.sy, k.cur)
    case AboutToDown(s, cont) => DownClock(k, s, cont);
    case Downing(s, cont) => DownClock(k, s, cont);
    case Dropping(l, cont) => WakeClock(k, DropDone(k.sy, k.cur, l, cont, Choice(k, l)), Choice(k, l));
    case Yielding(was) => YieldClock(k.(sy := SetPc(k.sy, k.cur, Normal)));
    case _ =>
  }

  /** One step leaves a sleeper where it is, except the tick at which its time has come. */
  lemma SleeperStep(k: Kernel, step: Step, t: Tid)
    requires Inv(k) && Enabled(k, step) && t in k.sleeping
    ensures var k' := Apply(k, step);
      && Wakeup(k', t) == Wakeup(k, t) && k'.ticks == (if step.Tick? then k.ticks + 1 else k.ticks)
      && (t in k'.sleeping <==> (step.Tick? ==> Wakeup(k, t) > k.ticks + 1))
  {
    CurAwake(k);
    if step.Tick? {
      TickWakesExactlyDue(k);
      KeepMember(Ticked(k), k.sleeping, false, t);
      TickClock(k);
    } else if step.Sleep? {
      assert Apply(k, step).sleeping == k.sleeping + [k.cur];
    } else {
      ClockKept(k, step);
    }
  }

  lemma {:induction false} WakeLoopClock(k: Kernel, i: nat, y: bool)
    requires i <= |k.sleeping|
    ensures WakeLoop(k, i, y).0.ticks == k.ticks && WakeLoop(k, i, y).0.wakeup == k.wakeup
    decreases |k.sleeping| - i
  {
    if i < |k.sleeping| {
      WakeLoopUnfold(k, i, y);
      var k1 := WakeSleeper(k, i);
      var t := k.sleeping[i];
      if Due(k, t) { WakeLoopClock(k1, i, y || Eff(k1, t) > Eff(k1, k1.cur)); } else { WakeLoopClock(k, i + 1, y); }
    }
  }

  lemma TickClock(k: Kernel)
    ensures TickStep(k).ticks == k.ticks + 1 && TickStep(k).wakeup == k.wakeup
  {
    WakeLoopClock(Ticked(k), 0, Ticked(k).slice >= TIME_SLICE);
  }

  lemma {:induction false} StaysAsleep(k: Kernel, steps: seq<Step>, t: Tid)
    requires Inv(k) && Legal(k, steps) && t in k.sleeping
    ensures Final(k, steps).ticks >= k.ticks
    ensures Final(k, steps).ticks < Wakeup(k, t) ==>
      t in Final(k, steps).sleeping && Wakeup(Final(k, steps), t) == Wakeup(k, t)
    decreases |steps|
  {
    if steps != [] {
      hide Inv, Apply, Enabled;
      var k1 := Apply(k, steps[0]);
      SleeperStep(k, steps[0], t);
      StepKeeps(k, steps[0]);
      if t in k1.sleeping {
        StaysAsleep(k1, steps[1..], t);
      } else {
        ClockGrows(k1, steps[1..]);
      }
    }
  }

  lemma {:induction false} ClockGrows(k: Kernel, steps: seq<Step>)
    ensures Final(k, steps).ticks >= k.ticks
    decreases |steps|
  {
    if steps != [] {
      hide Apply;
      ClockStep(k, steps[0]);
      ClockGrows(Apply(k, steps[0]), steps[1..]);
    }
  }

  lemma ClockStep(k: Kernel, step: Step)
    ensures Apply(k, step).ticks == if step.Tick? then k.ticks + 1 else k.ticks
  {
    if step.Tick? { TickClock(k); } else if !step.Sleep? { ClockKept(k, step); }
  }

  /** A thread that goes to sleep for n ticks is asleep in every later state until n ticks have gone by, whatever the
      others do, and the tick that completes them makes it ready. */
  lemma SleepsExactly(k: Kernel, n: int, steps: seq<Step>)
    requires Inv(k) && Enabled(k, Sleep(n)) && Legal(Apply(k, Sleep(n)), steps)
    ensures var e := Final(Apply(k, Sleep(n)), steps);
      && (e.ticks < k.ticks + n ==> k.cur in e.sleeping && k.cur in e.status && e.status[k.cur] == Blocked)
      && (e.ticks + 1 == k.ticks + n ==>
          var w := Apply(e, Tick); k.cur !in w.sleeping && k.cur in w.status && w.status[k.cur] in {Ready, Running})
  {
    var k1, t := Apply(k, Sleep(n)), k.cur;
    StepKeeps(k, Sleep(n));
    assert t in k1.sleeping && Wakeup(k1, t) == k.ticks + n && k1.ticks == k.ticks;
    StaysAsleep(k1, steps, t);
    RunKeeps(k1, steps);
    var e := Final(k1, steps);
    assert Placed(e, Some(e.cur), t);
    if e.ticks + 1 == k.ticks + n { WokenUp(e, t); }
  }

  lemma {:induction false} WakeLoopStatus(k: Kernel, i: nat, y: bool, t: Tid)
    requires i <= |k.sleeping| && t in k.status && (k.status[t] == Ready || (t in k.sleeping[i..] && Due(k, t)))
    ensures t in WakeLoop(k, i, y).0.status && WakeLoop(k, i, y).0.status[t] == Ready
    decreases |k.sleeping| - i
  {
    if i < |k.sleeping| {
      WakeLoopUnfold(k, i, y);
      WakeSleeperShape(k, i);
      var k1, u := WakeSleeper(k, i), k.sleeping[i];
      assert k.sleeping[i..] == [u] + k.sleeping[i + 1..];
      if Due(k, u) {
        WakeLoopStatus(k1, i, y || Eff(k1, u) > Eff(k1, k1.cur), t);
      } else {
        WakeLoopStatus(k, i + 1, y, t);
      }
    }
  }

  lemma WokenUp(k: Kernel, t: Tid)
    requires Inv(k) && t in k.sleeping && Wakeup(k, t) <= k.ticks + 1
    ensures var w := Apply(k, Tick); t !in w.sleeping && t in w.status && w.status[t] in {Ready, Running}
  {
    SleeperStep(k, Tick, t);
    assert Placed(k, Some(k.cur), t);
    CurAwake(k);
    var k1 := Ticked(k);
    var y := k1.slice >= TIME_SLICE;
    assert k1.sleeping[0..] == k1.sleeping;
    WakeLoopStatus(k1, 0, y, t);
    YieldStatus(WakeLoop(k1, 0, y).0, t);
  }

  lemma YieldStatus(k: Kernel, t: Tid)
    requires t in k.status && k.status[t] == Ready
    ensures t in Yield(k).status && Yield(k).status[t] in {Ready, Running}
  {
  }
}
