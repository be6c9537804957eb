/**
 The code of threads/thread.c, threads/synch.c and the timer interrupt, as methods over the
 kernel's fields. Each method is one stretch that runs with interrupts off; where the C
 function is switched out in the middle, the place it goes on from is kept in `pc`.
 */
module ThreadKernel {
  import opened Common
  import opened Seqs
  import opened Synch
  import opened Donation
  import opened Scheduler

  class ThreadSystem {
    var prio: map<Tid, int>
    var status: map<Tid, Status>
    var ready: seq<Tid>
    var sleeping: seq<Tid>
    var wakeup: map<Tid, int>
    var cur: Tid
    var idle: Tid
    var slice: nat
    var ticks: int
    var semas: map<SemaId, Sema>
    var locks: set<SemaId>
    var held: map<Tid, seq<SemaId>>
    var pc: map<Tid, Pc>
    var conds: map<CondId, seq<SemaId>>
    var privates: map<SemaId, (Tid, CondId)>

    ghost function Sy(): Sync reads this { Sync(semas, locks, held, pc, conds, privates) }

    ghost function View(): Kernel reads this {
      Kernel(prio, status, ready, sleeping, wakeup, cur, idle, slice, ticks, Sy())
    }

    constructor (main: Tid, idleThread: Tid, priority: int)
      ensures View() == Boot(main, idleThread, priority)
    {
      prio := map[main := priority, idleThread := 0];
      status := map[main := Running, idleThread := Blocked];
      ready, sleeping, wakeup := [], [], map[];
      cur, idle, slice, ticks := main, idleThread, 0, 0;
      semas, locks, held := map[], {}, map[];
      pc := map[main := Normal, idleThread := Normal];
      conds, privates := map[], map[];
    }

    function SemaAt(s: SemaId): (m: Sema)
      reads this
      ensures m == At(Sy(), s)
    {
      if s in semas then semas[s] else Sema(0, [], None)
    }

    function LocksOf(t: Tid): (ls: seq<SemaId>)
      reads this
      ensures ls == Held(Sy(), t)
    {
      if t in held then held[t] else []
    }

    function Base(t: Tid): (p: int)
      reads this
      ensures p == Prio(prio, t)
    {
      if t in prio then prio[t] else 0
    }

    /** thread_get_donated_priority. */
    method DonatedPriority(t: Tid, depth: nat) returns (priority: int)
      requires depth <= MAX_DEPTH
      ensures priority == Donated(prio, Sy(), t, MAX_DEPTH - depth)
      decreases MAX_DEPTH - depth
    {
      priority := Base(t);
      if depth == MAX_DEPTH {
        return;
      }
      ghost var d := MAX_DEPTH - depth - 1;
      var ls := LocksOf(t);
      var i := 0;
      while i < |ls|
        invariant 0 <= i <= |ls|
        invariant Best(prio, Sy(), Queued(Sy(), ls[i..]), d, priority) == Donated(prio, Sy(), t, MAX_DEPTH - depth)
      {
        var waiters := SemaAt(ls[i]).waiters;
        ghost var rest := Queued(Sy(), ls[i + 1..]);
        assert ls[i..][0] == ls[i] && ls[i..][1..] == ls[i + 1..];
        assert waiters[0..] == waiters;
        var j := 0;
        while j < |waiters|
          invariant 0 <= j <= |waiters|
          invariant Best(prio, Sy(), waiters[j..] + rest, d, priority) == Donated(prio, Sy(), t, MAX_DEPTH - depth)
        {
          assert (waiters[j..] + rest)[0] == waiters[j] && (waiters[j..] + rest)[1..] == waiters[j + 1..] + rest;
          var p := DonatedPriority(waiters[j], depth + 1);
          if p > priority {
            priority := p;
          }
          j := j + 1;
        }
        assert waiters[j..] + rest == rest;
        i := i + 1;
      }
      assert ls[i..] == [];
    }

    /** given_thread_get_priority. */
    method PriorityOf(t: Tid) returns (p: int)
      ensures p == Eff(View(), t)
    {
      p := DonatedPriority(t, 0);
    }

    /** list_highest_priority_thread. */
    method HighestPriorityThread(l: seq<Tid>) returns (t: Tid)
      requires l != []
      ensures t == Highest(View(), l)
    {
      t := l[0];
      var i := 1;
      while i < |l|
        invariant 1 <= i <= |l|
        invariant HighestFrom(View(), t, l[i..]) == Highest(View(), l)
      {
        var p := PriorityOf(l[i]);
        var q := PriorityOf(t);
        assert l[i..][1..] == l[i + 1..];
        if p > q {
          t := l[i];
        }
        i := i + 1;
      }
    }

    /** schedule, next_thread_to_run and thread_schedule_tail. */
    method SwitchThreads()
      modifies this
      ensures View() == Schedule(old(View()))
    {
      var next := idle;
      if ready != [] {
        next := HighestPriorityThread(ready);
        ready := Remove(ready, next);
      }
      cur, slice := next, 0;
      status := status[next := Running];
    }

    /** thread_yield. */
    method ThreadYield()
      modifies this
      ensures View() == Yield(old(View()))
    {
      if cur != idle {
        ready := ready + [cur];
      }
      status := status[cur := Ready];
      SwitchThreads();
    }

    /** thread_block. */
    method ThreadBlock()
      modifies this
      ensures View() == Block(old(View()))
    {
      status := status[cur := Blocked];
      SwitchThreads();
    }

    /** thread_unblock; inside an interrupt the yield is only requested. */
    method ThreadUnblock(t: Tid, inInterrupt: bool) returns (yieldOnReturn: bool)
      modifies this
      ensures !inInterrupt ==> View() == Unblock(old(View()), t) && !yieldOnReturn
      ensures inInterrupt ==> View() == MakeReady(old(View()), t)
      ensures inInterrupt ==> (yieldOnReturn <==> Eff(View(), t) > Eff(View(), View().cur))
    {
      ready := ready + [t];
      status := status[t := Ready];
      yieldOnReturn := false;
      var p := PriorityOf(t);
      var q := PriorityOf(cur);
      if p > q {
        if inInterrupt {
          yieldOnReturn := true;
        } else {
          ThreadYield();
        }
      }
    }

    /** One pass of sema_down's loop by the running thread: take a unit, or queue up and switch away. */
    method SemaDown(s: SemaId, cont: Cont)
      modifies this
      ensures View() == DownStep(old(View()), s, cont)
    {
      var m := SemaAt(s);
      if m.value == 0 {
        semas := semas[s := m.(waiters := m.waiters + [cur])];
        pc := pc[cur := Downing(s, cont)];
        ThreadBlock();
      } else {
        semas := semas[s := m.(value := m.value - 1)];
        pc := pc[cur := After(s, cont)];
      }
    }

    /** sema_try_down; lock_try_acquire goes on to record the lock. */
    method SemaTryDown(s: SemaId, cont: Cont) returns (success: bool)
      modifies this
      ensures View() == TryStep(old(View()), s, cont)
      ensures success <==> Value(old(Sy()), s) > 0
    {
      var m := SemaAt(s);
      success := m.value > 0;
      if success {
        semas := semas[s := m.(value := m.value - 1)];
        pc := pc[cur := After(s, cont)];
      }
    }

    /** sema_up: increment, then wake the highest waiter. */
    method SemaUp(s: SemaId)
      modifies this
      ensures View() == Wake(old(View()), Raised(old(Sy()), s, Choice(old(View()), s)), Choice(old(View()), s))
    {
      var m := SemaAt(s);
      if m.waiters == [] {
        semas := semas[s := m.(value := m.value + 1)];
      } else {
        var t := HighestPriorityThread(m.waiters);
        semas := semas[s := m.(value := m.value + 1, waiters := Remove(m.waiters, t))];
        var _ := ThreadUnblock(t, false);
      }
    }

    /** lock_acquire once the semaphore is down. */
    method RecordLock(l: SemaId)
      modifies this
      ensures View() == old(View()).(sy := Recorded(old(Sy()), old(cur), l))
    {
      semas := semas[l := SemaAt(l).(holder := Some(cur))];
      held := held[cur := LocksOf(cur) + [l]];
      pc := pc[cur := Normal];
    }

    /** lock_release up to sema_up. */
    method DropLock(l: SemaId, cont: Cont)
      modifies this
      ensures View() == old(View()).(sy := Dropped(old(Sy()), old(cur), l, cont))
    {
      held := held[cur := Remove(LocksOf(cur), l)];
      semas := semas[l := SemaAt(l).(holder := None)];
      pc := pc[cur := Dropping(l, cont)];
    }

    /** lock_release's sema_up. */
    method FinishRelease(l: SemaId, cont: Cont)
      modifies this
      ensures View() == Wake(old(View()), DropDone(old(Sy()), old(cur), l, cont, Choice(old(View()), l)),
                             Choice(old(View()), l))
    {
      var m := SemaAt(l);
      if m.waiters == [] {
        semas := semas[l := m.(value := m.value + 1)];
        pc := pc[cur := AfterDrop(l, cont)];
      } else {
        var t := HighestPriorityThread(m.waiters);
        semas := semas[l := m.(value := m.value + 1, waiters := Remove(m.waiters, t))];
        pc := pc[cur := AfterDrop(l, cont)];
        var _ := ThreadUnblock(t, false);
      }
    }

    /** cond_wait up to lock_release's sema_up. */
    method CondWaitBegin(c: CondId, l: SemaId, p: SemaId)
      requires l != p
      modifies this
      ensures View() == old(View()).(sy := CondWaitBegun(old(Sy()), old(cur), c, l, p))
    {
      semas := semas[p := Sema(0, [], None)];
      conds := conds[c := (if c in conds then conds[c] else []) + [p]];
      privates := privates[p := (cur, c)];
      DropLock(l, CondSleep(p));
    }

    /** cond_signal's choice among the private semaphores of the waiters. */
    method PickWaiter(ps: seq<SemaId>) returns (best: SemaId)
      requires ps != []
      ensures best == Pick(View(), ps)
    {
      best := ps[0];
      var high := -1;
      var i := 0;
      assert ps[0..] == ps;
      while i < |ps|
        invariant 0 <= i <= |ps|
        invariant PickFrom(View(), ps[i..], best, high) == Pick(View(), ps)
      {
        assert ps[i..][0] == ps[i] && ps[i..][1..] == ps[i + 1..];
        var waiters := SemaAt(ps[i]).waiters;
        if waiters != [] {
          var t := HighestPriorityThread(waiters);
          if Base(t) > high {
            high := Base(t);
            best := ps[i];
          }
        }
        i := i + 1;
      }
    }

    /** cond_signal after its scan, which has settled on `p`. */
    method CondSignalOne(c: CondId, p: SemaId)
      modifies this
      ensures View() == SignalStep(old(View()), c, p)
    {
      var ps := if c in conds then conds[c] else [];
      if ps != [] {
        conds := conds[c := Remove(ps, p)];
        assert View() == old(View()).(sy := CondTaken(old(Sy()), c, p));
        SameQueuesSameChoice(old(View()), View(), p);
        SemaUp(p);
      }
    }

    /** thread_set_priority's store. */
    method StorePriority(p: int)
      modifies this
      ensures View() == StoreStep(old(View()), p)
    {
      pc := pc[cur := Lowering(Base(cur))];
      prio := prio[cur := p];
    }

    /** thread_set_priority's look at the ready list. */
    method ScanReady(was: int)
      modifies this
      ensures View() == ScanStep(old(View()), was)
    {
      var higher := false;
      if ready != [] {
        var t := HighestPriorityThread(ready);
        var q := PriorityOf(t);
        higher := Base(cur) < q;
      }
      pc := pc[cur := if higher then Yielding(was) else Normal];
    }

    /** The yield at the end of thread_set_priority. */
    method YieldLowered()
      modifies this
      ensures View() == Yield(old(View()).(sy := SetPc(old(Sy()), old(cur), Normal)))
    {
      pc := pc[cur := Normal];
      ThreadYield();
    }

    /** thread_create. */
    method ThreadCreate(t: Tid, p: int)
      modifies this
      ensures View() == Unblock(NewThread(old(View()), t, p), t)
    {
      status := status[t := Blocked];
      prio := prio[t := p];
      pc := pc[t := Normal];
      held := held[t := []];
      assert View() == NewThread(old(View()), t, p);
      var _ := ThreadUnblock(t, false);
    }

    /** timer_sleep. */
    method TimerSleep(n: int)
      modifies this
      ensures View() == Block(FallAsleep(old(View()), n))
    {
      wakeup := wakeup[cur := ticks + n];
      sleeping := sleeping + [cur];
      pc := pc[cur := Asleep];
      assert View() == FallAsleep(old(View()), n);
      ThreadBlock();
    }

    /** The timer interrupt's wake-up loop: it keeps its place when it removes the element it stands on. */
    method WakeSleepers(alreadyYielding: bool) returns (yieldOnReturn: bool)
      modifies this
      ensures (View(), yieldOnReturn) == WakeLoop(old(View()), 0, alreadyYielding)
    {
      yieldOnReturn := alreadyYielding;
      var i := 0;
      while i < |sleeping|
        invariant 0 <= i <= |sleeping|
        invariant WakeLoop(View(), i, yieldOnReturn) == WakeLoop(old(View()), 0, alreadyYielding)
        decreases |sleeping| - i
      {
        var t := sleeping[i];
        var due := if t in wakeup then wakeup[t] else 0;
        if ticks >= due {
          var y := WakeSleeperAt(i);
          yieldOnReturn := yieldOnReturn || y;
        } else {
          i := i + 1;
        }
      }
    }

    method WakeSleeperAt(i: nat) returns (y: bool)
      requires i < |sleeping|
      modifies this
      ensures View() == WakeSleeper(old(View()), i)
      ensures y <==> Eff(View(), old(sleeping[i])) > Eff(View(), View().cur)
    {
      var t := sleeping[i];
      sleeping := sleeping[..i] + sleeping[i + 1..];
      pc := pc[t := Normal];
      y := ThreadUnblock(t, true);
    }

    /** timer_interrupt. */
    method TimerInterrupt()
      modifies this
      ensures View() == TickStep(old(View()))
    {
      ticks := ticks + 1;
      slice := slice + 1;
      assert View() == Ticked(old(View()));
      var yieldOnReturn := WakeSleepers(slice >= TIME_SLICE);
      if yieldOnReturn {
        ThreadYield();
      }
    }
  }

  /** Choosing a waiter looks only at priorities, lock lists and queues. */
  lemma SameQueuesSameChoice(k: Kernel, k': Kernel, s: SemaId)
    requires k'.prio == k.prio && k'.sy.held == k.sy.held && k'.sy.semas == k.sy.semas
    ensures Choice(k', s) == Choice(k, s)
    ensures forall t: Tid :: Eff(k', t) == Eff(k, t)
  {
    forall t: Tid ensures Donors(k.sy, t) == Donors(k'.sy, t) {
      QueuedFrame(k.sy, k'.sy, Held(k.sy, t));
    }
    forall t: Tid ensures Eff(k', t) == Eff(k, t) {
      DonatedFrame(k.prio, k.sy, k'.prio, k'.sy, {}, t, MAX_DEPTH);
    }
    if Waiters(k.sy, s) != [] {
      SameEffSameHighest(k, k', Waiters(k.sy, s)[0], Waiters(k.sy, s)[1..]);
    }
  }

  lemma {:induction false} SameEffSameHighest(k: Kernel, k': Kernel, best: Tid, l: seq<Tid>)
    requires forall t: Tid :: Eff(k', t) == Eff(k, t)
    ensures HighestFrom(k', best, l) == HighestFrom(k, best, l)
    decreases |l|
  {
    if l != [] {
      SameEffSameHighest(k, k', if Eff(k, l[0]) > Eff(k, best) then l[0] else best, l[1..]);
    }
  }
}
