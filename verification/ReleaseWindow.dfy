/** Runs that reach the windows inside lock_release and thread_set_priority where a ready thread is above the running one. */
module ReleaseWindow {
  import opened Common
  import opened Seqs
  import opened Synch
  import opened Donation
  import opened Scheduler

  lemma HoldsNothing(k: Kernel, t: Tid)
    requires Held(k.sy, t) == []
    ensures Eff(k, t) == Prio(k.prio, t)
    ensures forall d: nat :: Donated(k.prio, k.sy, t, d) == Prio(k.prio, t)
  {
  }

  lemma OneWaiter(k: Kernel, t: Tid, l: SemaId, w: Tid)
    requires Held(k.sy, t) == [l] && Waiters(k.sy, l) == [w] && Held(k.sy, w) == []
    ensures Eff(k, t) == Max(Prio(k.prio, t), Prio(k.prio, w))
  {
    HoldsNothing(k, w);
    assert Queued(k.sy, []) == [];
    assert [l][1..] == [];
    assert Donors(k.sy, t) == [w];
    assert [w][1..] == [];
    var d := MAX_DEPTH - 1;
    assert Donated(k.prio, k.sy, w, d) == Prio(k.prio, w);
    assert Best(k.prio, k.sy, [w], d, Prio(k.prio, t))
        == Best(k.prio, k.sy, [], d, Max(Prio(k.prio, t), Donated(k.prio, k.sy, w, d)));
  }

  /** Threads: 0 main, 1 idle, 2 waits for lock 7, 3 is ready in between. */
  function Taken(): Kernel {
    Kernel(map[0 := 31, 1 := 0], map[0 := Running, 1 := Blocked], [], [], map[], 0, 1, 0, 0,
           Sync(map[7 := Sema(0, [], Some(0))], {7}, map[0 := [7]], map[0 := Normal, 1 := Normal], map[], map[]))
  }

  lemma TakenReached()
    ensures Legal(Boot(0, 1, 31), [InitLock(7), Acquire(7), Continue])
    ensures Final(Boot(0, 1, 31), [InitLock(7), Acquire(7), Continue]) == Taken()
  {
    hide Apply, Legal, Final;
    LockMade();
    Grab(Apply(Boot(0, 1, 31), InitLock(7)));
    RecordIt();
    ThreeSteps(Boot(0, 1, 31), InitLock(7), Acquire(7), Continue);
  }

  function Grabbed(): Kernel {
    Boot(0, 1, 31).(sy :=
      Sync(map[7 := Sema(0, [], None)], {7}, map[], map[0 := Recording(7), 1 := Normal], map[], map[]))
  }

  lemma Grab(k: Kernel)
    requires k == Apply(Boot(0, 1, 31), InitLock(7))
    ensures Enabled(k, Acquire(7)) && Apply(k, Acquire(7)) == Grabbed()
  {
    assert k.sy == Sync(map[7 := Sema(1, [], None)], {7}, map[], map[0 := Normal, 1 := Normal], map[], map[]);
    var sy := DownTaken(Enter(k, 7, Record).sy, 0, 7, Record);
    assert sy.pc == map[0 := Recording(7), 1 := Normal];
    assert sy.semas == map[7 := Sema(0, [], None)];
  }

  lemma LockMade()
    ensures Enabled(Boot(0, 1, 31), InitLock(7))
  {
  }

  lemma RecordIt()
    ensures Enabled(Grabbed(), Continue) && Apply(Grabbed(), Continue) == Taken()
  {
    var sy := Recorded(Grabbed().sy, 0, 7);
    assert Held(Grabbed().sy, 0) + [7] == [7];
    assert sy.pc == map[0 := Normal, 1 := Normal];
    assert sy.semas == map[7 := Sema(0, [], Some(0))];
    assert sy.held == map[0 := [7]];
  }

  lemma ThreeSteps(k: Kernel, a: Step, b: Step, c: Step)
    requires Enabled(k, a) && Enabled(Apply(k, a), b) && Enabled(Apply(Apply(k, a), b), c)
    ensures Legal(k, [a, b, c]) && Final(k, [a, b, c]) == Apply(Apply(Apply(k, a), b), c)
  {
    var k1 := Apply(k, a);
    TwoSteps(k1, b, c);
    assert [a, b, c][1..] == [b, c];
  }

  lemma TwoSteps(k: Kernel, a: Step, b: Step)
    requires Enabled(k, a) && Enabled(Apply(k, a), b)
    ensures Legal(k, [a, b]) && Final(k, [a, b]) == Apply(Apply(k, a), b)
  {
    var k1 := Apply(k, a);
    assert [b][1..] == [];
    assert Legal(Apply(k1, b), []) && Final(Apply(k1, b), []) == Apply(k1, b);
    assert Legal(k1, [b]) && Final(k1, [b]) == Apply(k1, b);
    assert [a, b][1..] == [b];
  }

  /** Thread 2, at 40, has run into the lock; main runs on with its donation. */
  function Waiting(): Kernel {
    Kernel(map[0 := 31, 1 := 0, 2 := 40], map[0 := Running, 1 := Blocked, 2 := Blocked], [], [], map[], 0, 1, 0, 0,
           Sync(map[7 := Sema(0, [2], Some(0))], {7}, map[0 := [7], 2 := []],
                map[0 := Normal, 1 := Normal, 2 := Downing(7, Record)], map[], map[]))
  }

  lemma WaitingReached()
    ensures Legal(Taken(), [Create(2, 40), Acquire(7)])
    ensures Final(Taken(), [Create(2, 40), Acquire(7)]) == Waiting()
  {
    Preempt();
    QueueUp();
    TwoSteps(Taken(), Create(2, 40), Acquire(7));
  }

  function Preempted(): Kernel {
    Kernel(map[0 := 31, 1 := 0, 2 := 40], map[0 := Ready, 1 := Blocked, 2 := Running], [0], [], map[], 2, 1, 0, 0,
           Sync(map[7 := Sema(0, [], Some(0))], {7}, map[0 := [7], 2 := []],
                map[0 := Normal, 1 := Normal, 2 := Normal], map[], map[]))
  }

  lemma NobodyWaits(k: Kernel, t: Tid, l: SemaId)
    requires Held(k.sy, t) == [l] && Waiters(k.sy, l) == []
    ensures Eff(k, t) == Prio(k.prio, t)
  {
    assert [l][1..] == [];
    assert Queued(k.sy, [l]) == Waiters(k.sy, l) + Queued(k.sy, []);
    assert Donors(k.sy, t) == [];
  }

  /** Of threads 2 and 0, with thread 0 holding lock 7 and nobody waiting, the scheduler takes thread 2. */
  lemma TwoBeforeMain(y: Kernel)
    requires Held(y.sy, 2) == [] && Held(y.sy, 0) == [7] && Waiters(y.sy, 7) == []
    requires Prio(y.prio, 2) == 40 && Prio(y.prio, 0) == 31
    ensures Highest(y, [2, 0]) == 2 && Remove([2, 0], 2) == [0]
  {
    HoldsNothing(y, 2);
    NobodyWaits(y, 0, 7);
    hide Eff;
    assert [2, 0][1..] == [0] && [0][1..] == [];
    assert HighestFrom(y, 2, [0]) == HighestFrom(y, 2, []);
  }

  /** The new thread is above main, which yields to it. */
  lemma Preempt()
    ensures Enabled(Taken(), Create(2, 40)) && Apply(Taken(), Create(2, 40)) == Preempted()
  {
    hide Eff, Schedule;
    var k1 := MakeReady(NewThread(Taken(), 2, 40), 2);
    NewIsHigher(k1);
    assert k1.ready + [0] == [2, 0];
    Switched(SetStatus(k1, 0, Ready).(ready := [2, 0]));
  }

  lemma NewIsHigher(k1: Kernel)
    requires k1 == MakeReady(NewThread(Taken(), 2, 40), 2)
    ensures Eff(k1, 2) == 40 && Eff(k1, 0) == 31
  {
    HoldsNothing(k1, 2);
    NobodyWaits(k1, 0, 7);
  }

  lemma Switched(y: Kernel)
    requires y == SetStatus(MakeReady(NewThread(Taken(), 2, 40), 2), 0, Ready).(ready := [2, 0])
    ensures Schedule(y) == Preempted()
  {
    hide Highest;
    TwoBeforeMain(y);
    var k2 := Schedule(y);
    assert k2.prio == Preempted().prio;
    assert k2.status == Preempted().status;
    assert k2.sy.pc == Preempted().sy.pc && k2.sy.held == Preempted().sy.held;
    assert y.ready == [2, 0] && k2.cur == 2 && k2.ready == [0];
  }

  /** Thread 2 finds the lock taken and main is switched back in. */
  lemma QueueUp()
    ensures Enabled(Preempted(), Acquire(7)) && Apply(Preempted(), Acquire(7)) == Waiting()
  {
    var k := Preempted();
    var sy := DownQueued(Enter(k, 7, Record).sy, 2, 7, Record);
    var b := SetStatus(k.(sy := sy), 2, Blocked);
    assert [0][1..] == [];
    assert HighestFrom(b, 0, []) == 0;
    assert Highest(b, [0]) == 0 && Remove([0], 0) == [];
    assert Waiters(k.sy, 7) + [2] == [2];
    assert sy.semas == Waiting().sy.semas;
    assert sy.pc == Waiting().sy.pc;
    assert Schedule(b).status == Waiting().status;
  }

  /** Main starts thread 3 at 35, below its donated 40, and then begins to release the lock. */
  lemma WindowReached(k: Kernel)
    requires k == Final(Waiting(), [Create(3, 35), Release(7)])
    ensures Legal(Waiting(), [Create(3, 35), Release(7)])
    ensures k.cur == 0 && k.ready == [3] && Eff(k, 0) == 31 && Eff(k, 3) == 35
  {
    hide Apply, Legal, Final;
    var k1 := ThirdStarted();
    BelowDonation(k1);
    WindowOpens(k1);
    TwoSteps(Waiting(), Create(3, 35), Release(7));
  }

  function ThirdStarted(): Kernel { MakeReady(NewThread(Waiting(), 3, 35), 3) }

  lemma BelowDonation(k1: Kernel)
    requires k1 == ThirdStarted()
    ensures Enabled(Waiting(), Create(3, 35)) && Apply(Waiting(), Create(3, 35)) == k1
  {
    HoldsNothing(k1, 3);
    OneWaiter(k1, 0, 7, 2);
  }

  lemma WindowOpens(k1: Kernel)
    requires k1 == ThirdStarted()
    ensures Enabled(k1, Release(7))
    ensures var k2 := Apply(k1, Release(7)); k2.cur == 0 && k2.ready == [3] && Eff(k2, 0) == 31 && Eff(k2, 3) == 35
  {
    var k2 := Apply(k1, Release(7));
    HoldsNothing(k2, 3);
    HoldsNothing(k2, 0);
  }

  lemma {:induction false} Compose(k: Kernel, a: seq<Step>, b: seq<Step>)
    requires Legal(k, a) && Legal(Final(k, a), b)
    ensures Legal(k, a + b) && Final(k, a + b) == Final(Final(k, a), b)
    decreases |a|
  {
    if a == [] {
      assert a + b == b;
    } else {
      assert (a + b)[1..] == a[1..] + b;
      Compose(Apply(k, a[0]), a[1..], b);
    }
  }

  /** The strict order fails in a reachable state: a ready thread is above the running one. */
  lemma OrderFailsInWindow() returns (steps: seq<Step>, t: Tid)
    ensures Legal(Boot(0, 1, 31), steps)
    ensures var k := Final(Boot(0, 1, 31), steps); t in k.ready && Eff(k, t) > Eff(k, k.cur)
  {
    var a, b, c := [InitLock(7), Acquire(7), Continue], [Create(2, 40), Acquire(7)], [Create(3, 35), Release(7)];
    TakenReached();
    WaitingReached();
    WindowReached(Final(Waiting(), c));
    Compose(Boot(0, 1, 31), a, b);
    Compose(Boot(0, 1, 31), a + b, c);
    steps, t := a + b + c, 3;
  }

  // ---- thread_set_priority ----

  /** Main has started thread 2 at 20, below itself. */
  function Second(): Kernel { MakeReady(NewThread(Boot(0, 1, 31), 2, 20), 2) }

  lemma SecondStarted(k1: Kernel)
    requires k1 == Second()
    ensures Enabled(Boot(0, 1, 31), Create(2, 20)) && Apply(Boot(0, 1, 31), Create(2, 20)) == k1
  {
    HoldsNothing(k1, 2);
    HoldsNothing(k1, 0);
  }

  lemma LoweringOpens(k1: Kernel)
    requires k1 == Second()
    ensures Enabled(k1, SetPriority(10))
    ensures var k2 := Apply(k1, SetPriority(10)); k2.cur == 0 && k2.ready == [2] && Eff(k2, 0) == 10 && Eff(k2, 2) == 20
  {
    var k2 := Apply(k1, SetPriority(10));
    HoldsNothing(k2, 2);
    HoldsNothing(k2, 0);
  }

  /** Main goes down to 10 with thread 2 ready at 20: until it has looked at the ready list and yielded, it runs below. */
  lemma OrderFailsWhileLowering() returns (steps: seq<Step>, t: Tid)
    ensures Legal(Boot(0, 1, 31), steps)
    ensures var k := Final(Boot(0, 1, 31), steps); t in k.ready && Eff(k, t) > Eff(k, k.cur)
  {
    hide Apply, Legal, Final;
    SecondStarted(Second());
    LoweringOpens(Second());
    TwoSteps(Boot(0, 1, 31), Create(2, 20), SetPriority(10));
    steps, t := [Create(2, 20), SetPriority(10)], 2;
  }
}
