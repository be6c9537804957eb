/**
 The account of every semaphore and lock over whole runs: a value is what was put in less what was
 taken out, a lock is owned from the call that got it to the call that gives it up, and a call to
 lock_acquire or cond_wait returns only with the lock.
 */
module Ledgers {
  import opened Common
  import opened Seqs
  import opened Synch
  import opened Donation
  import opened Scheduler
  import opened SchedulerProofs

  // ---- values ----

  /** What a step puts into semaphore `s`, or takes out of it. A down takes a unit only if there is one. */
  ghost function Change(k: Kernel, step: Step, s: SemaId): int {
    match step
    case InitSema(x, v) => if x == s then v else 0
    case InitLock(x) => if x == s then 1 else 0
    case Up(x) => if x == s then 1 else 0
    case InterruptUp(x) => if x == s then 1 else 0
    case CondSignal(c, l, p) => if p == s && CondList(k.sy, c) != [] then 1 else 0
    case Continue => Resumes(k, s)
    case _ => if Tries(step, s) then -Unit(k, s) else 0
  }

  /** A call that goes for a unit of `s` at once. */
  ghost predicate Tries(step: Step, s: SemaId) {
    (step.Down? || step.TryDown? || step.Acquire? || step.TryAcquire?) && step.s == s
  }

  ghost function Unit(k: Kernel, s: SemaId): int { if Value(k.sy, s) > 0 then 1 else 0 }

  /** What the running thread does to `s` when it goes on from where it was interrupted or switched out. */
  ghost function Resumes(k: Kernel, s: SemaId): int {
    if Entering(PcOf(k.sy, k.cur), s) then -Unit(k, s)
    else if PcOf(k.sy, k.cur).Dropping? && PcOf(k.sy, k.cur).lock == s then 1
    else 0
  }

  lemma ScheduleSy(k: Kernel)
    ensures Schedule(k).sy == k.sy
  {
  }

  lemma YieldSy(k: Kernel)
    ensures Yield(k).sy == k.sy
  {
  }

  lemma UnblockSy(k: Kernel, t: Tid)
    ensures Unblock(k, t).sy == k.sy
  {
    hide Eff, Yield;
    YieldSy(MakeReady(k, t));
  }

  lemma WakeSy(k: Kernel, sy': Sync, w: Option<Tid>)
    ensures Wake(k, sy', w).sy == sy'
  {
    hide Unblock;
    if w.Some? { UnblockSy(k.(sy := sy'), w.value); }
  }

  lemma DownSy(k: Kernel, s: SemaId, cont: Cont)
    ensures DownStep(k, s, cont).sy ==
      if Value(k.sy, s) > 0 then DownTaken(k.sy, k.cur, s, cont) else DownQueued(k.sy, k.cur, s, cont)
  {
    hide Schedule;
    if Value(k.sy, s) == 0 { ScheduleSy(SetStatus(k.(sy := DownQueued(k.sy, k.cur, s, cont)), k.cur, Blocked)); }
  }

  lemma DownValue(k: Kernel, x: SemaId, cont: Cont, s: SemaId)
    ensures Value(DownStep(k, x, cont).sy, s) == Value(k.sy, s) - if x == s then Unit(k, s) else 0
  {
    hide DownStep;
    DownSy(k, x, cont);
  }

  lemma RaisedValue(sy: Sync, x: SemaId, w: Option<Tid>, s: SemaId)
    ensures Value(Raised(sy, x, w), s) == Value(sy, s) + if x == s then 1 else 0
  {
  }

  lemma ContinueValue(k: Kernel, s: SemaId)
    ensures Value(ContinueStep(k).sy, s) == Value(k.sy, s) + Resumes(k, s)
  {
    hide Eff, Highest, Choice, Yield, Wake, DownStep, Raised;
    match PcOf(k.sy, k.cur)
    case AboutToDown(x, cont) => DownValue(k, x, cont, s);
    case Downing(x, cont) => DownValue(k, x, cont, s);
    case Dropping(l, cont) =>
      WakeSy(k, DropDone(k.sy, k.cur, l, cont, Choice(k, l)), Choice(k, l));
      RaisedValue(k.sy, l, Choice(k, l), s);
    case Yielding(was) => YieldSy(k.(sy := SetPc(k.sy, k.cur, Normal)));
    case _ =>
  }

  ghost predicate Calls(step: Step) {
    step.Down? || step.TryDown? || step.Acquire? || step.TryAcquire? || step.InitSema? || step.InitLock? || step.CondWait?
  }
  ghost predicate Raises(step: Step) { step.Up? || step.InterruptUp? || step.CondSignal? }

  lemma CallChange(k: Kernel, step: Step, s: SemaId)
    requires Inv(k) && Enabled(k, step) && Calls(step)
    ensures Value(Apply(k, step).sy, s) == Value(k.sy, s) + Change(k, step, s)
  {
    hide Inv, DownStep, TryStep, CondWaitBegun, WithSema;
    match step
    case InitSema(x, v) => WithSemaValue(k.sy, x, v, false, s);
    case InitLock(x) => WithSemaValue(k.sy, x, 1, true, s);
    case Down(x) => DownValue(Enter(k, x, Return), x, Return, s);
    case TryDown(x) => TryValue(k, x, Return, s);
    case Acquire(x) => DownValue(Enter(k, x, Record), x, Record, s);
    case TryAcquire(x) => TryValue(k, x, Record, s);
    case CondWait(c, l, p) => CondWaitValue(k, c, l, p, s);
  }

  lemma TryValue(k: Kernel, x: SemaId, cont: Cont, s: SemaId)
    ensures Value(TryStep(k, x, cont).sy, s) == Value(k.sy, s) - if x == s then Unit(k, s) else 0
  {
  }

  lemma WithSemaValue(sy: Sync, x: SemaId, v: nat, isLock: bool, s: SemaId)
    requires x !in sy.semas
    ensures Value(WithSema(sy, x, v, isLock), s) == Value(sy, s) + if x != s then 0 else if isLock then 1 else v
  {
  }

  lemma RaiseChange(k: Kernel, step: Step, s: SemaId)
    requires Raises(step)
    ensures Value(Apply(k, step).sy, s) == Value(k.sy, s) + Change(k, step, s)
  {
    hide Choice, Wake, Raised;
    match step
    case Up(x) => WakeSy(k, Raised(k.sy, x, Choice(k, x)), Choice(k, x)); RaisedValue(k.sy, x, Choice(k, x), s);
    case InterruptUp(x) => WakeSy(k, Raised(k.sy, x, Choice(k, x)), Choice(k, x)); RaisedValue(k.sy, x, Choice(k, x), s);
    case CondSignal(c, l, p) =>
      WakeSy(k, Signalled(k.sy, c, p, Choice(k, p)), Choice(k, p));
      RaisedValue(CondTaken(k.sy, c, p), p, Choice(k, p), s);
  }

  lemma OtherChange(k: Kernel, step: Step, s: SemaId)
    requires !Calls(step) && !Raises(step)
    ensures Value(Apply(k, step).sy, s) == Value(k.sy, s) + Change(k, step, s)
  {
    hide Eff, Highest, Schedule, Yield, Unblock, TickStep, ContinueStep, Resumes;
    match step
    case Continue => ContinueValue(k, s);
    case YieldCpu => YieldSy(k);
    case Create(t, p) => UnblockSy(NewThread(k, t, p), t);
    case Exit => ScheduleSy(SetStatus(k, k.cur, Dying));
    case Sleep(n) => ScheduleSy(SetStatus(FallAsleep(k, n), k.cur, Blocked));
    case IdleBlock => ScheduleSy(SetStatus(k, k.cur, Blocked));
    case Tick => TickValue(k, s);
    case _ =>
  }

  /** Every step changes every semaphore by exactly what it puts in or takes out. */
  lemma StepChange(k: Kernel, step: Step, s: SemaId)
    requires Inv(k) && Enabled(k, step)
    ensures Value(Apply(k, step).sy, s) == Value(k.sy, s) + Change(k, step, s)
  {
    hide *;
    if Calls(step) { CallChange(k, step, s); } else if Raises(step) { RaiseChange(k, step, s); } else { OtherChange(k, step, s); }
  }

  lemma CondWaitValue(k: Kernel, c: CondId, l: SemaId, p: SemaId, s: SemaId)
    requires Inv(k) && Enabled(k, CondWait(c, l, p))
    ensures Value(CondWaitBegun(k.sy, k.cur, c, l, p), s) == Value(k.sy, s)
  {
    HolderIsThread(k.sy, k.cur, l);
  }

  /** The timer interrupt touches no semaphore and no lock list. */
  lemma {:induction false} WakeLoopSemas(k: Kernel, i: nat, y: bool)
    requires i <= |k.sleeping|
    ensures var sy' := WakeLoop(k, i, y).0.sy; sy'.semas == k.sy.semas && sy'.held == k.sy.held
    decreases |k.sleeping| - i
  {
    if i < |k.sleeping| {
      WakeLoopUnfold(k, i, y);
      var k1 := WakeSleeper(k, i);
      var t := k.sleeping[i];
      if Due(k, t) { WakeLoopSemas(k1, i, y || Eff(k1, t) > Eff(k1, k1.cur)); } else { WakeLoopSemas(k, i + 1, y); }
    }
  }

  lemma TickSemas(k: Kernel)
    ensures TickStep(k).sy.semas == k.sy.semas && TickStep(k).sy.held == k.sy.held
  {
    hide Yield, WakeLoop;
    var r := WakeLoop(Ticked(k), 0, Ticked(k).slice >= TIME_SLICE);
    WakeLoopSemas(Ticked(k), 0, Ticked(k).slice >= TIME_SLICE);
    YieldSy(r.0);
  }

  lemma TickValue(k: Kernel, s: SemaId)
    ensures Value(TickStep(k).sy, s) == Value(k.sy, s)
  {
    hide TickStep;
    TickSemas(k);
  }

  ghost function Total(k: Kernel, steps: seq<Step>, s: SemaId): int
    decreases |steps|
  {
    if steps == [] then 0 else Change(k, steps[0], s) + Total(Apply(k, steps[0]), steps[1..], s)
  }

  lemma {:induction false} RunTotal(k: Kernel, steps: seq<Step>, s: SemaId)
    requires Inv(k) && Legal(k, steps)
    ensures Value(Final(k, steps).sy, s) == Value(k.sy, s) + Total(k, steps, s)
    decreases |steps|
  {
    if steps != [] {
      hide Inv, Apply, Enabled, Change;
      StepChange(k, steps[0], s);
      StepKeeps(k, steps[0]);
      RunTotal(Apply(k, steps[0]), steps[1..], s);
    }
  }

  /** Over every run from boot, a semaphore's value is what it was made with, plus the ups and signals it got, less
      the downs and tries that found a unit. */
  lemma ValueIsBalance(main: Tid, idle: Tid, priority: int, steps: seq<Step>, s: SemaId)
    requires main != idle && Legal(Boot(main, idle, priority), steps)
    ensures Value(Final(Boot(main, idle, priority), steps).sy, s) == Total(Boot(main, idle, priority), steps, s)
  {
    BootInv(main, idle, priority);
    RunTotal(Boot(main, idle, priority), steps, s);
  }

  // ---- a down that finds nothing ----

  /** A pass of sema_down: with a unit there it takes it and is through; without one it blocks in the queue. */
  lemma DownExactly(k: Kernel, s: SemaId, cont: Cont)
    requires Inv(k) && k.cur != k.idle
    requires PcOf(k.sy, k.cur) == AboutToDown(s, cont) || PcOf(k.sy, k.cur) == Downing(s, cont)
    ensures var k' := DownStep(k, s, cont);
      if Value(k.sy, s) > 0 then
        && k'.cur == k.cur && !Entering(PcOf(k'.sy, k.cur), s) && Value(k'.sy, s) == Value(k.sy, s) - 1
      else
        && k.cur in Waiters(k'.sy, s) && k.cur in k'.status && k'.status[k.cur] == Blocked && k'.cur != k.cur
  {
    DownKeeps(k, s, cont);
    hide Inv, Schedule;
    DownSy(k, s, cont);
    assert PcOf(k.sy, k.cur) != Normal;
    if Value(k.sy, s) == 0 { QueuedIsBlocked(DownStep(k, s, cont), k.cur, s); } else { PassedOn(k, s, cont); }
  }

  lemma QueuedIsBlocked(k: Kernel, t: Tid, s: SemaId)
    requires Inv(k) && t in Waiters(k.sy, s)
    ensures t in k.status && k.status[t] == Blocked && k.cur != t
  {
    assert QueuePlaced(k, t, s) && Placed(k, Some(k.cur), t);
  }

  lemma PassedOn(k: Kernel, s: SemaId, cont: Cont)
    requires Inv(k) && Value(k.sy, s) > 0
    requires PcOf(k.sy, k.cur) == AboutToDown(s, cont) || PcOf(k.sy, k.cur) == Downing(s, cont)
    ensures !Entering(After(s, cont), s)
  {
    assert PcOk(k.sy, k.cur);
  }

  /** sema_try_down and lock_try_acquire: with a unit there they take it, and lock_try_acquire owns the lock; without
      one nothing changes. */
  lemma TryExactly(k: Kernel, s: SemaId, cont: Cont)
    requires k.cur in k.sy.pc
    ensures Value(k.sy, s) == 0 ==> TryStep(k, s, cont) == k
    ensures Value(k.sy, s) > 0 ==>
      var k' := TryStep(k, s, cont);
      Value(k'.sy, s) == Value(k.sy, s) - 1 && k'.cur == k.cur && (cont == Record ==> k.cur in Owners(k'.sy, s))
  {
  }

  // ---- ownership ----

  /** The running thread gets lock `l` in this step. */
  ghost predicate Gets(k: Kernel, step: Step, l: SemaId) {
    && Value(k.sy, l) > 0
    && (step == Acquire(l) || step == TryAcquire(l)
        || (step.Continue? && (PcOf(k.sy, k.cur) == AboutToDown(l, Record) || PcOf(k.sy, k.cur) == Downing(l, Record))))
  }

  /** The running thread gives lock `l` up in this step. */
  ghost predicate Gives(k: Kernel, step: Step, l: SemaId) {
    step.Continue? && PcOf(k.sy, k.cur).Dropping? && PcOf(k.sy, k.cur).lock == l
  }

  ghost predicate OwnsAfter(k: Kernel, step: Step, t: Tid, l: SemaId, before: bool) {
    if t == k.cur && Gets(k, step, l) then true else if t == k.cur && Gives(k, step, l) then false else before
  }

  lemma DownOwns(k: Kernel, x: SemaId, cont: Cont, t: Tid, l: SemaId)
    requires PcOf(k.sy, k.cur) == AboutToDown(x, cont) || PcOf(k.sy, k.cur) == Downing(x, cont)
    ensures Owns(DownStep(k, x, cont).sy, t, l) <==>
      Owns(k.sy, t, l) || (t == k.cur && x == l && cont == Record && Value(k.sy, x) > 0)
  {
    hide DownStep;
    DownSy(k, x, cont);
  }

  lemma ContinueOwns(k: Kernel, t: Tid, l: SemaId)
    requires Inv(k)
    ensures Owns(ContinueStep(k).sy, t, l) <==> OwnsAfter(k, Continue, t, l, Owns(k.sy, t, l))
  {
    hide Eff, Highest, Choice, Yield, Wake, DownStep, SyncInv, Owns, Recorded, DropDone;
    match PcOf(k.sy, k.cur)
    case AboutToDown(x, cont) => DownOwns(k, x, cont, t, l);
    case Downing(x, cont) => DownOwns(k, x, cont, t, l);
    case Recording(x) => RecordedOwns(k.sy, k.cur, x, t, l);
    case Dropping(x, cont) =>
      WakeSy(k, DropDone(k.sy, k.cur, x, cont, Choice(k, x)), Choice(k, x));
      DroppedLock(k, x, cont);
      DropDoneOwns(k.sy, k.cur, x, cont, Choice(k, x), t, l);
    case Lowering(was) => RestOwns(k.sy, k.cur, PcOf(ScanStep(k, was).sy, k.cur), t, l);
    case Yielding(was) =>
      YieldSy(k.(sy := SetPc(k.sy, k.cur, Normal)));
      RestOwns(k.sy, k.cur, Normal, t, l);
    case _ =>
  }

  lemma DroppedLock(k: Kernel, x: SemaId, cont: Cont)
    requires Inv(k) && PcOf(k.sy, k.cur) == Dropping(x, cont)
    ensures x !in Held(k.sy, k.cur)
  {
    assert ListOk(k.sy, k.cur) && HeldOk(k.sy, k.cur, x);
  }

  lemma RecordedOwns(sy: Sync, u: Tid, x: SemaId, t: Tid, l: SemaId)
    requires PcOf(sy, u) == Recording(x)
    ensures Owns(Recorded(sy, u, x), t, l) <==> Owns(sy, t, l)
  {
  }

  lemma DropDoneOwns(sy: Sync, u: Tid, x: SemaId, cont: Cont, w: Option<Tid>, t: Tid, l: SemaId)
    requires PcOf(sy, u) == Dropping(x, cont) && x !in Held(sy, u)
    ensures Owns(DropDone(sy, u, x, cont, w), t, l) <==> Owns(sy, t, l) && !(t == u && x == l)
  {
  }

  lemma DroppedOwns(sy: Sync, t: Tid, x: SemaId, cont: Cont, u: Tid, l: SemaId)
    requires PcOf(sy, t) == Normal && x in Held(sy, t) && NoDup(Held(sy, t))
    ensures Owns(Dropped(sy, t, x, cont), u, l) <==> Owns(sy, u, l)
  {
    RemoveIsErase(Held(sy, t), x);
  }

  lemma CondWaitOwns(sy: Sync, t: Tid, c: CondId, x: SemaId, p: SemaId, u: Tid, l: SemaId)
    requires PcOf(sy, t) == Normal && x in Held(sy, t) && NoDup(Held(sy, t))
    ensures Owns(CondWaitBegun(sy, t, c, x, p), u, l) <==> Owns(sy, u, l)
  {
    DroppedOwns(CondQueued(sy, t, c, p), t, x, CondSleep(p), u, l);
  }

  lemma {:induction false} WakeLoopOwns(k: Kernel, i: nat, y: bool, t: Tid, l: SemaId)
    requires i <= |k.sleeping| && forall u :: u in k.sleeping ==> PcOf(k.sy, u) == Asleep
    requires NoDup(k.sleeping)
    ensures Owns(WakeLoop(k, i, y).0.sy, t, l) <==> Owns(k.sy, t, l)
    decreases |k.sleeping| - i
  {
    if i < |k.sleeping| {
      WakeLoopUnfold(k, i, y);
      var k1, u := WakeSleeper(k, i), k.sleeping[i];
      if Due(k, u) {
        RemoveAt(k.sleeping, i);
        RemoveIsErase(k.sleeping, u);
        WakeLoopOwns(k1, i, y || Eff(k1, u) > Eff(k1, k1.cur), t, l);
      } else {
        WakeLoopOwns(k, i + 1, y, t, l);
      }
    }
  }

  lemma TickOwns(k: Kernel, t: Tid, l: SemaId)
    requires Inv(k)
    ensures Owns(TickStep(k).sy, t, l) <==> Owns(k.sy, t, l)
  {
    hide Yield, SyncInv;
    forall u | u in k.sleeping ensures PcOf(k.sy, u) == Asleep { assert Placed(k, Some(k.cur), u); }
    var r := WakeLoop(Ticked(k), 0, Ticked(k).slice >= TIME_SLICE);
    WakeLoopOwns(Ticked(k), 0, Ticked(k).slice >= TIME_SLICE, t, l);
    YieldSy(r.0);
  }

  lemma CreateOwns(k: Kernel, u: Tid, p: int, t: Tid, l: SemaId)
    requires Inv(k) && u !in k.status
    ensures Owns(Unblock(NewThread(k, u, p), u).sy, t, l) <==> Owns(k.sy, t, l)
  {
    hide Unblock, QueuesOk, NoLostWakeup, MutualExclusion, CondsOk, ControlOk;
    UnblockSy(NewThread(k, u, p), u);
    assert Placed(k, Some(k.cur), u);
    OnlyThreadsHold(k.sy, u);
  }

  lemma CallOwns(k: Kernel, step: Step, t: Tid, l: SemaId)
    requires Inv(k) && Enabled(k, step) && Calls(step)
    ensures Owns(Apply(k, step).sy, t, l) <==> OwnsAfter(k, step, t, l, Owns(k.sy, t, l))
  {
    hide Inv, DownStep, TryStep, CondWaitBegun, Owns, WithSema;
    match step
    case InitSema(x, v) => WithSemaOwns(k.sy, x, v, false, t, l);
    case InitLock(x) => WithSemaOwns(k.sy, x, 1, true, t, l);
    case Down(x) => EnterOwns(k, x, Return, t, l); DownOwns(Enter(k, x, Return), x, Return, t, l);
    case TryDown(x) => TryOwns(k, x, Return, t, l);
    case Acquire(x) => EnterOwns(k, x, Record, t, l); DownOwns(Enter(k, x, Record), x, Record, t, l);
    case TryAcquire(x) => TryOwns(k, x, Record, t, l);
    case CondWait(c, x, p) => HeldNoDup(k); CondWaitOwns(k.sy, k.cur, c, x, p, t, l);
  }

  lemma WithSemaOwns(sy: Sync, x: SemaId, v: nat, isLock: bool, t: Tid, l: SemaId)
    ensures Owns(WithSema(sy, x, v, isLock), t, l) <==> Owns(sy, t, l)
  {
  }

  /** Places outside synchronization are all the same to ownership. */
  lemma RestOwns(sy: Sync, t: Tid, p: Pc, u: Tid, l: SemaId)
    requires Resting(PcOf(sy, t)) && Resting(p)
    ensures Owns(SetPc(sy, t, p), u, l) <==> Owns(sy, u, l)
  {
  }

  lemma EnterOwns(k: Kernel, x: SemaId, cont: Cont, t: Tid, l: SemaId)
    requires PcOf(k.sy, k.cur) == Normal
    ensures Owns(Enter(k, x, cont).sy, t, l) <==> Owns(k.sy, t, l)
  {
  }

  lemma TryOwns(k: Kernel, x: SemaId, cont: Cont, t: Tid, l: SemaId)
    requires PcOf(k.sy, k.cur) == Normal
    ensures Owns(TryStep(k, x, cont).sy, t, l) <==>
      Owns(k.sy, t, l) || (t == k.cur && x == l && cont == Record && Value(k.sy, x) > 0)
  {
    hide Owns;
    EnterOwns(k, x, cont, t, l);
    if Value(k.sy, x) > 0 { TakenOwns(Enter(k, x, cont).sy, k.cur, x, cont, t, l); }
  }

  lemma TakenOwns(sy: Sync, u: Tid, x: SemaId, cont: Cont, t: Tid, l: SemaId)
    requires Value(sy, x) > 0 && (PcOf(sy, u) == AboutToDown(x, cont) || PcOf(sy, u) == Downing(x, cont))
    ensures Owns(DownTaken(sy, u, x, cont), t, l) <==> Owns(sy, t, l) || (t == u && x == l && cont == Record)
  {
  }

  lemma RaiseOwns(k: Kernel, step: Step, t: Tid, l: SemaId)
    requires Raises(step)
    ensures Owns(Apply(k, step).sy, t, l) <==> OwnsAfter(k, step, t, l, Owns(k.sy, t, l))
  {
    hide Choice, Wake, Raised;
    match step
    case Up(x) => WakeSy(k, Raised(k.sy, x, Choice(k, x)), Choice(k, x)); RaisedOwns(k.sy, x, Choice(k, x), t, l);
    case InterruptUp(x) => WakeSy(k, Raised(k.sy, x, Choice(k, x)), Choice(k, x)); RaisedOwns(k.sy, x, Choice(k, x), t, l);
    case CondSignal(c, x, p) =>
      WakeSy(k, Signalled(k.sy, c, p, Choice(k, p)), Choice(k, p));
      RaisedOwns(CondTaken(k.sy, c, p), p, Choice(k, p), t, l);
  }

  lemma OtherOwns(k: Kernel, step: Step, t: Tid, l: SemaId)
    requires Inv(k) && Enabled(k, step) && !Calls(step) && !Raises(step) && !step.Continue?
    ensures Owns(Apply(k, step).sy, t, l) <==> OwnsAfter(k, step, t, l, Owns(k.sy, t, l))
  {
    hide Inv, Eff, Highest, Schedule, Yield, Unblock, TickStep, Dropped, Owns;
    match step
    case SetPriority(p) => RestOwns(k.sy, k.cur, Lowering(Prio(k.prio, k.cur)), t, l);
    case Release(x) => HeldNoDup(k); DroppedOwns(k.sy, k.cur, x, Return, t, l);
    case YieldCpu => YieldSy(k);
    case Create(u, p) => CreateOwns(k, u, p, t, l);
    case Exit => ScheduleSy(SetStatus(k, k.cur, Dying));
    case Sleep(n) =>
      ScheduleSy(SetStatus(FallAsleep(k, n), k.cur, Blocked));
      RestOwns(k.sy, k.cur, Asleep, t, l);
    case IdleBlock => ScheduleSy(SetStatus(k, k.cur, Blocked));
    case Tick => TickOwns(k, t, l);
  }

  lemma ContinueApplies(k: Kernel, step: Step)
    requires step.Continue?
    ensures Apply(k, step) == ContinueStep(k)
  {
  }

  /** Ownership of every lock by every thread changes exactly when the running thread gets the lock or gives it up. */
  lemma StepOwns(k: Kernel, step: Step, t: Tid, l: SemaId)
    requires Inv(k) && Enabled(k, step)
    ensures Owns(Apply(k, step).sy, t, l) <==> OwnsAfter(k, step, t, l, Owns(k.sy, t, l))
  {
    hide *;
    if Calls(step) {
      CallOwns(k, step, t, l);
    } else if Raises(step) {
      RaiseOwns(k, step, t, l);
    } else if step.Continue? {
      ContinueApplies(k, step);
      ContinueOwns(k, t, l);
    } else {
      OtherOwns(k, step, t, l);
    }
  }

  lemma HeldNoDup(k: Kernel)
    requires Inv(k)
    ensures NoDup(Held(k.sy, k.cur))
  {
    assert ListOk(k.sy, k.cur);
  }

  lemma RaisedOwns(sy: Sync, x: SemaId, w: Option<Tid>, t: Tid, l: SemaId)
    ensures Owns(Raised(sy, x, w), t, l) <==> Owns(sy, t, l)
  {
  }

  ghost predicate OwnsByRun(k: Kernel, steps: seq<Step>, t: Tid, l: SemaId, before: bool)
    decreases |steps|
  {
    if steps == [] then before
    else OwnsByRun(Apply(k, steps[0]), steps[1..], t, l, OwnsAfter(k, steps[0], t, l, before))
  }

  lemma {:induction false} RunOwns(k: Kernel, steps: seq<Step>, t: Tid, l: SemaId)
    requires Inv(k) && Legal(k, steps)
    ensures Owns(Final(k, steps).sy, t, l) <==> OwnsByRun(k, steps, t, l, Owns(k.sy, t, l))
    decreases |steps|
  {
    if steps != [] {
      hide Inv, Apply, Enabled, Owns, OwnsAfter;
      StepOwns(k, steps[0], t, l);
      StepKeeps(k, steps[0]);
      RunOwns(Apply(k, steps[0]), steps[1..], t, l);
    }
  }

  /** Over every run from boot, a thread owns a lock exactly when it has got it and not given it up since. */
  lemma OwnedSinceGot(main: Tid, idle: Tid, priority: int, steps: seq<Step>, t: Tid, l: SemaId)
    requires main != idle && Legal(Boot(main, idle, priority), steps)
    ensures Owns(Final(Boot(main, idle, priority), steps).sy, t, l) <==>
      OwnsByRun(Boot(main, idle, priority), steps, t, l, false)
  {
    BootInv(main, idle, priority);
    RunOwns(Boot(main, idle, priority), steps, t, l);
  }

  // ---- calls that return with the lock ----

  /** Inside lock_acquire of `l`, or inside a cond_wait that has to get `l` back. */
  ghost predicate OnTheWay(p: Pc, l: SemaId) {
    || p == AboutToDown(l, Record) || p == Downing(l, Record) || p == Recording(l)
    || ((p.AboutToDown? || p.Downing?) && p.cont == Reacquire(l))
    || (p.Dropping? && p.lock == l && p.cont.CondSleep?)
  }

  ghost predicate Returned(k: Kernel, t: Tid, l: SemaId) { PcOf(k.sy, t) == Normal && l in Held(k.sy, t) }

  /** Going on from a place on the way leads to another one, or out of it with the lock. */
  lemma ContinueOnTheWay(k: Kernel, l: SemaId)
    requires OnTheWay(PcOf(k.sy, k.cur), l)
    ensures OnTheWay(PcOf(ContinueStep(k).sy, k.cur), l) || Returned(ContinueStep(k), k.cur, l)
  {
    hide Choice, Wake, DownStep;
    match PcOf(k.sy, k.cur)
    case AboutToDown(s, cont) => DownSy(k, s, cont);
    case Downing(s, cont) => DownSy(k, s, cont);
    case Recording(x) =>
    case Dropping(x, cont) => WakeSy(k, DropDone(k.sy, k.cur, x, cont, Choice(k, x)), Choice(k, x));
  }

  lemma {:induction false} WakeLoopPc(k: Kernel, i: nat, y: bool, t: Tid)
    requires i <= |k.sleeping| && t !in k.sleeping
    ensures PcOf(WakeLoop(k, i, y).0.sy, t) == PcOf(k.sy, t)
    decreases |k.sleeping| - i
  {
    if i < |k.sleeping| {
      WakeLoopUnfold(k, i, y);
      var k1, u := WakeSleeper(k, i), k.sleeping[i];
      if Due(k, u) { WakeLoopPc(k1, i, y || Eff(k1, u) > Eff(k1, k1.cur), t); } else { WakeLoopPc(k, i + 1, y, t); }
    }
  }

  lemma TickPc(k: Kernel, t: Tid)
    requires Inv(k) && !PcOf(k.sy, t).Asleep?
    ensures PcOf(TickStep(k).sy, t) == PcOf(k.sy, t)
  {
    hide Yield, SyncInv;
    assert Placed(k, Some(k.cur), t);
    var y := Ticked(k).slice >= TIME_SLICE;
    WakeLoopPc(Ticked(k), 0, y, t);
    YieldSy(WakeLoop(Ticked(k), 0, y).0);
  }

  /** A step moves nobody's place but the running thread's; one that is on the way takes no part in other steps. */
  lemma PlaceKept(k: Kernel, step: Step, t: Tid, l: SemaId)
    requires Inv(k) && Enabled(k, step) && OnTheWay(PcOf(k.sy, t), l) && !(step.Continue? && t == k.cur)
    ensures PcOf(Apply(k, step).sy, t) == PcOf(k.sy, t)
  {
    assert Placed(k, Some(k.cur), t);
    if Calls(step) {
      CallPlace(k, step, t);
    } else if Raises(step) {
      RaisePlace(k, step, t);
    } else if step.Continue? {
      ContinuePlace(k, t);
    } else {
      OtherPlace(k, step, t);
    }
  }

  lemma CallPlace(k: Kernel, step: Step, t: Tid)
    requires Enabled(k, step) && Calls(step) && t != k.cur
    ensures PcOf(Apply(k, step).sy, t) == PcOf(k.sy, t)
  {
    hide DownStep, TryStep, CondWaitBegun;
    match step
    case Down(x) => DownSy(Enter(k, x, Return), x, Return);
    case TryDown(x) => TryPlace(k, x, Return, t);
    case Acquire(x) => DownSy(Enter(k, x, Record), x, Record);
    case TryAcquire(x) => TryPlace(k, x, Record, t);
    case CondWait(c, l, p) => CondWaitPlace(k.sy, k.cur, c, l, p, t);
    case _ =>
  }

  lemma TryPlace(k: Kernel, x: SemaId, cont: Cont, t: Tid)
    requires t != k.cur
    ensures PcOf(TryStep(k, x, cont).sy, t) == PcOf(k.sy, t)
  {
  }

  lemma CondWaitPlace(sy: Sync, u: Tid, c: CondId, l: SemaId, p: SemaId, t: Tid)
    requires t != u
    ensures PcOf(CondWaitBegun(sy, u, c, l, p), t) == PcOf(sy, t)
  {
  }

  lemma RaisePlace(k: Kernel, step: Step, t: Tid)
    requires Raises(step)
    ensures PcOf(Apply(k, step).sy, t) == PcOf(k.sy, t)
  {
    hide Choice, Wake;
    match step
    case Up(x) => WakeSy(k, Raised(k.sy, x, Choice(k, x)), Choice(k, x));
    case InterruptUp(x) => WakeSy(k, Raised(k.sy, x, Choice(k, x)), Choice(k, x));
    case CondSignal(c, x, p) => WakeSy(k, Signalled(k.sy, c, p, Choice(k, p)), Choice(k, p));
  }

  lemma ContinuePlace(k: Kernel, t: Tid)
    requires t != k.cur
    ensures PcOf(ContinueStep(k).sy, t) == PcOf(k.sy, t)
  {
    hide Choice, Wake, DownStep, Yield, Highest, Eff;
    match PcOf(k.sy, k.cur)
    case AboutToDown(s, cont) => DownSy(k, s, cont);
    case Downing(s, cont) => DownSy(k, s, cont);
    case Dropping(x, cont) => WakeSy(k, DropDone(k.sy, k.cur, x, cont, Choice(k, x)), Choice(k, x));
    case Yielding(was) => YieldSy(k.(sy := SetPc(k.sy, k.cur, Normal)));
    case _ =>
  }

  lemma OtherPlace(k: Kernel, step: Step, t: Tid)
    requires Inv(k) && Enabled(k, step) && !Calls(step) && !Raises(step) && !step.Continue?
    requires PcOf(k.sy, t) != Normal && !PcOf(k.sy, t).Asleep?
    ensures PcOf(Apply(k, step).sy, t) == PcOf(k.sy, t)
  {
    assert Placed(k, Some(k.cur), t);
    hide Eff, Highest, Schedule, Yield, Unblock, TickStep;
    match step
    case YieldCpu => YieldSy(k);
    case Create(u, p) => UnblockSy(NewThread(k, u, p), u);
    case Exit => ScheduleSy(SetStatus(k, k.cur, Dying));
    case Sleep(n) => ScheduleSy(SetStatus(FallAsleep(k, n), k.cur, Blocked));
    case IdleBlock => ScheduleSy(SetStatus(k, k.cur, Blocked));
    case Tick => TickPc(k, t);
    case _ =>
  }

  lemma StepOnTheWay(k: Kernel, step: Step, t: Tid, l: SemaId)
    requires Inv(k) && Enabled(k, step) && OnTheWay(PcOf(k.sy, t), l)
    ensures OnTheWay(PcOf(Apply(k, step).sy, t), l) || Returned(Apply(k, step), t, l)
  {
    hide *;
    if step.Continue? && t == k.cur {
      ContinueApplies(k, step);
      ContinueOnTheWay(k, l);
    } else {
      PlaceKept(k, step, t, l);
    }
  }

  lemma {:induction false} RunOnTheWay(k: Kernel, steps: seq<Step>, t: Tid, l: SemaId) returns (n: nat)
    requires Inv(k) && Legal(k, steps) && OnTheWay(PcOf(k.sy, t), l)
    ensures n <= |steps|
    ensures forall m: nat :: m < n ==> OnTheWay(PcOf(Final(k, steps[..m]).sy, t), l)
    ensures if n < |steps| then Returned(Final(k, steps[..n]), t, l)
            else OnTheWay(PcOf(Final(k, steps).sy, t), l) || Returned(Final(k, steps), t, l)
    decreases |steps|
  {
    hide Inv, Apply, Enabled, OnTheWay, Returned;
    n := 0;
    if steps != [] {
      var k1 := Apply(k, steps[0]);
      StepOnTheWay(k, steps[0], t, l);
      StepKeeps(k, steps[0]);
      FirstStep(k, steps, 1);
      if OnTheWay(PcOf(k1.sy, t), l) {
        n := RunOnTheWay(k1, steps[1..], t, l);
        n := n + 1;
        FirstStep(k, steps, n);
        forall m: nat | m < n ensures OnTheWay(PcOf(Final(k, steps[..m]).sy, t), l) {
          if m > 0 { FirstStep(k, steps, m); }
        }
      } else {
        n := 1;
        assert steps[1..][..0] == [];
        if |steps| == 1 { assert steps[..1] == steps; }
        assert steps[..0] == [];
      }
    }
  }

  lemma FirstStep(k: Kernel, steps: seq<Step>, n: nat)
    requires 0 < n <= |steps|
    ensures Final(k, steps[..n]) == Final(Apply(k, steps[0]), steps[1..][..n - 1])
  {
    assert steps[..n][1..] == steps[1..][..n - 1];
  }

  /** lock_acquire and cond_wait return only with the lock: in every run after the call the caller is still on its way,
      up to a state, if there is one, in which it is back in ordinary code and the lock is on its list. */
  lemma ReturnsHolding(k: Kernel, call: Step, steps: seq<Step>) returns (n: nat)
    requires Inv(k) && Enabled(k, call) && (call.Acquire? || call.CondWait?) && Legal(Apply(k, call), steps)
    ensures var k1 := Apply(k, call);
      && n <= |steps| && (forall m: nat :: m < n ==> OnTheWay(PcOf(Final(k1, steps[..m]).sy, k.cur), call.s))
      && if n < |steps| then Returned(Final(k1, steps[..n]), k.cur, call.s)
         else OnTheWay(PcOf(Final(k1, steps).sy, k.cur), call.s) || Returned(Final(k1, steps), k.cur, call.s)
  {
    CallOnTheWay(k, call);
    StepKeeps(k, call);
    n := RunOnTheWay(Apply(k, call), steps, k.cur, call.s);
  }

  lemma CallOnTheWay(k: Kernel, call: Step)
    requires call.Acquire? || call.CondWait?
    ensures OnTheWay(PcOf(Apply(k, call).sy, k.cur), call.s)
  {
    hide DownStep;
    if call.Acquire? { DownSy(Enter(k, call.s, Record), call.s, Record); }
  }
}
