/**
 The scheduler state and its atomic steps: the ready list, thread status, sleeping threads
 and the running thread, around the synchronization state. Each step is one stretch of code
 that runs with interrupts off, up to the context switch if there is one, or the code between
 two points where an interrupt can make a difference.
 */
module Scheduler {
  import opened Common
  import opened Seqs
  import opened Synch
  import opened Donation

  datatype Status = Running | Ready | Blocked | Dying

  const TIME_SLICE: nat := 4

  datatype Kernel = Kernel(
    prio: map<Tid, int>,
    status: map<Tid, Status>,
    ready: seq<Tid>,
    sleeping: seq<Tid>,
    wakeup: map<Tid, int>,
    cur: Tid,
    idle: Tid,
    slice: nat,
    ticks: int,
    sy: Sync)

  /** given_thread_get_priority without the multi-level feedback queue. */
  function Eff(k: Kernel, t: Tid): int { Donated(k.prio, k.sy, t, MAX_DEPTH) }

  function Wakeup(k: Kernel, t: Tid): int { if t in k.wakeup then k.wakeup[t] else 0 }

  /** The first thread of greatest effective priority among `best` and then `l`. */
  function HighestFrom(k: Kernel, best: Tid, l: seq<Tid>): (r: Tid)
    ensures r == best || r in l
    ensures Eff(k, best) <= Eff(k, r)
    decreases |l|
  {
    if l == [] then best
    else HighestFrom(k, if Eff(k, l[0]) > Eff(k, best) then l[0] else best, l[1..])
  }

  function Highest(k: Kernel, l: seq<Tid>): (r: Tid)
    requires l != []
    ensures r in l
  {
    HighestFrom(k, l[0], l[1..])
  }

  /** `m` is at place `i` of `s` and is its first maximum. */
  ghost predicate FirstMaximum(k: Kernel, s: seq<Tid>, i: nat, m: Tid) {
    && i < |s| && s[i] == m
    && (forall j: nat :: j < |s| ==> Eff(k, s[j]) <= Eff(k, m)) && (forall j: nat :: j < i ==> Eff(k, s[j]) < Eff(k, m))
  }

  lemma FirstMaximumStep(k: Kernel, best: Tid, l: seq<Tid>, i: nat, m: Tid)
    requires l != []
    requires FirstMaximum(k, [if Eff(k, l[0]) > Eff(k, best) then l[0] else best] + l[1..], i, m)
    ensures FirstMaximum(k, [best] + l, if i > 0 then i + 1 else if Eff(k, l[0]) > Eff(k, best) then 1 else 0, m)
  {
    hide Eff;
    var next := if Eff(k, l[0]) > Eff(k, best) then l[0] else best;
    var s, t := [best] + l, [next] + l[1..];
    assert t[0] == next && s[0] == best && s[1] == l[0];
    assert forall j: nat :: 2 <= j < |s| ==> s[j] == t[j - 1];
  }

  /** list_highest_priority_thread returns a maximum, and of several the one nearest the front. */
  lemma {:induction false} HighestFromIsFirstMaximum(k: Kernel, best: Tid, l: seq<Tid>) returns (i: nat)
    ensures FirstMaximum(k, [best] + l, i, HighestFrom(k, best, l))
    decreases |l|
  {
    hide Eff;
    i := 0;
    if l != [] {
      var next := if Eff(k, l[0]) > Eff(k, best) then l[0] else best;
      var i' := HighestFromIsFirstMaximum(k, next, l[1..]);
      FirstMaximumStep(k, best, l, i', HighestFrom(k, next, l[1..]));
      i := if i' > 0 then i' + 1 else if Eff(k, l[0]) > Eff(k, best) then 1 else 0;
    }
  }

  lemma HighestIsMax(k: Kernel, l: seq<Tid>, t: Tid)
    requires t in l
    ensures Eff(k, t) <= Eff(k, Highest(k, l))
  {
    var i := HighestFromIsFirstMaximum(k, l[0], l[1..]);
    assert [l[0]] + l[1..] == l;
    var j :| 0 <= j < |l| && l[j] == t;
    assert ([l[0]] + l[1..])[j] == t;
  }

  // ---- scheduling ----

  function SetStatus(k: Kernel, t: Tid, s: Status): Kernel { k.(status := k.status[t := s]) }

  /** schedule: the current thread has already left the running state. */
  function Schedule(k: Kernel): Kernel {
    if k.ready == [] then SetStatus(k, k.idle, Running).(cur := k.idle, slice := 0)
    else
      var next := Highest(k, k.ready);
      SetStatus(k, next, Running).(cur := next, slice := 0, ready := Remove(k.ready, next))
  }

  /** thread_yield: the idle thread is never put on the ready list. */
  function Yield(k: Kernel): Kernel {
    Schedule(SetStatus(k, k.cur, Ready).(ready := if k.cur == k.idle then k.ready else k.ready + [k.cur]))
  }

  /** thread_block. */
  function Block(k: Kernel): Kernel { Schedule(SetStatus(k, k.cur, Blocked)) }

  /** The part of thread_unblock that runs in every context. */
  function MakeReady(k: Kernel, t: Tid): Kernel { SetStatus(k, t, Ready).(ready := k.ready + [t]) }

  /** thread_unblock outside an interrupt; inside one the yield comes when the interrupt returns. */
  function Unblock(k: Kernel, t: Tid): Kernel {
    var k1 := MakeReady(k, t);
    if Eff(k1, t) > Eff(k1, k1.cur) then Yield(k1) else k1
  }

  // ---- semaphores, locks, conditions ----

  /** The waiter sema_up wakes. */
  function Choice(k: Kernel, s: SemaId): Option<Tid> {
    if Waiters(k.sy, s) == [] then None else Some(Highest(k, Waiters(k.sy, s)))
  }

  /** The end of sema_up: the queues are updated to `sy`, then the chosen thread is unblocked. */
  function Wake(k: Kernel, sy: Sync, w: Option<Tid>): Kernel {
    if w.Some? then Unblock(k.(sy := sy), w.value) else k.(sy := sy)
  }

  /** sema_down's loop body, entered for the first time or after being woken. */
  function DownStep(k: Kernel, s: SemaId, cont: Cont): Kernel {
    if Value(k.sy, s) > 0 then k.(sy := DownTaken(k.sy, k.cur, s, cont))
    else Block(k.(sy := DownQueued(k.sy, k.cur, s, cont)))
  }

  function Enter(k: Kernel, s: SemaId, cont: Cont): Kernel {
    k.(sy := SetPc(k.sy, k.cur, AboutToDown(s, cont)))
  }

  /** The running thread goes on from the place where it was interrupted or switched out. */
  function ContinueStep(k: Kernel): Kernel {
    match PcOf(k.sy, k.cur)
    case AboutToDown(s, cont) => DownStep(k, s, cont)
    case Downing(s, cont) => DownStep(k, s, cont)
    case Recording(l) => k.(sy := Recorded(k.sy, k.cur, l))
    case Dropping(l, cont) => Wake(k, DropDone(k.sy, k.cur, l, cont, Choice(k, l)), Choice(k, l))
    case Lowering(was) => ScanStep(k, was)
    case Yielding(was) => Yield(k.(sy := SetPc(k.sy, k.cur, Normal)))
    case _ => k
  }

  /** sema_try_down and lock_try_acquire. */
  function TryStep(k: Kernel, s: SemaId, cont: Cont): Kernel {
    if Value(k.sy, s) > 0 then k.(sy := DownTaken(Enter(k, s, cont).sy, k.cur, s, cont)) else k
  }

  /** cond_signal's scan over the private semaphores `ps`. */
  function PickFrom(k: Kernel, ps: seq<SemaId>, best: SemaId, high: int): (p: SemaId)
    ensures p == best || p in ps
  {
    if ps == [] then best
    else if Waiters(k.sy, ps[0]) == [] then PickFrom(k, ps[1..], best, high)
    else
      var q := Prio(k.prio, Highest(k, Waiters(k.sy, ps[0])));
      if q > high then PickFrom(k, ps[1..], ps[0], q) else PickFrom(k, ps[1..], best, high)
  }

  function Pick(k: Kernel, ps: seq<SemaId>): (p: SemaId)
    requires ps != []
    ensures p in ps
  {
    PickFrom(k, ps, ps[0], -1)
  }

  /** cond_signal once its scan has settled on `p`. Interrupts are on during the scan, so `p` can be any waiter. */
  function SignalStep(k: Kernel, c: CondId, p: SemaId): Kernel {
    if CondList(k.sy, c) == [] then k
    else Wake(k, Signalled(k.sy, c, p, Choice(k, p)), Choice(k, p))
  }

  // ---- threads ----

  /** thread_set_priority up to the store; interrupts stay on. */
  function StoreStep(k: Kernel, p: int): Kernel {
    k.(prio := k.prio[k.cur := p], sy := SetPc(k.sy, k.cur, Lowering(Prio(k.prio, k.cur))))
  }

  /** thread_set_priority's look at the ready list: compares the new base priority, not the effective one, with
      the best ready thread. */
  function ScanStep(k: Kernel, was: int): Kernel {
    var higher := k.ready != [] && Prio(k.prio, k.cur) < Eff(k, Highest(k, k.ready));
    k.(sy := SetPc(k.sy, k.cur, if higher then Yielding(was) else Normal))
  }

  /** init_thread. */
  function NewThread(k: Kernel, t: Tid, p: int): Kernel {
    SetStatus(k, t, Blocked).(prio := k.prio[t := p], sy := WithThread(k.sy, t))
  }

  // ---- the timer ----

  /** timer_sleep before it disables interrupts. */
  function SleepBegun(k: Kernel, n: int): Kernel {
    k.(wakeup := k.wakeup[k.cur := k.ticks + n], sleeping := k.sleeping + [k.cur])
  }

  /** timer_sleep up to thread_block. */
  function FallAsleep(k: Kernel, n: int): Kernel { SleepBegun(k, n).(sy := SetPc(k.sy, k.cur, Asleep)) }

  /** One thread leaves the sleeping list inside the timer interrupt. */
  function WakeSleeper(k: Kernel, i: nat): Kernel
    requires i < |k.sleeping|
  {
    var t := k.sleeping[i];
    MakeReady(k.(sleeping := k.sleeping[..i] + k.sleeping[i + 1..], sy := SetPc(k.sy, t, Normal)), t)
  }

  /** The wake-up loop: `i` is the list position, `y` records a request to yield on return. */
  function WakeLoop(k: Kernel, i: nat, y: bool): (r: (Kernel, bool))
    requires i <= |k.sleeping|
    decreases |k.sleeping| - i
  {
    if i == |k.sleeping| then (k, y)
    else
      var t := k.sleeping[i];
      if k.ticks >= Wakeup(k, t) then
        var k1 := WakeSleeper(k, i);
        WakeLoop(k1, i, y || Eff(k1, t) > Eff(k1, k1.cur))
      else WakeLoop(k, i + 1, y)
  }

  /** The end of the interrupt: yield if that was requested. */
  function FromInterrupt(r: (Kernel, bool)): Kernel { if r.1 then Yield(r.0) else r.0 }

  function Ticked(k: Kernel): Kernel { k.(ticks := k.ticks + 1, slice := k.slice + 1) }

  function TickStep(k: Kernel): Kernel { FromInterrupt(WakeLoop(Ticked(k), 0, Ticked(k).slice >= TIME_SLICE)) }

  // ---- steps and runs ----

  datatype Step =
    | InitSema(s: SemaId, value: nat)
    | InitLock(s: SemaId)
    | Down(s: SemaId)
    | TryDown(s: SemaId)
    | Up(s: SemaId)
    | Acquire(s: SemaId)
    | TryAcquire(s: SemaId)
    | Release(s: SemaId)
    | CondWait(c: CondId, s: SemaId, p: SemaId)
    | CondSignal(c: CondId, s: SemaId, p: SemaId)
    | Continue
    | YieldCpu
    | SetPriority(priority: int)
    | Create(t: Tid, priority: int)
    | Exit
    | Sleep(n: int)
    | IdleBlock
    | Tick
    | InterruptUp(s: SemaId)

  /** A step a thread can begin only in ordinary code. */
  ghost predicate Free(k: Kernel) { k.cur != k.idle && PcOf(k.sy, k.cur) == Normal }

  ghost predicate Enabled(k: Kernel, step: Step) {
    match step
    case InitSema(s, v) => Free(k) && s !in k.sy.semas
    case InitLock(s) => Free(k) && s !in k.sy.semas
    case Down(s) => Free(k) && Plain(k.sy, s)
    case TryDown(s) => Free(k) && Plain(k.sy, s)
    case Up(s) => Free(k) && Plain(k.sy, s)
    case Acquire(l) => Free(k) && l in k.sy.locks && l !in Held(k.sy, k.cur)
    case TryAcquire(l) => Free(k) && l in k.sy.locks && l !in Held(k.sy, k.cur)
    case Release(l) => Free(k) && l in Held(k.sy, k.cur)
    case CondWait(c, l, p) => Free(k) && l in Held(k.sy, k.cur) && p !in k.sy.semas
    case CondSignal(c, l, p) => Free(k) && l in Held(k.sy, k.cur) && (CondList(k.sy, c) != [] ==> p in CondList(k.sy, c))
    case Continue => k.cur != k.idle && PcOf(k.sy, k.cur) != Normal
    case Create(t, p) => Free(k) && t !in k.status
    case IdleBlock => k.cur == k.idle
    case Tick => true
    case InterruptUp(s) => Plain(k.sy, s)
    case _ => Free(k)
  }

  function Apply(k: Kernel, step: Step): Kernel {
    match step
    case InitSema(s, v) => k.(sy := WithSema(k.sy, s, v, false))
    case InitLock(s) => k.(sy := WithSema(k.sy, s, 1, true))
    case Down(s) => DownStep(Enter(k, s, Return), s, Return)
    case TryDown(s) => TryStep(k, s, Return)
    case Up(s) => Wake(k, Raised(k.sy, s, Choice(k, s)), Choice(k, s))
    case Acquire(l) => DownStep(Enter(k, l, Record), l, Record)
    case TryAcquire(l) => TryStep(k, l, Record)
    case Release(l) => k.(sy := Dropped(k.sy, k.cur, l, Return))
    case CondWait(c, l, p) => k.(sy := CondWaitBegun(k.sy, k.cur, c, l, p))
    case CondSignal(c, l, p) => SignalStep(k, c, p)
    case Continue => ContinueStep(k)
    case YieldCpu => Yield(k)
    case SetPriority(p) => StoreStep(k, p)
    case Create(t, p) => Unblock(NewThread(k, t, p), t)
    case Exit => Schedule(SetStatus(k, k.cur, Dying))
    case Sleep(n) => Block(FallAsleep(k, n))
    case IdleBlock => Block(k)
    case Tick => TickStep(k)
    case InterruptUp(s) => Wake(k, Raised(k.sy, s, Choice(k, s)), Choice(k, s))
  }

  ghost predicate Legal(k: Kernel, steps: seq<Step>)
    decreases |steps|
  {
    steps == [] || (Enabled(k, steps[0]) && Legal(Apply(k, steps[0]), steps[1..]))
  }

  ghost function Final(k: Kernel, steps: seq<Step>): Kernel
    decreases |steps|
  {
    if steps == [] then k else Final(Apply(k, steps[0]), steps[1..])
  }

  /** The state thread_start leaves behind: the main thread runs, the idle thread has blocked. */
  function Boot(main: Tid, idle: Tid, priority: int): Kernel {
    Kernel(map[main := priority, idle := 0], map[main := Running, idle := Blocked], [], [], map[], main, idle, 0, 0,
           Sync(map[], {}, map[], map[main := Normal, idle := Normal], map[], map[]))
  }

  // ---- what every step keeps ----

  /** Every thread is on exactly the list its status and place in the code call for; `running` is the thread
      that has the processor, none in the middle of a switch. */
  ghost predicate Placed(k: Kernel, running: Option<Tid>, t: Tid) {
    && (t in k.status <==> t in k.sy.pc)
    && (t in k.ready <==> t in k.status && t != k.idle && k.status[t] == Ready)
    && (t in k.sleeping <==> t in k.status && k.status[t] == Blocked && PcOf(k.sy, t) == Asleep)
    && (t in k.status ==> (k.status[t] == Running <==> running == Some(t)))
    && (t in k.status && PcOf(k.sy, t) == Asleep ==> k.status[t] == Blocked)
    && (t in k.status && k.status[t] == Blocked && t != k.idle ==> PcOf(k.sy, t).Asleep? || PcOf(k.sy, t).Downing?)
  }
  ghost predicate QueuePlaced(k: Kernel, t: Tid, s: SemaId) {
    t in Waiters(k.sy, s) <==>
    t in k.status && k.status[t] == Blocked && PcOf(k.sy, t).Downing? && PcOf(k.sy, t).s == s
  }
  ghost predicate ListsAt(k: Kernel, running: Option<Tid>) {
    && NoDup(k.ready) && NoDup(k.sleeping)
    && k.idle in k.status && PcOf(k.sy, k.idle) == Normal
    && (forall t: Tid :: Placed(k, running, t))
    && (forall t: Tid, s: SemaId :: QueuePlaced(k, t, s))
  }
  ghost predicate Lists(k: Kernel) { k.cur in k.status && ListsAt(k, Some(k.cur)) }

  /** The places where a ready thread can be above the running one: between the two halves of lock_release, and in
      thread_set_priority after the store. */
  predicate InWindow(p: Pc) { p.Dropping? || p.Lowering? || p.Yielding? }

  /** What the running thread can claim: its effective priority and, in a window, also what it has just given up. */
  ghost function Level(k: Kernel): int {
    match PcOf(k.sy, k.cur)
    case Dropping(l, _) => Best(k.prio, k.sy, Waiters(k.sy, l), MAX_DEPTH - 1, Eff(k, k.cur))
    case Lowering(was) => Max(Eff(k, k.cur), was)
    case Yielding(was) => Max(Eff(k, k.cur), was)
    case _ => Eff(k, k.cur)
  }

  ghost predicate AllBelow(k: Kernel, bound: int) {
    forall t :: t in k.ready ==> Eff(k, t) <= bound
  }

  /** No ready thread is above the running one. */
  ghost predicate InOrder(k: Kernel) { AllBelow(k, Eff(k, k.cur)) }

  ghost predicate Inv(k: Kernel) { SyncInv(k.sy) && Lists(k) && AllBelow(k, Level(k)) }
}
