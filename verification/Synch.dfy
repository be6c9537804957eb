/**
 Semaphores, locks and condition variables, seen without the scheduler: the state each
 operation of threads/synch.c reads and writes, and what every operation keeps.

 A thread inside one of these operations can be interrupted between two atomic sections,
 so its place in the code is part of the state (`Pc`).
 */
module Synch {
  import opened Common
  import opened Seqs

  type Tid = nat
  type SemaId = nat
  type CondId = nat

  /** A semaphore. A lock is a semaphore that also records its holder. */
  datatype Sema = Sema(value: nat, waiters: seq<Tid>, holder: Option<Tid>)

  /** What a thread does once the atomic section it is heading for is over. */
  datatype Cont =
    | Return                               // sema_down or lock_release was called directly
    | Record                               // lock_acquire: record the lock whose semaphore went down
    | CondSleep(sema: SemaId)              // cond_wait: the lock is up, go down on the private semaphore
    | Reacquire(lock: SemaId)              // cond_wait: signalled, acquire the lock again

  /** Where a thread stands in the synchronization code. */
  datatype Pc =
    | Normal
    | Asleep                               // blocked in timer_sleep
    | AboutToDown(s: SemaId, cont: Cont)   // about to enter sema_down
    | Downing(s: SemaId, cont: Cont)       // inside sema_down's loop: queued, or woken and not yet rechecking
    | Recording(lock: SemaId)              // semaphore is down, holder not yet recorded
    | Dropping(lock: SemaId, cont: Cont)   // holder already cleared, semaphore not yet up
    | Lowering(was: int)                   // thread_set_priority: stored, the ready list not yet looked at
    | Yielding(was: int)                   // thread_set_priority: somebody ready is higher, not yet yielded

  datatype Sync = Sync(
    semas: map<SemaId, Sema>,
    locks: set<SemaId>,                    // the semaphores that belong to locks
    held: map<Tid, seq<SemaId>>,           // each thread's `locks` list
    pc: map<Tid, Pc>,
    conds: map<CondId, seq<SemaId>>,       // condition variables' waiter lists
    privates: map<SemaId, (Tid, CondId)>)  // cond_wait's stack semaphores: who waits, and on what

  function At(sy: Sync, s: SemaId): Sema {
    if s in sy.semas then sy.semas[s] else Sema(0, [], None)
  }
  function Waiters(sy: Sync, s: SemaId): seq<Tid> { At(sy, s).waiters }
  function Value(sy: Sync, s: SemaId): nat { At(sy, s).value }
  function Holder(sy: Sync, s: SemaId): Option<Tid> { At(sy, s).holder }
  function Held(sy: Sync, t: Tid): seq<SemaId> { if t in sy.held then sy.held[t] else [] }
  function PcOf(sy: Sync, t: Tid): Pc { if t in sy.pc then sy.pc[t] else Normal }
  function CondList(sy: Sync, c: CondId): seq<SemaId> { if c in sy.conds then sy.conds[c] else [] }

  function SetPc(sy: Sync, t: Tid, p: Pc): Sync { sy.(pc := sy.pc[t := p]) }
  function SetSema(sy: Sync, s: SemaId, m: Sema): Sync { sy.(semas := sy.semas[s := m]) }

  // ---- the atomic sections ----

  function After(s: SemaId, cont: Cont): Pc {
    match cont
    case Record => Recording(s)
    case Reacquire(l) => AboutToDown(l, Record)
    case _ => Normal
  }

  /** sema_down finding a positive value. */
  function DownTaken(sy: Sync, t: Tid, s: SemaId, cont: Cont): Sync
    requires Value(sy, s) > 0
  {
    SetPc(SetSema(sy, s, At(sy, s).(value := Value(sy, s) - 1)), t, After(s, cont))
  }

  /** sema_down finding zero: queue up. */
  function DownQueued(sy: Sync, t: Tid, s: SemaId, cont: Cont): Sync {
    SetPc(SetSema(sy, s, At(sy, s).(waiters := Waiters(sy, s) + [t])), t, Downing(s, cont))
  }

  /** sema_up: increment first, then dequeue the waiter the scheduler chose, if any. */
  function Raised(sy: Sync, s: SemaId, woken: Option<Tid>): Sync {
    var m := At(sy, s);
    SetSema(sy, s, m.(value := m.value + 1,
                      waiters := if woken.Some? then Remove(m.waiters, woken.value) else m.waiters))
  }

  /** lock_acquire's second half. */
  function Recorded(sy: Sync, t: Tid, l: SemaId): Sync {
    SetPc(SetSema(sy, l, At(sy, l).(holder := Some(t))).(held := sy.held[t := Held(sy, t) + [l]]), t, Normal)
  }

  /** lock_release's first half. */
  function Dropped(sy: Sync, t: Tid, l: SemaId, cont: Cont): Sync {
    SetPc(SetSema(sy, l, At(sy, l).(holder := None)).(held := sy.held[t := Remove(Held(sy, t), l)]), t,
          Dropping(l, cont))
  }

  /** Where a thread goes once lock_release's sema_up is done. */
  function AfterDrop(l: SemaId, cont: Cont): Pc {
    if cont.CondSleep? then AboutToDown(cont.sema, Reacquire(l)) else Normal
  }

  /** cond_wait up to lock_release: a private semaphore joins the condition's list. */
  function CondQueued(sy: Sync, t: Tid, c: CondId, p: SemaId): Sync {
    SetSema(sy, p, Sema(0, [], None)).(conds := sy.conds[c := CondList(sy, c) + [p]],
                                       privates := sy.privates[p := (t, c)])
  }

  function CondTaken(sy: Sync, c: CondId, p: SemaId): Sync {
    sy.(conds := sy.conds[c := Remove(CondList(sy, c), p)])
  }

  // ---- what every operation keeps ----

  ghost predicate Plain(sy: Sync, s: SemaId) {
    s in sy.semas && s !in sy.locks && s !in sy.privates
  }

  ghost predicate Entering(p: Pc, s: SemaId) { (p.AboutToDown? || p.Downing?) && p.s == s }

  /** `t` was dequeued from `s` and has not looked at the value again. */
  ghost predicate Woken(sy: Sync, t: Tid, s: SemaId) {
    t in sy.pc && sy.pc[t].Downing? && sy.pc[t].s == s && t !in Waiters(sy, s)
  }
  ghost function Pending(sy: Sync, s: SemaId): set<Tid> {
    set t | t in sy.pc && Woken(sy, t, s)
  }

  /** No lost wake-up: a queued waiter means every unit of the value is spoken for by a woken thread. */
  ghost predicate NoLostWakeup(sy: Sync) {
    forall s: SemaId :: Waiters(sy, s) != [] ==> Value(sy, s) <= |Pending(sy, s)|
  }

  /** `t` has taken lock `l`'s semaphore and not given it back. */
  ghost predicate Owns(sy: Sync, t: Tid, l: SemaId) {
    l in Held(sy, t) || PcOf(sy, t) == Recording(l) || (PcOf(sy, t).Dropping? && PcOf(sy, t).lock == l)
  }
  ghost function Owners(sy: Sync, l: SemaId): set<Tid> {
    set t | t in sy.pc && Owns(sy, t, l)
  }

  ghost predicate MutualExclusion(sy: Sync) {
    forall l: SemaId :: l in sy.locks ==> Value(sy, l) + |Owners(sy, l)| == 1
  }

  /** A thread's lock list and the locks' holder fields agree; a lock being recorded or dropped has no holder. */
  ghost predicate HoldersRecorded(sy: Sync) {
    && (forall t: Tid :: ListOk(sy, t))
    && (forall t: Tid, l: SemaId :: HeldOk(sy, t, l))
  }
  ghost predicate HeldOk(sy: Sync, t: Tid, l: SemaId) {
    && (l in Held(sy, t) <==> Holder(sy, l) == Some(t))
    && (l in Held(sy, t) ==> t in sy.pc && l in sy.locks)
  }
  ghost predicate ListOk(sy: Sync, t: Tid) {
    && NoDup(Held(sy, t))
    && (PcOf(sy, t).Recording? || PcOf(sy, t).Dropping? ==> Holder(sy, PcOf(sy, t).lock) == None)
  }

  /** Semaphores are entered and left for the purpose they were made for. */
  ghost predicate PcOk(sy: Sync, t: Tid) {
    match PcOf(sy, t)
    case AboutToDown(s, k) => EnterOk(sy, t, s, k)
    case Downing(s, k) => EnterOk(sy, t, s, k)
    case Recording(l) => l in sy.locks
    case Dropping(l, k) => l in sy.locks && (k == Return || (k.CondSleep? && OwnPrivate(sy, t, k.sema)))
    case _ => true
  }
  ghost predicate OwnPrivate(sy: Sync, t: Tid, p: SemaId) {
    p in sy.privates && sy.privates[p].0 == t
  }
  ghost predicate EnterOk(sy: Sync, t: Tid, s: SemaId, k: Cont) {
    match k
    case Return => Plain(sy, s)
    case Record => s in sy.locks
    case Reacquire(l) => l in sy.locks && OwnPrivate(sy, t, s)
    case _ => false
  }
  ghost predicate ControlOk(sy: Sync) {
    && sy.locks <= sy.semas.Keys && sy.privates.Keys <= sy.semas.Keys && sy.locks !! sy.privates.Keys
    && (forall t: Tid :: PcOk(sy, t))
    && (forall p: SemaId :: p in sy.privates ==> sy.privates[p].0 in sy.pc)
  }

  /** `t` still has to go down on its private semaphore `p`. */
  ghost predicate StillNeeds(sy: Sync, t: Tid, p: SemaId) {
    || Entering(PcOf(sy, t), p)
    || (PcOf(sy, t).Dropping? && PcOf(sy, t).cont == CondSleep(p))
  }

  /** Each private semaphore gets exactly one signal, and it is there when its waiter needs it. */
  ghost predicate CondsOk(sy: Sync) {
    && (forall c: CondId :: NoDup(CondList(sy, c)))
    && (forall c: CondId, p: SemaId :: p in CondList(sy, c) ==> p in sy.privates && sy.privates[p].1 == c)
    && (forall p: SemaId :: p in sy.privates ==> PrivateOk(sy, p))
  }
  ghost predicate PrivateOk(sy: Sync, p: SemaId)
    requires p in sy.privates
  {
    var (t, c) := sy.privates[p];
    if StillNeeds(sy, t, p) then Value(sy, p) == (if p in CondList(sy, c) then 0 else 1)
    else Value(sy, p) == 0 && p !in CondList(sy, c)
  }

  /** The queues hold exactly threads inside sema_down. */
  ghost predicate QueuesOk(sy: Sync) {
    && (forall s: SemaId :: NoDup(Waiters(sy, s)))
    && (forall s: SemaId, t: Tid :: t in Waiters(sy, s) ==> t in sy.pc && sy.pc[t].Downing? && sy.pc[t].s == s)
  }

  ghost predicate SyncInv(sy: Sync) {
    && ControlOk(sy) && QueuesOk(sy) && NoLostWakeup(sy)
    && HoldersRecorded(sy) && MutualExclusion(sy) && CondsOk(sy)
  }

  // ---- consequences ----

  /** A waiter still queued on its private semaphore has not been signalled. */
  lemma QueuedMeansUnsignalled(sy: Sync, p: SemaId)
    requires SyncInv(sy) && p in sy.privates && Waiters(sy, p) != []
    ensures p in CondList(sy, sy.privates[p].1)
  {
    var t := Waiters(sy, p)[0];
    assert PcOk(sy, t) && PrivateOk(sy, p);
    assert forall u: Tid :: PcOk(sy, u) && Woken(sy, u, p) ==> u == t;
    assert Pending(sy, p) == {};
  }

  /** A lock has at most one owner, and a free lock has none. */
  lemma AtMostOneOwner(sy: Sync, l: SemaId, t: Tid, u: Tid)
    requires SyncInv(sy) && l in sy.locks && t in sy.pc && u in sy.pc
    requires Owns(sy, t, l) && Owns(sy, u, l)
    ensures t == u && Value(sy, l) == 0
  {
    assert {t, u} <= Owners(sy, l);
    CardMono({t, u}, Owners(sy, l));
  }

  lemma {:induction false} CardMono<T>(a: set<T>, b: set<T>)
    requires a <= b
    ensures |a| <= |b|
  {
    if a != {} {
      var x :| x in a;
      CardMono(a - {x}, b - {x});
    }
  }

  // ---- preservation ----

  /** `t` stands outside every queue, as a running thread does. */
  ghost predicate Outside(sy: Sync, t: Tid) {
    t in sy.pc && forall s: SemaId :: t !in Waiters(sy, s)
  }

  /** Only `t`'s place in the code, one semaphore and `t`'s lock list may differ. */
  ghost predicate Delta(sy: Sync, sy': Sync, t: Tid, s: SemaId) {
    && t in sy.pc && sy'.pc == sy.pc[t := PcOf(sy', t)]
    && s in sy.semas && sy'.semas == sy.semas[s := At(sy', s)]
    && (forall u: Tid :: u != t ==> Held(sy', u) == Held(sy, u))
    && sy'.locks == sy.locks && sy'.privates == sy.privates && sy'.conds == sy.conds
  }

  lemma ControlKept(sy: Sync, sy': Sync, t: Tid, s: SemaId)
    requires ControlOk(sy) && Delta(sy, sy', t, s) && PcOk(sy', t)
    ensures ControlOk(sy')
  {
    forall u: Tid ensures PcOk(sy', u) {
      assert PcOk(sy, u);
    }
  }

  lemma WakeupsKept(sy: Sync, sy': Sync, t: Tid, s: SemaId)
    requires NoLostWakeup(sy) && Delta(sy, sy', t, s)
    requires PcOf(sy, t).Downing? ==> PcOf(sy, t).s == s
    requires PcOf(sy', t).Downing? ==> PcOf(sy', t).s == s
    requires Waiters(sy', s) != [] ==> Value(sy', s) <= |Pending(sy', s)|
    ensures NoLostWakeup(sy')
  {
    forall x: SemaId | Waiters(sy', x) != [] ensures Value(sy', x) <= |Pending(sy', x)| {
      if x != s {
        assert Pending(sy', x) == Pending(sy, x);
      }
    }
  }

  lemma ExclusionKept(sy: Sync, sy': Sync, t: Tid, s: SemaId)
    requires MutualExclusion(sy) && Delta(sy, sy', t, s)
    requires forall l: SemaId :: l != s ==> (Owns(sy, t, l) <==> Owns(sy', t, l))
    requires s in sy.locks ==> Value(sy', s) + |Owners(sy', s)| == 1
    ensures MutualExclusion(sy')
  {
    forall l: SemaId | l in sy'.locks ensures Value(sy', l) + |Owners(sy', l)| == 1 {
      if l != s {
        assert Owners(sy', l) == Owners(sy, l);
      }
    }
  }

  lemma HoldersKept(sy: Sync, sy': Sync, t: Tid, s: SemaId)
    requires HoldersRecorded(sy) && Delta(sy, sy', t, s) && ListOk(sy', t)
    requires Holder(sy', s) == Holder(sy, s) && Held(sy', t) == Held(sy, t)
    ensures HoldersRecorded(sy')
  {
    forall u: Tid ensures ListOk(sy', u) { assert ListOk(sy, u); }
    forall u: Tid, l: SemaId ensures HeldOk(sy', u, l) { assert HeldOk(sy, u, l); }
  }

  lemma CondsKept(sy: Sync, sy': Sync, t: Tid, s: SemaId)
    requires CondsOk(sy) && Delta(sy, sy', t, s)
    requires forall p: SemaId :: OwnPrivate(sy, t, p) && p != s ==> (StillNeeds(sy, t, p) <==> StillNeeds(sy', t, p))
    requires s in sy.privates ==> PrivateOk(sy', s)
    ensures CondsOk(sy')
  {
    assert forall c: CondId :: CondList(sy', c) == CondList(sy, c);
    forall p: SemaId | p in sy'.privates ensures PrivateOk(sy', p) {
      assert PrivateOk(sy, p);
    }
  }

  /** Lock state is untouched: same lists, holders, owners and lock values. */
  lemma SameLocks(sy: Sync, sy': Sync)
    requires HoldersRecorded(sy) && MutualExclusion(sy)
    requires sy'.held == sy.held && sy'.locks == sy.locks && sy.pc.Keys == sy'.pc.Keys
    requires forall l: SemaId :: Holder(sy', l) == Holder(sy, l) && (l in sy.locks ==> Value(sy', l) == Value(sy, l))
    requires forall t: Tid, l: SemaId :: Owns(sy', t, l) <==> Owns(sy, t, l)
    requires forall t: Tid :: PcOf(sy', t).Recording? || PcOf(sy', t).Dropping? ==>
               (PcOf(sy, t).Recording? || PcOf(sy, t).Dropping?) && PcOf(sy, t).lock == PcOf(sy', t).lock
    ensures HoldersRecorded(sy') && MutualExclusion(sy')
  {
    forall l: SemaId | l in sy'.locks ensures Value(sy', l) + |Owners(sy', l)| == 1 {
      assert Owners(sy', l) == Owners(sy, l);
    }
    forall u: Tid ensures ListOk(sy', u) { assert ListOk(sy, u); }
    forall u: Tid, l: SemaId ensures HeldOk(sy', u, l) { assert HeldOk(sy, u, l); }
  }

  lemma DownTakenKeeps(sy: Sync, t: Tid, s: SemaId, cont: Cont)
    requires SyncInv(sy) && Outside(sy, t)
    requires PcOf(sy, t) == AboutToDown(s, cont) || PcOf(sy, t) == Downing(s, cont)
    requires Value(sy, s) > 0
    ensures SyncInv(DownTaken(sy, t, s, cont))
  {
    var sy' := DownTaken(sy, t, s, cont);
    assert PcOk(sy, t);
    ControlKept(sy, sy', t, s);
    assert forall x: SemaId :: Waiters(sy', x) == Waiters(sy, x);
    DownTakenWakeups(sy, t, s, cont);
    DownTakenOwners(sy, t, s, cont);
    DownTakenConds(sy, t, s, cont);
    DownTakenHolders(sy, t, s, cont);
  }

  lemma DownTakenWakeups(sy: Sync, t: Tid, s: SemaId, cont: Cont)
    requires NoLostWakeup(sy) && s in sy.semas && Outside(sy, t)
    requires PcOf(sy, t) == AboutToDown(s, cont) || PcOf(sy, t) == Downing(s, cont)
    requires Value(sy, s) > 0
    ensures NoLostWakeup(DownTaken(sy, t, s, cont))
  {
    var sy' := DownTaken(sy, t, s, cont);
    assert Waiters(sy', s) == Waiters(sy, s) && Value(sy', s) == Value(sy, s) - 1;
    assert !PcOf(sy', t).Downing?;
    assert forall u: Tid :: u != t ==> (Woken(sy', u, s) <==> Woken(sy, u, s));
    assert Pending(sy', s) == Pending(sy, s) - {t};
    WakeupsKept(sy, sy', t, s);
  }

  lemma DownTakenConds(sy: Sync, t: Tid, s: SemaId, cont: Cont)
    requires CondsOk(sy) && s in sy.semas && t in sy.pc && PcOk(sy, t) && sy.locks !! sy.privates.Keys
    requires PcOf(sy, t) == AboutToDown(s, cont) || PcOf(sy, t) == Downing(s, cont)
    requires Value(sy, s) > 0
    ensures CondsOk(DownTaken(sy, t, s, cont))
  {
    var sy' := DownTaken(sy, t, s, cont);
    if s in sy.privates {
      assert PrivateOk(sy, s);
      assert !StillNeeds(sy', t, s);
    }
    CondsKept(sy, sy', t, s);
  }

  lemma DownTakenOwners(sy: Sync, t: Tid, s: SemaId, cont: Cont)
    requires MutualExclusion(sy) && t in sy.pc && s in sy.semas && PcOk(sy, t) && sy.locks !! sy.privates.Keys
    requires PcOf(sy, t) == AboutToDown(s, cont) || PcOf(sy, t) == Downing(s, cont)
    requires Value(sy, s) > 0
    ensures MutualExclusion(DownTaken(sy, t, s, cont))
  {
    var sy' := DownTaken(sy, t, s, cont);
    if s in sy.locks {
      assert Owners(sy, s) == {};
      assert t !in Owners(sy, s);
      assert Owners(sy', s) == {t};
    }
    ExclusionKept(sy, sy', t, s);
  }

  lemma DownTakenHolders(sy: Sync, t: Tid, s: SemaId, cont: Cont)
    requires HoldersRecorded(sy) && MutualExclusion(sy) && t in sy.pc && s in sy.semas && PcOk(sy, t)
    requires PcOf(sy, t) == AboutToDown(s, cont) || PcOf(sy, t) == Downing(s, cont)
    requires Value(sy, s) > 0
    ensures HoldersRecorded(DownTaken(sy, t, s, cont))
  {
    if cont == Record {
      FreeHasNoHolder(sy, s);
    }
    assert ListOk(sy, t);
    HoldersKept(sy, DownTaken(sy, t, s, cont), t, s);
  }

  lemma FreeHasNoHolder(sy: Sync, l: SemaId)
    requires HoldersRecorded(sy) && MutualExclusion(sy) && l in sy.locks && Value(sy, l) > 0
    ensures Holder(sy, l) == None
  {
    assert Owners(sy, l) == {};
    assert forall u: Tid :: HeldOk(sy, u, l) && Holder(sy, l) == Some(u) ==> u in Owners(sy, l);
  }

  lemma DownQueuedQueues(sy: Sync, t: Tid, s: SemaId, cont: Cont)
    requires QueuesOk(sy) && NoLostWakeup(sy) && Outside(sy, t) && s in sy.semas && Value(sy, s) == 0
    requires PcOf(sy, t) == AboutToDown(s, cont) || PcOf(sy, t) == Downing(s, cont)
    ensures QueuesOk(DownQueued(sy, t, s, cont)) && NoLostWakeup(DownQueued(sy, t, s, cont))
  {
    var sy' := DownQueued(sy, t, s, cont);
    NoDupPush(Waiters(sy, s), t);
    assert forall x: SemaId :: Waiters(sy', x) == if x == s then Waiters(sy, s) + [t] else Waiters(sy, x);
    WakeupsKept(sy, sy', t, s);
  }

  lemma DownQueuedLocks(sy: Sync, t: Tid, s: SemaId, cont: Cont)
    requires HoldersRecorded(sy) && MutualExclusion(sy) && t in sy.pc && s in sy.semas
    requires PcOf(sy, t) == AboutToDown(s, cont) || PcOf(sy, t) == Downing(s, cont)
    ensures HoldersRecorded(DownQueued(sy, t, s, cont)) && MutualExclusion(DownQueued(sy, t, s, cont))
  {
    var sy' := DownQueued(sy, t, s, cont);
    assert Owners(sy', s) == Owners(sy, s);
    ExclusionKept(sy, sy', t, s);
    assert ListOk(sy, t);
    HoldersKept(sy, sy', t, s);
  }

  lemma DownQueuedConds(sy: Sync, t: Tid, s: SemaId, cont: Cont)
    requires CondsOk(sy) && t in sy.pc && s in sy.semas
    requires PcOf(sy, t) == AboutToDown(s, cont) || PcOf(sy, t) == Downing(s, cont)
    ensures CondsOk(DownQueued(sy, t, s, cont))
  {
    assert s in sy.privates ==> PrivateOk(sy, s);
    CondsKept(sy, DownQueued(sy, t, s, cont), t, s);
  }

  lemma DownQueuedKeeps(sy: Sync, t: Tid, s: SemaId, cont: Cont)
    requires SyncInv(sy) && Outside(sy, t)
    requires PcOf(sy, t) == AboutToDown(s, cont) || PcOf(sy, t) == Downing(s, cont)
    requires Value(sy, s) == 0
    ensures SyncInv(DownQueued(sy, t, s, cont))
  {
    hide QueuesOk, NoLostWakeup, HoldersRecorded, MutualExclusion, CondsOk;
    assert PcOk(sy, t);
    ControlKept(sy, DownQueued(sy, t, s, cont), t, s);
    DownQueuedQueues(sy, t, s, cont);
    DownQueuedLocks(sy, t, s, cont);
    DownQueuedConds(sy, t, s, cont);
  }

  /** The waiter sema_up dequeues: some queued thread, or none when the queue is empty. */
  ghost predicate Wakes(sy: Sync, s: SemaId, w: Option<Tid>) {
    if Waiters(sy, s) == [] then w == None else w.Some? && w.value in Waiters(sy, s)
  }

  lemma RaisedWaiters(sy: Sync, s: SemaId, w: Option<Tid>, x: SemaId)
    requires NoDup(Waiters(sy, x))
    ensures x != s ==> Waiters(Raised(sy, s, w), x) == Waiters(sy, x)
    ensures NoDup(Waiters(Raised(sy, s, w), x))
    ensures forall t: Tid :: t in Waiters(Raised(sy, s, w), x) <==> t in Waiters(sy, x) && !(x == s && w == Some(t))
  {
    if x == s && w.Some? { RemoveIsErase(Waiters(sy, s), w.value); }
  }

  lemma RaisedPending(sy: Sync, s: SemaId, w: Option<Tid>, x: SemaId)
    requires QueuesOk(sy) && Wakes(sy, s, w)
    ensures Pending(Raised(sy, s, w), x) == Pending(sy, x) + (if x == s && w.Some? then {w.value} else {})
    ensures w.Some? ==> w.value !in Pending(sy, s)
  {
    RaisedWaiters(sy, s, w, x);
    assert w.Some? ==> w.value in Waiters(sy, s);
    var sy' := Raised(sy, s, w);
    hide Raised;
    assert sy'.pc == sy.pc by { RaisedPc(sy, s, w); }
    forall t: Tid ensures t in Pending(sy', x) <==> t in Pending(sy, x) || (x == s && w == Some(t)) {
    }
  }

  lemma RaisedPc(sy: Sync, s: SemaId, w: Option<Tid>)
    ensures Raised(sy, s, w).pc == sy.pc
  {
  }

  /** Raising `s` dequeues one waiter, who joins the woken ones. */
  lemma RaisedQueues(sy: Sync, s: SemaId, w: Option<Tid>)
    requires QueuesOk(sy) && NoLostWakeup(sy) && s in sy.semas && Wakes(sy, s, w)
    ensures QueuesOk(Raised(sy, s, w)) && NoLostWakeup(Raised(sy, s, w))
  {
    hide Pending, Remove;
    var sy' := Raised(sy, s, w);
    forall x: SemaId ensures NoDup(Waiters(sy', x)) { RaisedWaiters(sy, s, w, x); }
    forall x: SemaId, t: Tid | t in Waiters(sy', x) ensures t in sy'.pc && sy'.pc[t].Downing? && sy'.pc[t].s == x {
      RaisedWaiters(sy, s, w, x);
    }
    forall x: SemaId | Waiters(sy', x) != [] ensures Value(sy', x) <= |Pending(sy', x)| {
      RaisedWaiters(sy, s, w, x);
      RaisedPending(sy, s, w, x);
    }
  }

  lemma PlainUpKeeps(sy: Sync, t: Tid, s: SemaId, w: Option<Tid>)
    requires SyncInv(sy) && t in sy.pc && Plain(sy, s) && Wakes(sy, s, w)
    ensures SyncInv(Raised(sy, s, w))
  {
    var sy' := Raised(sy, s, w);
    RaisedQueues(sy, s, w);
    assert PcOk(sy, t);
    ControlKept(sy, sy', t, s);
    ExclusionKept(sy, sy', t, s);
    CondsKept(sy, sy', t, s);
    assert ListOk(sy, t);
    HoldersKept(sy, sy', t, s);
  }

  /** lock_release's second half. */
  function DropDone(sy: Sync, t: Tid, l: SemaId, cont: Cont, w: Option<Tid>): Sync {
    SetPc(Raised(sy, l, w), t, AfterDrop(l, cont))
  }

  lemma DropDoneKeeps(sy: Sync, t: Tid, l: SemaId, cont: Cont, w: Option<Tid>)
    requires SyncInv(sy) && Outside(sy, t) && PcOf(sy, t) == Dropping(l, cont) && Wakes(sy, l, w)
    ensures SyncInv(DropDone(sy, t, l, cont, w))
  {
    var sy' := DropDone(sy, t, l, cont, w);
    assert PcOk(sy, t) && ListOk(sy, t);
    RaisedQueues(sy, l, w);
    DropDoneWakeups(Raised(sy, l, w), sy', t, l);
    ControlKept(sy, sy', t, l);
    DropDoneOwners(sy, t, l, cont, w);
    CondsKept(sy, sy', t, l);
    HoldersKept(sy, sy', t, l);
  }

  lemma DropDoneWakeups(up: Sync, sy': Sync, t: Tid, l: SemaId)
    requires QueuesOk(up) && NoLostWakeup(up) && l in up.semas && t in up.pc
    requires !PcOf(up, t).Downing? && !PcOf(sy', t).Downing? && sy' == SetPc(up, t, PcOf(sy', t))
    ensures QueuesOk(sy') && NoLostWakeup(sy')
  {
    assert forall x: SemaId :: Waiters(sy', x) == Waiters(up, x);
    assert forall u: Tid :: Woken(sy', u, l) <==> Woken(up, u, l);
    assert Pending(sy', l) == Pending(up, l);
    WakeupsKept(up, sy', t, l);
  }

  lemma DropDoneOwners(sy: Sync, t: Tid, l: SemaId, cont: Cont, w: Option<Tid>)
    requires SyncInv(sy) && t in sy.pc && PcOf(sy, t) == Dropping(l, cont)
    ensures MutualExclusion(DropDone(sy, t, l, cont, w))
  {
    hide QueuesOk, NoLostWakeup, CondsOk, AfterDrop;
    assert PcOk(sy, t) && ListOk(sy, t) && HeldOk(sy, t, l);
    DropperAlone(sy, t, l);
    DropDoneNoOwner(sy, t, l, cont, w);
    ExclusionKept(sy, DropDone(sy, t, l, cont, w), t, l);
  }

  lemma DropperAlone(sy: Sync, t: Tid, l: SemaId)
    requires SyncInv(sy) && t in sy.pc && l in sy.locks && Owns(sy, t, l)
    ensures Owners(sy, l) == {t} && Value(sy, l) == 0
  {
    hide QueuesOk, NoLostWakeup, CondsOk, ControlOk, HoldersRecorded;
    assert t in Owners(sy, l);
    forall u | u in Owners(sy, l) ensures u == t { AtMostOneOwner(sy, l, t, u); }
  }

  lemma DropDoneNoOwner(sy: Sync, t: Tid, l: SemaId, cont: Cont, w: Option<Tid>)
    requires t in sy.pc && PcOf(sy, t) == Dropping(l, cont) && l !in Held(sy, t) && Owners(sy, l) == {t}
    ensures var sy' := DropDone(sy, t, l, cont, w);
      && Owners(sy', l) == {} && Value(sy', l) == Value(sy, l) + 1
      && (forall x: SemaId :: x != l ==> (Owns(sy, t, x) <==> Owns(sy', t, x)))
  {
    var sy' := DropDone(sy, t, l, cont, w);
    assert !Owns(sy', t, l);
    forall u: Tid | u != t ensures u !in Owners(sy', l) { assert u !in Owners(sy, l); }
  }

  /** cond_signal: the chosen waiter leaves the list and its semaphore goes up. */
  function Signalled(sy: Sync, c: CondId, p: SemaId, w: Option<Tid>): Sync {
    Raised(CondTaken(sy, c, p), p, w)
  }

  lemma SignalledQueues(sy: Sync, c: CondId, p: SemaId, w: Option<Tid>)
    requires QueuesOk(sy) && NoLostWakeup(sy) && p in sy.semas && Wakes(sy, p, w)
    ensures QueuesOk(Signalled(sy, c, p, w)) && NoLostWakeup(Signalled(sy, c, p, w))
  {
    var mid := CondTaken(sy, c, p);
    assert forall x: SemaId :: Waiters(mid, x) == Waiters(sy, x) && Value(mid, x) == Value(sy, x);
    assert forall x: SemaId :: Pending(mid, x) == Pending(sy, x);
    hide Raised, Pending;
    RaisedQueues(mid, p, w);
  }

  lemma SignalledControl(sy: Sync, c: CondId, p: SemaId, w: Option<Tid>)
    requires ControlOk(sy) && p in sy.semas
    ensures ControlOk(Signalled(sy, c, p, w))
  {
    forall u: Tid ensures PcOk(Signalled(sy, c, p, w), u) { assert PcOk(sy, u); }
  }

  lemma SignalledLocks(sy: Sync, c: CondId, p: SemaId, w: Option<Tid>)
    requires HoldersRecorded(sy) && MutualExclusion(sy) && p !in sy.locks
    ensures HoldersRecorded(Signalled(sy, c, p, w)) && MutualExclusion(Signalled(sy, c, p, w))
  {
    SameLocks(sy, Signalled(sy, c, p, w));
  }

  lemma SignalledKeeps(sy: Sync, c: CondId, p: SemaId, w: Option<Tid>)
    requires SyncInv(sy) && p in CondList(sy, c) && Wakes(sy, p, w)
    ensures SyncInv(Signalled(sy, c, p, w))
  {
    hide Signalled, QueuesOk, NoLostWakeup, HoldersRecorded, MutualExclusion;
    assert p in sy.privates;
    SignalledQueues(sy, c, p, w);
    SignalledControl(sy, c, p, w);
    SignalledLocks(sy, c, p, w);
    SignalledConds(sy, c, p, w);
  }

  lemma SignalledLists(sy: Sync, c: CondId, p: SemaId, w: Option<Tid>, d: CondId)
    requires NoDup(CondList(sy, c))
    ensures var sy' := Signalled(sy, c, p, w);
      && (d != c ==> CondList(sy', d) == CondList(sy, d)) && (NoDup(CondList(sy, d)) ==> NoDup(CondList(sy', d)))
      && (forall q: SemaId :: q in CondList(sy', d) <==> q in CondList(sy, d) && !(d == c && q == p))
  {
    RemoveIsErase(CondList(sy, c), p);
  }

  lemma SignalledPrivate(sy: Sync, c: CondId, p: SemaId, w: Option<Tid>, q: SemaId)
    requires CondsOk(sy) && p in CondList(sy, c) && q in sy.privates
    ensures q in Signalled(sy, c, p, w).privates && PrivateOk(Signalled(sy, c, p, w), q)
  {
    assert PrivateOk(sy, q);
    var sy' := Signalled(sy, c, p, w);
    SignalledLists(sy, c, p, w, sy.privates[q].1);
    assert Value(sy', q) == if q == p then Value(sy, p) + 1 else Value(sy, q);
    assert forall t: Tid :: PcOf(sy', t) == PcOf(sy, t);
    hide Signalled, Remove;
  }

  lemma SignalledConds(sy: Sync, c: CondId, p: SemaId, w: Option<Tid>)
    requires CondsOk(sy) && p in CondList(sy, c)
    ensures CondsOk(Signalled(sy, c, p, w))
  {
    hide PrivateOk, Remove, NoDup;
    var sy' := Signalled(sy, c, p, w);
    forall d: CondId ensures NoDup(CondList(sy', d)) { SignalledLists(sy, c, p, w, d); }
    forall d: CondId, q: SemaId | q in CondList(sy', d) ensures q in sy'.privates && sy'.privates[q].1 == d {
      SignalledLists(sy, c, p, w, d);
    }
    forall q: SemaId | q in sy'.privates ensures PrivateOk(sy', q) { SignalledPrivate(sy, c, p, w, q); }
  }

  /** A call to sema_down or lock_acquire reaches the semaphore. */
  lemma BeginKeeps(sy: Sync, t: Tid, s: SemaId, cont: Cont)
    requires SyncInv(sy) && Outside(sy, t) && PcOf(sy, t) == Normal
    requires (cont == Return && Plain(sy, s)) || (cont == Record && s in sy.locks)
    ensures SyncInv(SetPc(sy, t, AboutToDown(s, cont)))
  {
    PcMoveKeeps(sy, SetPc(sy, t, AboutToDown(s, cont)), t, s);
  }

  /** Outside every synchronization operation. */
  ghost predicate Resting(p: Pc) { p.Normal? || p.Asleep? || p.Lowering? || p.Yielding? }

  ghost predicate Idle(sy: Sync, p: Pc, s: SemaId) {
    Resting(p) || (p.AboutToDown? && p.s == s && s !in sy.privates)
  }

  ghost predicate PcMove(sy: Sync, sy': Sync, t: Tid, s: SemaId) {
    && t in sy.pc && s in sy.semas && sy' == SetPc(sy, t, PcOf(sy', t))
    && Idle(sy, PcOf(sy, t), s) && Idle(sy, PcOf(sy', t), s)
  }

  lemma PcMoveQueues(sy: Sync, sy': Sync, t: Tid, s: SemaId)
    requires QueuesOk(sy) && NoLostWakeup(sy) && Outside(sy, t) && PcMove(sy, sy', t, s)
    ensures QueuesOk(sy') && NoLostWakeup(sy')
  {
    assert forall x: SemaId :: Waiters(sy', x) == Waiters(sy, x);
    assert Pending(sy', s) == Pending(sy, s);
    WakeupsKept(sy, sy', t, s);
  }

  lemma PcMoveLocks(sy: Sync, sy': Sync, t: Tid, s: SemaId)
    requires HoldersRecorded(sy) && MutualExclusion(sy) && PcMove(sy, sy', t, s)
    ensures HoldersRecorded(sy') && MutualExclusion(sy')
  {
    assert Owners(sy', s) == Owners(sy, s);
    ExclusionKept(sy, sy', t, s);
    assert ListOk(sy, t);
    HoldersKept(sy, sy', t, s);
  }

  lemma PcMoveConds(sy: Sync, sy': Sync, t: Tid, s: SemaId)
    requires CondsOk(sy) && PcMove(sy, sy', t, s)
    ensures CondsOk(sy')
  {
    assert s in sy.privates ==> PrivateOk(sy, s);
    CondsKept(sy, sy', t, s);
  }

  lemma PcMoveKeeps(sy: Sync, sy': Sync, t: Tid, s: SemaId)
    requires SyncInv(sy) && Outside(sy, t) && PcMove(sy, sy', t, s) && PcOk(sy', t)
    ensures SyncInv(sy')
  {
    hide QueuesOk, NoLostWakeup, HoldersRecorded, MutualExclusion, CondsOk;
    ControlKept(sy, sy', t, s);
    PcMoveQueues(sy, sy', t, s);
    PcMoveLocks(sy, sy', t, s);
    PcMoveConds(sy, sy', t, s);
  }

  /** Going to sleep on the timer and waking from it, and the places inside thread_set_priority. */
  lemma RestKeeps(sy: Sync, t: Tid, p: Pc)
    requires SyncInv(sy) && Outside(sy, t) && Resting(PcOf(sy, t)) && Resting(p)
    ensures SyncInv(SetPc(sy, t, p))
  {
    hide QueuesOk, NoLostWakeup, HoldersRecorded, MutualExclusion, CondsOk;
    forall u: Tid ensures PcOk(SetPc(sy, t, p), u) { assert PcOk(sy, u); }
    RestQueues(sy, t, p);
    RestLocks(sy, t, p);
    RestConds(sy, t, p);
  }

  lemma RestLocks(sy: Sync, t: Tid, p: Pc)
    requires HoldersRecorded(sy) && MutualExclusion(sy) && t in sy.pc
    requires Resting(PcOf(sy, t)) && Resting(p)
    ensures HoldersRecorded(SetPc(sy, t, p)) && MutualExclusion(SetPc(sy, t, p))
  {
    SameLocks(sy, SetPc(sy, t, p));
  }

  lemma RestConds(sy: Sync, t: Tid, p: Pc)
    requires CondsOk(sy) && t in sy.pc && Resting(PcOf(sy, t)) && Resting(p)
    ensures CondsOk(SetPc(sy, t, p))
  {
    var sy' := SetPc(sy, t, p);
    assert forall c: CondId :: CondList(sy', c) == CondList(sy, c);
    forall q: SemaId | q in sy'.privates ensures PrivateOk(sy', q) { assert PrivateOk(sy, q); }
  }

  lemma RestQueues(sy: Sync, t: Tid, p: Pc)
    requires QueuesOk(sy) && NoLostWakeup(sy) && Outside(sy, t)
    requires Resting(PcOf(sy, t)) && Resting(p)
    ensures QueuesOk(SetPc(sy, t, p)) && NoLostWakeup(SetPc(sy, t, p))
  {
    var sy' := SetPc(sy, t, p);
    assert forall x: SemaId :: Waiters(sy', x) == Waiters(sy, x) && Value(sy', x) == Value(sy, x);
    forall x: SemaId ensures Pending(sy', x) == Pending(sy, x) {
      assert forall u: Tid :: Woken(sy', u, x) <==> Woken(sy, u, x);
    }
  }

  lemma RecordedKeeps(sy: Sync, t: Tid, l: SemaId)
    requires SyncInv(sy) && Outside(sy, t) && PcOf(sy, t) == Recording(l)
    ensures SyncInv(Recorded(sy, t, l))
  {
    hide QueuesOk, NoLostWakeup, MutualExclusion, CondsOk, HoldersRecorded;
    var sy' := Recorded(sy, t, l);
    assert PcOk(sy, t);
    ControlKept(sy, sy', t, l);
    SameQueuesKept(sy, sy', t, l);
    RecordedOwners(sy, t, l);
    CondsKept(sy, sy', t, l);
    RecordedHolders(sy, t, l);
  }

  lemma RecordedOwners(sy: Sync, t: Tid, l: SemaId)
    requires MutualExclusion(sy) && t in sy.pc && l in sy.semas && PcOf(sy, t) == Recording(l)
    ensures MutualExclusion(Recorded(sy, t, l))
  {
    var sy' := Recorded(sy, t, l);
    assert Owners(sy', l) == Owners(sy, l);
    ExclusionKept(sy, sy', t, l);
  }

  lemma RecordedHolders(sy: Sync, t: Tid, l: SemaId)
    requires SyncInv(sy) && t in sy.pc && PcOf(sy, t) == Recording(l)
    ensures HoldersRecorded(Recorded(sy, t, l))
  {
    var sy' := Recorded(sy, t, l);
    assert PcOk(sy, t) && ListOk(sy, t) && HeldOk(sy, t, l);
    NoDupPush(Held(sy, t), l);
    forall u: Tid ensures ListOk(sy', u) {
      assert ListOk(sy, u);
      if u != t && u in sy.pc && Owns(sy, u, l) {
        AtMostOneOwner(sy, l, t, u);
      }
    }
    forall u: Tid, x: SemaId ensures HeldOk(sy', u, x) { assert HeldOk(sy, u, x); }
  }

  lemma DroppedKeeps(sy: Sync, t: Tid, l: SemaId, cont: Cont)
    requires SyncInv(sy) && Outside(sy, t) && PcOf(sy, t) == Normal && l in Held(sy, t) && cont == Return
    ensures SyncInv(Dropped(sy, t, l, cont))
  {
    hide QueuesOk, NoLostWakeup, MutualExclusion, CondsOk, HoldersRecorded;
    HolderIsThread(sy, t, l);
    var sy' := Dropped(sy, t, l, cont);
    ControlKept(sy, sy', t, l);
    SameQueuesKept(sy, sy', t, l);
    DroppedHolders(sy, t, l, cont);
    DroppedOwners(sy, t, l, cont);
    CondsKept(sy, sy', t, l);
  }

  lemma HolderIsThread(sy: Sync, t: Tid, l: SemaId)
    requires HoldersRecorded(sy) && l in Held(sy, t)
    ensures t in sy.pc && l in sy.locks && NoDup(Held(sy, t))
  {
    assert HeldOk(sy, t, l) && ListOk(sy, t);
  }

  lemma SameQueuesKept(sy: Sync, sy': Sync, t: Tid, l: SemaId)
    requires QueuesOk(sy) && NoLostWakeup(sy) && Delta(sy, sy', t, l) && Outside(sy, t)
    requires Waiters(sy', l) == Waiters(sy, l) && Value(sy', l) == Value(sy, l)
    requires !PcOf(sy, t).Downing? && !PcOf(sy', t).Downing?
    ensures QueuesOk(sy') && NoLostWakeup(sy')
  {
    assert forall x: SemaId :: Waiters(sy', x) == Waiters(sy, x);
    assert Pending(sy', l) == Pending(sy, l);
    WakeupsKept(sy, sy', t, l);
  }

  lemma DroppedOwners(sy: Sync, t: Tid, l: SemaId, cont: Cont)
    requires MutualExclusion(sy) && t in sy.pc && PcOf(sy, t) == Normal && l in Held(sy, t) && l in sy.semas
    requires NoDup(Held(sy, t))
    ensures MutualExclusion(Dropped(sy, t, l, cont))
  {
    var sy' := Dropped(sy, t, l, cont);
    RemoveIsErase(Held(sy, t), l);
    assert Owners(sy', l) == Owners(sy, l);
    ExclusionKept(sy, sy', t, l);
  }

  lemma DroppedHolders(sy: Sync, t: Tid, l: SemaId, cont: Cont)
    requires HoldersRecorded(sy) && PcOf(sy, t) == Normal && l in Held(sy, t)
    ensures HoldersRecorded(Dropped(sy, t, l, cont))
  {
    var sy' := Dropped(sy, t, l, cont);
    assert ListOk(sy, t);
    RemoveIsErase(Held(sy, t), l);
    forall u: Tid ensures ListOk(sy', u) { assert ListOk(sy, u); }
    forall u: Tid, x: SemaId ensures HeldOk(sy', u, x) { assert HeldOk(sy, u, x) && HeldOk(sy, t, l); }
  }

  /** cond_wait: queue the private semaphore, then lock_release's first half. */
  function CondWaitBegun(sy: Sync, t: Tid, c: CondId, l: SemaId, p: SemaId): Sync {
    Dropped(CondQueued(sy, t, c, p), t, l, CondSleep(p))
  }

  lemma CondWaitKeeps(sy: Sync, t: Tid, c: CondId, l: SemaId, p: SemaId)
    requires SyncInv(sy) && Outside(sy, t) && PcOf(sy, t) == Normal && l in Held(sy, t)
    requires p !in sy.semas
    ensures SyncInv(CondWaitBegun(sy, t, c, l, p))
  {
    hide ControlOk, QueuesOk, NoLostWakeup, MutualExclusion, CondsOk, HoldersRecorded, Dropped, CondWaitBegun, Private;
    var mid := Dropped(sy, t, l, Return);
    var sy' := CondWaitBegun(sy, t, c, l, p);
    DroppedKeeps(sy, t, l, Return);
    CondWaitPrivacy(sy, t, c, l, p);
    PrivateQueues(mid, sy', t, l, p);
    PrivateLocks(mid, sy', t, l, p);
    CondWaitConds(sy, t, c, l, p);
  }

  lemma CondWaitPrivacy(sy: Sync, t: Tid, c: CondId, l: SemaId, p: SemaId)
    requires HoldersRecorded(sy) && ControlOk(sy) && t in sy.pc && PcOf(sy, t) == Normal && l in Held(sy, t) && p !in sy.semas
    ensures Private(Dropped(sy, t, l, Return), CondWaitBegun(sy, t, c, l, p), t, l, p)
  {
    assert HeldOk(sy, t, l);
  }

  /** A release that goes on to sleep on `p` differs from a plain one only in `p` itself. */
  ghost predicate Private(mid: Sync, sy': Sync, t: Tid, l: SemaId, p: SemaId) {
    && p !in mid.semas && sy'.semas == mid.semas[p := Sema(0, [], None)]
    && sy'.held == mid.held && sy'.locks == mid.locks
    && t in mid.pc && mid.pc[t] == Dropping(l, Return) && sy'.pc == mid.pc[t := Dropping(l, CondSleep(p))]
    && p in sy'.privates && sy'.privates == mid.privates[p := sy'.privates[p]] && sy'.privates[p].0 == t
  }

  lemma PrivateQueues(mid: Sync, sy': Sync, t: Tid, l: SemaId, p: SemaId)
    requires SyncInv(mid) && Private(mid, sy', t, l, p)
    ensures ControlOk(sy') && QueuesOk(sy') && NoLostWakeup(sy')
  {
    assert forall s: SemaId :: Waiters(sy', s) == Waiters(mid, s) && Value(sy', s) == Value(mid, s);
    assert forall s: SemaId, u: Tid :: u in Waiters(mid, s) ==> u != t;
    assert forall s: SemaId, u: Tid :: Woken(sy', u, s) <==> Woken(mid, u, s);
    assert forall s: SemaId :: Pending(sy', s) == Pending(mid, s);
    forall u: Tid ensures PcOk(sy', u) {
      assert PcOk(mid, u);
      assert u != t ==> PcOf(sy', u) == PcOf(mid, u);
    }
  }

  lemma PrivateLocks(mid: Sync, sy': Sync, t: Tid, l: SemaId, p: SemaId)
    requires SyncInv(mid) && Private(mid, sy', t, l, p)
    ensures HoldersRecorded(sy') && MutualExclusion(sy')
  {
    SameLocks(mid, sy');
  }

  lemma CondWaitLists(sy: Sync, t: Tid, c: CondId, l: SemaId, p: SemaId, d: CondId)
    ensures CondList(CondWaitBegun(sy, t, c, l, p), d) == if d == c then CondList(sy, c) + [p] else CondList(sy, d)
  {
  }

  lemma CondWaitPrivate(sy: Sync, t: Tid, c: CondId, l: SemaId, p: SemaId, q: SemaId)
    requires CondsOk(sy) && PcOf(sy, t) == Normal && p !in sy.semas && p !in sy.privates && l in sy.locks && l !in sy.privates
    requires q in sy.privates || q == p
    ensures q in CondWaitBegun(sy, t, c, l, p).privates && PrivateOk(CondWaitBegun(sy, t, c, l, p), q)
  {
    var sy' := CondWaitBegun(sy, t, c, l, p);
    if q != p {
      assert PrivateOk(sy, q);
      CondWaitLists(sy, t, c, l, p, sy.privates[q].1);
    }
  }

  lemma CondWaitConds(sy: Sync, t: Tid, c: CondId, l: SemaId, p: SemaId)
    requires SyncInv(sy) && Outside(sy, t) && PcOf(sy, t) == Normal && l in Held(sy, t)
    requires p !in sy.semas
    ensures CondsOk(CondWaitBegun(sy, t, c, l, p))
  {
    assert HeldOk(sy, t, l);
    hide QueuesOk, NoLostWakeup, MutualExclusion, PrivateOk;
    var sy' := CondWaitBegun(sy, t, c, l, p);
    forall d: CondId ensures NoDup(CondList(sy', d)) {
      CondWaitLists(sy, t, c, l, p, d);
      NoDupPush(CondList(sy, c), p);
    }
    forall d: CondId, q: SemaId | q in CondList(sy', d) ensures q in sy'.privates && sy'.privates[q].1 == d {
      CondWaitLists(sy, t, c, l, p, d);
    }
    forall q: SemaId | q in sy'.privates ensures PrivateOk(sy', q) { CondWaitPrivate(sy, t, c, l, p, q); }
  }

  /** sema_init and lock_init. */
  function WithSema(sy: Sync, s: SemaId, v: nat, isLock: bool): Sync {
    SetSema(sy, s, Sema(if isLock then 1 else v, [], None)).(locks := if isLock then sy.locks + {s} else sy.locks)
  }

  lemma WithSemaKeeps(sy: Sync, s: SemaId, v: nat, isLock: bool)
    requires SyncInv(sy) && s !in sy.semas
    ensures SyncInv(WithSema(sy, s, v, isLock))
  {
    hide QueuesOk, NoLostWakeup, HoldersRecorded, MutualExclusion, CondsOk;
    var sy' := WithSema(sy, s, v, isLock);
    forall u: Tid ensures PcOk(sy', u) { assert PcOk(sy, u); }
    WithSemaQueues(sy, s, v, isLock);
    WithSemaLocks(sy, s, v, isLock);
    WithSemaConds(sy, s, v, isLock);
  }

  lemma WithSemaQueues(sy: Sync, s: SemaId, v: nat, isLock: bool)
    requires QueuesOk(sy) && NoLostWakeup(sy) && s !in sy.semas
    ensures QueuesOk(WithSema(sy, s, v, isLock)) && NoLostWakeup(WithSema(sy, s, v, isLock))
  {
    var sy' := WithSema(sy, s, v, isLock);
    assert forall x: SemaId :: Waiters(sy', x) == Waiters(sy, x);
    assert forall x: SemaId :: Pending(sy', x) == Pending(sy, x);
  }

  lemma WithSemaConds(sy: Sync, s: SemaId, v: nat, isLock: bool)
    requires CondsOk(sy) && sy.privates.Keys <= sy.semas.Keys && s !in sy.semas
    ensures CondsOk(WithSema(sy, s, v, isLock))
  {
    var sy' := WithSema(sy, s, v, isLock);
    assert forall c: CondId :: CondList(sy', c) == CondList(sy, c);
    forall q: SemaId | q in sy'.privates ensures PrivateOk(sy', q) { assert PrivateOk(sy, q); }
  }

  lemma WithSemaLocks(sy: Sync, s: SemaId, v: nat, isLock: bool)
    requires ControlOk(sy) && HoldersRecorded(sy) && MutualExclusion(sy) && s !in sy.semas
    ensures HoldersRecorded(WithSema(sy, s, v, isLock)) && MutualExclusion(WithSema(sy, s, v, isLock))
  {
    var sy' := WithSema(sy, s, v, isLock);
    assert forall x: SemaId :: Holder(sy', x) == Holder(sy, x);
    assert forall x: SemaId :: Owners(sy', x) == Owners(sy, x);
    if isLock {
      assert forall u: Tid :: PcOk(sy, u) && HeldOk(sy, u, s) ==> !Owns(sy, u, s);
      assert Owners(sy', s) == {};
    }
    forall u: Tid ensures ListOk(sy', u) { assert ListOk(sy, u); }
    forall u: Tid, x: SemaId ensures HeldOk(sy', u, x) { assert HeldOk(sy, u, x); }
  }

  /** A new thread enters with nothing held. */
  function WithThread(sy: Sync, t: Tid): Sync { sy.(pc := sy.pc[t := Normal], held := sy.held[t := []]) }

  lemma OnlyThreadsHold(sy: Sync, t: Tid)
    requires HoldersRecorded(sy)
    ensures Held(sy, t) != [] ==> t in sy.pc
  {
    if Held(sy, t) != [] {
      assert HeldOk(sy, t, Held(sy, t)[0]);
    }
  }

  lemma WithThreadSame(sy: Sync, t: Tid)
    requires HoldersRecorded(sy) && t !in sy.pc
    ensures var sy' := WithThread(sy, t);
      && (forall u: Tid :: Held(sy', u) == Held(sy, u) && PcOf(sy', u) == PcOf(sy, u))
      && (forall x: SemaId :: Pending(sy', x) == Pending(sy, x) && Owners(sy', x) == Owners(sy, x))
  {
    OnlyThreadsHold(sy, t);
  }

  lemma WithThreadLocks(sy: Sync, t: Tid)
    requires HoldersRecorded(sy) && MutualExclusion(sy) && t !in sy.pc
    ensures HoldersRecorded(WithThread(sy, t)) && MutualExclusion(WithThread(sy, t))
  {
    hide Owners, Pending;
    var sy' := WithThread(sy, t);
    WithThreadSame(sy, t);
    forall u: Tid ensures ListOk(sy', u) { assert ListOk(sy, u); }
    forall u: Tid, x: SemaId ensures HeldOk(sy', u, x) { assert HeldOk(sy, u, x); }
  }

  lemma WithThreadKeeps(sy: Sync, t: Tid)
    requires SyncInv(sy) && t !in sy.pc
    ensures SyncInv(WithThread(sy, t))
  {
    hide HoldersRecorded, MutualExclusion, Owners, Pending;
    var sy' := WithThread(sy, t);
    WithThreadSame(sy, t);
    WithThreadLocks(sy, t);
    assert forall x: SemaId :: Waiters(sy', x) == Waiters(sy, x);
    forall u: Tid ensures PcOk(sy', u) { assert PcOk(sy, u); }
    assert forall c: CondId :: CondList(sy', c) == CondList(sy, c);
    forall q: SemaId | q in sy'.privates ensures PrivateOk(sy', q) { assert PrivateOk(sy, q); }
  }
}
