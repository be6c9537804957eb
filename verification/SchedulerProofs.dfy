/** Every step of every run keeps the scheduler's invariant. */
module SchedulerProofs {
  import opened Common
  import opened Seqs
  import opened Synch
  import opened Donation
  import opened Scheduler

  // ---- list discipline ----

  lemma ScheduleLists(k: Kernel)
    requires ListsAt(k, None)
    ensures Lists(Schedule(k))
  {
    var k' := Schedule(k);
    if k.ready != [] {
      RemoveIsErase(k.ready, k'.cur);
      assert Placed(k, None, k'.cur);
    }
    forall t: Tid ensures Placed(k', Some(k'.cur), t) { assert Placed(k, None, t) && Placed(k, None, k.idle); }
    forall t: Tid, s: SemaId ensures QueuePlaced(k', t, s) { assert QueuePlaced(k, t, s) && Placed(k, None, t); }
  }

  lemma YieldLists(k: Kernel)
    requires Lists(k)
    ensures Lists(Yield(k))
  {
    var k1 := SetStatus(k, k.cur, Ready).(ready := if k.cur == k.idle then k.ready else k.ready + [k.cur]);
    assert Placed(k, Some(k.cur), k.cur);
    NoDupPush(k.ready, k.cur);
    forall t: Tid ensures Placed(k1, None, t) { assert Placed(k, Some(k.cur), t); }
    forall t: Tid, s: SemaId ensures QueuePlaced(k1, t, s) { assert QueuePlaced(k, t, s); }
    ScheduleLists(k1);
  }

  /** The running thread stands outside every queue. */
  lemma CurOutside(k: Kernel)
    requires Lists(k)
    ensures Outside(k.sy, k.cur)
  {
    assert Placed(k, Some(k.cur), k.cur);
    assert forall s: SemaId :: QueuePlaced(k, k.cur, s) ==> k.cur !in Waiters(k.sy, s);
  }

  /** A change of synchronization state that moves only the running thread's place in the code. */
  ghost predicate OwnMove(k: Kernel, sy': Sync) {
    && k.cur in k.sy.pc && sy'.pc == k.sy.pc[k.cur := PcOf(sy', k.cur)] && PcOf(sy', k.cur) != Asleep
    && (k.cur == k.idle ==> PcOf(sy', k.cur) == Normal)
  }

  lemma OwnMoveLists(k: Kernel, sy': Sync)
    requires Lists(k) && OwnMove(k, sy') && forall s: SemaId :: Waiters(sy', s) == Waiters(k.sy, s)
    ensures Lists(k.(sy := sy'))
  {
    var k' := k.(sy := sy');
    forall t: Tid ensures Placed(k', Some(k.cur), t) { assert Placed(k, Some(k.cur), t); }
    forall t: Tid, s: SemaId ensures QueuePlaced(k', t, s) {
      assert QueuePlaced(k, t, s) && Placed(k, Some(k.cur), k.cur);
    }
  }

  /** Waking `w` from semaphore `s`. */
  lemma WakeLists(k: Kernel, sy': Sync, s: SemaId, w: Tid)
    requires Lists(k) && OwnMove(k, sy') && QueuesOk(k.sy) && w in Waiters(k.sy, s)
    requires forall x: SemaId :: Waiters(sy', x) == if x == s then Remove(Waiters(k.sy, s), w) else Waiters(k.sy, x)
    ensures Lists(MakeReady(k.(sy := sy'), w))
  {
    var k' := MakeReady(k.(sy := sy'), w);
    assert Placed(k, Some(k.cur), w) && Placed(k, Some(k.cur), k.cur) && QueuePlaced(k, w, s);
    RemoveIsErase(Waiters(k.sy, s), w);
    NoDupPush(k.ready, w);
    forall t: Tid ensures Placed(k', Some(k.cur), t) { assert Placed(k, Some(k.cur), t); }
    forall t: Tid, x: SemaId ensures QueuePlaced(k', t, x) {
      assert QueuePlaced(k, t, x);
    }
  }

  /** The running thread queues up on `s`. */
  lemma QueueUpLists(k: Kernel, sy': Sync, s: SemaId, cont: Cont)
    requires Lists(k) && k.cur != k.idle && k.cur in k.sy.pc && sy'.pc == k.sy.pc[k.cur := Downing(s, cont)]
    requires forall x: SemaId :: Waiters(sy', x) == if x == s then Waiters(k.sy, s) + [k.cur] else Waiters(k.sy, x)
    ensures Lists(Block(k.(sy := sy')))
  {
    var k1 := SetStatus(k.(sy := sy'), k.cur, Blocked);
    forall t: Tid ensures Placed(k1, None, t) { assert Placed(k, Some(k.cur), t); }
    forall t: Tid, x: SemaId ensures QueuePlaced(k1, t, x) {
      assert QueuePlaced(k, t, x) && Placed(k, Some(k.cur), k.cur);
    }
    ScheduleLists(k1);
  }

  lemma SleepLists(k: Kernel, n: int)
    requires Lists(k) && k.cur != k.idle && PcOf(k.sy, k.cur) == Normal
    ensures Lists(Block(FallAsleep(k, n)))
  {
    var k1 := SetStatus(FallAsleep(k, n), k.cur, Blocked);
    assert Placed(k, Some(k.cur), k.cur);
    NoDupPush(k.sleeping, k.cur);
    forall t: Tid ensures Placed(k1, None, t) { assert Placed(k, Some(k.cur), t); }
    forall t: Tid, s: SemaId ensures QueuePlaced(k1, t, s) {
      assert QueuePlaced(k, t, s);
      assert Waiters(k1.sy, s) == Waiters(k.sy, s);
    }
    ScheduleLists(k1);
  }

  lemma LeaveLists(k: Kernel, left: Status)
    requires Lists(k) && left == (if k.cur == k.idle then Blocked else Dying)
    requires k.cur != k.idle ==> PcOf(k.sy, k.cur) == Normal
    ensures Lists(Schedule(SetStatus(k, k.cur, left)))
  {
    var k1 := SetStatus(k, k.cur, left);
    forall t: Tid ensures Placed(k1, None, t) { assert Placed(k, Some(k.cur), t); }
    forall t: Tid, s: SemaId ensures QueuePlaced(k1, t, s) {
      assert QueuePlaced(k, t, s) && Placed(k, Some(k.cur), k.cur);
    }
    ScheduleLists(k1);
  }

  lemma CreateLists(k: Kernel, t: Tid, p: int)
    requires Lists(k) && t !in k.status
    ensures Lists(MakeReady(NewThread(k, t, p), t))
  {
    var k' := MakeReady(NewThread(k, t, p), t);
    assert Placed(k, Some(k.cur), t);
    NoDupPush(k.ready, t);
    forall u: Tid ensures Placed(k', Some(k.cur), u) { assert Placed(k, Some(k.cur), u); }
    forall u: Tid, s: SemaId ensures QueuePlaced(k', u, s) {
      assert QueuePlaced(k, u, s);
      assert Waiters(k'.sy, s) == Waiters(k.sy, s);
    }
  }

  lemma WakeSleeperLists(k: Kernel, i: nat)
    requires Lists(k) && i < |k.sleeping|
    ensures Lists(WakeSleeper(k, i))
  {
    var w := k.sleeping[i];
    var k' := WakeSleeper(k, i);
    assert Placed(k, Some(k.cur), w) && Placed(k, Some(k.cur), k.cur);
    RemoveAt(k.sleeping, i);
    RemoveIsErase(k.sleeping, w);
    NoDupPush(k.ready, w);
    forall t: Tid ensures Placed(k', Some(k.cur), t) { assert Placed(k, Some(k.cur), t); }
    forall t: Tid, s: SemaId ensures QueuePlaced(k', t, s) {
      assert QueuePlaced(k, t, s);
      assert Waiters(k'.sy, s) == Waiters(k.sy, s);
    }
  }

  // ---- priority order ----

  lemma LevelCoversCur(k: Kernel)
    ensures Eff(k, k.cur) <= Level(k)
  {
    if PcOf(k.sy, k.cur).Dropping? {
      BestBounds(k.prio, k.sy, Waiters(k.sy, PcOf(k.sy, k.cur).lock), MAX_DEPTH - 1, Eff(k, k.cur), 0);
    }
  }

  /** Whoever schedule() picks is at least as high as everyone it leaves behind. */
  lemma ScheduleOrder(k: Kernel)
    ensures InOrder(Schedule(k))
    ensures AllBelow(Schedule(k), Level(Schedule(k)))
  {
    var k' := Schedule(k);
    forall t | t in k'.ready ensures Eff(k', t) <= Eff(k', k'.cur) {
      HighestIsMax(k, k.ready, t);
      assert Eff(k', t) == Eff(k, t) && Eff(k', k'.cur) == Eff(k, k'.cur);
    }
    LevelCoversCur(k');
  }

  /** Effective priorities are the same in both states. */
  lemma SameEff(k: Kernel, k': Kernel)
    requires Agree(k.prio, k.sy, k'.prio, k'.sy, {})
    ensures forall t: Tid :: Eff(k', t) == Eff(k, t)
  {
    forall t: Tid ensures Eff(k', t) == Eff(k, t) {
      DonatedFrame(k.prio, k.sy, k'.prio, k'.sy, {}, t, MAX_DEPTH);
    }
  }

  /** Donors change only through queues of held locks. */
  lemma SameDonors(sy: Sync, sy': Sync, t: Tid)
    requires Held(sy', t) == Held(sy, t)
    requires forall l :: l in Held(sy, t) ==> Waiters(sy', l) == Waiters(sy, l)
    ensures Donors(sy', t) == Donors(sy, t)
  {
    QueuedFrame(sy, sy', Held(sy, t));
  }

  /** Moving a thread's place or touching a queue nobody's lock list reaches changes no priority. */
  lemma UnheldChange(k: Kernel, sy': Sync, s: SemaId)
    requires forall t: Tid :: Held(sy', t) == Held(k.sy, t) && s !in Held(k.sy, t)
    requires forall x: SemaId :: x != s ==> Waiters(sy', x) == Waiters(k.sy, x)
    ensures Agree(k.prio, k.sy, k.prio, sy', {})
  {
    forall t: Tid ensures Donors(sy', t) == Donors(k.sy, t) { SameDonors(k.sy, sy', t); }
  }

  lemma QueueChange(k: Kernel, sy': Sync)
    requires forall t: Tid :: Held(sy', t) == Held(k.sy, t)
    requires forall x: SemaId :: Waiters(sy', x) == Waiters(k.sy, x)
    ensures Agree(k.prio, k.sy, k.prio, sy', {})
  {
    forall t: Tid ensures Donors(sy', t) == Donors(k.sy, t) { SameDonors(k.sy, sy', t); }
  }

  /** A step of the running thread that moves its place and changes no queue and no lock list. */
  lemma QuietStep(k: Kernel, sy': Sync)
    requires Inv(k) && SyncInv(sy') && OwnMove(k, sy')
    requires !InWindow(PcOf(k.sy, k.cur)) && !InWindow(PcOf(sy', k.cur))
    requires forall t: Tid :: Held(sy', t) == Held(k.sy, t)
    requires forall x: SemaId :: Waiters(sy', x) == Waiters(k.sy, x)
    ensures Inv(k.(sy := sy'))
  {
    OwnMoveLists(k, sy');
    QueueChange(k, sy');
    SameEff(k, k.(sy := sy'));
  }

  /** Nobody's lock list holds a lock whose holder field is clear. */
  lemma Unheld(sy: Sync, s: SemaId)
    requires HoldersRecorded(sy) && Holder(sy, s) == None
    ensures forall t: Tid :: s !in Held(sy, t)
  {
    assert forall t: Tid :: HeldOk(sy, t, s) ==> s !in Held(sy, t);
  }

  lemma NotALockUnheld(sy: Sync, s: SemaId)
    requires HoldersRecorded(sy) && s !in sy.locks
    ensures forall t: Tid :: s !in Held(sy, t)
  {
    assert forall t: Tid :: HeldOk(sy, t, s) ==> s !in Held(sy, t);
  }

  /** Raising `s` leaves `t` where it stands, or takes it out of the release of `s` itself. */
  ghost predicate SameWindow(sy: Sync, sy': Sync, t: Tid, s: SemaId) {
    var p, p' := PcOf(sy, t), PcOf(sy', t);
    if p == p' then p.Dropping? ==> p.lock != s else p.Dropping? && p.lock == s && !InWindow(p')
  }

  /** sema_up, wherever it is called from: the woken thread is compared with the running one, and that is enough. */
  lemma WakeKeeps(k: Kernel, sy': Sync, s: SemaId)
    requires Inv(k) && SyncInv(sy') && OwnMove(k, sy')
    requires forall t: Tid :: Held(sy', t) == Held(k.sy, t) && s !in Held(k.sy, t)
    requires forall x: SemaId :: Waiters(sy', x) ==
               if x == s && Choice(k, s).Some? then Remove(Waiters(k.sy, s), Choice(k, s).value) else Waiters(k.sy, x)
    requires SameWindow(k.sy, sy', k.cur, s)
    ensures Inv(Wake(k, sy', Choice(k, s)))
  {
    UnheldChange(k, sy', s);
    WakeLevel(k, sy', s);
    if Choice(k, s).Some? {
      WakeLists(k, sy', s, Choice(k, s).value);
      WokenKeeps(k, sy', Choice(k, s).value);
    } else {
      SameEff(k, k.(sy := sy'));
      OwnMoveLists(k, sy');
    }
  }

  lemma WokenKeeps(k: Kernel, sy': Sync, w: Tid)
    requires AllBelow(k, Level(k)) && SyncInv(sy') && Lists(MakeReady(k.(sy := sy'), w))
    requires Agree(k.prio, k.sy, k.prio, sy', {})
    requires Eff(k, w) <= Eff(k, k.cur) ==> Level(k) <= Level(k.(sy := sy'))
    ensures Inv(Unblock(k.(sy := sy'), w))
  {
    var k1 := k.(sy := sy');
    var k2 := MakeReady(k1, w);
    SameEff(k, k2);
    if Eff(k2, w) > Eff(k2, k.cur) {
      YieldKeeps(k2);
    } else {
      assert Level(k2) == Level(k1);
      LevelCoversCur(k2);
    }
  }

  /** If the woken thread, when there is one, is no higher than the running thread, the claim is unchanged. */
  lemma WakeLevel(k: Kernel, sy': Sync, s: SemaId)
    requires Agree(k.prio, k.sy, k.prio, sy', {})
    requires forall x: SemaId :: x != s ==> Waiters(sy', x) == Waiters(k.sy, x)
    requires SameWindow(k.sy, sy', k.cur, s)
    ensures Choice(k, s).None? || Eff(k, Choice(k, s).value) <= Eff(k, k.cur) ==> Level(k) <= Level(k.(sy := sy'))
  {
    var k1 := k.(sy := sy');
    SameEff(k, k1);
    if PcOf(k.sy, k.cur).Dropping? {
      var l := PcOf(k.sy, k.cur).lock;
      var ws := Waiters(k.sy, l);
      if PcOf(sy', k.cur).Dropping? {
        BestFrame(k.prio, k.sy, k.prio, sy', {}, ws, MAX_DEPTH - 1, Eff(k, k.cur));
      } else {
        var x := BestReached(k.prio, k.sy, ws, MAX_DEPTH - 1, Eff(k, k.cur));
        if x in ws {
          DeeperIsHigher(k.prio, k.sy, x, MAX_DEPTH - 1);
          HighestIsMax(k, ws, x);
        }
      }
    }
  }

  lemma YieldKeeps(k: Kernel)
    requires SyncInv(k.sy) && Lists(k)
    ensures Inv(Yield(k))
  {
    YieldLists(k);
    ScheduleOrder(SetStatus(k, k.cur, Ready).(ready := if k.cur == k.idle then k.ready else k.ready + [k.cur]));
  }

  // ---- step by step ----

  lemma DownKeeps(k: Kernel, s: SemaId, cont: Cont)
    requires Inv(k) && k.cur != k.idle
    requires PcOf(k.sy, k.cur) == AboutToDown(s, cont) || PcOf(k.sy, k.cur) == Downing(s, cont)
    ensures Inv(DownStep(k, s, cont))
  {
    hide QueuesOk, NoLostWakeup, HoldersRecorded, MutualExclusion, CondsOk;
    CurOutside(k);
    assert Placed(k, Some(k.cur), k.cur);
    if Value(k.sy, s) > 0 {
      var sy' := DownTaken(k.sy, k.cur, s, cont);
      DownTakenKeeps(k.sy, k.cur, s, cont);
      assert forall x: SemaId :: Waiters(sy', x) == Waiters(k.sy, x);
      QuietStep(k, sy');
    } else {
      var sy' := DownQueued(k.sy, k.cur, s, cont);
      DownQueuedKeeps(k.sy, k.cur, s, cont);
      assert forall x: SemaId :: Waiters(sy', x) == if x == s then Waiters(k.sy, s) + [k.cur] else Waiters(k.sy, x);
      QueueUpLists(k, sy', s, cont);
      ScheduleOrder(SetStatus(k.(sy := sy'), k.cur, Blocked));
    }
  }

  lemma EnterKeeps(k: Kernel, s: SemaId, cont: Cont)
    requires Inv(k) && Free(k)
    requires (cont == Return && Plain(k.sy, s)) || (cont == Record && s in k.sy.locks)
    ensures Inv(Enter(k, s, cont))
  {
    CurOutside(k);
    BeginKeeps(k.sy, k.cur, s, cont);
    var sy' := Enter(k, s, cont).sy;
    assert forall x: SemaId :: Waiters(sy', x) == Waiters(k.sy, x);
    QuietStep(k, sy');
  }

  lemma TryKeeps(k: Kernel, s: SemaId, cont: Cont)
    requires Inv(k) && Free(k)
    requires (cont == Return && Plain(k.sy, s)) || (cont == Record && s in k.sy.locks)
    ensures Inv(TryStep(k, s, cont))
  {
    if Value(k.sy, s) > 0 {
      EnterKeeps(k, s, cont);
      DownKeeps(Enter(k, s, cont), s, cont);
      assert TryStep(k, s, cont) == DownStep(Enter(k, s, cont), s, cont);
    }
  }

  lemma RecordKeeps(k: Kernel, l: SemaId)
    requires Inv(k) && k.cur != k.idle && PcOf(k.sy, k.cur) == Recording(l)
    ensures Inv(k.(sy := Recorded(k.sy, k.cur, l)))
  {
    CurOutside(k);
    var sy' := Recorded(k.sy, k.cur, l);
    var k' := k.(sy := sy');
    RecordedKeeps(k.sy, k.cur, l);
    assert forall x: SemaId :: Waiters(sy', x) == Waiters(k.sy, x);
    OwnMoveLists(k, sy');
    OwnListChange(k, sy');
    assert Held(sy', k.cur) == Held(k.sy, k.cur) + [l];
    forall w | w in Donors(k.sy, k.cur) ensures w in Donors(sy', k.cur) {
      QueuedMember(k.sy, Held(k.sy, k.cur), w);
      QueuedMember(sy', Held(sy', k.cur), w);
    }
    GainingALock(k.prio, k.sy, sy', k.cur);
    OthersKeepEff(k, k');
  }

  /** When the running thread's own lock list changes, nobody else notices: it waits for nothing. */
  lemma OwnListChange(k: Kernel, sy': Sync)
    requires Outside(k.sy, k.cur)
    requires forall t: Tid :: t != k.cur ==> Held(sy', t) == Held(k.sy, t)
    requires forall x: SemaId :: Waiters(sy', x) == Waiters(k.sy, x)
    ensures Agree(k.prio, k.sy, k.prio, sy', {k.cur})
  {
    forall t: Tid | t != k.cur ensures Donors(sy', t) == Donors(k.sy, t) { SameDonors(k.sy, sy', t); }
    forall t: Tid ensures k.cur !in Donors(k.sy, t) { QueuedMember(k.sy, Held(k.sy, t), k.cur); }
  }

  lemma OthersKeepEff(k: Kernel, k': Kernel)
    requires Lists(k) && Agree(k.prio, k.sy, k'.prio, k'.sy, {k.cur})
    ensures forall t :: t in k.ready ==> Eff(k', t) == Eff(k, t)
  {
    forall t | t in k.ready ensures Eff(k', t) == Eff(k, t) {
      assert Placed(k, Some(k.cur), t);
      DonatedFrame(k.prio, k.sy, k'.prio, k'.sy, {k.cur}, t, MAX_DEPTH);
    }
  }

  /** lock_release's first half, alone or inside cond_wait. */
  lemma DropKeeps(k: Kernel, sy': Sync, l: SemaId)
    requires Inv(k) && Free(k) && SyncInv(sy') && OwnMove(k, sy')
    requires l in Held(k.sy, k.cur) && Held(sy', k.cur) == Remove(Held(k.sy, k.cur), l)
    requires PcOf(sy', k.cur).Dropping? && PcOf(sy', k.cur).lock == l
    requires forall t: Tid :: t != k.cur ==> Held(sy', t) == Held(k.sy, t)
    requires forall x: SemaId :: Waiters(sy', x) == Waiters(k.sy, x)
    ensures Inv(k.(sy := sy'))
  {
    hide ControlOk, QueuesOk, NoLostWakeup, MutualExclusion, CondsOk;
    CurOutside(k);
    var k' := k.(sy := sy');
    OwnMoveLists(k, sy');
    OwnListChange(k, sy');
    assert ListOk(k.sy, k.cur);
    RemoveIsErase(Held(k.sy, k.cur), l);
    forall w | w in Donors(k.sy, k.cur) ensures w in Donors(sy', k.cur) || w in Waiters(sy', l) {
      QueuedMember(k.sy, Held(k.sy, k.cur), w);
      QueuedMember(sy', Held(sy', k.cur), w);
    }
    LosingALock(k.prio, k.sy, sy', k.cur, l);
    OthersKeepEff(k, k');
  }

  lemma ReleaseKeeps(k: Kernel, l: SemaId)
    requires Inv(k) && Free(k) && l in Held(k.sy, k.cur)
    ensures Inv(k.(sy := Dropped(k.sy, k.cur, l, Return)))
  {
    CurOutside(k);
    var sy' := Dropped(k.sy, k.cur, l, Return);
    DroppedKeeps(k.sy, k.cur, l, Return);
    assert forall x: SemaId :: Waiters(sy', x) == Waiters(k.sy, x);
    DropKeeps(k, sy', l);
  }

  lemma CondWaitStepKeeps(k: Kernel, c: CondId, l: SemaId, p: SemaId)
    requires Inv(k) && Free(k) && l in Held(k.sy, k.cur) && p !in k.sy.semas
    ensures Inv(k.(sy := CondWaitBegun(k.sy, k.cur, c, l, p)))
  {
    hide QueuesOk, NoLostWakeup, MutualExclusion, CondsOk, Level, AllBelow, Placed, QueuePlaced;
    CurOutside(k);
    var sy' := CondWaitBegun(k.sy, k.cur, c, l, p);
    CondWaitKeeps(k.sy, k.cur, c, l, p);
    assert HeldOk(k.sy, k.cur, l);
    assert forall x: SemaId :: Waiters(sy', x) == Waiters(k.sy, x);
    DropKeeps(k, sy', l);
  }

  lemma FinishReleaseKeeps(k: Kernel, l: SemaId, cont: Cont)
    requires Inv(k) && k.cur != k.idle && PcOf(k.sy, k.cur) == Dropping(l, cont)
    ensures Inv(Wake(k, DropDone(k.sy, k.cur, l, cont, Choice(k, l)), Choice(k, l)))
  {
    hide Choice, Eff, QueuesOk, NoLostWakeup, MutualExclusion, CondsOk;
    CurOutside(k);
    ChoiceWakes(k, l);
    var sy' := DropDone(k.sy, k.cur, l, cont, Choice(k, l));
    DropDoneKeeps(k.sy, k.cur, l, cont, Choice(k, l));
    assert ListOk(k.sy, k.cur);
    Unheld(k.sy, l);
    WakeKeeps(k, sy', l);
  }

  lemma ChoiceWakes(k: Kernel, s: SemaId)
    ensures Wakes(k.sy, s, Choice(k, s))
  {
  }

  lemma UpKeeps(k: Kernel, s: SemaId)
    requires Inv(k) && Plain(k.sy, s)
    ensures Inv(Wake(k, Raised(k.sy, s, Choice(k, s)), Choice(k, s)))
  {
    hide Choice, Eff, QueuesOk, NoLostWakeup, MutualExclusion, CondsOk;
    CurOutside(k);
    ChoiceWakes(k, s);
    PlainUpKeeps(k.sy, k.cur, s, Choice(k, s));
    NotALockUnheld(k.sy, s);
    assert PcOk(k.sy, k.cur) && Placed(k, Some(k.cur), k.cur);
    WakeKeeps(k, Raised(k.sy, s, Choice(k, s)), s);
  }

  lemma SignalKeeps(k: Kernel, c: CondId, p: SemaId)
    requires Inv(k) && Free(k) && (CondList(k.sy, c) != [] ==> p in CondList(k.sy, c))
    ensures Inv(SignalStep(k, c, p))
  {
    if CondList(k.sy, c) != [] {
      SignalOneKeeps(k, c, p);
    }
  }

  lemma SignalOneKeeps(k: Kernel, c: CondId, p: SemaId)
    requires Inv(k) && Free(k) && p in CondList(k.sy, c)
    ensures Inv(Wake(k, Signalled(k.sy, c, p, Choice(k, p)), Choice(k, p)))
  {
    CurOutside(k);
    var sy' := Signalled(k.sy, c, p, Choice(k, p));
    assert p in k.sy.privates;
    SignalledKeeps(k.sy, c, p, Choice(k, p));
    NotALockUnheld(k.sy, p);
    assert sy'.pc == k.sy.pc && sy'.held == k.sy.held;
    assert forall x: SemaId :: x != p ==> Waiters(sy', x) == Waiters(k.sy, x);
    WakeKeeps(k, sy', p);
  }

  lemma ContinueKeeps(k: Kernel)
    requires Inv(k) && k.cur != k.idle
    ensures Inv(ContinueStep(k))
  {
    hide Inv, DownStep, Wake, Yield, Choice, ScanStep;
    match PcOf(k.sy, k.cur)
    case AboutToDown(s, cont) => DownKeeps(k, s, cont);
    case Downing(s, cont) => DownKeeps(k, s, cont);
    case Recording(l) => RecordKeeps(k, l);
    case Dropping(l, cont) => FinishReleaseKeeps(k, l, cont);
    case Lowering(was) => ScanKeeps(k, was);
    case Yielding(was) => LowerYieldKeeps(k);
    case _ =>
  }

  lemma InitKeeps(k: Kernel, s: SemaId, v: nat, isLock: bool)
    requires Inv(k) && Free(k) && s !in k.sy.semas
    ensures Inv(k.(sy := WithSema(k.sy, s, v, isLock)))
  {
    CurOutside(k);
    var sy' := WithSema(k.sy, s, v, isLock);
    WithSemaKeeps(k.sy, s, v, isLock);
    assert forall x: SemaId :: Waiters(sy', x) == Waiters(k.sy, x);
    QuietStep(k, sy');
  }

  /** A change of base priority that moves the running thread within thread_set_priority. */
  lemma RestLists(k: Kernel, prio': map<Tid, int>, p: Pc)
    requires Lists(k) && Resting(p) && p != Asleep && (k.cur == k.idle ==> p == Normal)
    ensures Lists(k.(prio := prio', sy := SetPc(k.sy, k.cur, p)))
  {
    var sy' := SetPc(k.sy, k.cur, p);
    var k' := k.(prio := prio', sy := sy');
    assert Placed(k, Some(k.cur), k.cur);
    assert forall s: SemaId :: Waiters(sy', s) == Waiters(k.sy, s);
    forall t: Tid ensures Placed(k', Some(k.cur), t) { assert Placed(k, Some(k.cur), t); }
    forall t: Tid, s: SemaId ensures QueuePlaced(k', t, s) { assert QueuePlaced(k, t, s); }
  }

  /** Storing a base priority changes what its owner is entitled to and nobody else's priority. */
  lemma StoreAgree(k: Kernel, p: int)
    requires Outside(k.sy, k.cur)
    ensures Agree(k.prio, k.sy, StoreStep(k, p).prio, StoreStep(k, p).sy, {k.cur})
    ensures Donors(StoreStep(k, p).sy, k.cur) == Donors(k.sy, k.cur)
  {
    var sy' := StoreStep(k, p).sy;
    assert forall x: SemaId :: Waiters(sy', x) == Waiters(k.sy, x);
    forall t: Tid ensures Donors(sy', t) == Donors(k.sy, t) { SameDonors(k.sy, sy', t); }
    forall t: Tid ensures k.cur !in Donors(k.sy, t) { QueuedMember(k.sy, Held(k.sy, t), k.cur); }
  }

  /** What the running thread is entitled to with base priority `p`. */
  ghost function WithBase(k: Kernel, p: int): int {
    Best(k.prio, k.sy, Donors(k.sy, k.cur), MAX_DEPTH - 1, p)
  }

  lemma StoreEff(k: Kernel, p: int)
    requires Lists(k)
    ensures var k' := StoreStep(k, p);
      Eff(k', k.cur) == WithBase(k, p) && (forall t :: t in k.ready ==> Eff(k', t) == Eff(k, t))
  {
    CurOutside(k);
    StoreAgree(k, p);
    var k' := StoreStep(k, p);
    OthersKeepEff(k, k');
    forall w | w in Donors(k.sy, k.cur) ensures w != k.cur { QueuedMember(k.sy, Held(k.sy, k.cur), w); }
    BestFrame(k.prio, k.sy, k'.prio, k'.sy, {k.cur}, Donors(k.sy, k.cur), MAX_DEPTH - 1, p);
  }

  /** Another base priority changes the result by no more than the base priority itself. */
  lemma BaseCovers(k: Kernel, p: int)
    ensures Eff(k, k.cur) <= Max(WithBase(k, p), Prio(k.prio, k.cur))
  {
    var ds := Donors(k.sy, k.cur);
    var w := BestReached(k.prio, k.sy, ds, MAX_DEPTH - 1, Prio(k.prio, k.cur));
    BestBounds(k.prio, k.sy, ds, MAX_DEPTH - 1, p, w);
  }

  /** thread_set_priority's store: the order now holds only up to the old base priority. */
  lemma StoreKeeps(k: Kernel, p: int)
    requires Inv(k) && Free(k)
    ensures Inv(StoreStep(k, p))
  {
    CurOutside(k);
    RestKeeps(k.sy, k.cur, Lowering(Prio(k.prio, k.cur)));
    RestLists(k, k.prio[k.cur := p], Lowering(Prio(k.prio, k.cur)));
    StoreEff(k, p);
    BaseCovers(k, p);
  }

  /** Moving on inside thread_set_priority changes no priority. */
  lemma RestEff(k: Kernel, p: Pc)
    ensures forall t: Tid :: Eff(k.(sy := SetPc(k.sy, k.cur, p)), t) == Eff(k, t)
  {
    var sy' := SetPc(k.sy, k.cur, p);
    assert forall x: SemaId :: Waiters(sy', x) == Waiters(k.sy, x);
    QueueChange(k, sy');
    SameEff(k, k.(sy := sy'));
  }

  /** thread_set_priority's scan: if it finds nobody higher, the order holds without allowance. */
  lemma ScanKeeps(k: Kernel, was: int)
    requires Inv(k) && k.cur != k.idle && PcOf(k.sy, k.cur) == Lowering(was)
    ensures Inv(ScanStep(k, was))
    ensures InOrder(ScanStep(k, was)) <==> InOrder(k)
  {
    hide SyncInv, Placed, QueuePlaced, Highest;
    CurOutside(k);
    var k' := ScanStep(k, was);
    var p := PcOf(k'.sy, k.cur);
    RestKeeps(k.sy, k.cur, p);
    RestLists(k, k.prio, p);
    RestEff(k, p);
    OwnPriorityCounts(k.prio, k.sy, k.cur, MAX_DEPTH);
    if p == Normal {
      forall t | t in k.ready ensures Eff(k, t) <= Eff(k, k.cur) { HighestIsMax(k, k.ready, t); }
    }
  }

  lemma LowerYieldKeeps(k: Kernel)
    requires Inv(k) && k.cur != k.idle && PcOf(k.sy, k.cur).Yielding?
    ensures Inv(Yield(k.(sy := SetPc(k.sy, k.cur, Normal))))
  {
    CurOutside(k);
    RestKeeps(k.sy, k.cur, Normal);
    RestLists(k, k.prio, Normal);
    YieldKeeps(k.(sy := SetPc(k.sy, k.cur, Normal)));
  }

  lemma CreateKeeps(k: Kernel, t: Tid, p: int)
    requires Inv(k) && Free(k) && t !in k.status
    ensures Inv(Unblock(NewThread(k, t, p), t))
  {
    var k1 := NewThread(k, t, p);
    var k2 := MakeReady(k1, t);
    CreateLists(k, t, p);
    assert Placed(k, Some(k.cur), t);
    WithThreadKeeps(k.sy, t);
    CreateAgree(k, t, p);
    if Eff(k2, t) > Eff(k2, k.cur) {
      YieldKeeps(k2);
    } else {
      forall u | u in k2.ready ensures Eff(k2, u) <= Level(k2) {
        DonatedFrame(k.prio, k.sy, k1.prio, k1.sy, {t}, k.cur, MAX_DEPTH);
        if u != t { DonatedFrame(k.prio, k.sy, k1.prio, k1.sy, {t}, u, MAX_DEPTH); }
      }
    }
  }

  lemma CreateAgree(k: Kernel, t: Tid, p: int)
    requires Inv(k) && t !in k.status
    ensures Agree(k.prio, k.sy, NewThread(k, t, p).prio, NewThread(k, t, p).sy, {t})
  {
    var sy' := NewThread(k, t, p).sy;
    forall u: Tid ensures u != t ==> Donors(sy', u) == Donors(k.sy, u) {
      if u != t { SameDonors(k.sy, sy', u); }
    }
    forall u: Tid ensures t !in Donors(k.sy, u) {
      QueuedMember(k.sy, Held(k.sy, u), t);
      assert forall s: SemaId :: QueuePlaced(k, t, s) ==> t !in Waiters(k.sy, s);
    }
  }

  lemma SleepKeeps(k: Kernel, n: int)
    requires Inv(k) && Free(k)
    ensures Inv(Block(FallAsleep(k, n)))
  {
    CurOutside(k);
    SleepLists(k, n);
    AsleepKeeps(k.sy, k.cur);
    ScheduleOrder(SetStatus(FallAsleep(k, n), k.cur, Blocked));
  }

  lemma AsleepKeeps(sy: Sync, t: Tid)
    requires SyncInv(sy) && Outside(sy, t) && Resting(PcOf(sy, t))
    ensures SyncInv(SetPc(sy, t, Asleep)) && SyncInv(SetPc(sy, t, Normal))
  {
    RestKeeps(sy, t, Asleep);
    RestKeeps(sy, t, Normal);
  }

  // ---- the timer interrupt ----

  lemma WakeSleeperKeeps(k: Kernel, i: nat, y: bool)
    requires SyncInv(k.sy) && Lists(k) && i < |k.sleeping| && (y || AllBelow(k, Level(k)))
    ensures var k' := WakeSleeper(k, i); var t := k.sleeping[i];
            && SyncInv(k'.sy) && Lists(k')
            && (y || Eff(k', t) > Eff(k', k'.cur) || AllBelow(k', Level(k')))
  {
    var t := k.sleeping[i];
    var k' := WakeSleeper(k, i);
    WakeSleeperLists(k, i);
    assert Placed(k, Some(k.cur), t) && Placed(k, Some(k.cur), k.cur);
    assert Outside(k.sy, t) by {
      assert forall s: SemaId :: QueuePlaced(k, t, s) ==> t !in Waiters(k.sy, s);
    }
    AsleepKeeps(k.sy, t);
    WakeSleeperOrder(k, i);
  }

  lemma WakeSleeperOrder(k: Kernel, i: nat)
    requires i < |k.sleeping| && k.sleeping[i] != k.cur
    ensures var k' := WakeSleeper(k, i);
      AllBelow(k, Level(k)) && Eff(k', k.sleeping[i]) <= Eff(k', k'.cur) ==> AllBelow(k', Level(k'))
  {
    var k' := WakeSleeper(k, i);
    QueueChange(k, k'.sy);
    SameEff(k, k');
    if PcOf(k.sy, k.cur).Dropping? {
      BestFrame(k.prio, k.sy, k'.prio, k'.sy, {}, Waiters(k.sy, PcOf(k.sy, k.cur).lock), MAX_DEPTH - 1, Eff(k, k.cur));
    }
    assert Level(k') == Level(k);
    LevelCoversCur(k');
  }

  lemma {:induction false} WakeLoopKeeps(k: Kernel, i: nat, y: bool)
    requires SyncInv(k.sy) && Lists(k) && i <= |k.sleeping| && (y || AllBelow(k, Level(k)))
    ensures var (k', y') := WakeLoop(k, i, y);
            SyncInv(k'.sy) && Lists(k') && (y' || AllBelow(k', Level(k')))
    decreases |k.sleeping| - i
  {
    if i < |k.sleeping| {
      var t := k.sleeping[i];
      if k.ticks >= Wakeup(k, t) {
        WakeSleeperKeeps(k, i, y);
        var k1 := WakeSleeper(k, i);
        WakeLoopKeeps(k1, i, y || Eff(k1, t) > Eff(k1, k1.cur));
      } else {
        WakeLoopKeeps(k, i + 1, y);
      }
    }
  }

  lemma TickKeeps(k: Kernel)
    requires Inv(k)
    ensures Inv(TickStep(k))
  {
    var k1 := Ticked(k);
    forall t: Tid ensures Placed(k1, Some(k1.cur), t) { assert Placed(k, Some(k.cur), t); }
    forall t: Tid, s: SemaId ensures QueuePlaced(k1, t, s) { assert QueuePlaced(k, t, s); }
    assert Level(k1) == Level(k) && forall t: Tid :: Eff(k1, t) == Eff(k, t);
    WakeLoopKeeps(k1, 0, k1.slice >= TIME_SLICE);
    FromInterruptKeeps(WakeLoop(k1, 0, k1.slice >= TIME_SLICE));
  }

  lemma FromInterruptKeeps(r: (Kernel, bool))
    requires SyncInv(r.0.sy) && Lists(r.0) && (r.1 || AllBelow(r.0, Level(r.0)))
    ensures Inv(FromInterrupt(r))
  {
    if r.1 { YieldKeeps(r.0); }
  }

  // ---- all runs ----

  lemma YieldCpuKeeps(k: Kernel)
    requires Inv(k)
    ensures Inv(Yield(k))
  {
    YieldKeeps(k);
  }

  lemma ExitKeeps(k: Kernel)
    requires Inv(k) && Free(k)
    ensures Inv(Schedule(SetStatus(k, k.cur, Dying)))
  {
    LeaveLists(k, Dying);
    ScheduleOrder(SetStatus(k, k.cur, Dying));
  }

  lemma IdleKeeps(k: Kernel)
    requires Inv(k) && k.cur == k.idle
    ensures Inv(Block(k))
  {
    LeaveLists(k, Blocked);
    ScheduleOrder(SetStatus(k, k.cur, Blocked));
  }

  lemma StepKeeps(k: Kernel, step: Step)
    requires Inv(k) && Enabled(k, step)
    ensures Inv(Apply(k, step))
  {
    hide Inv, DownStep, TryStep, Wake, Yield, Schedule, Block, Unblock, SignalStep, ContinueStep, StoreStep, TickStep;
    match step
    case InitSema(s, v) => InitKeeps(k, s, v, false);
    case InitLock(s) => InitKeeps(k, s, 1, true);
    case Down(s) => EnterKeeps(k, s, Return); DownKeeps(Enter(k, s, Return), s, Return);
    case TryDown(s) => TryKeeps(k, s, Return);
    case Up(s) => UpKeeps(k, s);
    case Acquire(l) => EnterKeeps(k, l, Record); DownKeeps(Enter(k, l, Record), l, Record);
    case TryAcquire(l) => TryKeeps(k, l, Record);
    case Release(l) => ReleaseKeeps(k, l);
    case CondWait(c, l, p) => CondWaitStepKeeps(k, c, l, p);
    case CondSignal(c, l, p) => SignalKeeps(k, c, p);
    case Continue => ContinueKeeps(k);
    case YieldCpu => YieldCpuKeeps(k);
    case SetPriority(p) => StoreKeeps(k, p);
    case Create(t, p) => CreateKeeps(k, t, p);
    case Exit => ExitKeeps(k);
    case Sleep(n) => SleepKeeps(k, n);
    case IdleBlock => IdleKeeps(k);
    case Tick => TickKeeps(k);
    case InterruptUp(s) => UpKeeps(k, s);
  }

  lemma {:induction false} RunKeeps(k: Kernel, steps: seq<Step>)
    requires Inv(k) && Legal(k, steps)
    ensures Inv(Final(k, steps))
    decreases |steps|
  {
    if steps != [] {
      StepKeeps(k, steps[0]);
      RunKeeps(Apply(k, steps[0]), steps[1..]);
    }
  }

  lemma BootInv(main: Tid, idle: Tid, priority: int)
    requires main != idle
    ensures Inv(Boot(main, idle, priority))
  {
    var k := Boot(main, idle, priority);
    assert forall t: Tid :: Placed(k, Some(main), t);
    assert forall t: Tid :: Held(k.sy, t) == [] && CondList(k.sy, t) == [] && Waiters(k.sy, t) == [];
  }

  /** In every reachable state the running thread is at least as high as every ready thread, except possibly
      between the two halves of its own lock_release and, in thread_set_priority, between the store and the yield. */
  lemma RunningIsHighest(main: Tid, idle: Tid, priority: int, steps: seq<Step>, t: Tid)
    requires main != idle && Legal(Boot(main, idle, priority), steps)
    requires var k := Final(Boot(main, idle, priority), steps);
             t in k.ready && !InWindow(PcOf(k.sy, k.cur))
    ensures var k := Final(Boot(main, idle, priority), steps); Eff(k, t) <= Eff(k, k.cur)
  {
    BootInv(main, idle, priority);
    RunKeeps(Boot(main, idle, priority), steps);
  }

  /** The priority the scheduler compares is the highest base priority at the end of a chain of at most eight threads
      that each wait for a lock the one before holds. */
  lemma EffExactly(k: Kernel, t: Tid, p: seq<Tid>) returns (best: seq<Tid>)
    ensures Chain(k.sy, p) && p[0] == t && |p| <= 1 + 8 ==> Prio(k.prio, Last(p)) <= Eff(k, t)
    ensures Chain(k.sy, best) && best[0] == t && |best| <= 1 + 8 && Prio(k.prio, Last(best)) == Eff(k, t)
  {
    if Chain(k.sy, p) && p[0] == t && |p| <= 1 + 8 { DonatedCovers(k.prio, k.sy, p, MAX_DEPTH); }
    best := DonatedReached(k.prio, k.sy, t, MAX_DEPTH);
  }

  /** Whoever is switched in is the highest, whatever the state it is switched in from. */
  lemma SwitchPicksHighest(k: Kernel, t: Tid)
    requires t in Yield(k).ready
    ensures Eff(Yield(k), t) <= Eff(Yield(k), Yield(k).cur)
  {
    ScheduleOrder(SetStatus(k, k.cur, Ready).(ready := if k.cur == k.idle then k.ready else k.ready + [k.cur]));
  }

  // ---- list discipline, counted ----

  lemma CountIsOne<T>(s: seq<T>, x: T)
    requires NoDup(s)
    ensures multiset(s)[x] == if x in s then 1 else 0
  {
    if x in s {
      var i :| 0 <= i < |s| && s[i] == x;
      assert s == s[..i] + [x] + s[i + 1..];
      assert x !in s[..i] && x !in s[i + 1..];
    }
  }

  /** One running thread; a thread's list element is on the one list its status calls for, once, and on no other:
      ready threads on the ready list, blocked ones on the sleeping list or on one semaphore's. */
  lemma OneListEach(main: Tid, idle: Tid, priority: int, steps: seq<Step>, t: Tid, s: SemaId, s': SemaId)
    requires main != idle && Legal(Boot(main, idle, priority), steps)
    ensures var k := Final(Boot(main, idle, priority), steps);
      && (t in k.status ==> (k.status[t] == Running <==> t == k.cur))
      && multiset(k.ready)[t] == (if t in k.status && t != k.idle && k.status[t] == Ready then 1 else 0)
      && multiset(k.sleeping)[t] <= 1 && multiset(Waiters(k.sy, s))[t] <= 1
      && (t in k.sleeping || t in Waiters(k.sy, s) ==> t in k.status && k.status[t] == Blocked)
      && !(t in k.sleeping && t in Waiters(k.sy, s))
      && (t in Waiters(k.sy, s) && t in Waiters(k.sy, s') ==> s == s')
  {
    BootInv(main, idle, priority);
    RunKeeps(Boot(main, idle, priority), steps);
    var k := Final(Boot(main, idle, priority), steps);
    assert Placed(k, Some(k.cur), t) && QueuePlaced(k, t, s) && QueuePlaced(k, t, s');
    CountIsOne(k.ready, t);
    CountIsOne(k.sleeping, t);
    CountIsOne(Waiters(k.sy, s), t);
  }

  /** A blocked thread other than the idle thread is always on some list. */
  lemma BlockedIsListed(main: Tid, idle: Tid, priority: int, steps: seq<Step>, t: Tid)
    requires main != idle && Legal(Boot(main, idle, priority), steps)
    requires var k := Final(Boot(main, idle, priority), steps);
             t in k.status && t != k.idle && k.status[t] == Blocked
    ensures var k := Final(Boot(main, idle, priority), steps);
            t in k.sleeping || exists s: SemaId :: t in Waiters(k.sy, s)
  {
    BootInv(main, idle, priority);
    RunKeeps(Boot(main, idle, priority), steps);
    var k := Final(Boot(main, idle, priority), steps);
    assert Placed(k, Some(k.cur), t);
    if t !in k.sleeping {
      assert QueuePlaced(k, t, PcOf(k.sy, t).s);
    }
  }

  /** Synchronization holds in every reachable state, whatever the interleaving: no lost wake-up, one owner per
      lock, and no signalled condition waiter left queued. */
  lemma SynchronizationHolds(main: Tid, idle: Tid, priority: int, steps: seq<Step>, s: SemaId)
    requires main != idle && Legal(Boot(main, idle, priority), steps)
    ensures var sy := Final(Boot(main, idle, priority), steps).sy;
      && (Waiters(sy, s) != [] ==> Value(sy, s) <= |Pending(sy, s)|)
      && (s in sy.locks ==> Value(sy, s) + |Owners(sy, s)| == 1)
      && (s in sy.privates && s !in CondList(sy, sy.privates[s].1) ==> Waiters(sy, s) == [])
  {
    BootInv(main, idle, priority);
    RunKeeps(Boot(main, idle, priority), steps);
    var sy := Final(Boot(main, idle, priority), steps).sy;
    if s in sy.privates && Waiters(sy, s) != [] { QueuedMeansUnsignalled(sy, s); }
  }

  // ---- the timer wakes exactly the threads whose time has come ----

  ghost predicate Due(k: Kernel, t: Tid) { k.ticks >= Wakeup(k, t) }

  ghost function Keep(k: Kernel, s: seq<Tid>, due: bool): seq<Tid> {
    if s == [] then [] else (if Due(k, s[0]) == due then [s[0]] else []) + Keep(k, s[1..], due)
  }

  lemma {:induction false} KeepFrame(k: Kernel, k': Kernel, s: seq<Tid>, due: bool)
    requires k'.ticks == k.ticks && k'.wakeup == k.wakeup
    ensures Keep(k', s, due) == Keep(k, s, due)
  {
    if s != [] { KeepFrame(k, k', s[1..], due); }
  }

  lemma WakeSleeperShape(k: Kernel, i: nat)
    requires i < |k.sleeping|
    ensures var k1 := WakeSleeper(k, i);
      && k1.sleeping[..i] == k.sleeping[..i] && k1.sleeping[i..] == k.sleeping[i + 1..]
      && k1.ready == k.ready + [k.sleeping[i]]
      && k1.ticks == k.ticks && k1.wakeup == k.wakeup
  {
  }

  lemma WakeLoopUnfold(k: Kernel, i: nat, y: bool)
    requires i < |k.sleeping|
    ensures var t := k.sleeping[i]; var k1 := WakeSleeper(k, i);
      WakeLoop(k, i, y) == if Due(k, t) then WakeLoop(k1, i, y || Eff(k1, t) > Eff(k1, k1.cur)) else WakeLoop(k, i + 1, y)
  {
  }

  ghost predicate Exact(k: Kernel, i: nat, k': Kernel)
    requires i <= |k.sleeping|
  {
    && k'.sleeping == k.sleeping[..i] + Keep(k, k.sleeping[i..], false)
    && k'.ready == k.ready + Keep(k, k.sleeping[i..], true)
  }

  lemma ExactDue(k: Kernel, i: nat, k': Kernel)
    requires i < |k.sleeping| && Due(k, k.sleeping[i]) && Exact(WakeSleeper(k, i), i, k')
    ensures Exact(k, i, k')
  {
    var k1 := WakeSleeper(k, i);
    var rest := k.sleeping[i + 1..];
    assert k.sleeping[i..][0] == k.sleeping[i] && k.sleeping[i..][1..] == rest;
    WakeSleeperShape(k, i);
    KeepFrame(k, k1, rest, true);
    KeepFrame(k, k1, rest, false);
  }

  lemma ExactNotDue(k: Kernel, i: nat, k': Kernel)
    requires i < |k.sleeping| && !Due(k, k.sleeping[i]) && Exact(k, i + 1, k')
    ensures Exact(k, i, k')
  {
    var rest := k.sleeping[i + 1..];
    assert k.sleeping[i..][0] == k.sleeping[i] && k.sleeping[i..][1..] == rest;
    assert k.sleeping[..i + 1] + Keep(k, rest, false) == k.sleeping[..i] + ([k.sleeping[i]] + Keep(k, rest, false));
  }

  lemma {:induction false} WakeLoopExact(k: Kernel, i: nat, y: bool)
    requires i <= |k.sleeping|
    ensures Exact(k, i, WakeLoop(k, i, y).0)
    decreases |k.sleeping| - i
  {
    if i < |k.sleeping| {
      WakeLoopUnfold(k, i, y);
      var t := k.sleeping[i];
      if Due(k, t) {
        var k1 := WakeSleeper(k, i);
        var y1 := y || Eff(k1, t) > Eff(k1, k1.cur);
        WakeLoopExact(k1, i, y1);
        ExactDue(k, i, WakeLoop(k1, i, y1).0);
      } else {
        WakeLoopExact(k, i + 1, y);
        ExactNotDue(k, i, WakeLoop(k, i + 1, y).0);
      }
    }
  }

  lemma FromInterruptSleepers(r: (Kernel, bool))
    ensures FromInterrupt(r).sleeping == r.0.sleeping
  {
  }

  /** One tick takes off the sleeping list exactly the threads whose wake-up time has come. */
  lemma TickWakesExactlyDue(k: Kernel)
    ensures TickStep(k).sleeping == Keep(Ticked(k), k.sleeping, false)
  {
    var k1 := Ticked(k);
    var y := k1.slice >= TIME_SLICE;
    WakeLoopExact(k1, 0, y);
    FromInterruptSleepers(WakeLoop(k1, 0, y));
    assert k1.sleeping[0..] == k.sleeping;
  }

  // ---- a timer tick inside timer_sleep, where interrupts are still on ----

  /** `c` joins the end of the sleeping list, to be woken at `w`. */
  ghost function Added(k: Kernel, c: Tid, w: int): Kernel {
    k.(wakeup := k.wakeup[c := w], sleeping := k.sleeping + [c])
  }

  lemma AddedEff(k: Kernel, c: Tid, w: int, t: Tid)
    ensures Eff(Added(k, c, w), t) == Eff(k, t)
  {
  }

  lemma AddedWakes(k: Kernel, c: Tid, w: int, i: nat)
    requires i < |k.sleeping|
    ensures WakeSleeper(Added(k, c, w), i) == Added(WakeSleeper(k, i), c, w)
  {
    assert (k.sleeping + [c])[..i] == k.sleeping[..i];
    assert (k.sleeping + [c])[i + 1..] == k.sleeping[i + 1..] + [c];
  }

  /** A sleeper at the end whose time has not come changes nothing for the others. */
  lemma {:induction false} WakeLoopAdded(k: Kernel, c: Tid, w: int, i: nat, y: bool)
    requires i <= |k.sleeping| && c !in k.sleeping && k.ticks < w
    ensures var (k', y') := WakeLoop(k, i, y); WakeLoop(Added(k, c, w), i, y) == (Added(k', c, w), y')
    decreases |k.sleeping| - i
  {
    hide Eff;
    var a := Added(k, c, w);
    if i < |k.sleeping| {
      WakeLoopUnfold(k, i, y);
      WakeLoopUnfold(a, i, y);
      var t := k.sleeping[i];
      assert a.sleeping[i] == t && Wakeup(a, t) == Wakeup(k, t);
      if Due(k, t) {
        var k1 := WakeSleeper(k, i);
        AddedWakes(k, c, w, i);
        AddedEff(k1, c, w, t);
        AddedEff(k1, c, w, k1.cur);
        WakeLoopAdded(k1, c, w, i, y || Eff(k1, t) > Eff(k1, k1.cur));
      } else {
        WakeLoopAdded(k, c, w, i + 1, y);
      }
    } else {
      WakeLoopUnfold(a, i, y);
      assert a.sleeping[i] == c;
    }
  }

  lemma {:induction false} KeepMember(k: Kernel, s: seq<Tid>, due: bool, t: Tid)
    ensures t in Keep(k, s, due) <==> t in s && Due(k, t) == due
  {
    if s != [] { KeepMember(k, s[1..], due, t); }
  }

  /** What the timer interrupt's loop leaves behind, and whether a yield is due on return. */
  ghost function Looped(k: Kernel): (Kernel, bool) { WakeLoop(Ticked(k), 0, Ticked(k).slice >= TIME_SLICE) }

  /** A tick that unblocks the running thread, which fails thread_unblock's assertion, or that makes it yield while
      its list element is on the sleeping list, which links one element into two lists. */
  ghost predicate TickGoesWrong(k: Kernel) {
    || k.cur in Keep(Ticked(k), k.sleeping, true)
    || (Looped(k).1 && Looped(k).0.cur in Looped(k).0.sleeping)
  }

  lemma {:induction false} WakeLoopCur(k: Kernel, i: nat, y: bool)
    requires i <= |k.sleeping| && k.cur !in k.sleeping
    ensures var k' := WakeLoop(k, i, y).0;
      k'.cur == k.cur && k'.ticks == k.ticks && k'.idle == k.idle && PcOf(k'.sy, k.cur) == PcOf(k.sy, k.cur)
    decreases |k.sleeping| - i
  {
    if i < |k.sleeping| {
      WakeLoopUnfold(k, i, y);
      var t := k.sleeping[i];
      var k1 := WakeSleeper(k, i);
      if Due(k, t) {
        WakeLoopCur(k1, i, y || Eff(k1, t) > Eff(k1, k1.cur));
      } else {
        WakeLoopCur(k, i + 1, y);
      }
    }
  }

  lemma CurAwake(k: Kernel)
    requires Lists(k)
    ensures k.cur !in k.sleeping
  {
    assert Placed(k, Some(k.cur), k.cur);
  }

  lemma SleepTicks(k: Kernel, n: int)
    requires k.cur !in k.sleeping && n > 1
    ensures var (m, y) := Looped(k); Looped(SleepBegun(k, n)) == (SleepBegun(m, n - 1), y) && m.cur == k.cur
  {
    var y := Ticked(k).slice >= TIME_SLICE;
    WakeLoopCur(Ticked(k), 0, y);
    assert Ticked(SleepBegun(k, n)) == Added(Ticked(k), k.cur, k.ticks + n);
    WakeLoopAdded(Ticked(k), k.cur, k.ticks + n, 0, y);
  }

  /** A timer tick after timer_sleep(n) has put the running thread on the sleeping list and before it has disabled
      interrupts goes wrong exactly when n is at most 1 or the tick asks for a yield; otherwise it does what it would
      have done just before the call, with one tick less left to sleep. */
  lemma SleepWindow(k: Kernel, n: int)
    requires Lists(k)
    ensures TickGoesWrong(SleepBegun(k, n)) <==> n <= 1 || Looped(k).1
    ensures n > 1 && !Looped(k).1 ==> TickStep(SleepBegun(k, n)) == SleepBegun(TickStep(k), n - 1)
  {
    hide WakeLoop, Eff;
    CurAwake(k);
    KeepMember(Ticked(SleepBegun(k, n)), k.sleeping + [k.cur], true, k.cur);
    if n > 1 { SleepTicks(k, n); }
  }

  // ---- condition variables wake by base priority ----

  lemma {:induction false} PickFromIsHighest(k: Kernel, ps: seq<SemaId>, best: SemaId, high: int, q: SemaId)
    requires q in ps && Waiters(k.sy, q) != [] && Prio(k.prio, Highest(k, Waiters(k.sy, q))) > high
    ensures var p := PickFrom(k, ps, best, high);
      && Waiters(k.sy, p) != []
      && Prio(k.prio, Highest(k, Waiters(k.sy, p))) >= Prio(k.prio, Highest(k, Waiters(k.sy, q)))
    decreases |ps|
  {
    if Waiters(k.sy, ps[0]) == [] {
      PickFromIsHighest(k, ps[1..], best, high, q);
    } else {
      var r := Prio(k.prio, Highest(k, Waiters(k.sy, ps[0])));
      if r > high {
        PickAtLeast(k, ps[1..], ps[0], r);
        if q in ps[1..] && Prio(k.prio, Highest(k, Waiters(k.sy, q))) > r {
          PickFromIsHighest(k, ps[1..], ps[0], r, q);
        }
      } else {
        PickFromIsHighest(k, ps[1..], best, high, q);
      }
    }
  }

  lemma {:induction false} PickAtLeast(k: Kernel, ps: seq<SemaId>, best: SemaId, high: int)
    requires Waiters(k.sy, best) != [] && Prio(k.prio, Highest(k, Waiters(k.sy, best))) == high
    ensures var p := PickFrom(k, ps, best, high);
      Waiters(k.sy, p) != [] && Prio(k.prio, Highest(k, Waiters(k.sy, p))) >= high
    decreases |ps|
  {
    if ps != [] {
      if Waiters(k.sy, ps[0]) != [] && Prio(k.prio, Highest(k, Waiters(k.sy, ps[0]))) > high {
        PickAtLeast(k, ps[1..], ps[0], Prio(k.prio, Highest(k, Waiters(k.sy, ps[0]))));
      } else {
        PickAtLeast(k, ps[1..], best, high);
      }
    }
  }

  // ---- the windows: exactly when the order holds, in every reachable state ----

  /** What the running thread would still be entitled to without lock `l`, computed before it is released. */
  ghost function Kept(k: Kernel, l: SemaId): int {
    Best(k.prio, k.sy, Queued(k.sy, Remove(Held(k.sy, k.cur), l)), MAX_DEPTH - 1, Prio(k.prio, k.cur))
  }

  lemma KeptEff(k: Kernel, sy': Sync, l: SemaId)
    requires Outside(k.sy, k.cur) && Held(sy', k.cur) == Remove(Held(k.sy, k.cur), l)
    requires forall t: Tid :: t != k.cur ==> Held(sy', t) == Held(k.sy, t)
    requires forall x: SemaId :: Waiters(sy', x) == Waiters(k.sy, x)
    ensures Eff(k.(sy := sy'), k.cur) == Kept(k, l)
  {
    OwnListChange(k, sy');
    var rest := Held(sy', k.cur);
    QueuedFrame(k.sy, sy', rest);
    forall w | w in Queued(k.sy, rest) ensures w != k.cur { QueuedMember(k.sy, rest, w); }
    BestFrame(k.prio, k.sy, k.prio, sy', {k.cur}, Queued(k.sy, rest), MAX_DEPTH - 1, Prio(k.prio, k.cur));
  }

  /** Once a lock is off the running thread's list, alone or inside cond_wait, the running thread is still the
      highest exactly when no ready thread is above what it keeps without that lock. */
  lemma ReleaseWindow(k: Kernel, sy': Sync, l: SemaId)
    requires Lists(k) && Held(sy', k.cur) == Remove(Held(k.sy, k.cur), l)
    requires forall t: Tid :: t != k.cur ==> Held(sy', t) == Held(k.sy, t)
    requires forall x: SemaId :: Waiters(sy', x) == Waiters(k.sy, x)
    ensures InOrder(k.(sy := sy')) <==> AllBelow(k, Kept(k, l))
  {
    CurOutside(k);
    KeptEff(k, sy', l);
    OwnListChange(k, sy');
    OthersKeepEff(k, k.(sy := sy'));
  }

  /** Once thread_set_priority has stored `p`, the running thread is still the highest exactly when no ready thread
      is above `p` and what the waiters for its locks donate. */
  lemma LowerWindow(k: Kernel, p: int)
    requires Lists(k)
    ensures InOrder(StoreStep(k, p)) <==> AllBelow(k, WithBase(k, p))
  {
    StoreEff(k, p);
  }

  // Inside a window only interrupts can run without the thread moving on.

  /** A yield that comes back to the same thread has left everybody on the ready list who was there. */
  lemma YieldBack(k: Kernel)
    requires Lists(k) && Yield(k).cur == k.cur
    ensures InOrder(k)
  {
    var k1 := SetStatus(k, k.cur, Ready).(ready := if k.cur == k.idle then k.ready else k.ready + [k.cur]);
    var k' := Yield(k);
    ScheduleOrder(k1);
    assert Placed(k, Some(k.cur), k.cur) && Placed(k, Some(k.cur), k.idle);
    if k.cur != k.idle {
      NoDupPush(k.ready, k.cur);
      RemoveIsErase(k.ready + [k.cur], k.cur);
      forall t | t in k.ready ensures Eff(k, t) <= Eff(k, k.cur) {
        assert t in k'.ready;
        assert Eff(k', t) == Eff(k, t) && Eff(k', k.cur) == Eff(k, k.cur);
      }
    }
  }

  lemma YieldInOrder(k: Kernel)
    ensures InOrder(Yield(k))
  {
    ScheduleOrder(SetStatus(k, k.cur, Ready).(ready := if k.cur == k.idle then k.ready else k.ready + [k.cur]));
  }

  /** An interrupt that makes more threads ready and yields if one of them is higher. */
  ghost predicate Interrupted(k: Kernel, k1: Kernel, y: bool) {
    && k1.cur == k.cur && (forall t: Tid :: Eff(k1, t) == Eff(k, t))
    && (forall t :: t in k.ready ==> t in k1.ready)
    && (y || forall t :: t in k1.ready ==> t in k.ready || Eff(k, t) <= Eff(k, k.cur))
  }

  lemma InterruptOrder(k: Kernel, k1: Kernel, y: bool)
    requires Lists(k1) && Interrupted(k, k1, y)
    ensures var k' := FromInterrupt((k1, y)); InOrder(k') <==> InOrder(k) || k'.cur != k.cur
  {
    if y {
      YieldInOrder(k1);
      if Yield(k1).cur == k.cur { YieldBack(k1); }
    }
  }

  lemma UpOrder(k: Kernel, s: SemaId)
    requires Inv(k) && Plain(k.sy, s)
    ensures var k' := Wake(k, Raised(k.sy, s, Choice(k, s)), Choice(k, s)); InOrder(k') <==> InOrder(k) || k'.cur != k.cur
  {
    hide Choice, Eff, NoLostWakeup, MutualExclusion, CondsOk;
    var sy' := Raised(k.sy, s, Choice(k, s));
    CurOutside(k);
    assert Placed(k, Some(k.cur), k.cur);
    ChoiceWakes(k, s);
    NotALockUnheld(k.sy, s);
    UnheldChange(k, sy', s);
    if Choice(k, s).Some? {
      var w := Choice(k, s).value;
      var k2 := MakeReady(k.(sy := sy'), w);
      WakeLists(k, sy', s, w);
      SameEff(k, k2);
      InterruptOrder(k, k2, Eff(k2, w) > Eff(k2, k.cur));
    } else {
      SameEff(k, k.(sy := sy'));
    }
  }

  lemma InterruptedTwice(k: Kernel, k1: Kernel, k2: Kernel, w: Tid, y: bool)
    requires k1.cur == k.cur && (forall t: Tid :: Eff(k1, t) == Eff(k, t)) && k1.ready == k.ready + [w]
    requires Interrupted(k1, k2, y) && (y || Eff(k1, w) <= Eff(k1, k1.cur))
    ensures Interrupted(k, k2, y)
  {
    hide Eff;
  }

  lemma {:induction false} WakeLoopOrder(k: Kernel, i: nat, y: bool)
    requires Lists(k) && i <= |k.sleeping|
    ensures var (k', y') := WakeLoop(k, i, y); Lists(k') && (y ==> y') && Interrupted(k, k', y')
    decreases |k.sleeping| - i
  {
    if i < |k.sleeping| {
      var t := k.sleeping[i];
      if k.ticks >= Wakeup(k, t) {
        var k1 := WakeSleeper(k, i);
        WakeSleeperLists(k, i);
        QueueChange(k, k1.sy);
        SameEff(k, k1);
        WakeLoopOrder(k1, i, y || Eff(k1, t) > Eff(k1, k1.cur));
        InterruptedTwice(k, k1, WakeLoop(k1, i, y || Eff(k1, t) > Eff(k1, k1.cur)).0, t,
                         WakeLoop(k1, i, y || Eff(k1, t) > Eff(k1, k1.cur)).1);
      } else {
        WakeLoopOrder(k, i + 1, y);
      }
    }
  }

  lemma TickOrder(k: Kernel)
    requires Lists(k)
    ensures InOrder(TickStep(k)) <==> InOrder(k) || TickStep(k).cur != k.cur
  {
    var k1 := Ticked(k);
    forall t: Tid ensures Placed(k1, Some(k1.cur), t) { assert Placed(k, Some(k.cur), t); }
    forall t: Tid, s: SemaId ensures QueuePlaced(k1, t, s) { assert QueuePlaced(k, t, s); }
    var y := k1.slice >= TIME_SLICE;
    WakeLoopOrder(k1, 0, y);
    InterruptOrder(k1, WakeLoop(k1, 0, y).0, WakeLoop(k1, 0, y).1);
  }

  // Everything else ends in a switch, which picks the highest, or outside every window.

  ghost predicate Settled(k: Kernel) {
    InOrder(k) || !InWindow(PcOf(k.sy, k.cur))
  }

  lemma WakeSettles(k: Kernel, sy': Sync, w: Option<Tid>)
    requires !InWindow(PcOf(sy', k.cur))
    ensures Settled(Wake(k, sy', w))
  {
    if w.Some? { UnblockSettles(k.(sy := sy'), w.value); }
  }

  lemma UnblockSettles(k: Kernel, w: Tid)
    requires !InWindow(PcOf(k.sy, k.cur))
    ensures Settled(Unblock(k, w))
  {
    var k1 := MakeReady(k, w);
    YieldInOrder(k1);
  }

  lemma DownSettles(k: Kernel, s: SemaId, cont: Cont)
    ensures Settled(DownStep(k, s, cont))
  {
    if Value(k.sy, s) == 0 {
      ScheduleOrder(SetStatus(k.(sy := DownQueued(k.sy, k.cur, s, cont)), k.cur, Blocked));
    }
  }

  lemma ContinueSettles(k: Kernel)
    requires !PcOf(k.sy, k.cur).Lowering?
    ensures Settled(ContinueStep(k))
  {
    hide DownStep, Wake, Yield, Choice, ScanStep, Eff;
    match PcOf(k.sy, k.cur)
    case AboutToDown(s, cont) => DownSettles(k, s, cont);
    case Downing(s, cont) => DownSettles(k, s, cont);
    case Dropping(l, cont) => WakeSettles(k, DropDone(k.sy, k.cur, l, cont, Choice(k, l)), Choice(k, l));
    case Yielding(was) => YieldInOrder(k.(sy := SetPc(k.sy, k.cur, Normal)));
    case _ =>
  }

  /** Steps a thread takes in ordinary code, other than those that open a window. */
  ghost predicate Ordinary(step: Step) {
    !step.Release? && !step.CondWait? && !step.SetPriority? && !step.Tick? && !step.InterruptUp? && !step.Continue?
  }

  lemma OrdinarySettles(k: Kernel, step: Step)
    requires Inv(k) && Enabled(k, step) && Ordinary(step)
    ensures Settled(Apply(k, step))
  {
    hide SyncInv, Level, AllBelow, Eff, DownStep, Wake, Schedule, Unblock, Choice;
    match step
    case Down(s) => DownSettles(Enter(k, s, Return), s, Return);
    case Acquire(l) => DownSettles(Enter(k, l, Record), l, Record);
    case Up(s) => WakeSettles(k, Raised(k.sy, s, Choice(k, s)), Choice(k, s));
    case CondSignal(c, l, p) =>
      if CondList(k.sy, c) != [] { WakeSettles(k, Signalled(k.sy, c, p, Choice(k, p)), Choice(k, p)); }
    case YieldCpu => YieldInOrder(k);
    case Create(t, p) => assert Placed(k, Some(k.cur), t); UnblockSettles(NewThread(k, t, p), t);
    case Exit => ScheduleOrder(SetStatus(k, k.cur, Dying));
    case Sleep(n) => ScheduleOrder(SetStatus(FallAsleep(k, n), k.cur, Blocked));
    case IdleBlock => ScheduleOrder(SetStatus(k, k.cur, Blocked));
    case _ =>
  }

  /** Whether the order is broken after `step`, given whether it was broken before. Opening a window breaks it when a
      ready thread is above what the running thread keeps; it stays broken while only interrupts and the scan of
      thread_set_priority go by and nobody else is switched in; nothing else leaves it broken. */
  ghost predicate Breaks(k: Kernel, broken: bool, step: Step) {
    match step
    case Release(l) => !AllBelow(k, Kept(k, l))
    case CondWait(c, l, p) => !AllBelow(k, Kept(k, l))
    case SetPriority(p) => !AllBelow(k, WithBase(k, p))
    case Tick => broken && Apply(k, step).cur == k.cur
    case InterruptUp(s) => broken && Apply(k, step).cur == k.cur
    case Continue => broken && PcOf(k.sy, k.cur).Lowering?
    case _ => false
  }

  ghost predicate Broken(k: Kernel, broken: bool, steps: seq<Step>)
    decreases |steps|
  {
    if steps == [] then broken else Broken(Apply(k, steps[0]), Breaks(k, broken, steps[0]), steps[1..])
  }

  lemma SettledInOrder(k: Kernel)
    requires Inv(k) && Settled(k)
    ensures InOrder(k)
  {
  }

  lemma OpeningOrder(k: Kernel, sy': Sync, l: SemaId)
    requires Inv(k) && l in Held(k.sy, k.cur)
    requires sy' == Dropped(k.sy, k.cur, l, Return) || exists c, p :: p !in k.sy.semas && sy' == CondWaitBegun(k.sy, k.cur, c, l, p)
    ensures InOrder(k.(sy := sy')) <==> AllBelow(k, Kept(k, l))
  {
    hide QueuesOk, NoLostWakeup, MutualExclusion, CondsOk, AllBelow, Level;
    assert HeldOk(k.sy, k.cur, l);
    assert forall x: SemaId :: Waiters(sy', x) == Waiters(k.sy, x);
    ReleaseWindow(k, sy', l);
  }

  lemma OrdinaryOrder(k: Kernel, step: Step)
    requires Inv(k) && Enabled(k, step) && Ordinary(step)
    ensures InOrder(Apply(k, step))
  {
    hide Inv, Apply, Settled, InOrder, Enabled;
    StepKeeps(k, step);
    OrdinarySettles(k, step);
    SettledInOrder(Apply(k, step));
  }

  lemma ContinueOrder(k: Kernel)
    requires Inv(k) && k.cur != k.idle
    ensures InOrder(ContinueStep(k)) <==> InOrder(k) || !PcOf(k.sy, k.cur).Lowering?
  {
    hide Inv, DownStep, Wake, Yield, Choice, ScanStep, InOrder, Settled;
    if PcOf(k.sy, k.cur).Lowering? {
      ScanKeeps(k, PcOf(k.sy, k.cur).was);
    } else {
      ContinueKeeps(k);
      ContinueSettles(k);
      SettledInOrder(ContinueStep(k));
    }
  }

  lemma StepOrder(k: Kernel, step: Step)
    requires Inv(k) && Enabled(k, step)
    ensures InOrder(Apply(k, step)) <==> !Breaks(k, !InOrder(k), step)
  {
    hide SyncInv, Level, AllBelow, InOrder, Wake, StoreStep, ContinueStep, TickStep, CondWaitBegun, Dropped, Raised, Choice;
    match step
    case Release(l) => OpeningOrder(k, Dropped(k.sy, k.cur, l, Return), l);
    case CondWait(c, l, p) => OpeningOrder(k, CondWaitBegun(k.sy, k.cur, c, l, p), l);
    case SetPriority(p) => LowerWindow(k, p);
    case Tick => TickOrder(k);
    case InterruptUp(s) => UpOrder(k, s);
    case Continue => ContinueOrder(k);
    case _ => OrdinaryOrder(k, step);
  }

  lemma {:induction false} RunOrder(k: Kernel, steps: seq<Step>)
    requires Inv(k) && Legal(k, steps)
    ensures InOrder(Final(k, steps)) <==> !Broken(k, !InOrder(k), steps)
    decreases |steps|
  {
    if steps != [] {
      StepKeeps(k, steps[0]);
      StepOrder(k, steps[0]);
      RunOrder(Apply(k, steps[0]), steps[1..]);
    }
  }

  /** In every reachable state: the running thread is at least as high as every ready thread if and only if it is not
      in a window that was opened with a ready thread above what it keeps, with nobody switched in since. */
  lemma OrderExactly(main: Tid, idle: Tid, priority: int, steps: seq<Step>)
    requires main != idle && Legal(Boot(main, idle, priority), steps)
    ensures InOrder(Final(Boot(main, idle, priority), steps)) <==> !Broken(Boot(main, idle, priority), false, steps)
  {
    BootInv(main, idle, priority);
    RunOrder(Boot(main, idle, priority), steps);
  }
}
