/**
 The multi-level feedback queue bookkeeping of threads/thread.c in the 17.14 fixed-point numbers of
 threads/real-arithmetic.c, in 32-bit machine arithmetic.
 */
module Mlfqs {
  import opened Common
  import opened Arithmetic

  const F: int := 16384
  const TIMER_FREQ: nat := 100
  const PRI_MAX: int := 63

  // ---- fixed point, as the machine computes it ----

  function IntToFp(n: int): int { Signed32(n * F) }

  function FpToInt(x: int): int {
    if x >= 0 then TruncDiv(Signed32(x + F / 2), F) else TruncDiv(Signed32(x - F / 2), F)
  }

  function FpMul(x: int, y: int): int { Signed32(TruncDiv(Signed64(x * y), F)) }

  function FpDiv(x: int, y: int): int
    requires y != 0
  {
    Signed32(TruncDiv(Signed64(x * F), y))
  }

  datatype Thread = Thread(recent: int, nice: int, priority: int)

  /** load_avg from the load and the number of runnable threads. */
  function NewLoad(load: int, ready: nat): int {
    Signed32(TruncDiv(Signed32(59 * load), 60) + TruncDiv(IntToFp(ready), 60))
  }

  /** The factor recent_cpu decays by. */
  function Factor(load: int): int {
    var d := Signed32(Signed32(2 * load) + IntToFp(1));
    if d == 0 then 0 else FpDiv(Signed32(2 * load), d)
  }

  function Decayed(load: int, t: Thread): Thread {
    t.(recent := Signed32(FpMul(Factor(load), t.recent) + IntToFp(t.nice)))
  }

  function NewPriority(t: Thread): int {
    FpToInt(Signed32(Signed32(IntToFp(PRI_MAX) - TruncDiv(t.recent, 4)) - Signed32(IntToFp(t.nice) * 2)))
  }

  // ---- the same without machine words ----

  function ExactLoad(load: int, ready: nat): int { TruncDiv(59 * load, 60) + TruncDiv(ready * F, 60) }

  function ExactFactor(load: int): int
    requires load >= 0
  {
    2 * load * F / (2 * load + F)
  }

  function ExactRecent(load: int, t: Thread): int
    requires load >= 0
  {
    TruncDiv(ExactFactor(load) * t.recent, F) + t.nice * F
  }

  // ---- bounds ----

  /** Highest recent_cpu just after a decay, and lowest ever, with `n` runnable threads. */
  function Top(n: nat): int { (240 * n + 20) * F }
  function Bottom(n: nat): int { -(40 * n + 20) * F }

  ghost predicate ThreadOk(n: nat, since: nat, t: Thread) {
    -20 <= t.nice <= 20 && Bottom(n) <= t.recent <= Top(n) + since * F
  }

  lemma FloorMul(a: int, b: int)
    requires b > 0
    ensures (a / b) * b <= a < (a / b) * b + b
  {
  }

  /** The load average never passes the number of runnable threads. */
  lemma LoadBound(n: nat, load: int, ready: nat)
    requires 0 <= load <= n * F && ready <= n
    ensures 0 <= ExactLoad(load, ready) <= n * F
  {
    Times(ready, n, F);
  }

  /** The new load average is 59/60 of the old one and 1/60 of the runnable threads, short of it by less than two
      units in the last place. */
  lemma LoadNear(load: int, ready: nat)
    requires load >= 0
    ensures 0 <= 59 * load + ready * 16384 - 60 * ExactLoad(load, ready) < 120
  {
  }

  /** The new recent_cpu is 2 load / (2 load + 1) of the old one and the nice value, up to a unit in the last place and
      what the factor's last place makes of the old value. */
  lemma RecentNear(load: int, t: Thread)
    requires load >= 0
    ensures var d := 2 * load + 16384; var e := 16384 * d * (ExactRecent(load, t) - t.nice * 16384) - 2 * load * 16384 * t.recent;
      -(d * 16384 + d * Abs(t.recent)) <= e <= d * 16384 + d * Abs(t.recent)
  {
    var d, c := 2 * load + F, ExactFactor(load);
    FloorMul(2 * load * F, d);
    var q := TruncDiv(c * t.recent, F);
    TruncNear(c * t.recent, F);
    var a, b := F * q - c * t.recent, 2 * load * F - c * d;
    assert -F < a < F && 0 <= b < d;
    Regrouped(d, q, c, t.recent, load);
    Product2(d, a, F);
    Product2(Abs(t.recent), b, d);
    SignOut(b, t.recent);
  }

  lemma Regrouped(d: int, q: int, c: int, r: int, load: int)
    ensures F * d * q - 2 * load * F * r == d * (F * q - c * r) - (2 * load * F - c * d) * r
  {
    assert d * (F * q - c * r) == d * (F * q) - d * (c * r);
    assert (2 * load * F - c * d) * r == 2 * load * F * r - c * d * r;
    assert d * (c * r) == c * d * r && d * (F * q) == F * d * q;
  }

  lemma SignOut(b: int, r: int)
    ensures b * r == Abs(r) * b || b * r == -(Abs(r) * b)
  {
    if r < 0 { assert b * r == -(b * -r); }
  }

  lemma Product2(x: int, y: int, m: int)
    requires x >= 0 && -m <= y <= m
    ensures -(x * m) <= x * y <= x * m
  {
    Times(y, m, x);
    Times(-m, y, x);
    assert x * -m == -(x * m);
  }

  lemma TruncNear(x: int, y: int)
    requires y > 0
    ensures -y < y * TruncDiv(x, y) - x < y
  {
    FloorMul(Abs(x), y);
  }

  lemma CancelF(a: int, b: int)
    requires a * F >= b * F
    ensures a >= b
  {
  }

  /** The factor is at most 2n / (2n + 1). */
  lemma FactorBound(n: nat, load: int)
    requires 0 <= load <= n * F
    ensures 0 <= ExactFactor(load) <= F && ExactFactor(load) * (2 * n + 1) <= 2 * n * F
  {
    var d := 2 * load + F;
    var c := ExactFactor(load);
    FloorMul(2 * load * F, d);
    assert 0 <= c by { if c < 0 { Times(c + 1, 0, d); } }
    assert c <= F by { if c > F { Times(F + 1, c, d); } }
    assert (F - c) * d == F * d - c * d;
    assert F * d == 2 * load * F + F * F;
    Times(d, (2 * n + 1) * F, F - c);
    assert (F - c) * ((2 * n + 1) * F) == ((F - c) * (2 * n + 1)) * F;
    CancelF((F - c) * (2 * n + 1), F);
    assert (F - c) * (2 * n + 1) == F * (2 * n + 1) - c * (2 * n + 1);
  }

  lemma TruncBound(x: int, lo: int, hi: int)
    requires lo <= 0 <= hi && lo * F <= x <= hi * F
    ensures lo <= TruncDiv(x, F) <= hi
  {
  }

  /** A decay brings recent_cpu back under its bounds, a second's worth of ticks above them. */
  lemma DecayBound(n: nat, load: int, t: Thread)
    requires 0 <= load <= n * F && ThreadOk(n, TIMER_FREQ, t)
    ensures ThreadOk(n, 0, t.(recent := ExactRecent(load, t)))
  {
    var c := ExactFactor(load);
    FactorBound(n, load);
    var m := 2 * n + 1;
    assert Top(n) + 100 * F == 120 * F * m && Bottom(n) == -20 * F * m;
    Scaled(c, m, n, 120, t.recent);
    Scaled(c, m, n, 20, -t.recent);
    Negated(c, t.recent);
    TruncBound(c * t.recent, -40 * n * F, 240 * n * F);
  }

  lemma Negated(c: int, r: int)
    ensures c * -r == -(c * r)
  {
  }

  lemma Scaled(c: int, m: int, n: nat, k: nat, r: int)
    requires 0 <= c && c * m <= 2 * n * F && r <= k * F * m && m > 0
    ensures c * r <= 2 * k * n * F * F
  {
    Times(r, k * F * m, c);
    assert c * (k * F * m) == (c * m) * (k * F);
    Times(c * m, 2 * n * F, k * F);
    assert 2 * n * F * (k * F) == 2 * k * n * F * F;
  }

  // ---- no overflow with at most 545 runnable threads ----

  const MOST: nat := 545

  predicate Fits32(x: int) { -B31 <= x < B31 }
  predicate Fits64(x: int) { -B63 <= x < B63 }

  /** Every intermediate value of the load average's update is a 32-bit number. */
  predicate LoadFits(load: int, ready: nat) {
    && Fits32(59 * load) && Fits32(TruncDiv(59 * load, 60)) && Fits32(ready * F) && Fits32(TruncDiv(ready * F, 60))
    && Fits32(ExactLoad(load, ready))
  }

  /** Every intermediate value of the decay factor is a 32-bit number, its dividend a 64-bit one. */
  predicate FactorFits(load: int) {
    && load >= 0 && Fits32(2 * load) && Fits32(2 * load + F) && Fits64(2 * load * F) && Fits32(ExactFactor(load))
  }

  /** Likewise for the decay of recent_cpu. */
  predicate DecayFits(load: int, t: Thread) {
    && FactorFits(load) && Fits64(ExactFactor(load) * t.recent) && Fits32(TruncDiv(ExactFactor(load) * t.recent, F))
    && Fits32(t.nice * F) && Fits32(ExactRecent(load, t))
  }

  /** And for the priority, both differences and the rounding included. */
  predicate PriorityFits(t: Thread) {
    var a := PRI_MAX * F - TruncDiv(t.recent, 4);
    var x := a - t.nice * F * 2;
    && Fits32(PRI_MAX * F) && Fits32(TruncDiv(t.recent, 4)) && Fits32(a) && Fits32(t.nice * F) && Fits32(t.nice * F * 2)
    && Fits32(x) && Fits32(x + F / 2) && Fits32(x - F / 2)
  }

  lemma MachineLoad(n: nat, load: int, ready: nat)
    requires n <= MOST && 0 <= load <= n * F && ready <= n
    ensures LoadFits(load, ready)
    ensures NewLoad(load, ready) == ExactLoad(load, ready)
  {
    LoadBound(n, load, ready);
    Times(ready, n, F);
    Times(n, MOST, F);
  }

  lemma MachineFactor(n: nat, load: int)
    requires n <= MOST && 0 <= load <= n * F
    ensures FactorFits(load)
    ensures Factor(load) == ExactFactor(load)
  {
    FactorBound(n, load);
    Times(n, MOST, F);
    assert TruncDiv(2 * load * F, 2 * load + F) == 2 * load * F / (2 * load + F);
  }

  lemma RecentFits(n: nat, since: nat, t: Thread)
    requires n <= MOST && since <= TIMER_FREQ && ThreadOk(n, since, t)
    ensures -B31 <= t.recent < B31
  {
    Times(n, MOST, 240 * F);
    Times(n, MOST, 40 * F);
    Times(since, TIMER_FREQ, F);
  }

  lemma MachineRecent(n: nat, load: int, t: Thread)
    requires n <= MOST && 0 <= load <= n * F && ThreadOk(n, TIMER_FREQ, t)
    ensures DecayFits(load, t)
    ensures Decayed(load, t) == t.(recent := ExactRecent(load, t))
  {
    MachineFactor(n, load);
    FactorBound(n, load);
    hide Factor, ExactFactor;
    var c := ExactFactor(load);
    RecentFits(n, TIMER_FREQ, t);
    assert -B63 <= c * t.recent < B63 by { Product(c, t.recent); }
    DecayBound(n, load, t);
    RecentFits(n, 0, t.(recent := ExactRecent(load, t)));
    TruncBetween(c, t.recent);
  }

  lemma Product(c: int, r: int)
    requires 0 <= c <= F && -B31 <= r < B31
    ensures -F * B31 <= c * r <= F * B31
  {
    if r >= 0 {
      Times(c, F, r);
      Times(r, B31, F);
      Times(0, c, r);
    } else {
      Times(c, F, -r);
      Times(-r, B31, F);
      Times(0, c, -r);
      Negated(c, r);
    }
  }

  lemma TruncBetween(c: int, r: int)
    requires 0 <= c <= F && -B31 <= r < B31
    ensures -B31 <= TruncDiv(c * r, F) < B31
  {
    if r >= 0 {
      Times(c, F, r);
      Times(0, c, r);
      TruncBound(c * r, 0, r);
    } else {
      Times(c, F, -r);
      Times(0, c, -r);
      Negated(c, r);
      TruncBound(c * r, r, 0);
    }
  }

  /** The priority formula, rounded to the nearest integer; nothing clamps it to the legal range. */
  function ExactPriority(t: Thread): int {
    var x := PRI_MAX * F - TruncDiv(t.recent, 4) - t.nice * F * 2;
    if x >= 0 then (x + F / 2) / F else -((-x + F / 2) / F)
  }

  /** The priority is the formula's value rounded to the nearest integer. */
  lemma PriorityNear(t: Thread)
    ensures var x := 63 * 16384 - TruncDiv(t.recent, 4) - 2 * t.nice * 16384;
      -16384 <= 2 * (16384 * ExactPriority(t) - x) <= 16384
    ensures -4 < 4 * TruncDiv(t.recent, 4) - t.recent < 4
  {
  }

  /** The priority is a legal one exactly when recent_cpu / 4 + 2 nice lies between 0 and 63, give or take a half. */
  lemma PriorityInRange(t: Thread)
    ensures var y := TruncDiv(t.recent, 4) + t.nice * F * 2;
      0 <= ExactPriority(t) <= PRI_MAX <==> -F / 2 < y < PRI_MAX * F + F / 2
  {
  }

  lemma MachinePriority(n: nat, since: nat, t: Thread)
    requires n <= MOST && since <= TIMER_FREQ && ThreadOk(n, since, t)
    ensures PriorityFits(t)
    ensures NewPriority(t) == ExactPriority(t)
  {
    RecentFits(n, since, t);
  }

  // ---- runs ----

  datatype State = State(load: int, threads: seq<Thread>, ticks: nat)

  /** What can happen: a timer tick with its running thread and number of runnable threads, and thread operations. */
  datatype Step =
    | Tick(running: Option<nat>, ready: nat)
    | SetNice(i: nat, nice: int)
    | Create(nice: int)
    | Exit(i: nat)

  function Charged(ts: seq<Thread>, running: Option<nat>): (r: seq<Thread>)
    ensures |r| == |ts|
  {
    if running.Some? && running.value < |ts|
    then ts[running.value := ts[running.value].(recent := Signed32(ts[running.value].recent + IntToFp(1)))]
    else ts
  }

  function AllDecayed(load: int, ts: seq<Thread>): (r: seq<Thread>)
    ensures |r| == |ts|
  {
    seq(|ts|, i requires 0 <= i < |ts| => Decayed(load, ts[i]))
  }

  function WithPriority(t: Thread): Thread { t.(priority := NewPriority(t)) }

  function AllPriorities(ts: seq<Thread>): (r: seq<Thread>)
    ensures |r| == |ts|
  {
    seq(|ts|, i requires 0 <= i < |ts| => WithPriority(ts[i]))
  }

  /** thread_tick. */
  function Ticked(s: State, running: Option<nat>, ready: nat): State {
    var ticks := s.ticks + 1;
    var charged := Charged(s.threads, running);
    var second := ticks % TIMER_FREQ == 0;
    var load := if second then NewLoad(s.load, ready) else s.load;
    var ts := if second then AllDecayed(load, charged) else charged;
    State(load, if ticks % 4 == 0 then AllPriorities(ts) else ts, ticks)
  }

  function Apply(s: State, a: Step): State {
    match a
    case Tick(running, ready) => Ticked(s, running, ready)
    case SetNice(i, nice) => if i < |s.threads| then s.(threads := s.threads[i := WithPriority(s.threads[i].(nice := nice))]) else s
    case Create(nice) => s.(threads := s.threads + [WithPriority(Thread(0, nice, 0))])
    case Exit(i) => if i < |s.threads| then s.(threads := s.threads[..i] + s.threads[i + 1..]) else s
  }

  /** At most `n` threads are runnable at any tick, and nice values are legal. */
  predicate Allowed(n: nat, a: Step) {
    match a
    case Tick(_, ready) => ready <= n
    case SetNice(_, nice) => -20 <= nice <= 20
    case Create(nice) => -20 <= nice <= 20
    case Exit(_) => true
  }

  ghost predicate Inv(n: nat, s: State) {
    && 0 <= s.load <= n * F
    && (forall i: nat :: i < |s.threads| ==> ThreadOk(n, s.ticks % TIMER_FREQ, s.threads[i]))
  }

  lemma ChargedOk(n: nat, since: nat, ts: seq<Thread>, running: Option<nat>)
    requires n <= MOST && since < TIMER_FREQ && forall i: nat :: i < |ts| ==> ThreadOk(n, since, ts[i])
    ensures forall i: nat :: i < |ts| ==> ThreadOk(n, since + 1, Charged(ts, running)[i])
    ensures running.Some? && running.value < |ts| ==>
      Charged(ts, running)[running.value].recent == ts[running.value].recent + F
  {
    forall i: nat | i < |ts| ensures ThreadOk(n, since + 1, Charged(ts, running)[i]) {
      RecentFits(n, since + 1, ts[i].(recent := ts[i].recent + F));
    }
    if running.Some? && running.value < |ts| {
      RecentFits(n, since + 1, ts[running.value].(recent := ts[running.value].recent + F));
    }
  }

  lemma TickKeeps(n: nat, s: State, running: Option<nat>, ready: nat)
    requires n <= MOST && Inv(n, s) && ready <= n
    ensures Inv(n, Ticked(s, running, ready))
  {
    hide Charged, AllDecayed, NewLoad, AllPriorities, ThreadOk;
    var since, next := s.ticks % TIMER_FREQ, (s.ticks + 1) % TIMER_FREQ;
    NextMod(s.ticks);
    ChargedOk(n, since, s.threads, running);
    var ts := Charged(s.threads, running);
    if next == 0 {
      MachineLoad(n, s.load, ready);
      LoadBound(n, s.load, ready);
      AllDecayedOk(n, NewLoad(s.load, ready), ts);
      ts := AllDecayed(NewLoad(s.load, ready), ts);
    }
    AllPrioritiesOk(n, next, ts);
  }

  lemma NextMod(t: nat)
    ensures (t + 1) % TIMER_FREQ == if t % TIMER_FREQ == TIMER_FREQ - 1 then 0 else t % TIMER_FREQ + 1
  {
  }

  lemma AllDecayedOk(n: nat, load: int, ts: seq<Thread>)
    requires n <= MOST && 0 <= load <= n * F && forall i: nat :: i < |ts| ==> ThreadOk(n, TIMER_FREQ, ts[i])
    ensures forall i: nat :: i < |ts| ==> ThreadOk(n, 0, AllDecayed(load, ts)[i])
  {
    hide ThreadOk, Decayed;
    forall i: nat | i < |ts| ensures ThreadOk(n, 0, AllDecayed(load, ts)[i]) {
      MachineRecent(n, load, ts[i]);
      DecayBound(n, load, ts[i]);
    }
  }

  lemma AllPrioritiesOk(n: nat, since: nat, ts: seq<Thread>)
    requires forall i: nat :: i < |ts| ==> ThreadOk(n, since, ts[i])
    ensures forall i: nat :: i < |ts| ==> ThreadOk(n, since, AllPriorities(ts)[i])
  {
    hide NewPriority, Top, Bottom;
  }

  lemma StepKeeps(n: nat, s: State, a: Step)
    requires n <= MOST && Inv(n, s) && Allowed(n, a)
    ensures Inv(n, Apply(s, a))
  {
    hide Ticked, NewPriority;
    match a
    case Tick(running, ready) => TickKeeps(n, s, running, ready);
    case SetNice(i, nice) =>
    case Create(nice) => ZeroOk(n, s.ticks % TIMER_FREQ, nice);
    case Exit(i) =>
  }

  lemma ZeroOk(n: nat, since: nat, nice: int)
    requires -20 <= nice <= 20
    ensures ThreadOk(n, since, WithPriority(Thread(0, nice, 0)))
  {
    hide NewPriority;
    Times(0, since, F);
    Times(0, n, F);
  }

  function Final(s: State, steps: seq<Step>): State
    decreases |steps|
  {
    if steps == [] then s else Final(Apply(s, steps[0]), steps[1..])
  }

  /** Over every run with at most `n` runnable threads, the load average stays within `n` and recent_cpu within its
      bounds. */
  lemma {:induction false} RunKeeps(n: nat, s: State, steps: seq<Step>)
    requires n <= MOST && Inv(n, s) && forall a :: a in steps ==> Allowed(n, a)
    ensures Inv(n, Final(s, steps))
    decreases |steps|
  {
    if steps != [] {
      hide Inv, Apply, Allowed;
      assert steps[0] in steps && forall a :: a in steps[1..] ==> a in steps;
      StepKeeps(n, s, steps[0]);
      RunKeeps(n, Apply(s, steps[0]), steps[1..]);
    }
  }

  /** What a tick does to thread `i` is what exact arithmetic says, and no intermediate value leaves its word. */
  ghost predicate TickClean(s: State, running: Option<nat>, ready: nat, i: nat)
    requires i < |s.threads|
  {
    var w := Ticked(s, running, ready);
    var second := (s.ticks + 1) % 100 == 0;
    var charged := s.threads[i].(recent := s.threads[i].recent + if running == Some(i) then F else 0);
    && |w.threads| == |s.threads| && w.ticks == s.ticks + 1 && Fits32(charged.recent) && w.load >= 0
    && w.threads[i].nice == s.threads[i].nice
    && w.load == (if second then ExactLoad(s.load, ready) else s.load)
    && w.threads[i].recent == (if second then ExactRecent(w.load, charged) else charged.recent)
    && (second ==> LoadFits(s.load, ready) && DecayFits(w.load, charged))
    && (if (s.ticks + 1) % 4 == 0 then PriorityFits(w.threads[i]) && w.threads[i].priority == ExactPriority(w.threads[i])
        else w.threads[i].priority == s.threads[i].priority)
  }

  lemma TickExact(n: nat, s: State, running: Option<nat>, ready: nat, i: nat)
    requires n <= MOST && Inv(n, s) && ready <= n && i < |s.threads|
    ensures TickClean(s, running, ready, i)
  {
    hide NewLoad, Decayed, NewPriority, Top, Bottom, ExactLoad, ExactPriority, ExactRecent, LoadFits, DecayFits, PriorityFits;
    var since := s.ticks % TIMER_FREQ;
    NextMod(s.ticks);
    ChargedOk(n, since, s.threads, running);
    TickKeeps(n, s, running, ready);
    var w := Ticked(s, running, ready);
    var c := Charged(s.threads, running)[i];
    RecentFits(n, since + 1, c);
    if (s.ticks + 1) % TIMER_FREQ == 0 {
      MachineLoad(n, s.load, ready);
      MachineRecent(n, w.load, c);
    }
    if (s.ticks + 1) % 4 == 0 { PriorityOf(n, (s.ticks + 1) % TIMER_FREQ, w.threads[i]); }
  }

  /** thread_set_nice and thread_create compute a priority too. The others are left as they are. */
  ghost predicate StepClean(s: State, a: Step) {
    var w := Apply(s, a);
    match a
    case Tick(running, ready) => forall i: nat :: i < |s.threads| ==> TickClean(s, running, ready, i)
    case SetNice(i, nice) =>
      && w.load == s.load && w.ticks == s.ticks && |w.threads| == |s.threads|
      && (i < |s.threads| ==> PriorityFits(w.threads[i]) && Renewed(w.threads[i], s.threads[i].recent, nice))
      && (forall j: nat :: j < |s.threads| && j != i ==> w.threads[j] == s.threads[j])
    case Create(nice) =>
      && w.load == s.load && w.ticks == s.ticks && |w.threads| == |s.threads| + 1
      && PriorityFits(w.threads[|s.threads|]) && Renewed(w.threads[|s.threads|], 0, nice)
      && (forall j: nat :: j < |s.threads| ==> w.threads[j] == s.threads[j])
    case Exit(i) =>
      && w.load == s.load && w.ticks == s.ticks
      && (i < |s.threads| ==> |w.threads| == |s.threads| - 1)
      && (forall j: nat :: j < |w.threads| ==> w.threads[j] == s.threads[if j < i || i >= |s.threads| then j else j + 1])
  }

  /** The thread has this recent_cpu and nice value, and the priority that goes with them. */
  ghost predicate Renewed(t: Thread, recent: int, nice: int) {
    t.recent == recent && t.nice == nice && t.priority == ExactPriority(Thread(recent, nice, 0))
  }

  lemma StepExact(n: nat, s: State, a: Step)
    requires n <= MOST && Inv(n, s) && Allowed(n, a)
    ensures StepClean(s, a)
  {
    hide TickClean, PriorityFits, NewPriority, ExactPriority, Top, Bottom;
    match a
    case Tick(running, ready) =>
      forall i: nat | i < |s.threads| ensures TickClean(s, running, ready, i) { TickExact(n, s, running, ready, i); }
    case SetNice(i, nice) =>
      if i < |s.threads| { RenewedBy(n, s.ticks % TIMER_FREQ, s.threads[i].(nice := nice)); }
    case Create(nice) =>
      ZeroOk(n, 0, nice);
      RenewedBy(n, 0, Thread(0, nice, 0));
    case Exit(_) =>
  }

  lemma RenewedBy(n: nat, since: nat, t: Thread)
    requires n <= MOST && since <= TIMER_FREQ && ThreadOk(n, since, t)
    ensures PriorityFits(WithPriority(t)) && Renewed(WithPriority(t), t.recent, t.nice)
  {
    MachinePriority(n, since, t);
  }

  /** Along every run with at most `n` <= 545 runnable threads, every step computes exact values without overflow. */
  lemma RunExact(n: nat, s: State, steps: seq<Step>, a: Step)
    requires n <= MOST && Inv(n, s) && Allowed(n, a) && forall b :: b in steps ==> Allowed(n, b)
    ensures StepClean(Final(s, steps), a)
  {
    RunKeeps(n, s, steps);
    StepExact(n, Final(s, steps), a);
  }

  lemma PriorityOf(n: nat, since: nat, t: Thread)
    requires n <= MOST && since <= TIMER_FREQ && ThreadOk(n, since, t)
    ensures NewPriority(t) == ExactPriority(t) && PriorityFits(t)
    ensures forall p: int :: NewPriority(t.(priority := p)) == NewPriority(t) && ExactPriority(t.(priority := p)) == ExactPriority(t)
  {
    MachinePriority(n, since, t);
  }

  // ---- thread_tick as it runs ----

  class Bookkeeping {
    var load: int
    var threads: seq<Thread>
    var ticks: nat

    ghost function View(): State
      reads this
    {
      State(load, threads, ticks)
    }

    constructor ()
      ensures View() == State(0, [], 0)
    {
      load, threads, ticks := 0, [], 0;
    }

    /** thread_tick, after the timer has counted the tick. `running` is none for the idle thread. */
    method ThreadTick(running: Option<nat>, ready: nat)
      modifies this
      ensures View() == Ticked(old(View()), running, ready)
    {
      hide Decayed, NewPriority, NewLoad;
      ticks := ticks + 1;
      if running.Some? && running.value < |threads| {
        var t := threads[running.value];
        threads := threads[running.value := t.(recent := Signed32(t.recent + IntToFp(1)))];
      }
      if ticks % TIMER_FREQ == 0 {
        load := NewLoad(load, ready);
        DecayAll();
      }
      if ticks % 4 == 0 {
        UpdateAll();
      }
    }

    method DecayAll()
      modifies `threads
      ensures threads == AllDecayed(load, old(threads))
    {
      hide Decayed;
      ghost var ts := threads;
      for i := 0 to |threads|
        invariant |threads| == |ts|
        invariant forall j: nat :: j < |ts| ==> threads[j] == if j < i then Decayed(load, ts[j]) else ts[j]
      {
        threads := threads[i := Decayed(load, threads[i])];
      }
    }

    method UpdateAll()
      modifies `threads
      ensures threads == AllPriorities(old(threads))
    {
      hide WithPriority;
      ghost var ts := threads;
      for i := 0 to |threads|
        invariant |threads| == |ts|
        invariant forall j: nat :: j < |ts| ==> threads[j] == if j < i then WithPriority(ts[j]) else ts[j]
      {
        threads := threads[i := WithPriority(threads[i])];
      }
    }
  }
}
