/** The multi-level feedback queue's 17.14 fixed-point statistics
    (threads/thread.c, advanced_*; devices/timer.c, timer_interrupt). */
module Mlfqs {
  import opened Options
  import opened Powers
  import opened Arithmetic

  const F: int := 16384        // 1.0 in 17.14 fixed point
  const TIMER_FREQ: int := 100

  type Tid = nat

  /** The fields of struct thread that the statistics use. */
  datatype Thread = Thread(nice: int, recentCpu: int)

  /** What persists between interrupts. The idle thread is not among the threads. */
  datatype State = State(ticks: nat, loadAvg: int, threads: map<Tid, Thread>)

  /** How an integer expression of type int is stored: exactly, or cut to 32 bits. */
  datatype Width = Exact | Int32

  function Store(w: Width, x: int): int {
    if w.Exact? then x else S32(x)
  }

  // ---------- the formulas ----------

  /** advanced_load_avg_calculation. */
  function NextLoadAvg(w: Width, loadAvg: int, ready: nat): int {
    Store(w, TruncDiv(TruncDiv(59 * F * F, 60 * F) * loadAvg, F) + TruncDiv(F * F, 60 * F) * ready)
  }

  /** The decay factor 2*load_avg / (2*load_avg + 1), rounded down. */
  function Decay(w: Width, loadAvg: int): int {
    var la := Store(w, loadAvg * 2);
    var den := Store(w, la + F);
    if den == 0 then 0 else TruncDiv(la * F, den)
  }

  /** advanced_recent_cpu_calculation. */
  function NextRecentCpu(w: Width, loadAvg: int, t: Thread): int {
    Store(w, TruncDiv(Decay(w, loadAvg) * t.recentCpu, F) + Store(w, t.nice * F))
  }

  // ---------- the events ----------

  datatype Event =
    | Tick(current: Option<Tid>, readyLen: nat)     // None: the idle thread is running
    | Create(parent: Tid, child: Tid)
    | SetNice(tid: Tid, nice: int)
    | Exit(tid: Tid)

  function ReadyThreads(e: Event): nat
    requires e.Tick?
  {
    e.readyLen + (if e.current.Some? then 1 else 0)
  }

  predicate Enabled(s: State, e: Event) {
    match e
    case Tick(current, _) => current.Some? ==> current.value in s.threads
    case Create(parent, child) => parent in s.threads && child !in s.threads
    case SetNice(tid, _) => tid in s.threads
    case Exit(tid) => tid in s.threads
  }

  function Charge(w: Width, threads: map<Tid, Thread>, current: Option<Tid>): map<Tid, Thread>
    requires current.Some? ==> current.value in threads
  {
    if current.None? then threads
    else
      var t := threads[current.value];
      threads[current.value := t.(recentCpu := Store(w, t.recentCpu + F))]
  }

  function Recalculated(w: Width, threads: map<Tid, Thread>, loadAvg: int): map<Tid, Thread> {
    map t | t in threads :: threads[t].(recentCpu := NextRecentCpu(w, loadAvg, threads[t]))
  }

  /** One timer interrupt: charge the running thread, and once a second the load, then everyone. */
  function TickState(w: Width, s: State, e: Event): State
    requires e.Tick? && Enabled(s, e)
  {
    var ticks := s.ticks + 1;
    var charged := Charge(w, s.threads, e.current);
    if ticks % TIMER_FREQ != 0 then State(ticks, s.loadAvg, charged)
    else
      var loadAvg := NextLoadAvg(w, s.loadAvg, ReadyThreads(e));
      State(ticks, loadAvg, Recalculated(w, charged, loadAvg))
  }

  function Step(w: Width, s: State, e: Event): State
    requires Enabled(s, e)
  {
    match e
    case Tick(_, _) => TickState(w, s, e)
    case Create(parent, child) => s.(threads := s.threads[child := s.threads[parent]])
    case SetNice(tid, nice) => s.(threads := s.threads[tid := s.threads[tid].(nice := nice)])
    case Exit(tid) => s.(threads := s.threads - {tid})
  }

  // ---------- the invariant ----------

  /** nice values are legal and no more than n threads are ever runnable. */
  predicate Allowed(n: nat, e: Event) {
    match e
    case Tick(_, _) => ReadyThreads(e) <= n
    case SetNice(_, nice) => -20 <= nice <= 20
    case _ => true
  }

  /** A bound on recent_cpu that grows by one unit a tick within each second. */
  function CpuCap(n: nat, ticks: nat): int {
    (240 * n + 20 + ticks % TIMER_FREQ) * F
  }

  function CpuFloor(n: nat): int {
    -20 * (2 * n + 1) * F
  }

  predicate ThreadBounded(n: nat, ticks: nat, t: Thread) {
    -20 <= t.nice <= 20 && CpuFloor(n) <= t.recentCpu <= CpuCap(n, ticks)
  }

  predicate Bounded(n: nat, s: State) {
    && 0 <= s.loadAvg <= n * F
    && forall t | t in s.threads :: ThreadBounded(n, s.ticks, s.threads[t])
  }

  lemma LoadAvgBounded(n: nat, loadAvg: int, ready: nat)
    requires 0 <= loadAvg <= n * F && ready <= n
    ensures 0 <= NextLoadAvg(Exact, loadAvg, ready) <= n * F
  {
    assert TruncDiv(59 * F * F, 60 * F) == 16110;
    assert TruncDiv(F * F, 60 * F) == 273;
    DivLess(16110 * loadAvg, F, 16110 * n + 1);
  }

  /** The decay factor is at most 2n/(2n+1) of one. */
  lemma DecayBounded(n: nat, loadAvg: int)
    requires 0 <= loadAvg <= n * F
    ensures 0 <= Decay(Exact, loadAvg) < F
    ensures Decay(Exact, loadAvg) * (2 * n + 1) <= 2 * n * F
  {
    var la, c := 2 * loadAvg, Decay(Exact, loadAvg);
    DivBounds(la * F, la + F);
    DivLess(la * F, la + F, F);
    DivAtLeast(la * F, la + F, 0);
    assert (la + F) * c <= la * F;
    assert c * F <= la * (F - c) by {
      assert (la + F) * c == la * c + c * F;
      assert la * (F - c) == la * F - la * c;
    }
    MulMonotone(la, 2 * n * F, F - c);
    assert c * F <= F * (2 * n * (F - c));
    assert c <= 2 * n * (F - c) by {
      MulStrict(2 * n * (F - c), c, F);
    }
    assert 2 * n * (F - c) == 2 * n * F - 2 * n * c;
  }

  lemma TruncDivBetween(x: int, lo: int, hi: int)
    requires lo * F <= x <= hi * F && lo <= 0 <= hi
    ensures lo <= TruncDiv(x, F) <= hi
  {
  }

  /** A recalculation takes the cap at the end of a second to the cap at the start of the next. */
  lemma RecentCpuBounded(n: nat, loadAvg: int, t: Thread)
    requires 0 <= loadAvg <= n * F && -20 <= t.nice <= 20
    requires CpuFloor(n) <= t.recentCpu <= (240 * n + 120) * F
    ensures CpuFloor(n) <= NextRecentCpu(Exact, loadAvg, t) <= (240 * n + 20) * F
  {
    var c := Decay(Exact, loadAvg);
    DecayBounded(n, loadAvg);
    var x := c * t.recentCpu;
    MulMonotone(t.recentCpu, (240 * n + 120) * F, c);
    MulMonotone(CpuFloor(n), t.recentCpu, c);
    assert c * ((240 * n + 120) * F) == 120 * (c * (2 * n + 1)) * F;
    assert c * CpuFloor(n) == -20 * (c * (2 * n + 1)) * F;
    TruncDivBetween(x, -20 * (2 * n * F), 120 * (2 * n * F));
  }

  lemma ChargedBounded(n: nat, s: State, current: Option<Tid>, t: Tid)
    requires Bounded(n, s) && t in s.threads
    requires current.Some? ==> current.value in s.threads
    ensures var u := Charge(Exact, s.threads, current)[t];
            -20 <= u.nice <= 20 && CpuFloor(n) <= u.recentCpu <= CpuCap(n, s.ticks) + F
  {
    assert ThreadBounded(n, s.ticks, s.threads[t]);
  }

  lemma NextTick(ticks: nat)
    ensures if (ticks + 1) % TIMER_FREQ == 0 then ticks % TIMER_FREQ == 99
            else (ticks + 1) % TIMER_FREQ == ticks % TIMER_FREQ + 1
  {
  }

  /** What a charged thread's record is bounded by after the rest of the interrupt. */
  lemma ThreadTicked(n: nat, ticks: nat, loadAvg: int, u: Thread)
    requires 0 <= loadAvg <= n * F && -20 <= u.nice <= 20
    requires CpuFloor(n) <= u.recentCpu <= CpuCap(n, ticks) + F
    ensures (ticks + 1) % TIMER_FREQ != 0 ==> ThreadBounded(n, ticks + 1, u)
    ensures (ticks + 1) % TIMER_FREQ == 0 ==>
              ThreadBounded(n, ticks + 1, u.(recentCpu := NextRecentCpu(Exact, loadAvg, u)))
  {
    NextTick(ticks);
    if (ticks + 1) % TIMER_FREQ == 0 {
      RecentCpuBounded(n, loadAvg, u);
    }
  }

  lemma TickBounded(n: nat, s: State, e: Event)
    requires e.Tick? && Enabled(s, e) && Allowed(n, e) && Bounded(n, s)
    ensures Bounded(n, TickState(Exact, s, e))
  {
    var s' := TickState(Exact, s, e);
    LoadAvgBounded(n, s.loadAvg, ReadyThreads(e));
    forall t | t in s'.threads ensures ThreadBounded(n, s'.ticks, s'.threads[t]) {
      assert t in s.threads;
      ChargedBounded(n, s, e.current, t);
      ThreadTicked(n, s.ticks, s'.loadAvg, Charge(Exact, s.threads, e.current)[t]);
    }
  }

  /** Every event keeps the bounds, thread creation included. */
  lemma StepBounded(n: nat, s: State, e: Event)
    requires Enabled(s, e) && Allowed(n, e) && Bounded(n, s)
    ensures Bounded(n, Step(Exact, s, e))
  {
    if e.Tick? {
      TickBounded(n, s, e);
    }
  }

  /** States of at most 545 runnable threads fit in 32 bits, and 546 is where the cap stops fitting. */
  lemma CapFits(n: nat)
    ensures (240 * n + 120) * F < 0x8000_0000 <==> n <= 545
    ensures n <= 545 ==> n * F * 2 + F < 0x8000_0000 && CpuFloor(n) >= -0x8000_0000
  {
  }

  lemma RecentCpuFits(n: nat, loadAvg: int, t: Thread)
    requires n <= 545 && 0 <= loadAvg <= n * F && -20 <= t.nice <= 20
    requires CpuFloor(n) <= t.recentCpu <= (240 * n + 120) * F
    ensures NextRecentCpu(Int32, loadAvg, t) == NextRecentCpu(Exact, loadAvg, t)
  {
    CapFits(n);
    RecentCpuBounded(n, loadAvg, t);
  }

  lemma ChargeFits(n: nat, s: State, e: Event)
    requires n <= 545 && e.Tick? && Enabled(s, e) && Allowed(n, e) && Bounded(n, s)
    ensures Charge(Int32, s.threads, e.current) == Charge(Exact, s.threads, e.current)
  {
    CapFits(n);
    if e.current.Some? {
      ChargedBounded(n, s, e.current, e.current.value);
    }
  }

  lemma LoadAvgFits(n: nat, s: State, e: Event)
    requires n <= 545 && e.Tick? && Enabled(s, e) && Allowed(n, e) && Bounded(n, s)
    ensures NextLoadAvg(Int32, s.loadAvg, ReadyThreads(e)) == NextLoadAvg(Exact, s.loadAvg, ReadyThreads(e))
    ensures 0 <= NextLoadAvg(Exact, s.loadAvg, ReadyThreads(e)) <= n * F
  {
    CapFits(n);
    LoadAvgBounded(n, s.loadAvg, ReadyThreads(e));
  }

  lemma RecalculationFits(n: nat, s: State, e: Event, loadAvg: int)
    requires n <= 545 && e.Tick? && Enabled(s, e) && Allowed(n, e) && Bounded(n, s) && 0 <= loadAvg <= n * F
    requires (s.ticks + 1) % TIMER_FREQ == 0
    ensures var charged := Charge(Exact, s.threads, e.current);
            Recalculated(Int32, charged, loadAvg) == Recalculated(Exact, charged, loadAvg)
  {
    var charged := Charge(Exact, s.threads, e.current);
    forall t | t in charged
      ensures NextRecentCpu(Int32, loadAvg, charged[t]) == NextRecentCpu(Exact, loadAvg, charged[t])
    {
      assert t in s.threads;
      ChargedBounded(n, s, e.current, t);
      RecentCpuFits(n, loadAvg, charged[t]);
    }
  }

  /** With at most 545 runnable threads no store in an interrupt is cut. */
  lemma TickFits(n: nat, s: State, e: Event)
    requires n <= 545 && e.Tick? && Enabled(s, e) && Allowed(n, e) && Bounded(n, s)
    ensures TickState(Int32, s, e) == TickState(Exact, s, e)
  {
    ChargeFits(n, s, e);
    if (s.ticks + 1) % TIMER_FREQ == 0 {
      LoadAvgFits(n, s, e);
      RecalculationFits(n, s, e, NextLoadAvg(Exact, s.loadAvg, ReadyThreads(e)));
    }
  }

  // ---------- whole runs ----------

  /** `states` is the run of `events` from its first state, every event enabled where it happens. */
  predicate Run(w: Width, states: seq<State>, events: seq<Event>) {
    && |states| == |events| + 1
    && forall i | 0 <= i < |events| :: Enabled(states[i], events[i]) && states[i + 1] == Step(w, states[i], events[i])
  }

  /** thread_init and thread_start: one thread, everything zero. */
  function Boot(main: Tid): State {
    State(0, 0, map[main := Thread(0, 0)])
  }

  /** In unbounded arithmetic the bounds hold in every state of every run, for every n. */
  lemma {:induction false} RunBounded(n: nat, main: Tid, states: seq<State>, events: seq<Event>, k: nat)
    requires Run(Exact, states, events) && states[0] == Boot(main)
    requires forall i | 0 <= i < |events| :: Allowed(n, events[i])
    requires k < |states|
    ensures Bounded(n, states[k])
  {
    if k > 0 {
      RunBounded(n, main, states, events, k - 1);
      StepBounded(n, states[k - 1], events[k - 1]);
    }
  }

  /** With at most 545 runnable threads the 32-bit machine runs exactly as the unbounded one:
      no stored value of load_avg or recent_cpu ever overflows, and the bounds hold in it. */
  lemma {:induction false} RunFits(n: nat, main: Tid, states: seq<State>, events: seq<Event>, k: nat)
    requires n <= 545
    requires Run(Int32, states, events) && states[0] == Boot(main)
    requires forall i | 0 <= i < |events| :: Allowed(n, events[i])
    requires k < |states|
    ensures Bounded(n, states[k])
    ensures k < |events| ==> states[k + 1] == Step(Exact, states[k], events[k])
  {
    if k > 0 {
      RunFits(n, main, states, events, k - 1);
      StepBounded(n, states[k - 1], events[k - 1]);
    }
    if k < |events| && events[k].Tick? {
      TickFits(n, states[k], events[k]);
    }
  }

  // ---------- the laws that the formulas round ----------

  /** load_avg = (59/60)*load_avg + (1/60)*ready, up to rounding: the new value is never too large, and the rounding
      of the two weights and of the product is all that it lacks. */
  predicate LoadLaw(was: int, ready: nat, now: int) {
    60 * now <= 59 * was + F * ready <= 60 * now + 61 + 4 * ready + was / 256
  }

  /** recent_cpu = (2*load_avg)/(2*load_avg + 1) * recent_cpu + nice, up to rounding towards zero: what is kept of `was`
      has its sign, is never too large, and the rounding of the factor and of the product is all that it lacks. */
  predicate CpuLaw(was: int, nice: int, load: int, now: int) {
    var kept, den := now - nice * F, 2 * load + F;
    && (was >= 0 ==> kept >= 0) && (was <= 0 ==> kept <= 0)
    && den * Abs(kept) <= 2 * load * Abs(was) <= den * Abs(kept) + den * (Abs(was) / F + 2)
  }

  lemma LoadFollowsLaw(loadAvg: int, ready: nat)
    requires loadAvg >= 0
    ensures LoadLaw(loadAvg, ready, NextLoadAvg(Exact, loadAvg, ready))
  {
    assert TruncDiv(59 * F * F, 60 * F) == 16110;
    assert TruncDiv(F * F, 60 * F) == 273;
    DivBounds(16110 * loadAvg, F);
  }

  /** A product with a rounded quotient is not too large. */
  lemma RoundedLow(a: nat, den: nat, r: nat, d: nat, q: nat)
    requires den * d <= a * F && F * q <= d * r
    ensures den * q <= a * r
  {
    MulMonotone(F * q, d * r, den);
    MulMonotone(den * d, a * F, r);
    calc {
      F * (den * q);
      F * q * den;
    <=
      d * r * den;
      den * d * r;
    <=
      a * F * r;
      F * (a * r);
    }
  }

  /** Nor much too small. */
  lemma RoundedHigh(a: nat, den: nat, r: nat, d: nat, q: nat)
    requires a * F <= den * (d + 1) && d * r <= F * (q + 1)
    ensures a * r <= den * q + den * (r / F + 2)
  {
    var k := r / F + 1;
    DivBounds(r, F);
    MulMonotone(a * F, den * (d + 1), r);
    MulMonotone(d * r + r, F * (q + 1) + F * k, den);
    calc {
      F * (a * r);
      a * F * r;
    <=
      den * (d + 1) * r;
      (d * r + r) * den;
    <=
      (F * (q + 1) + F * k) * den;
      F * (den * (q + 1 + k));
    }
    assert den * (q + 1 + k) == den * q + den * (r / F + 2);
  }

  lemma CpuFollowsLaw(loadAvg: int, t: Thread)
    requires loadAvg >= 0
    ensures CpuLaw(t.recentCpu, t.nice, loadAvg, NextRecentCpu(Exact, loadAvg, t))
  {
    var la, r := 2 * loadAvg, Abs(t.recentCpu);
    var den, d := la + F, Decay(Exact, loadAvg);
    DivBounds(la * F, den);
    DivAtLeast(la * F, den, 0);
    assert d == la * F / den && d >= 0;
    MulMonotone(0, d, r);
    assert d * t.recentCpu == (if t.recentCpu < 0 then 0 - d * r else d * r);
    var q := d * r / F;
    DivBounds(d * r, F);
    RoundedLow(la, den, r, d, q);
    RoundedHigh(la, den, r, d, q);
    assert NextRecentCpu(Exact, loadAvg, t) - t.nice * F == TruncDiv(d * t.recentCpu, F);
    assert TruncDiv(d * t.recentCpu, F) == if t.recentCpu < 0 then 0 - q else q;
  }

  /** More recent_cpu, or a higher nice value, never gives less recent_cpu. */
  lemma CpuMonotone(loadAvg: int, t: Thread, u: Thread)
    requires loadAvg >= 0 && t.recentCpu <= u.recentCpu && t.nice <= u.nice
    ensures NextRecentCpu(Exact, loadAvg, t) <= NextRecentCpu(Exact, loadAvg, u)
  {
    var d := Decay(Exact, loadAvg);
    DivAtLeast(2 * loadAvg * F, 2 * loadAvg + F, 0);
    MulMonotone(t.recentCpu, u.recentCpu, d);
    TruncMonotone(d * t.recentCpu, d * u.recentCpu);
  }

  lemma TruncMonotone(x: int, y: int)
    requires x <= y
    ensures TruncDiv(x, F) <= TruncDiv(y, F)
  {
  }

  /** What one timer interrupt does: the running thread is charged one unit, and at every hundredth tick the load
      average and then every recent_cpu follow their laws. */
  predicate TickLaw(s: State, e: Event, s': State)
    requires e.Tick?
  {
    var second := s'.ticks % 100 == 0;
    && s'.ticks == s.ticks + 1 && s'.threads.Keys == s.threads.Keys
    && (if second then LoadLaw(s.loadAvg, e.readyLen + (if e.current.Some? then 1 else 0), s'.loadAvg)
        else s'.loadAvg == s.loadAvg)
    && forall t | t in s.threads ::
         var charged := s.threads[t].recentCpu + (if e.current == Some(t) then 16384 else 0);
         && s'.threads[t].nice == s.threads[t].nice
         && if second then CpuLaw(charged, s.threads[t].nice, s'.loadAvg, s'.threads[t].recentCpu)
            else s'.threads[t].recentCpu == charged
  }

  lemma TickFollowsLaw(n: nat, s: State, e: Event)
    requires e.Tick? && Enabled(s, e) && Allowed(n, e) && Bounded(n, s)
    ensures TickLaw(s, e, TickState(Exact, s, e))
  {
    hide LoadLaw, CpuLaw, NextLoadAvg, NextRecentCpu;
    var s', charged := TickState(Exact, s, e), Charge(Exact, s.threads, e.current);
    LoadAvgBounded(n, s.loadAvg, ReadyThreads(e));
    LoadFollowsLaw(s.loadAvg, ReadyThreads(e));
    forall t | t in s.threads && s'.ticks % 100 == 0
      ensures CpuLaw(charged[t].recentCpu, charged[t].nice, s'.loadAvg, NextRecentCpu(Exact, s'.loadAvg, charged[t]))
    {
      CpuFollowsLaw(s'.loadAvg, charged[t]);
    }
  }

  /** Every interrupt of every run of the 32-bit machine with at most 545 runnable threads follows the laws. */
  lemma RunFollowsLaws(n: nat, main: Tid, states: seq<State>, events: seq<Event>, k: nat)
    requires n <= 545 && Run(Int32, states, events) && states[0] == Boot(main)
    requires forall i | 0 <= i < |events| :: Allowed(n, events[i])
    requires k < |events|
    ensures events[k].Tick? ==> TickLaw(states[k], events[k], states[k + 1])
    ensures events[k].Create? ==>
              states[k + 1].threads == states[k].threads[events[k].child := states[k].threads[events[k].parent]]
  {
    RunFits(n, main, states, events, k);
    if events[k].Tick? {
      TickFollowsLaw(n, states[k], events[k]);
    }
  }

  // ---------- the scheduler object ----------

  /** The globals and thread fields as the interrupt handler updates them. */
  class Scheduler {
    var ticks: nat
    var loadAvg: int
    var threads: map<Tid, Thread>
    var mlfqsList: seq<Tid>

    ghost predicate Valid() reads this {
      && (forall i, j | 0 <= i < j < |mlfqsList| :: mlfqsList[i] != mlfqsList[j])
      && (forall t :: t in mlfqsList <==> t in threads)
    }

    ghost function Abstract(): State reads this { State(ticks, loadAvg, threads) }

    constructor (main: Tid)
      ensures Valid() && Abstract() == Boot(main)
    {
      ticks, loadAvg, threads, mlfqsList := 0, 0, map[main := Thread(0, 0)], [main];
    }

    method RecentCpuIncrease(current: Option<Tid>)
      requires current.Some? ==> current.value in threads
      modifies this`threads
      ensures threads == Charge(Int32, old(threads), current)
    {
      if current.Some? {
        var t := threads[current.value];
        threads := threads[current.value := t.(recentCpu := S32(t.recentCpu + F))];
      }
    }

    method LoadAvgCalculation(current: Option<Tid>, readyLen: nat)
      modifies this`loadAvg
      ensures loadAvg == NextLoadAvg(Int32, old(loadAvg), readyLen + (if current.Some? then 1 else 0))
    {
      var readyThreads := readyLen;
      if current.Some? {
        readyThreads := readyLen + 1;
      }
      loadAvg := S32(TruncDiv(TruncDiv(59 * F * F, 60 * F) * loadAvg, F) + TruncDiv(F * F, 60 * F) * readyThreads);
    }

    method RecentCpuUpdate()
      requires Valid()
      modifies this`threads
      ensures Valid() && threads == Recalculated(Int32, old(threads), loadAvg)
    {
      ghost var before := threads;
      var i := 0;
      while i < |mlfqsList|
        invariant 0 <= i <= |mlfqsList|
        invariant threads.Keys == before.Keys
        invariant forall j | 0 <= j < i ::
                    var t := mlfqsList[j];
                    t in before && threads[t] == before[t].(recentCpu := NextRecentCpu(Int32, loadAvg, before[t]))
        invariant forall j | i <= j < |mlfqsList| ::
                    mlfqsList[j] in before && threads[mlfqsList[j]] == before[mlfqsList[j]]
      {
        var t := mlfqsList[i];
        threads := threads[t := threads[t].(recentCpu := NextRecentCpu(Int32, loadAvg, threads[t]))];
        i := i + 1;
      }
      forall t | t in before
        ensures threads[t] == before[t].(recentCpu := NextRecentCpu(Int32, loadAvg, before[t]))
      {
        assert t in mlfqsList;
      }
    }

    /** The load is updated before the recent_cpu values that depend on it. */
    method PerSecond(current: Option<Tid>, readyLen: nat)
      requires Valid()
      modifies this`loadAvg, this`threads
      ensures Valid()
      ensures loadAvg == NextLoadAvg(Int32, old(loadAvg), ReadyThreads(Tick(current, readyLen)))
      ensures threads == Recalculated(Int32, old(threads), loadAvg)
    {
      LoadAvgCalculation(current, readyLen);
      RecentCpuUpdate();
    }

    /** timer_interrupt's statistics: charge, then the load, then everyone's recent_cpu. */
    method TimerInterrupt(current: Option<Tid>, readyLen: nat)
      requires Valid() && (current.Some? ==> current.value in threads)
      modifies this
      ensures Valid() && mlfqsList == old(mlfqsList)
      ensures Abstract() == Step(Int32, old(Abstract()), Tick(current, readyLen))
    {
      ghost var s, e := Abstract(), Tick(current, readyLen);
      ticks := ticks + 1;
      RecentCpuIncrease(current);
      if ticks % TIMER_FREQ == 0 {
        PerSecond(current, readyLen);
      }
      assert Abstract() == TickState(Int32, s, e);
    }

    /** The statistics part of thread_create: the child inherits nice and recent_cpu. */
    method ThreadCreate(parent: Tid, child: Tid)
      requires Valid() && parent in threads && child !in threads
      modifies this
      ensures Valid()
      ensures Abstract() == Step(Int32, old(Abstract()), Create(parent, child))
    {
      threads := threads[child := Thread(threads[parent].nice, threads[parent].recentCpu)];
      mlfqsList := mlfqsList + [child];
    }
  }
}
