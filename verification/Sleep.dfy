/** Sleeping threads and the timer (threads/thread.c, devices/timer.c): timer_sleep, thread_sleep, and the
    wake-up part of the timer interrupt. */
module Sleep {
  import opened Ordering

  const INT64_MAX: int := 0x7FFF_FFFF_FFFF_FFFF

  /** A thread on sleep_list: its local_tick, and, for the proofs, the tick at which it went to sleep and how
      many threads had gone to sleep before it. */
  datatype Sleeper = Sleeper(tid: nat, localTick: int, since: int, num: nat)

  datatype Wake = Wake(who: Sleeper, at: int)

  /** `slept` lists all calls of thread_sleep, `woken` all calls of thread_unblock by thread_wake. */
  datatype State =
    State(ticks: int, globalTick: int, sleepers: seq<Sleeper>, slept: seq<Sleeper>, woken: seq<Wake>)

  /** compare_local_tick_asc. */
  function Earlier(): (Sleeper, Sleeper) -> bool {
    (x: Sleeper, y: Sleeper) => x.localTick < y.localTick
  }

  function Initial(): State { State(0, INT64_MAX, [], [], []) }

  // ---------- what the operations mean ----------

  function After(s: seq<Sleeper>, tick: int): seq<Sleeper> {
    if s == [] then [] else (if s[0].localTick > tick then [s[0]] else []) + After(s[1..], tick)
  }

  function WokenAt(s: seq<Sleeper>, tick: int): seq<Wake> {
    if s == [] then [] else (if s[0].localTick <= tick then [Wake(s[0], tick)] else []) + WokenAt(s[1..], tick)
  }

  function Least(s: seq<Sleeper>): int {
    if s == [] then INT64_MAX
    else if s[0].localTick < Least(s[1..]) then s[0].localTick else Least(s[1..])
  }

  /** thread_sleep (local). */
  function Slept(s: State, tid: nat, local: int): State {
    var me := Sleeper(tid, local, s.ticks, |s.slept|);
    s.(globalTick := if local < s.globalTick then local else s.globalTick,
       sleepers := InsertOrdered(Earlier(), s.sleepers, me), slept := s.slept + [me])
  }

  /** One timer interrupt: everyone due at the new tick leaves, in list order. */
  function Ticked(s: State): State {
    var now := s.ticks + 1;
    State(now, Least(After(s.sleepers, now)), After(s.sleepers, now), s.slept, s.woken + WokenAt(s.sleepers, now))
  }

  // ---------- the kernel's code ----------

  class Clock {
    var ticks: int
    var globalTick: int
    var sleepList: seq<Sleeper>
    var slept: seq<Sleeper>
    ghost var woken: seq<Wake>

    ghost function Now(): State
      reads this
    {
      State(ticks, globalTick, sleepList, slept, woken)
    }

    constructor ()
      ensures Now() == Initial()
    {
      ticks, globalTick, sleepList, slept, woken := 0, INT64_MAX, [], [], [];
    }

    /** timer_sleep after its two readings of the clock, `start` and `seen`. */
    method TimerSleep(tid: nat, n: int, start: int, seen: int)
      modifies this
      ensures Now() == if seen - start < n then Slept(old(Now()), tid, n + start) else old(Now())
    {
      if seen - start < n {
        ThreadSleep(tid, n + start);
      }
    }

    method ThreadSleep(tid: nat, local: int)
      modifies this
      ensures Now() == Slept(old(Now()), tid, local)
    {
      if local < globalTick {
        globalTick := local;
      }
      var me := Sleeper(tid, local, ticks, |slept|);
      sleepList := InsertOrdered(Earlier(), sleepList, me);
      slept := slept + [me];
    }

    method TimerInterrupt()
      requires Sorted(Earlier(), sleepList) && InRange(sleepList)
      modifies this
      ensures Now() == Ticked(old(Now()))
    {
      ticks := ticks + 1;
      ThreadWake(ticks);
    }

    /** thread_wake: leaves the loop at the first thread that is not due. */
    method ThreadWake(tick: int)
      requires Sorted(Earlier(), sleepList) && InRange(sleepList)
      modifies this`globalTick, this`sleepList, this`woken
      ensures sleepList == After(old(sleepList), tick) && globalTick == Least(sleepList)
      ensures woken == old(woken) + WokenAt(old(sleepList), tick)
    {
      globalTick := INT64_MAX;
      ghost var list, before := sleepList, woken;
      while sleepList != []
        invariant Sorted(Earlier(), sleepList) && InRange(sleepList)
        invariant globalTick == INT64_MAX
        invariant After(sleepList, tick) == After(list, tick)
        invariant woken + WokenAt(sleepList, tick) == before + WokenAt(list, tick)
        decreases |sleepList|
      {
        var cur := sleepList[0];
        if cur.localTick <= tick {
          ghost var rest := WokenAt(sleepList[1..], tick);
          assert woken + ([Wake(cur, tick)] + rest) == woken + [Wake(cur, tick)] + rest;
          sleepList := sleepList[1..];
          woken := woken + [Wake(cur, tick)];
        } else {
          NoneDue(sleepList, tick);
          LeastIsFirst(sleepList);
          if cur.localTick < globalTick {
            globalTick := cur.localTick;
          }
          break;
        }
      }
    }
  }

  /** Tick counts are 64-bit signed. */
  predicate InRange(s: seq<Sleeper>) {
    forall i | 0 <= i < |s| :: s[i].localTick <= INT64_MAX
  }

  lemma {:induction false} NoneDue(s: seq<Sleeper>, tick: int)
    requires Sorted(Earlier(), s) && (s != [] ==> s[0].localTick > tick)
    ensures After(s, tick) == s && WokenAt(s, tick) == []
  {
    if s != [] {
      assert Sorted(Earlier(), s[1..]);
      if |s| > 1 {
        assert !Earlier()(s[1], s[0]);
      }
      NoneDue(s[1..], tick);
    }
  }

  lemma {:induction false} LeastIsFirst(s: seq<Sleeper>)
    requires Sorted(Earlier(), s) && InRange(s)
    ensures Least(s) == if s == [] then INT64_MAX else s[0].localTick
  {
    if s != [] {
      LeastIsFirst(s[1..]);
      if |s| > 1 {
        assert !Earlier()(s[1], s[0]);
      }
    }
  }

  // ---------- runs ----------

  /** `Call` is a timer_sleep (n) that read the clock at `start` and again at `seen`; interrupts may have
      come in between and since. */
  datatype Event = Call(tid: nat, n: int, start: int, seen: int) | Interrupt

  predicate Enabled(s: State, e: Event) {
    e.Call? ==> 0 <= e.start <= e.seen <= s.ticks && e.n + e.start <= INT64_MAX
  }

  function Step(s: State, e: Event): State {
    match e
    case Call(tid, n, start, seen) => if seen - start < n then Slept(s, tid, n + start) else s
    case Interrupt => Ticked(s)
  }

  /** The first tick after falling asleep that is not before the local tick. */
  function WakeTick(x: Sleeper): int {
    if x.localTick > x.since then x.localTick else x.since + 1
  }

  /** `x` leaves before `y`: an earlier local tick, or the same and asleep for longer. */
  predicate Before(x: Sleeper, y: Sleeper) {
    x.localTick < y.localTick || (x.localTick == y.localTick && x.num < y.num)
  }

  ghost predicate Ordered(s: seq<Sleeper>) {
    forall i, j | 0 <= i < j < |s| :: Before(s[i], s[j])
  }

  ghost predicate Timely(s: State) {
    forall x | x in s.sleepers ::
      x.since <= s.ticks < WakeTick(x) && x.num < |s.slept| && x.localTick <= INT64_MAX
  }

  ghost predicate WasWoken(w: seq<Wake>, x: Sleeper) {
    exists i | 0 <= i < |w| :: w[i].who == x
  }

  ghost predicate WokenInTime(w: seq<Wake>, now: int) {
    forall i | 0 <= i < |w| :: w[i].at == WakeTick(w[i].who) <= now
  }

  ghost predicate WokenInOrder(w: seq<Wake>) {
    forall i, j | 0 <= i < j < |w| :: w[i].at < w[j].at || (w[i].at == w[j].at && Before(w[i].who, w[j].who))
  }

  /** Everyone who went to sleep is asleep or was woken, and nobody else is. */
  ghost predicate Conserved(s: State) {
    && (forall x | x in s.slept :: x in s.sleepers || WasWoken(s.woken, x))
    && (forall x | x in s.sleepers :: x in s.slept)
    && (forall i | 0 <= i < |s.woken| :: s.woken[i].who in s.slept)
  }

  ghost predicate Inv(s: State) {
    && Ordered(s.sleepers) && s.globalTick == Least(s.sleepers) && Timely(s)
    && WokenInTime(s.woken, s.ticks) && WokenInOrder(s.woken) && Conserved(s)
  }

  // -- falling asleep --

  lemma OrderedWith(p: seq<Sleeper>, x: Sleeper, q: seq<Sleeper>)
    requires Ordered(p) && Ordered(q)
    requires forall i, j | 0 <= i < |p| && 0 <= j < |q| :: Before(p[i], q[j])
    requires (forall i | 0 <= i < |p| :: Before(p[i], x)) && (forall j | 0 <= j < |q| :: Before(x, q[j]))
    ensures Ordered(p + [x] + q)
  {
  }

  lemma BeforeOrAfter(s: seq<Sleeper>, x: Sleeper, k: nat, i: nat)
    requires Ordered(s) && i < |s| && s[i].num < x.num && k <= |s|
    requires i < k ==> !Earlier()(x, s[i])
    requires k < |s| ==> Earlier()(x, s[k])
    ensures if i < k then Before(s[i], x) else Before(x, s[i])
  {
    if i > k {
      assert Before(s[k], s[i]);
    }
  }

  lemma InsertOrderedFifo(s: seq<Sleeper>, x: Sleeper)
    requires Ordered(s) && forall i | 0 <= i < |s| :: s[i].num < x.num
    ensures Ordered(InsertOrdered(Earlier(), s, x))
  {
    var k := InsertionPoint(Earlier(), s, x);
    InsertOrderedAt(Earlier(), s, x, k);
    var p, q := s[..k], s[k..];
    forall i: nat | i < |p| ensures Before(p[i], x) {
      BeforeOrAfter(s, x, k, i);
    }
    forall j: nat | j < |q| ensures Before(x, q[j]) {
      BeforeOrAfter(s, x, k, k + j);
    }
    OrderedWith(p, x, q);
  }

  lemma {:induction false} InsertionKeeps(s: seq<Sleeper>, x: Sleeper)
    ensures forall y :: y in InsertOrdered(Earlier(), s, x) <==> y == x || y in s
  {
    if s != [] {
      InsertionKeeps(s[1..], x);
    }
  }

  lemma {:induction false} LeastInserted(s: seq<Sleeper>, x: Sleeper)
    requires x.localTick <= INT64_MAX
    ensures Least(InsertOrdered(Earlier(), s, x)) == if x.localTick < Least(s) then x.localTick else Least(s)
  {
    if s != [] && !Earlier()(x, s[0]) {
      LeastInserted(s[1..], x);
    }
  }

  lemma SleptTimely(s: State, tid: nat, local: int)
    requires Ordered(s.sleepers) && Timely(s) && local <= INT64_MAX
    ensures Timely(Slept(s, tid, local)) && Ordered(Slept(s, tid, local).sleepers)
  {
    var me := Sleeper(tid, local, s.ticks, |s.slept|);
    assert forall i | 0 <= i < |s.sleepers| :: s.sleepers[i] in s.sleepers;
    InsertOrderedFifo(s.sleepers, me);
    InsertionKeeps(s.sleepers, me);
  }

  lemma SleptConserves(s: State, tid: nat, local: int)
    requires Conserved(s)
    ensures Conserved(Slept(s, tid, local))
  {
    InsertionKeeps(s.sleepers, Sleeper(tid, local, s.ticks, |s.slept|));
  }

  lemma SleptKeeps(s: State, tid: nat, local: int)
    requires Inv(s) && local <= INT64_MAX
    ensures Inv(Slept(s, tid, local))
  {
    SleptTimely(s, tid, local);
    SleptConserves(s, tid, local);
    LeastInserted(s.sleepers, Sleeper(tid, local, s.ticks, |s.slept|));
  }

  // -- waking up --

  lemma {:induction false} AfterOrdered(s: seq<Sleeper>, tick: int)
    requires Ordered(s)
    ensures Ordered(After(s, tick))
    ensures forall x :: x in After(s, tick) <==> x in s && x.localTick > tick
  {
    if s != [] {
      AfterOrdered(s[1..], tick);
      assert Ordered(s[1..]);
    }
  }

  lemma {:induction false} WokenOrdered(s: seq<Sleeper>, tick: int)
    requires Ordered(s)
    ensures WokenInOrder(WokenAt(s, tick))
    ensures forall w | w in WokenAt(s, tick) :: w.at == tick && w.who in s && w.who.localTick <= tick
  {
    if s != [] {
      WokenOrdered(s[1..], tick);
      forall x | x in s[1..] ensures Before(s[0], x) {
      }
    }
  }

  lemma {:induction false} Parted(s: seq<Sleeper>, tick: int, x: Sleeper)
    requires x in s
    ensures x in After(s, tick) || WasWoken(WokenAt(s, tick), x)
  {
    var w := WokenAt(s[1..], tick);
    if x != s[0] {
      Parted(s[1..], tick, x);
      if WasWoken(w, x) {
        var i :| 0 <= i < |w| && w[i].who == x;
        assert WokenAt(s, tick)[if s[0].localTick <= tick then i + 1 else i] == w[i];
      }
    } else if x.localTick <= tick {
      assert WokenAt(s, tick)[0].who == x;
    }
  }

  lemma MoreWoken(v: seq<Wake>, w: seq<Wake>, now: int)
    requires WokenInTime(v, now - 1) && WokenInOrder(v) && WokenInOrder(w)
    requires forall i | 0 <= i < |w| :: w[i].at == now == WakeTick(w[i].who)
    ensures WokenInTime(v + w, now) && WokenInOrder(v + w)
  {
  }

  lemma DueNow(s: State, i: nat)
    requires Ordered(s.sleepers) && Timely(s) && i < |WokenAt(s.sleepers, s.ticks + 1)|
    ensures var w := WokenAt(s.sleepers, s.ticks + 1)[i]; w.at == s.ticks + 1 == WakeTick(w.who)
  {
    WokenOrdered(s.sleepers, s.ticks + 1);
    assert WokenAt(s.sleepers, s.ticks + 1)[i] in WokenAt(s.sleepers, s.ticks + 1);
  }

  lemma TickedConserves(s: State)
    requires Ordered(s.sleepers) && Conserved(s)
    ensures Conserved(Ticked(s))
  {
    AfterOrdered(s.sleepers, s.ticks + 1);
    WokenOrdered(s.sleepers, s.ticks + 1);
    forall x | x in s.slept ensures x in Ticked(s).sleepers || WasWoken(Ticked(s).woken, x) {
      StillKnown(s, x);
    }
    var due := WokenAt(s.sleepers, s.ticks + 1);
    forall i | 0 <= i < |due| ensures due[i].who in s.sleepers {
      assert due[i] in due;
    }
  }

  lemma StillKnown(s: State, x: Sleeper)
    requires x in s.sleepers || WasWoken(s.woken, x)
    ensures x in Ticked(s).sleepers || WasWoken(Ticked(s).woken, x)
  {
    var due := WokenAt(s.sleepers, s.ticks + 1);
    if x in s.sleepers {
      Parted(s.sleepers, s.ticks + 1, x);
      if WasWoken(due, x) {
        var i :| 0 <= i < |due| && due[i].who == x;
        assert (s.woken + due)[|s.woken| + i].who == x;
      }
    } else {
      var i :| 0 <= i < |s.woken| && s.woken[i].who == x;
      assert (s.woken + due)[i].who == x;
    }
  }

  lemma TickedWoken(s: State)
    requires Ordered(s.sleepers) && Timely(s) && WokenInTime(s.woken, s.ticks) && WokenInOrder(s.woken)
    ensures WokenInTime(Ticked(s).woken, s.ticks + 1) && WokenInOrder(Ticked(s).woken)
  {
    var due := WokenAt(s.sleepers, s.ticks + 1);
    WokenOrdered(s.sleepers, s.ticks + 1);
    forall i: nat | i < |due| ensures due[i].at == s.ticks + 1 == WakeTick(due[i].who) {
      DueNow(s, i);
    }
    MoreWoken(s.woken, due, s.ticks + 1);
  }

  lemma TickedTimely(s: State)
    requires Ordered(s.sleepers) && Timely(s)
    ensures Timely(Ticked(s)) && Ordered(Ticked(s).sleepers)
  {
    AfterOrdered(s.sleepers, s.ticks + 1);
  }

  lemma TickedKeeps(s: State)
    requires Inv(s)
    ensures Inv(Ticked(s))
  {
    TickedConserves(s);
    TickedWoken(s);
    TickedTimely(s);
  }

  lemma StepKeeps(s: State, e: Event)
    requires Inv(s) && Enabled(s, e)
    ensures Inv(Step(s, e))
  {
    if e.Interrupt? {
      TickedKeeps(s);
    } else if e.seen - e.start < e.n {
      SleptKeeps(s, e.tid, e.n + e.start);
    }
  }

  ghost predicate Run(s: State, r: seq<Event>, s': State)
    decreases r
  {
    if r == [] then s == s' else Enabled(s, r[0]) && Run(Step(s, r[0]), r[1..], s')
  }

  lemma {:induction false} RunKeeps(s: State, r: seq<Event>, s': State)
    requires Inv(s) && Run(s, r, s')
    ensures Inv(s')
    decreases r
  {
    if r != [] {
      StepKeeps(s, r[0]);
      RunKeeps(Step(s, r[0]), r[1..], s');
    }
  }

  /** In every run: the list is sorted and first come first served among equal ticks, global_tick is the
      least local tick, no sleeper has passed its wake-up tick, every woken one was woken at exactly that
      tick, and everyone who went to sleep either sleeps or was woken, not both. */
  lemma SleepSafe(r: seq<Event>, s: State)
    requires Run(Initial(), r, s)
    ensures Sorted(Earlier(), s.sleepers) && Ordered(s.sleepers)
    ensures s.globalTick == if s.sleepers == [] then INT64_MAX else s.sleepers[0].localTick
    ensures forall x | x in s.sleepers :: s.ticks < WakeTick(x)
    ensures forall w | w in s.woken :: w.at == WakeTick(w.who) && w.at >= w.who.localTick && w.at > w.who.since
    ensures WokenInOrder(s.woken)
    ensures forall x | x in s.slept :: x in s.sleepers <==> !WasWoken(s.woken, x)
  {
    RunKeeps(Initial(), r, s);
    LeastIsFirst(s.sleepers);
  }

  lemma {:induction false} SleptStays(s: State, r: seq<Event>, s': State, x: Sleeper)
    requires Run(s, r, s') && x in s.slept
    ensures x in s'.slept
    decreases r
  {
    if r != [] {
      SleptStays(Step(s, r[0]), r[1..], s', x);
    }
  }

  lemma {:induction false} RunConcat(s: State, r: seq<Event>, s': State, q: seq<Event>, s'': State)
    requires Run(s, r, s') && Run(s', q, s'')
    ensures Run(s, r + q, s'')
    decreases r
  {
    if r == [] {
      assert r + q == q;
    } else {
      RunConcat(Step(s, r[0]), r[1..], s', q, s'');
      assert (r + q)[1..] == r[1..] + q;
    }
  }

  /** A timer_sleep (n) that sees the clock n ticks or more after its first reading does not sleep. */
  lemma NeedNotSleep(s: State, e: Event)
    requires e.Call? && e.seen - e.start >= e.n
    ensures Step(s, e) == s
  {
  }

  /** timer_sleep (n) called at any point of any run: while the clock has not reached both n ticks after its first
      reading and the first tick after it fell asleep, the caller sleeps; from that very tick on it has been woken,
      once. */
  lemma SleepsExactly(r: seq<Event>, s: State, e: Event, r': seq<Event>, s': State)
    requires Run(Initial(), r, s) && e.Call? && Enabled(s, e) && e.seen - e.start < e.n && Run(Step(s, e), r', s')
    ensures var x := Sleeper(e.tid, e.start + e.n, s.ticks, |s.slept|);
            && e.start + e.n <= WakeTick(x) && s.ticks < WakeTick(x)
            && (WakeTick(x) == e.start + e.n || WakeTick(x) == s.ticks + 1)
            && (s'.ticks < WakeTick(x) ==> x in s'.sleepers && !WasWoken(s'.woken, x))
            && (s'.ticks >= WakeTick(x) ==> x !in s'.sleepers && Wake(x, WakeTick(x)) in s'.woken)
  {
    var x := Sleeper(e.tid, e.start + e.n, s.ticks, |s.slept|);
    RunConcat(Initial(), r, s, [e], Step(s, e));
    RunConcat(Initial(), r + [e], Step(s, e), r', s');
    RunKeeps(Initial(), r + [e] + r', s');
    assert x in Step(s, e).slept;
    SleptStays(Step(s, e), r', s', x);
    if x !in s'.sleepers {
      var i :| 0 <= i < |s'.woken| && s'.woken[i].who == x;
      assert s'.woken[i] == Wake(x, WakeTick(x));
    }
  }
}
