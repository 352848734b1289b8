/** Semaphores and locks as step protocols (threads/synch.c).  A step is one region with interrupts off;
    any number of threads take steps in any order, and priorities change at any time. */
module SemaphoreProtocol {
  import opened Options
  import opened Ordering
  import opened Sets

  // ---------- the semaphore itself ----------

  datatype Sema<T> = Sema(value: nat, waiters: seq<T>)

  /** compare_thread_priority_desc under the current priorities. */
  function Higher<T>(prio: T -> int): (T, T) -> bool {
    (x, y) => prio(x) > prio(y)
  }

  /** One turn of the loop of sema_down: wait in priority order, or take one. */
  function Test<T>(s: Sema<T>, t: T, prio: T -> int): Sema<T> {
    if s.value == 0 then s.(waiters := InsertOrdered(Higher(prio), s.waiters, t))
    else s.(value := s.value - 1)
  }

  function TryDown<T>(s: Sema<T>): Sema<T> {
    if s.value > 0 then s.(value := s.value - 1) else s
  }

  /** sema_up: sort the waiters by current priority, let the first go, count one up. */
  function Up<T>(s: Sema<T>, prio: T -> int): Sema<T> {
    var sorted := InsertAll(Higher(prio), s.waiters);
    Sema(s.value + 1, if |sorted| == 0 then [] else sorted[1..])
  }

  /** The thread that sema_up unblocks. */
  function Chosen<T>(s: Sema<T>, prio: T -> int): T
    requires s.waiters != []
  {
    SortKeepsAll(s.waiters, prio);
    InsertAll(Higher(prio), s.waiters)[0]
  }

  lemma HigherIsStrictWeak<T>(s: seq<T>, prio: T -> int)
    ensures StrictWeak(Higher(prio), s)
  {
  }

  lemma SortKeepsAll<T>(s: seq<T>, prio: T -> int)
    ensures multiset(InsertAll(Higher(prio), s)) == multiset(s)
    ensures |InsertAll(Higher(prio), s)| == |s|
  {
    HigherIsStrictWeak(s, prio);
    InsertAllSorts(Higher(prio), s);
    assert |multiset(InsertAll(Higher(prio), s))| == |multiset(s)|;
  }

  /** The first element of the class of `x` is the first element of `s` equivalent to `x`. */
  lemma {:induction false} ClassFirst<T>(less: (T, T) -> bool, x: T, s: seq<T>) returns (i: nat)
    requires Class(less, x, s) != []
    ensures i < |s| && s[i] == Class(less, x, s)[0] && Equiv(less, x, s[i])
    ensures forall j | 0 <= j < i :: !Equiv(less, x, s[j])
  {
    if Equiv(less, x, s[0]) {
      i := 0;
    } else {
      var k := ClassFirst(less, x, s[1..]);
      i := k + 1;
    }
  }

  /** sema_up wakes a waiter of maximal current priority, the foremost one of that priority, and keeps
      every other waiter. */
  lemma UpWakesHighest<T>(s: Sema<T>, prio: T -> int) returns (i: nat)
    requires s.waiters != []
    ensures i < |s.waiters| && s.waiters[i] == Chosen(s, prio)
    ensures forall j | 0 <= j < |s.waiters| :: prio(s.waiters[j]) <= prio(Chosen(s, prio))
    ensures forall j | 0 <= j < i :: prio(s.waiters[j]) < prio(Chosen(s, prio))
    ensures multiset(Up(s, prio).waiters) + multiset{Chosen(s, prio)} == multiset(s.waiters)
    ensures Sorted(Higher(prio), Up(s, prio).waiters)
  {
    var less := Higher(prio);
    HigherIsStrictWeak(s.waiters, prio);
    InsertAllSorts(less, s.waiters);
    i := FrontOfSorted(s.waiters, prio, InsertAll(less, s.waiters));
  }

  lemma FrontOfSorted<T>(s: seq<T>, prio: T -> int, sorted: seq<T>) returns (i: nat)
    requires s != [] && Sorted(Higher(prio), sorted) && Stable(Higher(prio), s, sorted)
    ensures |sorted| > 0 && i < |s| && s[i] == sorted[0]
    ensures forall j | 0 <= j < |s| :: prio(s[j]) <= prio(sorted[0])
    ensures forall j | 0 <= j < i :: prio(s[j]) < prio(sorted[0])
    ensures multiset(sorted[1..]) + multiset{sorted[0]} == multiset(s)
  {
    FrontIsHighest(s, prio, sorted);
    var w := sorted[0];
    assert sorted == [w] + sorted[1..];
    assert w in multiset(sorted);
    assert Class(Higher(prio), w, sorted)[0] == w;
    i := ClassFirst(Higher(prio), w, s);
    forall j | 0 <= j < i ensures prio(s[j]) < prio(w) {
      assert !Equiv(Higher(prio), w, s[j]) && s[j] in s;
    }
  }

  lemma FrontIsHighest<T>(s: seq<T>, prio: T -> int, sorted: seq<T>)
    requires s != [] && Sorted(Higher(prio), sorted) && multiset(s) == multiset(sorted)
    ensures |sorted| > 0 && sorted[0] in s && forall x | x in s :: prio(x) <= prio(sorted[0])
  {
    assert s[0] in multiset(s) && s[0] in multiset(sorted);
    assert sorted[0] in multiset(sorted);
    forall x | x in s ensures prio(x) <= prio(sorted[0]) {
      assert x in multiset(s) && x in multiset(sorted);
      var k :| 0 <= k < |sorted| && sorted[k] == x;
    }
  }

  // ---------- all the threads that use it ----------

  /** `entering` have called sema_down and not yet looked at the value; `woken` have been unblocked and
      not yet looked again.  `ups` and `downs` count completed operations. */
  datatype System<!T> =
    System(sema: Sema<T>, entering: set<T>, woken: set<T>, prio: T -> int, ups: nat, downs: nat)

  datatype Event<T> = CallDown(t: T) | Look(t: T) | LookOnce | CallUp | SetPriority(t: T, p: int)

  function Initial<T>(value: nat, prio: T -> int): System<T> {
    System(Sema(value, []), {}, {}, prio, 0, 0)
  }

  predicate Busy<T(==)>(s: System<T>, t: T) {
    t in s.entering || t in s.woken || t in s.sema.waiters
  }

  predicate Enabled<T(==)>(s: System<T>, e: Event<T>) {
    match e
    case CallDown(t) => !Busy(s, t)
    case Look(t) => t in s.entering || t in s.woken
    case _ => true
  }

  function Step<T(==)>(s: System<T>, e: Event<T>): System<T>
    requires Enabled(s, e)
  {
    match e
    case CallDown(t) => s.(entering := s.entering + {t})
    case Look(t) =>
      s.(sema := Test(s.sema, t, s.prio), entering := s.entering - {t}, woken := s.woken - {t},
         downs := if s.sema.value == 0 then s.downs else s.downs + 1)
    case LookOnce =>
      s.(sema := TryDown(s.sema), downs := if s.sema.value == 0 then s.downs else s.downs + 1)
    case CallUp =>
      s.(sema := Up(s.sema, s.prio), ups := s.ups + 1,
         woken := if s.sema.waiters == [] then s.woken else s.woken + {Chosen(s.sema, s.prio)})
    case SetPriority(t, p) => s.(prio := x => if x == t then p else s.prio(x))
  }

  /** A thread waits at most once, and is at one point of sema_down only. */
  ghost predicate Placed<T>(s: System<T>) {
    && (forall t | t in s.sema.waiters :: multiset(s.sema.waiters)[t] == 1)
    && s.entering !! s.woken
    && (forall t | t in s.sema.waiters :: t !in s.entering && t !in s.woken)
  }

  /** Conservation: the value is the initial value plus ups minus completed downs. */
  ghost predicate Counted<T>(s: System<T>, init: nat) {
    s.sema.value + s.downs == init + s.ups
  }

  /** No lost wakeup: while threads wait, the value is covered by threads on their way to look again. */
  ghost predicate Covered<T>(s: System<T>) {
    s.sema.waiters != [] ==> s.sema.value <= |s.woken|
  }

  ghost predicate Inv<T>(s: System<T>, init: nat) {
    Placed(s) && Counted(s, init) && Covered(s)
  }

  lemma LookPlaced<T>(s: System<T>, t: T)
    requires Placed(s) && Enabled(s, Look(t))
    ensures Placed(Step(s, Look(t)))
  {
    if s.sema.value == 0 {
      var less := Higher(s.prio);
      InsertionKeeps(s.sema.waiters, t, less);
      var s' := Step(s, Look(t));
      assert forall x | x in s'.sema.waiters :: x in multiset(s'.sema.waiters);
      assert t !in multiset(s.sema.waiters);
    }
  }

  lemma {:induction false} InsertionKeeps<T>(s: seq<T>, t: T, less: (T, T) -> bool)
    ensures multiset(InsertOrdered(less, s, t)) == multiset(s) + multiset{t}
  {
    if s != [] {
      assert s == [s[0]] + s[1..];
      InsertionKeeps(s[1..], t, less);
    }
  }

  lemma UpPlaced<T>(s: System<T>)
    requires Placed(s)
    ensures Placed(Step(s, CallUp))
    ensures s.sema.waiters != [] ==> Chosen(s.sema, s.prio) !in s.woken
  {
    if s.sema.waiters != [] {
      var i := UpWakesHighest(s.sema, s.prio);
      var w, rest := Chosen(s.sema, s.prio), Up(s.sema, s.prio).waiters;
      assert w in s.sema.waiters && multiset(rest)[w] == 0;
      forall x | x in rest ensures x in s.sema.waiters && x != w {
        assert x in multiset(rest) && x in multiset(s.sema.waiters);
      }
    } else {
      SortKeepsAll(s.sema.waiters, s.prio);
    }
  }

  lemma StepKeepsPlaced<T>(s: System<T>, e: Event<T>)
    requires Placed(s) && Enabled(s, e)
    ensures Placed(Step(s, e))
  {
    match e
    case Look(t) => LookPlaced(s, t);
    case CallUp => UpPlaced(s);
    case _ =>
  }

  lemma StepKeepsCovered<T>(s: System<T>, e: Event<T>)
    requires Placed(s) && Covered(s) && Enabled(s, e)
    ensures Covered(Step(s, e))
  {
    match e
    case CallUp => UpPlaced(s); SortKeepsAll(s.sema.waiters, s.prio);
    case _ =>
  }

  lemma StepKeeps<T>(s: System<T>, e: Event<T>, init: nat)
    requires Inv(s, init) && Enabled(s, e)
    ensures Inv(Step(s, e), init)
  {
    StepKeepsPlaced(s, e);
    StepKeepsCovered(s, e);
  }

  /** `r` is a run from `s` to `s'` through enabled steps. */
  ghost predicate Run<T>(s: System<T>, r: seq<Event<T>>, s': System<T>)
    decreases r
  {
    if r == [] then s == s'
    else Enabled(s, r[0]) && Run(Step(s, r[0]), r[1..], s')
  }

  lemma {:induction false} RunKeeps<T>(s: System<T>, r: seq<Event<T>>, s': System<T>, init: nat)
    requires Inv(s, init) && Run(s, r, s')
    ensures Inv(s', init)
    decreases r
  {
    if r != [] {
      StepKeeps(s, r[0], init);
      RunKeeps(Step(s, r[0]), r[1..], s', init);
    }
  }

  /** In every state of every run, the value is the initial value plus ups minus downs, and a positive
      value with threads waiting means that a woken thread has still to look. */
  lemma SemaphoreSafe<T>(init: nat, prio: T -> int, r: seq<Event<T>>, s: System<T>)
    requires Run(Initial(init, prio), r, s)
    ensures s.sema.value == init + s.ups - s.downs
    ensures s.sema.waiters != [] ==> s.sema.value <= |s.woken|
    ensures s.sema.waiters != [] && s.sema.value > 0 ==> exists t | t in s.woken :: Enabled(s, Look(t))
  {
    RunKeeps(Initial(init, prio), r, s, init);
    if s.sema.waiters != [] && s.sema.value > 0 {
      assert s.woken != {};
      var t :| t in s.woken;
      assert Enabled(s, Look(t));
    }
  }

  // ---------- locks ----------

  /** Where a thread is between sema_down and sema_up of a lock: not yet recorded as the holder, the
      holder, or no longer the holder. */
  datatype Stage = Granted | Holding | Releasing

  datatype Lock<!T> = Lock(sys: System<T>, holder: Option<T>, inside: map<T, Stage>)

  /** `LookAgain` is a turn of the loop of sema_down within lock_acquire; `TryAcquire` the sema_try_down of
      lock_try_acquire; the holder is set after, and cleared before, the semaphore operation. */
  datatype LockEvent<T> =
    | Acquire(t: T) | LookAgain(t: T) | TryAcquire(t: T) | SetHolder(t: T) | ClearHolder(t: T) | Release(t: T)
    | Reprioritize(t: T, p: int)

  function NewLock<T>(prio: T -> int): Lock<T> {
    Lock(Initial(1, prio), None, map[])
  }

  predicate LockEnabled<T(==)>(l: Lock<T>, e: LockEvent<T>) {
    match e
    case Acquire(t) => t !in l.inside && Enabled(l.sys, CallDown(t))
    case LookAgain(t) => Enabled(l.sys, Look(t))
    case TryAcquire(t) => t !in l.inside && !Busy(l.sys, t)
    case SetHolder(t) => t in l.inside && l.inside[t] == Granted
    case ClearHolder(t) => l.holder == Some(t)
    case Release(t) => t in l.inside && l.inside[t] == Releasing
    case Reprioritize(_, _) => true
  }

  function LockStep<T(==)>(l: Lock<T>, e: LockEvent<T>): Lock<T>
    requires LockEnabled(l, e)
  {
    match e
    case Acquire(t) => l.(sys := Step(l.sys, CallDown(t)))
    case LookAgain(t) =>
      l.(sys := Step(l.sys, Look(t)), inside := if l.sys.sema.value == 0 then l.inside else l.inside[t := Granted])
    case TryAcquire(t) =>
      l.(sys := Step(l.sys, LookOnce), inside := if l.sys.sema.value == 0 then l.inside else l.inside[t := Granted])
    case SetHolder(t) => l.(holder := Some(t), inside := l.inside[t := Holding])
    case ClearHolder(t) => l.(holder := None, inside := l.inside[t := Releasing])
    case Release(t) => l.(sys := Step(l.sys, CallUp), inside := l.inside - {t})
    case Reprioritize(t, p) => l.(sys := Step(l.sys, SetPriority(t, p)))
  }

  /** The value and the threads between sema_down and sema_up always make one. */
  ghost predicate LockCounted<T>(l: Lock<T>) {
    l.sys.sema.value + |l.inside| == 1
  }

  /** The holder field names exactly the thread that is past lock_acquire and before lock_release. */
  ghost predicate HolderRight<T>(l: Lock<T>) {
    && (l.holder.Some? ==> l.holder.value in l.inside && l.inside[l.holder.value] == Holding)
    && (forall t | t in l.inside && l.inside[t] == Holding :: l.holder == Some(t))
  }

  ghost predicate InsidePlaced<T>(l: Lock<T>) {
    forall t | t in l.inside :: !Busy(l.sys, t)
  }

  ghost predicate LockInv<T>(l: Lock<T>) {
    Inv(l.sys, 1) && LockCounted(l) && HolderRight(l) && InsidePlaced(l)
  }

  lemma AtMostOne<T>(inside: map<T, Stage>, t: T, u: T)
    requires |inside| <= 1 && t in inside && u in inside
    ensures t == u
  {
    if t != u {
      assert {t, u} <= inside.Keys;
      SubsetSize({t, u}, inside.Keys);
    }
  }

  /** The part of a lock step that the semaphore sees. */
  function SemaEvent<T>(e: LockEvent<T>): Option<Event<T>> {
    match e
    case Acquire(t) => Some(CallDown(t))
    case LookAgain(t) => Some(Look(t))
    case TryAcquire(_) => Some(LookOnce)
    case Release(_) => Some(CallUp)
    case Reprioritize(t, p) => Some(SetPriority(t, p))
    case _ => None
  }

  lemma LockStepKeepsSema<T>(l: Lock<T>, e: LockEvent<T>)
    requires Inv(l.sys, 1) && LockEnabled(l, e)
    ensures Inv(LockStep(l, e).sys, 1)
  {
    if SemaEvent(e).Some? {
      StepKeeps(l.sys, SemaEvent(e).value, 1);
    }
  }

  lemma InsideSize<T>(inside: map<T, Stage>, t: T, stage: Stage)
    ensures |inside[t := stage]| == if t in inside then |inside| else |inside| + 1
    ensures t in inside ==> |inside - {t}| == |inside| - 1
  {
    assert inside[t := stage].Keys == inside.Keys + {t};
    assert (inside - {t}).Keys == inside.Keys - {t};
  }

  /** What one semaphore step adds to the value. */
  lemma StepValue<T>(s: System<T>, e: Event<T>)
    requires Enabled(s, e)
    ensures Step(s, e).sema.value - s.sema.value ==
            if e.CallUp? then 1 else if (e.Look? || e.LookOnce?) && s.sema.value > 0 then -1 else 0
  {
  }

  lemma LockStepKeepsCount<T>(l: Lock<T>, e: LockEvent<T>)
    requires LockCounted(l) && InsidePlaced(l) && LockEnabled(l, e)
    requires e.ClearHolder? ==> e.t in l.inside
    ensures LockCounted(LockStep(l, e))
  {
    if SemaEvent(e).Some? {
      StepValue(l.sys, SemaEvent(e).value);
      InsideSize(l.inside, e.t, Granted);
    } else {
      InsideSize(l.inside, e.t, if e.SetHolder? then Holding else Releasing);
    }
  }

  lemma LockStepKeepsHolder<T>(l: Lock<T>, e: LockEvent<T>)
    requires LockInv(l) && LockEnabled(l, e)
    ensures HolderRight(LockStep(l, e))
  {
    if e.SetHolder? || e.ClearHolder? {
      forall u | u in l.inside ensures u == e.t {
        AtMostOne(l.inside, u, e.t);
      }
    }
  }

  lemma LockStepKeepsPlaced<T>(l: Lock<T>, e: LockEvent<T>)
    requires LockInv(l) && LockEnabled(l, e)
    ensures InsidePlaced(LockStep(l, e))
  {
    if e.LookAgain? && l.sys.sema.value == 0 {
      InsertionKeeps(l.sys.sema.waiters, e.t, Higher(l.sys.prio));
      forall u | u in Step(l.sys, Look(e.t)).sema.waiters ensures u == e.t || u in l.sys.sema.waiters {
        assert u in multiset(l.sys.sema.waiters) + multiset{e.t};
      }
    }
    if e.Release? {
      ReleaseBusy(l.sys);
    }
  }

  /** Nobody becomes busy by an up. */
  lemma ReleaseBusy<T>(s: System<T>)
    ensures forall t | Busy(Step(s, CallUp), t) :: Busy(s, t)
  {
    SortKeepsAll(s.sema.waiters, s.prio);
    var sorted := InsertAll(Higher(s.prio), s.sema.waiters);
    forall t | t in sorted ensures t in s.sema.waiters {
      assert t in multiset(sorted) && t in multiset(s.sema.waiters);
    }
  }

  lemma LockStepKeeps<T>(l: Lock<T>, e: LockEvent<T>)
    requires LockInv(l) && LockEnabled(l, e)
    ensures LockInv(LockStep(l, e))
  {
    LockStepKeepsSema(l, e);
    LockStepKeepsCount(l, e);
    LockStepKeepsHolder(l, e);
    LockStepKeepsPlaced(l, e);
  }

  ghost predicate LockRun<T>(l: Lock<T>, r: seq<LockEvent<T>>, l': Lock<T>)
    decreases r
  {
    if r == [] then l == l'
    else LockEnabled(l, r[0]) && LockRun(LockStep(l, r[0]), r[1..], l')
  }

  lemma {:induction false} LockRunKeeps<T>(l: Lock<T>, r: seq<LockEvent<T>>, l': Lock<T>)
    requires LockInv(l) && LockRun(l, r, l')
    ensures LockInv(l')
    decreases r
  {
    if r != [] {
      LockStepKeeps(l, r[0]);
      LockRunKeeps(LockStep(l, r[0]), r[1..], l');
    }
  }

  /** lock_try_acquire lets the caller in exactly if nobody is between sema_down and sema_up; otherwise nothing
      happens. */
  lemma TryAcquireEnters<T>(prio: T -> int, r: seq<LockEvent<T>>, l: Lock<T>, t: T)
    requires LockRun(NewLock(prio), r, l) && LockEnabled(l, TryAcquire(t))
    ensures l.inside == map[] <==> l.sys.sema.value == 1
    ensures var l' := LockStep(l, TryAcquire(t));
            if l.inside == map[] then l'.inside == map[t := Granted] && l'.sys.sema.value == 0 else l' == l
  {
    LockRunKeeps(NewLock(prio), r, l);
  }

  /** A turn of the loop within lock_acquire lets the caller in exactly if nobody is; otherwise it waits. */
  lemma AcquireEnters<T>(prio: T -> int, r: seq<LockEvent<T>>, l: Lock<T>, t: T)
    requires LockRun(NewLock(prio), r, l) && LockEnabled(l, LookAgain(t))
    ensures var l' := LockStep(l, LookAgain(t));
            if l.inside == map[] then l'.inside == map[t := Granted] && l'.sys.sema.waiters == l.sys.sema.waiters
            else l'.inside == l.inside && multiset(l'.sys.sema.waiters) == multiset(l.sys.sema.waiters) + multiset{t}
  {
    LockRunKeeps(NewLock(prio), r, l);
    InsertionKeeps(l.sys.sema.waiters, t, Higher(l.sys.prio));
  }

  /** In every state of every run of a lock: the value plus the threads between sema_down and sema_up is
      one; two threads are never both inside; the holder field names the thread that holds the lock; and
      when nobody is inside while threads wait, a woken thread is on its way. */
  lemma LockSafe<T>(prio: T -> int, r: seq<LockEvent<T>>, l: Lock<T>)
    requires LockRun(NewLock(prio), r, l)
    ensures l.sys.sema.value + |l.inside| == 1
    ensures forall t, u | t in l.inside && u in l.inside :: t == u
    ensures forall t | t in l.inside :: l.inside[t] == Holding <==> l.holder == Some(t)
    ensures l.inside == map[] && l.sys.sema.waiters != [] ==> l.sys.woken != {}
  {
    LockRunKeeps(NewLock(prio), r, l);
    forall t, u | t in l.inside && u in l.inside ensures t == u {
      AtMostOne(l.inside, t, u);
    }
  }
}
