/** In which order waiting threads are unblocked (threads/synch.c): where sema_down puts a thread, and which of two
    threads of the same priority goes first. */
module SemaphoreOrder {
  import opened Ordering
  import opened SemaphoreProtocol

  /** Thread `a` stands before thread `b`. */
  ghost predicate Before<T>(w: seq<T>, a: T, b: T) {
    exists i, j | 0 <= i < j < |w| :: w[i] == a && w[j] == b
  }

  // ---------- where sema_down puts a thread ----------

  /** A thread that blocks stands behind those in front that have at least its priority, up to the first that has less;
      the others keep their places.  A thread that does not block takes one from the value. */
  lemma LookQueues<T>(s: Sema<T>, t: T, prio: T -> int) returns (k: nat)
    ensures s.value > 0 ==> Test(s, t, prio) == Sema(s.value - 1, s.waiters)
    ensures s.value == 0 ==>
              && k <= |s.waiters| && Test(s, t, prio) == Sema(0, s.waiters[..k] + [t] + s.waiters[k..])
              && (forall i | 0 <= i < k :: prio(s.waiters[i]) >= prio(t))
              && (k < |s.waiters| ==> prio(s.waiters[k]) < prio(t))
  {
    k := InsertionPoint(Higher(prio), s.waiters, t);
    InsertOrderedAt(Higher(prio), s.waiters, t, k);
  }

  lemma BeforeInserted<T>(w: seq<T>, k: nat, t: T, a: T, b: T)
    requires k <= |w| && Before(w, a, b)
    ensures Before(w[..k] + [t] + w[k..], a, b)
  {
    var i, j :| 0 <= i < j < |w| && w[i] == a && w[j] == b;
    var w' := w[..k] + [t] + w[k..];
    var i', j' := if i < k then i else i + 1, if j < k then j else j + 1;
    assert w'[i'] == a && w'[j'] == b;
  }

  lemma TwoPlaces<T>(w: seq<T>, x: T, i: nat, j: nat)
    requires i < j < |w| && w[i] == x && w[j] == x
    ensures multiset(w)[x] >= 2
  {
    assert w == w[..i] + [x] + w[i + 1..j] + [x] + w[j + 1..];
  }

  lemma OnlyPlace<T>(w: seq<T>, x: T, i: nat, j: nat)
    requires i < |w| && j < |w| && w[i] == x && w[j] == x
    ensures i == j || multiset(w)[x] >= 2
  {
    if i < j {
      TwoPlaces(w, x, i, j);
    } else if j < i {
      TwoPlaces(w, x, j, i);
    }
  }

  lemma BeforeHas<T>(w: seq<T>, a: T, b: T)
    requires Before(w, a, b)
    ensures a in w && b in w
  {
  }

  /** A thread `b` that blocks stands behind a waiter of at least its priority exactly if nobody in front of that waiter
      has less priority than `b`. */
  lemma BlocksBehind<T>(s: System<T>, i: nat, b: T)
    requires Placed(s) && s.sema.value == 0 && Enabled(s, Look(b)) && i < |s.sema.waiters|
    requires s.prio(s.sema.waiters[i]) >= s.prio(b)
    ensures Before(Step(s, Look(b)).sema.waiters, s.sema.waiters[i], b) <==>
            forall j | 0 <= j < i :: s.prio(s.sema.waiters[j]) >= s.prio(b)
  {
    var w, a := s.sema.waiters, s.sema.waiters[i];
    var k := LookQueues(s.sema, b, s.prio);
    assert a in w && b !in w;
    InsertedBehind(w, k, b, i);
  }

  lemma InsertedBehind<T>(w: seq<T>, k: nat, b: T, i: nat)
    requires k <= |w| && b !in w && i < |w| && multiset(w)[w[i]] == 1
    ensures Before(w[..k] + [b] + w[k..], w[i], b) <==> i < k
  {
    var w', a := w[..k] + [b] + w[k..], w[i];
    if i < k {
      assert w'[i] == a && w'[k] == b;
    }
    forall x: nat, y: nat | x < y < |w'| && w'[x] == a && w'[y] == b ensures i < k {
      assert y == k;
      OnlyPlace(w, a, x, i);
    }
  }

  // ---------- sorting keeps the order of equals ----------

  lemma {:induction false} BeforeInClass<T>(less: (T, T) -> bool, x: T, s: seq<T>, a: T, b: T)
    requires Equiv(less, x, a) && Equiv(less, x, b)
    ensures Before(s, a, b) ==> Before(Class(less, x, s), a, b)
    ensures Before(Class(less, x, s), a, b) ==> Before(s, a, b)
  {
    if s != [] {
      var rest := Class(less, x, s[1..]);
      BeforeInClass(less, x, s[1..], a, b);
      InClass(less, x, s[1..], b);
      BeforeTail(s, a, b);
      if Equiv(less, x, s[0]) {
        var c := [s[0]] + rest;
        assert c[1..] == rest;
        BeforeTail(c, a, b);
      } else {
        assert [] + rest == rest;
      }
    }
  }

  lemma BeforeTail<T>(s: seq<T>, a: T, b: T)
    requires s != []
    ensures Before(s, a, b) <==> Before(s[1..], a, b) || (s[0] == a && b in s[1..])
  {
    if Before(s, a, b) {
      var i, j :| 0 <= i < j < |s| && s[i] == a && s[j] == b;
      assert s[1..][j - 1] == b;
      if i > 0 {
        assert s[1..][i - 1] == a;
      }
    }
    if Before(s[1..], a, b) {
      var i, j :| 0 <= i < j < |s[1..]| && s[1..][i] == a && s[1..][j] == b;
      assert s[i + 1] == a && s[j + 1] == b;
    }
    if s[0] == a && b in s[1..] {
      var j :| 0 <= j < |s[1..]| && s[1..][j] == b;
      assert s[j + 1] == b;
    }
  }

  lemma {:induction false} InClass<T>(less: (T, T) -> bool, x: T, s: seq<T>, b: T)
    requires Equiv(less, x, b)
    ensures b in s <==> b in Class(less, x, s)
  {
    if s != [] {
      InClass(less, x, s[1..], b);
      assert s == [s[0]] + s[1..];
    }
  }

  /** sema_up's sort keeps two threads of the same priority in order. */
  lemma SortKeepsBefore<T>(s: seq<T>, prio: T -> int, a: T, b: T)
    requires Before(s, a, b) && prio(a) == prio(b)
    ensures Before(InsertAll(Higher(prio), s), a, b)
  {
    var less := Higher(prio);
    HigherIsStrictWeak(s, prio);
    InsertAllSorts(less, s);
    BeforeInClass(less, a, s, a, b);
    BeforeInClass(less, a, InsertAll(less, s), a, b);
    assert a in s;
  }

  // ---------- over runs ----------

  lemma UpKeepsBefore<T>(s: System<T>, a: T, b: T)
    requires Placed(s) && Before(s.sema.waiters, a, b) && s.prio(a) == s.prio(b)
    ensures s.sema.waiters != []
    ensures var w := Step(s, CallUp).sema.waiters;
            if Chosen(s.sema, s.prio) == a then b in w && a in Step(s, CallUp).woken else Before(w, a, b)
  {
    var w := s.sema.waiters;
    SortKeepsAll(w, s.prio);
    SortKeepsBefore(w, s.prio, a, b);
    var sorted := InsertAll(Higher(s.prio), w);
    BeforeTail(sorted, a, b);
    if sorted[0] != a {
      assert Before(sorted[1..], a, b);
    } else if Before(sorted[1..], a, b) {
      var i, j :| 0 <= i < j < |sorted[1..]| && sorted[1..][i] == a && sorted[1..][j] == b;
      assert sorted[1..][j] in sorted[1..];
    }
  }

  predicate Reprioritizes<T(==)>(e: Event<T>, t: T) { e.SetPriority? && e.t == t }

  /** While both wait with the same priority, `a` stays before `b`, and only `a` can be unblocked. */
  lemma StepKeepsBefore<T>(s: System<T>, e: Event<T>, a: T, b: T)
    requires Placed(s) && Enabled(s, e) && Before(s.sema.waiters, a, b) && s.prio(a) == s.prio(b)
    requires !Reprioritizes(e, a) && !Reprioritizes(e, b)
    ensures Step(s, e).prio(a) == Step(s, e).prio(b) && b in Step(s, e).sema.waiters
    ensures if e.CallUp? && Chosen(s.sema, s.prio) == a then a in Step(s, e).woken
            else Before(Step(s, e).sema.waiters, a, b)
  {
    if e.CallUp? {
      UpKeepsBefore(s, a, b);
    } else if e.Look? {
      var k := LookQueues(s.sema, e.t, s.prio);
      if s.sema.value == 0 {
        BeforeInserted(s.sema.waiters, k, e.t, a, b);
      }
    }
  }

  /** `b` waits in every state of the run. */
  ghost predicate WaitsThrough<T>(s: System<T>, r: seq<Event<T>>, b: T)
    decreases r
  {
    b in s.sema.waiters && (r != [] ==> Enabled(s, r[0]) && WaitsThrough(Step(s, r[0]), r[1..], b))
  }

  /** Of two threads that wait with the same priority, which does not change, the one in front is unblocked first: if
      `b` does not wait any more, then there was a sema_up that unblocked `a`, and `b` waited all the time until then.
      */
  lemma {:induction false} FrontGoesFirst<T>(s: System<T>, r: seq<Event<T>>, s': System<T>, a: T, b: T)
    returns (k: nat, s1: System<T>)
    requires Placed(s) && Run(s, r, s') && Before(s.sema.waiters, a, b) && s.prio(a) == s.prio(b)
    requires forall e | e in r :: !Reprioritizes(e, a) && !Reprioritizes(e, b)
    requires b !in s'.sema.waiters
    ensures k < |r| && Run(s, r[..k], s1) && WaitsThrough(s, r[..k], b)
    ensures r[k].CallUp? && s1.sema.waiters != [] && Chosen(s1.sema, s1.prio) == a
    decreases r
  {
    hide Step, Before, Placed;
    BeforeHas(s.sema.waiters, a, b);
    assert r != [] && r[0] in r;
    StepKeepsBefore(s, r[0], a, b);
    if r[0].CallUp? && Chosen(s.sema, s.prio) == a {
      k, s1 := 0, s;
      assert r[..0] == [];
    } else {
      StepKeepsPlaced(s, r[0]);
      k, s1 := FrontGoesFirst(Step(s, r[0]), r[1..], s', a, b);
      assert r[..k + 1][1..] == r[1..][..k] && r[..k + 1][0] == r[0];
      k := k + 1;
    }
  }

  /** In every run: of two threads of the same priority, which does not change, the one that blocked first is unblocked
      first, if nobody in front of it had less priority when the other one blocked. */
  lemma FirstBlockedFirstUnblocked<T>(init: nat, prio: T -> int, r: seq<Event<T>>, s: System<T>, i: nat, b: T,
                                      r': seq<Event<T>>, s': System<T>)
    returns (k: nat, s1: System<T>)
    requires Run(Initial(init, prio), r, s) && s.sema.value == 0 && Enabled(s, Look(b)) && i < |s.sema.waiters|
    requires var a := s.sema.waiters[i];
             && s.prio(a) == s.prio(b) && (forall j | 0 <= j < i :: s.prio(s.sema.waiters[j]) >= s.prio(b))
             && (forall e | e in r' :: !Reprioritizes(e, a) && !Reprioritizes(e, b))
    requires Run(Step(s, Look(b)), r', s') && b !in s'.sema.waiters
    ensures k < |r'| && Run(Step(s, Look(b)), r'[..k], s1) && WaitsThrough(Step(s, Look(b)), r'[..k], b)
    ensures r'[k].CallUp? && s1.sema.waiters != [] && Chosen(s1.sema, s1.prio) == s.sema.waiters[i]
  {
    RunKeeps(Initial(init, prio), r, s, init);
    BlocksBehind(s, i, b);
    StepKeepsPlaced(s, Look(b));
    k, s1 := FrontGoesFirst(Step(s, Look(b)), r', s', s.sema.waiters[i], b);
  }

  /** And exactly then: if somebody in front of it had less priority, the one that blocked later is unblocked first. */
  lemma LaterBlockedFirstUnblocked<T>(init: nat, prio: T -> int, r: seq<Event<T>>, s: System<T>, i: nat, b: T,
                                      r': seq<Event<T>>, s': System<T>)
    returns (k: nat, s1: System<T>)
    requires Run(Initial(init, prio), r, s) && s.sema.value == 0 && Enabled(s, Look(b)) && i < |s.sema.waiters|
    requires var a := s.sema.waiters[i];
             && s.prio(a) == s.prio(b) && (exists j | 0 <= j < i :: s.prio(s.sema.waiters[j]) < s.prio(b))
             && (forall e | e in r' :: !Reprioritizes(e, a) && !Reprioritizes(e, b))
             && Run(Step(s, Look(b)), r', s') && a !in s'.sema.waiters
    ensures k < |r'| && Run(Step(s, Look(b)), r'[..k], s1) && WaitsThrough(Step(s, Look(b)), r'[..k], s.sema.waiters[i])
    ensures r'[k].CallUp? && s1.sema.waiters != [] && Chosen(s1.sema, s1.prio) == b
  {
    RunKeeps(Initial(init, prio), r, s, init);
    var a := s.sema.waiters[i];
    var at := LookQueues(s.sema, b, s.prio);
    var w := s.sema.waiters[..at] + [b] + s.sema.waiters[at..];
    assert at <= i && w[at] == b && w[i + 1] == a;
    assert Before(Step(s, Look(b)).sema.waiters, b, a);
    StepKeepsPlaced(s, Look(b));
    k, s1 := FrontGoesFirst(Step(s, Look(b)), r', s', b, a);
  }

  /** As long as no priority changes the waiters are in order of priority, so that the condition holds. */
  lemma {:induction false} StaysSorted<T>(s: System<T>, r: seq<Event<T>>, s': System<T>)
    requires Run(s, r, s') && Sorted(Higher(s.prio), s.sema.waiters) && forall e | e in r :: !e.SetPriority?
    ensures s'.prio == s.prio && Sorted(Higher(s'.prio), s'.sema.waiters)
    ensures forall i, j | 0 <= j < i < |s'.sema.waiters| ::
              s'.prio(s'.sema.waiters[j]) >= s'.prio(s'.sema.waiters[i])
    decreases r
  {
    if r != [] {
      assert r[0] in r;
      StepSorted(s, r[0]);
      StaysSorted(Step(s, r[0]), r[1..], s');
    }
  }

  lemma StepSorted<T>(s: System<T>, e: Event<T>)
    requires Enabled(s, e) && !e.SetPriority? && Sorted(Higher(s.prio), s.sema.waiters)
    ensures Step(s, e).prio == s.prio && Sorted(Higher(s.prio), Step(s, e).sema.waiters)
  {
    if e.Look? {
      HigherIsStrictWeak(s.sema.waiters + [e.t], s.prio);
      InsertOrderedSorted(Higher(s.prio), s.sema.waiters, e.t);
    } else if e.CallUp? && s.sema.waiters != [] {
      var _ := UpWakesHighest(s.sema, s.prio);
    } else if e.CallUp? {
      SortKeepsAll(s.sema.waiters, s.prio);
    }
  }

  /** Without the condition it can be otherwise: thread 3 blocks, then 1, then 3 loses its priority, then 2 blocks with
      the priority of 1.  Thread 2 stands in front of 1 and is unblocked first. */
  lemma Overtakes(prio: nat -> int) returns (s: System<nat>)
    requires prio(3) == 40 && prio(1) == 31 && prio(2) == 31
    ensures Run(Initial(0, prio), [CallDown(3), Look(3), CallDown(1), Look(1), SetPriority(3, 0), CallDown(2)], s)
    ensures s.sema == Sema(0, [3, 1]) && Enabled(s, Look(2)) && s.prio(1) == s.prio(2) == 31
    ensures Step(s, Look(2)).sema.waiters == [2, 3, 1]
    ensures Chosen(Step(s, Look(2)).sema, s.prio) == 2
  {
    var s0 := Initial(0, prio);
    var s2 := Blocks(s0, 3);
    assert s2.sema == Sema(0, [3]);
    var s4 := Blocks(s2, 1);
    InsertOrderedAt(Higher(prio), [3], 1, 1);
    assert s4.sema == Sema(0, [3, 1]);
    var s5 := Step(s4, SetPriority(3, 0));
    s := Step(s5, CallDown(2));
    RunSix(s0, CallDown(3), Look(3), CallDown(1), Look(1), SetPriority(3, 0), CallDown(2));
    Overtaken(s);
  }

  /** A thread that is not busy calls sema_down and blocks. */
  lemma Blocks<T>(s: System<T>, t: T) returns (s': System<T>)
    requires !Busy(s, t) && s.sema.value == 0
    ensures Enabled(s, CallDown(t)) && Enabled(Step(s, CallDown(t)), Look(t))
    ensures s' == Step(Step(s, CallDown(t)), Look(t))
    ensures s'.sema == Sema(0, InsertOrdered(Higher(s.prio), s.sema.waiters, t))
    ensures s'.entering == s.entering && s'.woken == s.woken && s'.prio == s.prio
  {
    s' := Step(Step(s, CallDown(t)), Look(t));
  }

  lemma Overtaken(s: System<nat>)
    requires s.sema == Sema(0, [3, 1]) && 2 in s.entering && s.prio(3) == 0 && s.prio(1) == s.prio(2) == 31
    ensures Step(s, Look(2)).sema.waiters == [2, 3, 1]
    ensures Chosen(Step(s, Look(2)).sema, s.prio) == 2
  {
    InsertOrderedAt(Higher(s.prio), [3, 1], 2, 0);
    assert [3, 1][..0] + [2] + [3, 1][0..] == [2, 3, 1];
    var w := Step(s, Look(2)).sema;
    assert w == Sema(0, [2, 3, 1]);
    var i := UpWakesHighest(w, s.prio);
    assert w.waiters[0] == 2 && w.waiters[1] == 3 && w.waiters[2] == 1;
  }

  lemma RunFrom<T>(s: System<T>, e: Event<T>, r: seq<Event<T>>, s': System<T>)
    requires Enabled(s, e) && Run(Step(s, e), r, s')
    ensures Run(s, [e] + r, s')
  {
    assert ([e] + r)[1..] == r;
  }

  lemma RunSix<T>(s: System<T>, a: Event<T>, b: Event<T>, c: Event<T>, d: Event<T>, e: Event<T>, f: Event<T>)
    requires Enabled(s, a) && Enabled(Step(s, a), b)
    requires var s2 := Step(Step(s, a), b); Enabled(s2, c) && Enabled(Step(s2, c), d)
    requires var s4 := Step(Step(Step(Step(s, a), b), c), d); Enabled(s4, e) && Enabled(Step(s4, e), f)
    ensures Run(s, [a, b, c, d, e, f], Step(Step(Step(Step(Step(Step(s, a), b), c), d), e), f))
  {
    hide Step, Enabled;
    var s1 := Step(s, a);
    var s2 := Step(s1, b);
    var s3 := Step(s2, c);
    var s4 := Step(s3, d);
    var s5 := Step(s4, e);
    var s6 := Step(s5, f);
    assert Run(s6, [], s6);
    RunFrom(s5, f, [], s6);
    assert [f] + [] == [f];
    RunFrom(s4, e, [f], s6);
    RunFrom(s3, d, [e, f], s6);
    assert [e] + [f] == [e, f];
    RunFrom(s2, c, [d, e, f], s6);
    assert [d] + [e, f] == [d, e, f];
    RunFrom(s1, b, [c, d, e, f], s6);
    assert [c] + [d, e, f] == [c, d, e, f];
    RunFrom(s, a, [b, c, d, e, f], s6);
    assert [b] + [c, d, e, f] == [b, c, d, e, f] && [a] + [b, c, d, e, f] == [a, b, c, d, e, f];
  }
}
