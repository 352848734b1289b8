/** Sequences under a strict weak order: sortedness, stability and natural runs.
    This is the vocabulary in which list_sort and list_insert_ordered are specified. */
module Ordering {

  /** `less` orders the elements of `s` strictly, and being unordered is an equivalence. */
  ghost predicate StrictWeak<E>(less: (E, E) -> bool, s: seq<E>) {
    && (forall x {:trigger less(x, x)} | x in s :: !less(x, x))
    && (forall x, y, z {:trigger less(x, y), less(y, z)} | x in s && y in s && z in s ::
          less(x, y) && less(y, z) ==> less(x, z))
    && (forall x, y, z {:trigger less(x, y), less(y, z)} | x in s && y in s && z in s ::
          less(x, z) ==> less(x, y) || less(y, z))
  }

  predicate Equiv<E>(less: (E, E) -> bool, x: E, y: E) {
    !less(x, y) && !less(y, x)
  }

  ghost predicate Sorted<E>(less: (E, E) -> bool, s: seq<E>) {
    forall i, j | 0 <= i < j < |s| :: !less(s[j], s[i])
  }

  /** Every element of `s` may stand before every element of `t`. */
  ghost predicate NotAfter<E>(less: (E, E) -> bool, s: seq<E>, t: seq<E>) {
    forall i, j | 0 <= i < |s| && 0 <= j < |t| :: !less(t[j], s[i])
  }

  /** The subsequence of `s` that is equivalent to `x`. */
  ghost function Class<E>(less: (E, E) -> bool, x: E, s: seq<E>): seq<E> {
    if s == [] then []
    else (if Equiv(less, x, s[0]) then [s[0]] else []) + Class(less, x, s[1..])
  }

  /** `t` rearranges `s` without reordering equivalent elements. */
  ghost predicate Stable<E>(less: (E, E) -> bool, s: seq<E>, t: seq<E>) {
    && multiset(s) == multiset(t)
    && forall x | x in s :: Class(less, x, s) == Class(less, x, t)
  }

  lemma {:induction false} ClassConcat<E>(less: (E, E) -> bool, x: E, s: seq<E>, t: seq<E>)
    ensures Class(less, x, s + t) == Class(less, x, s) + Class(less, x, t)
  {
    if s == [] {
      assert s + t == t;
    } else {
      var h := if Equiv(less, x, s[0]) then [s[0]] else [];
      assert (s + t)[1..] == s[1..] + t && (s + t)[0] == s[0];
      ClassConcat(less, x, s[1..], t);
      assert Class(less, x, s + t) == h + Class(less, x, s[1..] + t);
      assert h + (Class(less, x, s[1..]) + Class(less, x, t)) == h + Class(less, x, s[1..]) + Class(less, x, t);
    }
  }

  lemma {:induction false} ClassEmpty<E>(less: (E, E) -> bool, x: E, s: seq<E>)
    requires forall y | y in s :: !Equiv(less, x, y)
    ensures Class(less, x, s) == []
  {
    if s != [] {
      assert s[0] in s;
      ClassEmpty(less, x, s[1..]);
    }
  }

  lemma StableTransitive<E>(less: (E, E) -> bool, s: seq<E>, t: seq<E>, u: seq<E>)
    requires Stable(less, s, t) && Stable(less, t, u)
    ensures Stable(less, s, u)
  {
    forall x | x in s ensures Class(less, x, s) == Class(less, x, u) {
      assert x in multiset(s) && x in multiset(t);
    }
  }

  /** Replacing a middle part by a stable rearrangement of it is a stable rearrangement of the whole. */
  lemma StableMiddle<E>(less: (E, E) -> bool, p: seq<E>, s: seq<E>, t: seq<E>, q: seq<E>)
    requires multiset(s) == multiset(t)
    requires forall x | x in p + s + q :: Class(less, x, s) == Class(less, x, t)
    ensures Stable(less, p + s + q, p + t + q)
  {
    forall x | x in p + s + q ensures Class(less, x, p + s + q) == Class(less, x, p + t + q) {
      ClassConcat(less, x, p + s, q);
      ClassConcat(less, x, p, s);
      ClassConcat(less, x, p + t, q);
      ClassConcat(less, x, p, t);
    }
  }

  /** Moving one element forward past elements that are all strictly greater is stable. */
  lemma StableMove<E>(less: (E, E) -> bool, p: seq<E>, a: seq<E>, b: E, q: seq<E>)
    requires StrictWeak(less, p + (a + [b]) + q)
    requires forall y | y in a :: less(b, y)
    ensures Stable(less, p + (a + [b]) + q, p + ([b] + a) + q)
  {
    var all := p + (a + [b]) + q;
    assert b in all;
    forall x | x in all ensures Class(less, x, a + [b]) == Class(less, x, [b] + a) {
      ClassConcat(less, x, a, [b]);
      ClassConcat(less, x, [b], a);
      if Equiv(less, x, b) {
        forall y | y in a ensures !Equiv(less, x, y) {
          assert y in all;
        }
        ClassEmpty(less, x, a);
      } else {
        ClassEmpty(less, x, [b]);
      }
    }
    StableMiddle(less, p, a + [b], [b] + a, q);
  }

  // ---------- natural runs ----------

  /** The number of places where `s` steps down. */
  ghost function Descents<E>(less: (E, E) -> bool, s: seq<E>): nat {
    if |s| < 2 then 0
    else Descents(less, s[..|s| - 1]) + (if less(s[|s| - 1], s[|s| - 2]) then 1 else 0)
  }

  /** The number of maximal nondecreasing runs of `s`. */
  ghost function Runs<E>(less: (E, E) -> bool, s: seq<E>): nat {
    if s == [] then 0 else 1 + Descents(less, s)
  }

  /** Cutting a sequence at a step down splits its runs; anywhere else it cuts one run in two. */
  lemma {:induction false} RunsConcat<E>(less: (E, E) -> bool, s: seq<E>, t: seq<E>)
    requires s != [] && t != []
    ensures Runs(less, s + t) ==
            Runs(less, s) + Runs(less, t) - (if less(t[0], s[|s| - 1]) then 0 else 1)
    decreases |t|
  {
    var st := s + t;
    if |t| == 1 {
      assert st[..|st| - 1] == s;
    } else {
      assert st[..|st| - 1] == s + t[..|t| - 1];
      RunsConcat(less, s, t[..|t| - 1]);
    }
  }

  lemma {:induction false} SortedIsOneRun<E>(less: (E, E) -> bool, s: seq<E>)
    requires s != [] && Sorted(less, s)
    ensures Runs(less, s) == 1
  {
    if |s| > 1 {
      SortedIsOneRun(less, s[..|s| - 1]);
    }
  }

  lemma {:induction false} OneRunIsSorted<E>(less: (E, E) -> bool, s: seq<E>)
    requires StrictWeak(less, s)
    requires Runs(less, s) <= 1
    ensures Sorted(less, s)
  {
    if |s| > 1 {
      var t := s[..|s| - 1];
      assert forall x | x in t :: x in s;
      OneRunIsSorted(less, t);
      SortedSnoc(less, t, s[|s| - 1]);
      assert s == t + [s[|s| - 1]];
    }
  }

  /** A sorted run grows by an element that is not below its last one. */
  lemma SortedSnoc<E>(less: (E, E) -> bool, s: seq<E>, e: E)
    requires StrictWeak(less, s + [e])
    requires Sorted(less, s)
    requires s == [] || !less(e, s[|s| - 1])
    ensures Sorted(less, s + [e])
  {
    var t := s + [e];
    forall i, j | 0 <= i < j < |t| ensures !less(t[j], t[i]) {
      if j == |s| && i < |s| - 1 {
        assert t[i] in t && t[j] in t && t[|s| - 1] in t;
        assert !less(s[|s| - 1], s[i]);
      }
    }
  }

  // ---------- ordered insertion and the sort it generates ----------

  /** `s` with `e` placed just before the first element that `e` is less than. */
  function InsertOrdered<E>(less: (E, E) -> bool, s: seq<E>, e: E): seq<E> {
    if s == [] then [e]
    else if less(e, s[0]) then [e] + s
    else [s[0]] + InsertOrdered(less, s[1..], e)
  }

  /** The list that results from inserting the elements of `s`, first to last, into an empty list. */
  function InsertAll<E>(less: (E, E) -> bool, s: seq<E>): seq<E> {
    if s == [] then []
    else InsertOrdered(less, InsertAll(less, s[..|s| - 1]), s[|s| - 1])
  }

  /** Where ordered insertion puts the element: past `k` elements it is not less than. */
  lemma {:induction false} InsertOrderedAt<E>(less: (E, E) -> bool, s: seq<E>, e: E, k: nat)
    requires k <= |s|
    requires forall i | 0 <= i < k :: !less(e, s[i])
    requires k == |s| || less(e, s[k])
    ensures InsertOrdered(less, s, e) == s[..k] + [e] + s[k..]
  {
    if k > 0 {
      InsertOrderedAt(less, s[1..], e, k - 1);
      assert [s[0]] + s[1..][..k - 1] == s[..k];
      assert s[1..][k - 1..] == s[k..];
    } else {
      assert s[..0] + [e] + s[0..] == [e] + s;
    }
  }

  lemma {:induction false} InsertionPoint<E>(less: (E, E) -> bool, s: seq<E>, e: E) returns (k: nat)
    ensures k <= |s|
    ensures forall i | 0 <= i < k :: !less(e, s[i])
    ensures k == |s| || less(e, s[k])
  {
    if s == [] || less(e, s[0]) {
      k := 0;
    } else {
      k := InsertionPoint(less, s[1..], e);
      k := k + 1;
    }
  }

  /** In a sorted list, everything from the insertion point on is greater. */
  lemma GreaterFrom<E>(less: (E, E) -> bool, s: seq<E>, e: E, k: nat)
    requires StrictWeak(less, s + [e]) && Sorted(less, s)
    requires k == |s| || (k < |s| && less(e, s[k]))
    ensures forall y | y in s[k..] :: less(e, y)
  {
    var all := s + [e];
    assert e == all[|s|];
    forall y | y in s[k..] ensures less(e, y) {
      var j :| 0 <= j < |s[k..]| && s[k..][j] == y;
      assert y == s[k + j] == all[k + j] && s[k] == all[k];
      assert less(e, s[k]);
    }
  }

  lemma SortedInsertAt<E>(less: (E, E) -> bool, s: seq<E>, e: E, k: nat)
    requires k <= |s| && Sorted(less, s)
    requires forall i | 0 <= i < k :: !less(e, s[i])
    requires forall y | y in s[k..] :: less(e, y)
    requires forall y | y in s :: less(e, y) ==> !less(y, e)
    ensures Sorted(less, s[..k] + [e] + s[k..])
  {
    var t := s[..k] + [e] + s[k..];
    forall i, j | 0 <= i < j < |t| ensures !less(t[j], t[i]) {
      if i == k {
        assert t[j] == s[j - 1] == s[k..][j - 1 - k];
      }
    }
  }

  lemma NotBothWays<E>(less: (E, E) -> bool, s: seq<E>, e: E)
    requires StrictWeak(less, s + [e])
    ensures forall y | y in s :: less(e, y) ==> !less(y, e)
  {
    forall y | y in s ensures less(e, y) ==> !less(y, e) {
      assert y in s + [e] && (s + [e])[|s|] == e;
    }
  }

  lemma MoveIntoPlace<E>(less: (E, E) -> bool, s: seq<E>, e: E, k: nat)
    requires k <= |s| && StrictWeak(less, s + [e])
    requires forall y | y in s[k..] :: less(e, y)
    ensures Stable(less, s + [e], s[..k] + [e] + s[k..])
  {
    assert s + [e] == s[..k] + (s[k..] + [e]) + [];
    StableMove(less, s[..k], s[k..], e, []);
    assert s[..k] + ([e] + s[k..]) + [] == s[..k] + [e] + s[k..];
  }

  /** Ordered insertion keeps a list sorted and puts the new element after all its equals. */
  lemma InsertOrderedSorted<E>(less: (E, E) -> bool, s: seq<E>, e: E)
    requires StrictWeak(less, s + [e])
    requires Sorted(less, s)
    ensures Sorted(less, InsertOrdered(less, s, e))
    ensures Stable(less, s + [e], InsertOrdered(less, s, e))
  {
    var k := InsertionPoint(less, s, e);
    InsertOrderedAt(less, s, e, k);
    GreaterFrom(less, s, e, k);
    NotBothWays(less, s, e);
    SortedInsertAt(less, s, e, k);
    MoveIntoPlace(less, s, e, k);
  }

  /** Appending the same element to a rearrangement is a rearrangement. */
  lemma StableSnoc<E>(less: (E, E) -> bool, t: seq<E>, u: seq<E>, e: E)
    requires StrictWeak(less, t + [e]) && Stable(less, t, u)
    ensures Stable(less, t + [e], u + [e]) && StrictWeak(less, u + [e])
  {
    var s := t + [e];
    forall x | x in s ensures Class(less, x, s) == Class(less, x, u + [e]) {
      ClassConcat(less, x, t, [e]);
      ClassConcat(less, x, u, [e]);
      if x !in t {
        ClassesAgree(less, x, t, u);
      }
    }
    forall x | x in u + [e] ensures x in s {
      if x in u {
        assert x in multiset(u) && x in multiset(t);
      }
    }
  }

  /** Inserting one by one is a stable sort. */
  lemma {:induction false} InsertAllSorts<E>(less: (E, E) -> bool, s: seq<E>)
    requires StrictWeak(less, s)
    ensures Sorted(less, InsertAll(less, s))
    ensures Stable(less, s, InsertAll(less, s))
  {
    if s != [] {
      var t, e := s[..|s| - 1], s[|s| - 1];
      assert s == t + [e] && forall x | x in t :: x in s;
      InsertAllSorts(less, t);
      var u := InsertAll(less, t);
      StableSnoc(less, t, u, e);
      InsertOrderedSorted(less, u, e);
      StableTransitive(less, s, u + [e], InsertAll(less, s));
    }
  }

  /** A stable rearrangement keeps the class of every element, also of those outside it. */
  lemma ClassesAgree<E>(less: (E, E) -> bool, x: E, s: seq<E>, t: seq<E>)
    requires StrictWeak(less, s + [x])
    requires Stable(less, s, t)
    ensures Class(less, x, s) == Class(less, x, t)
  {
    var all := s + [x];
    assert forall y | y in s :: y in all;
    forall y | y in t ensures y in s {
      assert y in multiset(t) && y in multiset(s);
    }
    assert x in all;
    if y :| y in s && Equiv(less, x, y) {
      SameClass(less, all, x, y, s);
      SameClass(less, all, x, y, t);
    } else {
      ClassEmpty(less, x, s);
      ClassEmpty(less, x, t);
    }
  }

  lemma {:induction false} SameClass<E>(less: (E, E) -> bool, all: seq<E>, x: E, y: E, s: seq<E>)
    requires StrictWeak(less, all) && x in all && y in all && Equiv(less, x, y)
    requires forall z | z in s :: z in all
    ensures Class(less, x, s) == Class(less, y, s)
  {
    if s != [] {
      assert s[0] in s;
      SameClass(less, all, x, y, s[1..]);
    }
  }

  /** Two stable sorts of the same elements start with the same element. */
  lemma SameFirst<E>(less: (E, E) -> bool, t: seq<E>, u: seq<E>)
    requires StrictWeak(less, t) && t != [] && |t| == |u|
    requires Sorted(less, t) && Sorted(less, u) && Stable(less, t, u)
    ensures t[0] == u[0]
  {
    assert u[0] in multiset(u) && t[0] in multiset(t);
    assert u[0] in t && t[0] in u;
    var i :| 0 <= i < |t| && t[i] == u[0];
    var j :| 0 <= j < |u| && u[j] == t[0];
    assert !less(t[0], u[0]) && !less(u[0], t[0]);
    assert Class(less, t[0], t)[0] == t[0];
    assert Class(less, t[0], u)[0] == u[0];
  }

  lemma StableTail<E>(less: (E, E) -> bool, t: seq<E>, u: seq<E>)
    requires t != [] && u != [] && t[0] == u[0] && Stable(less, t, u)
    ensures Stable(less, t[1..], u[1..])
  {
    assert t == [t[0]] + t[1..] && u == [u[0]] + u[1..];
    assert multiset(t[1..]) == multiset(t) - multiset{t[0]};
    assert multiset(u[1..]) == multiset(u) - multiset{u[0]};
    forall x | x in t[1..] ensures Class(less, x, t[1..]) == Class(less, x, u[1..]) {
      assert x in t;
      var h := if Equiv(less, x, t[0]) then [t[0]] else [];
      assert Class(less, x, t)[|h|..] == Class(less, x, t[1..]);
      assert Class(less, x, u)[|h|..] == Class(less, x, u[1..]);
    }
  }

  lemma TailsSorted<E>(less: (E, E) -> bool, t: seq<E>)
    requires t != [] && StrictWeak(less, t) && Sorted(less, t)
    ensures StrictWeak(less, t[1..]) && Sorted(less, t[1..])
  {
    assert forall x | x in t[1..] :: x in t;
  }

  /** Sortedness and stability determine the result. */
  lemma {:induction false} StableSortUnique<E>(less: (E, E) -> bool, t: seq<E>, u: seq<E>)
    requires StrictWeak(less, t) && StrictWeak(less, u)
    requires Sorted(less, t) && Sorted(less, u) && Stable(less, t, u)
    ensures t == u
  {
    SameLength(t, u);
    if t != [] {
      SameFirst(less, t, u);
      StableTail(less, t, u);
      TailsSorted(less, t);
      TailsSorted(less, u);
      StableSortUnique(less, t[1..], u[1..]);
      SameHeadTail(t, u);
    }
  }

  lemma SameLength<E>(t: seq<E>, u: seq<E>)
    requires multiset(t) == multiset(u)
    ensures |t| == |u|
  {
    assert |t| == |multiset(t)| && |u| == |multiset(u)|;
  }

  lemma SameHeadTail<E>(t: seq<E>, u: seq<E>)
    requires t != [] && u != [] && t[0] == u[0] && t[1..] == u[1..]
    ensures t == u
  {
    assert t == [t[0]] + t[1..] && u == [u[0]] + u[1..];
  }
}
