/** One in-place merge and one pass of the natural merge sort, on sequences. */
module Merging {
  import opened Ordering

  lemma ConcatAssociative<E>(s: seq<E>, t: seq<E>, u: seq<E>)
    ensures s + t + u == s + (t + u)
  {
  }

  lemma StrictWeakSub<E>(less: (E, E) -> bool, s: seq<E>, t: seq<E>)
    requires StrictWeak(less, s)
    requires forall x | x in t :: x in s
    ensures StrictWeak(less, t)
  {
  }

  lemma StrictWeakStable<E>(less: (E, E) -> bool, s: seq<E>, t: seq<E>)
    requires StrictWeak(less, s) && Stable(less, s, t)
    ensures StrictWeak(less, t)
  {
    forall x | x in t ensures x in s {
      assert x in multiset(t) && x in multiset(s);
    }
  }

  /** Exchanges the adjacent parts [i..m) and [m..j). */
  ghost function Swapped<T>(c: seq<T>, i: nat, m: nat, j: nat): seq<T>
    requires i <= m <= j <= |c|
  {
    c[..i] + c[m..j] + c[i..m] + c[j..]
  }

  // ---------- what the loops compute ----------

  /** The exclusive end of the nondecreasing run of `s` that starts at `i`. */
  ghost function RunEnd<E>(less: (E, E) -> bool, s: seq<E>, i: nat): (k: nat)
    requires i < |s|
    ensures i < k <= |s|
    decreases |s| - i
  {
    if i + 1 == |s| || less(s[i + 1], s[i]) then i + 1 else RunEnd(less, s, i + 1)
  }

  /** Merges x[a..m] with x[m..], moving one element at a time. */
  ghost function MergeFrom<E>(less: (E, E) -> bool, x: seq<E>, a: nat, m: nat): (y: seq<E>)
    requires a <= m <= |x|
    ensures |y| == |x|
    decreases |x| - a
  {
    if a == m || m == |x| then x
    else if !less(x[m], x[a]) then MergeFrom(less, x, a + 1, m)
    else MergeFrom(less, Swapped(x, a, m, m + 1), a + 1, m + 1)
  }

  /** What one pass makes of `s`: its runs merged in pairs. */
  ghost function Pass<E>(less: (E, E) -> bool, s: seq<E>): (t: seq<E>)
    ensures |t| == |s|
  {
    if s == [] then []
    else
      var i := RunEnd(less, s, 0);
      if i == |s| then s
      else
        var j := RunEnd(less, s, i);
        MergeFrom(less, s[..j], 0, i) + Pass(less, s[j..])
  }

  /** The number of runs that pass reports. */
  ghost function PassCount<E>(less: (E, E) -> bool, s: seq<E>): nat {
    if s == [] then 0
    else
      var i := RunEnd(less, s, 0);
      if i == |s| then 1
      else
        var j := RunEnd(less, s, i);
        1 + PassCount(less, s[j..])
  }

  lemma {:induction false} RunEndIsRun<E>(less: (E, E) -> bool, s: seq<E>, l: nat, i: nat)
    requires l <= i < |s| && StrictWeak(less, s)
    requires Sorted(less, s[l..i + 1])
    ensures var k := RunEnd(less, s, i);
            Sorted(less, s[l..k]) && (k < |s| ==> less(s[k], s[k - 1]))
    decreases |s| - i
  {
    if i + 1 < |s| && !less(s[i + 1], s[i]) {
      assert s[l..i + 2] == s[l..i + 1] + [s[i + 1]];
      StrictWeakSub(less, s, s[l..i + 2]);
      SortedSnoc(less, s[l..i + 1], s[i + 1]);
      RunEndIsRun(less, s, l, i + 1);
    }
  }

  // ---------- why that sorts ----------

  /** A merge in progress: x[..a] is final, x[a..m] and x[m..] are the two runs still to merge. */
  ghost predicate MergeState<E>(less: (E, E) -> bool, x0: seq<E>, x: seq<E>, a: nat, m: nat) {
    && a <= m <= |x|
    && Stable(less, x0, x)
    && Sorted(less, x[..a]) && NotAfter(less, x[..a], x[a..])
    && Sorted(less, x[a..m]) && Sorted(less, x[m..])
  }

  /** x[k] precedes the rest of both runs, so it may be appended to the final part. */
  lemma ExtendFinal<E>(less: (E, E) -> bool, s: seq<E>, e: E, t: seq<E>)
    requires Sorted(less, s) && NotAfter(less, s, [e] + t)
    requires forall y | y in t :: !less(y, e)
    ensures Sorted(less, s + [e]) && NotAfter(less, s + [e], t)
  {
    var u := [e] + t;
    assert u[0] == e;
    assert forall j | 0 <= j < |t| :: u[j + 1] == t[j] && t[j] in t;
  }

  /** When the first run's head is not above the second's, it is the least of what is left. */
  lemma HeadIsLeast<E>(less: (E, E) -> bool, r: seq<E>, q: seq<E>)
    requires r != [] && q != [] && StrictWeak(less, r + q)
    requires Sorted(less, r) && Sorted(less, q) && !less(q[0], r[0])
    ensures forall y | y in r[1..] + q :: !less(y, r[0])
  {
    var all := r + q;
    assert r[0] in all && q[0] in all;
    forall y | y in r[1..] + q ensures !less(y, r[0]) {
      if y in q {
        var j :| 0 <= j < |q| && q[j] == y;
        assert y in all;
        assert j == 0 || !less(q[j], q[0]);
      } else {
        var j :| 0 <= j < |r[1..]| && r[1..][j] == y;
        assert y == r[j + 1];
      }
    }
  }

  lemma MergeTake<E>(less: (E, E) -> bool, x0: seq<E>, x: seq<E>, a: nat, m: nat)
    requires StrictWeak(less, x) && MergeState(less, x0, x, a, m)
    requires a < m < |x| && !less(x[m], x[a])
    ensures MergeState(less, x0, x, a + 1, m)
  {
    var r, q := x[a..m], x[m..];
    StrictWeakSub(less, x, r + q);
    HeadIsLeast(less, r, q);
    assert x[a..] == [x[a]] + (r[1..] + q);
    ExtendFinal(less, x[..a], x[a], r[1..] + q);
    assert x[..a + 1] == x[..a] + [x[a]] && x[a + 1..] == r[1..] + q;
    assert x[a + 1..m] == r[1..];
  }

  /** When the second run's head is strictly below the first's, it is the least of what is left. */
  lemma SecondIsLeast<E>(less: (E, E) -> bool, r: seq<E>, q: seq<E>)
    requires r != [] && q != [] && StrictWeak(less, r + q)
    requires Sorted(less, r) && Sorted(less, q) && less(q[0], r[0])
    ensures forall y | y in r :: less(q[0], y)
    ensures forall y | y in r + q[1..] :: !less(y, q[0])
  {
    var all := r + q;
    assert r[0] in all && q[0] in all;
    forall y | y in r ensures less(q[0], y) && !less(y, q[0]) {
      assert y in all;
      var j :| 0 <= j < |r| && r[j] == y;
      assert j == 0 || !less(r[j], r[0]);
      var below, same := less(y, r[0]), less(y, y);
    }
    forall y | y in q[1..] ensures !less(y, q[0]) {
      var j :| 0 <= j < |q[1..]| && q[1..][j] == y;
      assert y == q[j + 1];
    }
  }

  lemma MoveIsStable<E>(less: (E, E) -> bool, x0: seq<E>, x: seq<E>, a: nat, m: nat)
    requires StrictWeak(less, x) && Stable(less, x0, x)
    requires a <= m < |x| && forall y | y in x[a..m] :: less(x[m], y)
    ensures Stable(less, x0, Swapped(x, a, m, m + 1))
  {
    var f, r, b, t := x[..a], x[a..m], x[m], x[m + 1..];
    assert x == f + (r + [b]) + t;
    assert Swapped(x, a, m, m + 1) == f + ([b] + r) + t;
    StableMove(less, f, r, b, t);
    StableTransitive(less, x0, x, Swapped(x, a, m, m + 1));
  }

  lemma MoveKeepsOrder<E>(less: (E, E) -> bool, f: seq<E>, r: seq<E>, b: E, t: seq<E>)
    requires Sorted(less, f) && NotAfter(less, f, r + [b] + t)
    requires forall y | y in r + t :: !less(y, b)
    ensures Sorted(less, f + [b]) && NotAfter(less, f + [b], r + t)
  {
    NotAfterSame(less, f, r + [b] + t, [b] + (r + t));
    ExtendFinal(less, f, b, r + t);
  }

  lemma MergeMove<E>(less: (E, E) -> bool, x0: seq<E>, x: seq<E>, a: nat, m: nat)
    requires StrictWeak(less, x) && MergeState(less, x0, x, a, m)
    requires a < m < |x| && less(x[m], x[a])
    ensures MergeState(less, x0, Swapped(x, a, m, m + 1), a + 1, m + 1)
  {
    var f, r, b, t := x[..a], x[a..m], x[m], x[m + 1..];
    SwappedParts(x, a, m);
    StrictWeakSub(less, x, r + ([b] + t));
    SecondIsLeast(less, r, [b] + t);
    MoveIsStable(less, x0, x, a, m);
    MoveKeepsOrder(less, f, r, b, t);
  }

  lemma SwappedParts<E>(x: seq<E>, a: nat, m: nat)
    requires a < m < |x|
    ensures x[m..] == [x[m]] + x[m + 1..] && x[m..][1..] == x[m + 1..]
    ensures x[a..] == x[a..m] + [x[m]] + x[m + 1..]
    ensures forall e | e in x[a..m] + ([x[m]] + x[m + 1..]) :: e in x
    ensures var y := Swapped(x, a, m, m + 1);
            && y[..a + 1] == x[..a] + [x[m]] && y[a + 1..] == x[a..m] + x[m + 1..]
            && y[a + 1..m + 1] == x[a..m] && y[m + 1..] == x[m + 1..]
  {
  }

  /** What must precede a collection must precede any rearrangement of it. */
  lemma NotAfterSame<E>(less: (E, E) -> bool, s: seq<E>, t: seq<E>, u: seq<E>)
    requires NotAfter(less, s, t)
    requires multiset(t) == multiset(u)
    ensures NotAfter(less, s, u)
  {
    forall i, j | 0 <= i < |s| && 0 <= j < |u| ensures !less(u[j], s[i]) {
      assert u[j] in multiset(u) && u[j] in multiset(t);
      var k :| 0 <= k < |t| && t[k] == u[j];
    }
  }

  lemma MergeDone<E>(less: (E, E) -> bool, x0: seq<E>, x: seq<E>, a: nat, m: nat)
    requires MergeState(less, x0, x, a, m)
    requires a == m || m == |x|
    ensures Sorted(less, x) && Stable(less, x0, x)
  {
    var f, g := x[..a], x[a..];
    assert Sorted(less, g) by {
      assert g == x[m..] || g == x[a..m];
    }
    forall i, j | 0 <= i < j < |x| ensures !less(x[j], x[i]) {
      if i < a <= j {
        assert f[i] == x[i] && g[j - a] == x[j];
      } else if j < a {
        assert f[i] == x[i] && f[j] == x[j];
      } else {
        assert g[i - a] == x[i] && g[j - a] == x[j];
      }
    }
  }

  lemma {:induction false} MergeSorts<E>(less: (E, E) -> bool, x0: seq<E>, x: seq<E>, a: nat, m: nat)
    requires StrictWeak(less, x0) && MergeState(less, x0, x, a, m)
    ensures Sorted(less, MergeFrom(less, x, a, m))
    ensures Stable(less, x0, MergeFrom(less, x, a, m))
    decreases |x| - a
  {
    hide StrictWeak, Sorted, Stable, NotAfter;
    if a == m || m == |x| {
      MergeDone(less, x0, x, a, m);
    } else {
      StrictWeakStable(less, x0, x);
      if !less(x[m], x[a]) {
        MergeTake(less, x0, x, a, m);
        MergeSorts(less, x0, x, a + 1, m);
      } else {
        MergeMove(less, x0, x, a, m);
        MergeSorts(less, x0, Swapped(x, a, m, m + 1), a + 1, m + 1);
      }
    }
  }

  /** Merging two adjacent runs sorts them stably. */
  lemma MergeRuns<E>(less: (E, E) -> bool, p: seq<E>, q: seq<E>)
    requires StrictWeak(less, p + q) && Sorted(less, p) && Sorted(less, q)
    ensures Sorted(less, MergeFrom(less, p + q, 0, |p|))
    ensures Stable(less, p + q, MergeFrom(less, p + q, 0, |p|))
  {
    var x := p + q;
    assert x[0..|p|] == p && x[|p|..] == q && x[..0] == [];
    MergeSorts(less, x, x, 0, |p|);
  }

  /** A pass in progress over `s0`: `done` holds `cnt` output runs, `rest` is still as it was. */
  ghost predicate PassState<E>(less: (E, E) -> bool, s0: seq<E>, done: seq<E>, rest: seq<E>, cnt: nat) {
    && Stable(less, s0, done + rest)
    && cnt == Runs(less, done)
    && Runs(less, s0) == 2 * cnt + Runs(less, rest)
    && (done == [] || rest == [] || less(rest[0], done[|done| - 1]))
  }

  lemma MemberOf<E>(less: (E, E) -> bool, s: seq<E>, t: seq<E>, x: E)
    requires Stable(less, s, t) && x in t
    ensures x in s
  {
    assert x in multiset(t) && x in multiset(s);
  }

  /** Merging a run `p` with its successor `q` into `m` lowers the first element and raises the last. */
  lemma MergedEnds<E>(less: (E, E) -> bool, p: seq<E>, q: seq<E>, m: seq<E>)
    requires p != [] && q != []
    requires Stable(less, p + q, m) && Sorted(less, m) && StrictWeak(less, p + q)
    ensures m != [] && !less(p[0], m[0]) && !less(m[|m| - 1], q[|q| - 1])
  {
    assert p[0] in p + q && q[|q| - 1] in p + q;
    assert p[0] in multiset(p + q) && q[|q| - 1] in multiset(p + q);
    assert p[0] in multiset(m) && q[|q| - 1] in multiset(m);
    var i :| 0 <= i < |m| && m[i] == p[0];
    var j :| 0 <= j < |m| && m[j] == q[|q| - 1];
  }

  lemma MergeRunCounts<E>(less: (E, E) -> bool, p: seq<E>, q: seq<E>, r: seq<E>)
    requires p != [] && q != [] && Sorted(less, p) && Sorted(less, q)
    requires less(q[0], p[|p| - 1])
    requires r == [] || less(r[0], q[|q| - 1])
    ensures Runs(less, p + q + r) == 2 + Runs(less, r)
  {
    RunsConcat(less, p, q);
    SortedIsOneRun(less, p);
    SortedIsOneRun(less, q);
    if r != [] {
      RunsConcat(less, p + q, r);
    } else {
      assert p + q + r == p + q;
    }
  }

  /** Appending an output run after a step down counts one more run. */
  lemma AppendRun<E>(less: (E, E) -> bool, done: seq<E>, m: seq<E>)
    requires m != [] && Sorted(less, m)
    requires done == [] || less(m[0], done[|done| - 1])
    ensures Runs(less, done + m) == Runs(less, done) + 1
  {
    SortedIsOneRun(less, m);
    if done == [] {
      assert done + m == m;
    } else {
      RunsConcat(less, done, m);
    }
  }

  /** The step-downs around a merged pair stay step-downs. */
  lemma MergedBorders<E>(less: (E, E) -> bool, s0: seq<E>, done: seq<E>, p: seq<E>, q: seq<E>, m: seq<E>, r: seq<E>)
    requires StrictWeak(less, s0) && p != [] && q != []
    requires forall x | x in done + p + q + r :: x in s0
    requires Stable(less, p + q, m) && Sorted(less, m)
    requires done == [] || less(p[0], done[|done| - 1])
    requires r == [] || less(r[0], q[|q| - 1])
    ensures m != [] && (done == [] || less(m[0], done[|done| - 1]))
    ensures r == [] || less(r[0], m[|m| - 1])
  {
    var all := done + p + q + r;
    assert forall x | x in p + q :: x in all;
    StrictWeakSub(less, s0, p + q);
    MergedEnds(less, p, q, m);
    MemberOf(less, p + q, m, m[0]);
    MemberOf(less, p + q, m, m[|m| - 1]);
    assert m[0] in all && m[|m| - 1] in all;
    assert p[0] in all && q[|q| - 1] in all;
    if done != [] {
      var d := done[|done| - 1];
      assert d in all;
      var e := less(m[0], d);
    }
    if r != [] {
      assert r[0] in all;
      var e := less(r[0], m[|m| - 1]);
    }
  }

  lemma MergedStable<E>(less: (E, E) -> bool, s0: seq<E>, done: seq<E>, pq: seq<E>, m: seq<E>, r: seq<E>)
    requires StrictWeak(less, s0) && Stable(less, s0, done + pq + r)
    requires Stable(less, pq, m)
    ensures Stable(less, s0, done + m + r)
  {
    var all := done + pq + r;
    StrictWeakStable(less, s0, all);
    forall x | x in all ensures Class(less, x, pq) == Class(less, x, m) {
      StrictWeakSub(less, all, pq + [x]);
      ClassesAgree(less, x, pq, m);
    }
    StableMiddle(less, done, pq, m, r);
    StableTransitive(less, s0, all, done + m + r);
  }

  lemma PassMerge<E>(less: (E, E) -> bool, s0: seq<E>, done: seq<E>, p: seq<E>, q: seq<E>, m: seq<E>, r: seq<E>,
                     cnt: nat)
    requires StrictWeak(less, s0) && PassState(less, s0, done, p + q + r, cnt)
    requires p != [] && q != [] && Sorted(less, p) && Sorted(less, q)
    requires less(q[0], p[|p| - 1]) && (r == [] || less(r[0], q[|q| - 1]))
    requires Stable(less, p + q, m) && Sorted(less, m)
    ensures PassState(less, s0, done + m, r, cnt + 1)
  {
    var rest := p + q + r;
    assert rest[0] == p[0];
    assert done + rest == done + p + q + r == done + (p + q) + r;
    assert m != [] && (done == [] || less(m[0], done[|done| - 1])) &&
        (r == [] || less(r[0], (done + m)[|done + m| - 1])) by {
      forall x | x in done + p + q + r ensures x in s0 {
        MemberOf(less, s0, done + rest, x);
      }
      MergedBorders(less, s0, done, p, q, m, r);
      assert (done + m)[|done + m| - 1] == m[|m| - 1];
    }
    assert Runs(less, done + m) == cnt + 1 by {
      AppendRun(less, done, m);
    }
    assert Runs(less, s0) == 2 * (cnt + 1) + Runs(less, r) by {
      MergeRunCounts(less, p, q, r);
    }
    MergedStable(less, s0, done, p + q, m, r);
  }

  /** The last run of an odd number is output as it is. */
  lemma PassLast<E>(less: (E, E) -> bool, s0: seq<E>, done: seq<E>, p: seq<E>, cnt: nat)
    requires PassState(less, s0, done, p, cnt)
    requires p != [] && Sorted(less, p)
    ensures Stable(less, s0, done + p)
    ensures Runs(less, done + p) == cnt + 1 && Runs(less, s0) == 2 * cnt + 1
  {
    SortedIsOneRun(less, p);
    AppendRun(less, done, p);
  }

  /** A sequence of more than one run starts with two of them, which a pass merges. */
  lemma FirstTwoRuns<E>(less: (E, E) -> bool, s: seq<E>) returns (p: seq<E>, q: seq<E>, r: seq<E>)
    requires StrictWeak(less, s) && s != [] && RunEnd(less, s, 0) < |s|
    ensures s == p + q + r && p != [] && q != []
    ensures Sorted(less, p) && Sorted(less, q)
    ensures less(q[0], p[|p| - 1]) && (r == [] || less(r[0], q[|q| - 1]))
    ensures Pass(less, s) == MergeFrom(less, p + q, 0, |p|) + Pass(less, r)
    ensures PassCount(less, s) == 1 + PassCount(less, r)
  {
    RunEndIsRun(less, s, 0, 0);
    var i := RunEnd(less, s, 0);
    RunEndIsRun(less, s, i, i);
    var j := RunEnd(less, s, i);
    p, q, r := s[0..i], s[i..j], s[j..];
    assert s[..j] == p + q;
  }

  lemma {:induction false} PassCorrect<E>(less: (E, E) -> bool, s0: seq<E>, done: seq<E>, rest: seq<E>, cnt: nat)
    requires StrictWeak(less, s0) && PassState(less, s0, done, rest, cnt)
    ensures Stable(less, s0, done + Pass(less, rest))
    ensures cnt + PassCount(less, rest) == Runs(less, done + Pass(less, rest)) == (Runs(less, s0) + 1) / 2
    decreases |rest|
  {
    if rest == [] {
      assert done + [] == done;
    } else {
      StrictWeakStable(less, s0, done + rest);
      StrictWeakSub(less, done + rest, rest);
      if RunEnd(less, rest, 0) == |rest| {
        RunEndIsRun(less, rest, 0, 0);
        assert rest[0..|rest|] == rest;
        PassLast(less, s0, done, rest, cnt);
      } else {
        var p, q, r := FirstTwoRuns(less, rest);
        var m := MergeFrom(less, p + q, 0, |p|);
        StrictWeakSub(less, rest, p + q);
        MergeRuns(less, p, q);
        PassMerge(less, s0, done, p, q, m, r, cnt);
        PassCorrect(less, s0, done + m, r, cnt + 1);
        ConcatAssociative(done, m, Pass(less, r));
      }
    }
  }

  /** A pass rearranges stably, halves the number of runs, and reports that number. */
  lemma PassHalves<E>(less: (E, E) -> bool, s: seq<E>)
    requires StrictWeak(less, s)
    ensures Stable(less, s, Pass(less, s))
    ensures PassCount(less, s) == Runs(less, Pass(less, s)) == (Runs(less, s) + 1) / 2
  {
    assert [] + s == s && [] + Pass(less, s) == Pass(less, s);
    PassCorrect(less, s, [], s, 0);
  }
}
