/** Heapsort and binary search (lib/stdlib.c: heapify, sort, binary_search).  Heap positions count from 1. */
module Stdlib {
  import opened Options

  type Compare<!T> = (T, T) -> int

  /** What callers of sort promise: a strcmp-like total preorder. */
  ghost predicate Preorder<T(!new)>(cmp: Compare<T>) {
    && (forall x, y :: cmp(x, y) > 0 <==> cmp(y, x) < 0)
    && (forall x, y, z {:trigger cmp(x, y), cmp(y, z)} :: cmp(x, y) <= 0 && cmp(y, z) <= 0 ==> cmp(x, z) <= 0)
  }

  ghost predicate Ascending<T>(s: seq<T>, cmp: Compare<T>) {
    forall i, j | 0 <= i < j < |s| :: cmp(s[i], s[j]) <= 0
  }

  // ---------- heaps ----------

  predicate IsChild(p: nat, c: nat) { c == 2 * p || c == 2 * p + 1 }

  /** Position `p` of the first `cnt` is not below its children. */
  ghost predicate Above<T>(s: seq<T>, p: nat, cnt: nat, cmp: Compare<T>)
    requires cnt <= |s|
  {
    forall c: nat | IsChild(p, c) && 0 < p && c <= cnt :: cmp(s[c - 1], s[p - 1]) <= 0
  }

  /** The heap property for the positions from `lo` on. */
  ghost predicate Heap<T>(s: seq<T>, lo: nat, cnt: nat, cmp: Compare<T>)
    requires cnt <= |s|
  {
    forall p: nat | p >= lo :: Above(s, p, cnt, cmp)
  }

  /** The heap property for the positions from `lo` on except `j`, whose children are not above its parent. */
  ghost predicate Sifting<T>(s: seq<T>, lo: nat, j: nat, cnt: nat, cmp: Compare<T>)
    requires cnt <= |s|
  {
    && (forall p: nat | p >= lo && p != j :: Above(s, p, cnt, cmp))
    && (forall c: nat | IsChild(j, c) && c <= cnt && j / 2 >= lo && 0 < j / 2 :: cmp(s[c - 1], s[j / 2 - 1]) <= 0)
  }

  function Swapped<T>(s: seq<T>, i: nat, j: nat): seq<T>
    requires i < |s| && j < |s|
  {
    s[i := s[j]][j := s[i]]
  }

  lemma SwappedPermutes<T>(s: seq<T>, i: nat, j: nat, cnt: nat)
    requires i < cnt && j < cnt && cnt <= |s|
    ensures multiset(Swapped(s, i, j)[..cnt]) == multiset(s[..cnt]) && Swapped(s, i, j)[cnt..] == s[cnt..]
  {
    var t := s[..cnt];
    assert Swapped(s, i, j)[..cnt] == t[i := t[j]][j := t[i]];
  }

  /** Swapping the largest child up moves the exception down. */
  lemma SiftDown<T>(s: seq<T>, lo: nat, j: nat, m: nat, cnt: nat, cmp: Compare<T>)
    requires cnt <= |s| && 0 < lo <= j && IsChild(j, m) && m <= cnt
    requires Sifting(s, lo, j, cnt, cmp) && cmp(s[j - 1], s[m - 1]) <= 0
    requires forall c: nat | IsChild(j, c) && c <= cnt :: cmp(s[c - 1], s[m - 1]) <= 0
    ensures Sifting(Swapped(s, j - 1, m - 1), lo, m, cnt, cmp)
  {
    var t := Swapped(s, j - 1, m - 1);
    forall p: nat | p >= lo && p != m ensures Above(t, p, cnt, cmp) {
      forall c: nat | IsChild(p, c) && 0 < p && c <= cnt ensures cmp(t[c - 1], t[p - 1]) <= 0 {
        if p != j {
          assert Above(s, p, cnt, cmp);
          assert cmp(s[c - 1], s[p - 1]) <= 0;
          if c == j {
            assert p == j / 2;
          }
        }
      }
    }
    forall c: nat | IsChild(m, c) && c <= cnt && m / 2 >= lo && 0 < m / 2 ensures cmp(t[c - 1], t[m / 2 - 1]) <= 0 {
      assert m / 2 == j;
      assert Above(s, m, cnt, cmp);
    }
  }

  lemma SiftDone<T>(s: seq<T>, lo: nat, j: nat, cnt: nat, cmp: Compare<T>)
    requires cnt <= |s| && Sifting(s, lo, j, cnt, cmp) && Above(s, j, cnt, cmp)
    ensures Heap(s, lo, cnt, cmp)
  {
  }

  lemma SiftStart<T>(s: seq<T>, i: nat, cnt: nat, cmp: Compare<T>)
    requires cnt <= |s| && Heap(s, i + 1, cnt, cmp)
    ensures Sifting(s, i, i, cnt, cmp)
  {
  }

  /** The first element of a heap is the greatest. */
  lemma {:induction false} RootIsMax<T(!new)>(s: seq<T>, cnt: nat, cmp: Compare<T>, k: nat)
    requires Preorder(cmp) && cnt <= |s| && Heap(s, 1, cnt, cmp) && 0 < k <= cnt
    ensures cmp(s[k - 1], s[0]) <= 0
  {
    if k > 1 {
      RootIsMax(s, cnt, cmp, k / 2);
      assert Above(s, k / 2, cnt, cmp) && IsChild(k / 2, k);
    }
  }

  // ---------- the code ----------

  method Swap<T>(a: array<T>, i: nat, j: nat)
    requires 0 < i <= a.Length && 0 < j <= a.Length
    modifies a
    ensures a[..] == Swapped(old(a[..]), i - 1, j - 1)
  {
    a[i - 1], a[j - 1] := a[j - 1], a[i - 1];
  }

  /** The largest of position `i` and its children. */
  method Largest<T(!new)>(a: array<T>, i: nat, cnt: nat, cmp: Compare<T>) returns (max: nat)
    requires Preorder(cmp) && 0 < i <= cnt <= a.Length
    ensures max == i || (IsChild(i, max) && max <= cnt && cmp(a[i - 1], a[max - 1]) <= 0)
    ensures forall c: nat | IsChild(i, c) && c <= cnt :: cmp(a[c - 1], a[max - 1]) <= 0
  {
    var left, right := 2 * i, 2 * i + 1;
    max := i;
    if left <= cnt && cmp(a[left - 1], a[max - 1]) > 0 {
      max := left;
    }
    if right <= cnt && cmp(a[right - 1], a[max - 1]) > 0 {
      max := right;
    }
  }

  method Heapify<T(!new)>(a: array<T>, i: nat, cnt: nat, cmp: Compare<T>)
    requires Preorder(cmp) && 0 < i <= cnt <= a.Length && Heap(a[..], i + 1, cnt, cmp)
    modifies a
    ensures Heap(a[..], i, cnt, cmp)
    ensures multiset(a[..cnt]) == old(multiset(a[..cnt])) && a[cnt..] == old(a[cnt..])
  {
    hide Sifting, Heap, Preorder, Swapped;
    SiftStart(a[..], i, cnt, cmp);
    var j := i;
    while true
      invariant i <= j <= cnt && Sifting(a[..], i, j, cnt, cmp)
      invariant multiset(a[..cnt]) == old(multiset(a[..cnt])) && a[cnt..] == old(a[cnt..])
      decreases cnt - j
    {
      var max := Largest(a, j, cnt, cmp);
      if max == j {
        break;
      }
      ghost var s := a[..];
      SiftDown(s, i, j, max, cnt, cmp);
      SwappedPermutes(s, j - 1, max - 1, cnt);
      Swap(a, j, max);
      assert a[..cnt] == a[..][..cnt] && a[cnt..] == a[..][cnt..];
      j := max;
    }
    SiftDone(a[..], i, j, cnt, cmp);
  }

  /** The second loop of sort: a heap of `n`, then an ascending rest that is nowhere below it. */
  ghost predicate Sorting<T>(s: seq<T>, n: nat, cmp: Compare<T>)
    requires n <= |s|
  {
    Heap(s, 1, n, cmp) && Rest(s, n, cmp)
  }

  /** Moving the maximum behind the heap. */
  lemma TakeMaxHeap<T>(s: seq<T>, n: nat, cmp: Compare<T>)
    requires 1 < n <= |s| && Heap(s, 1, n, cmp)
    ensures Heap(Swapped(s, 0, n - 1), 2, n - 1, cmp)
  {
    var t, n' := Swapped(s, 0, n - 1), n - 1;
    forall p: nat | p >= 2 ensures Above(t, p, n', cmp) {
      assert Above(s, p, n, cmp);
    }
  }

  lemma RootIsMaxOfAll<T(!new)>(s: seq<T>, n: nat, cmp: Compare<T>)
    requires Preorder(cmp) && n <= |s| && Heap(s, 1, n, cmp)
    ensures forall i | 0 <= i < n :: cmp(s[i], s[0]) <= 0
  {
    forall i | 0 <= i < n ensures cmp(s[i], s[0]) <= 0 {
      RootIsMax(s, n, cmp, i + 1);
    }
  }

  lemma TakeMaxRest<T>(s: seq<T>, n: nat, cmp: Compare<T>)
    requires 1 < n <= |s| && Rest(s, n, cmp) && forall i | 0 <= i < n :: cmp(s[i], s[0]) <= 0
    ensures Rest(Swapped(s, 0, n - 1), n - 1, cmp)
  {
    var t, n' := Swapped(s, 0, n - 1), n - 1;
    forall i, j | 0 <= i < n' <= j < |t| ensures cmp(t[i], t[j]) <= 0 {
      assert t[i] == s[if i == 0 then n' else i] && t[j] == s[if j == n' then 0 else j];
    }
    var u, v := t[n'..], s[n..];
    assert u == [s[0]] + v;
    forall i, j | 0 <= i < j < |u| ensures cmp(u[i], u[j]) <= 0 {
      assert u[j] == v[j - 1] == s[n + j - 1];
      assert i > 0 ==> u[i] == v[i - 1];
    }
  }

  /** Rearranging the part in front of the rest. */
  lemma FrontPermuted<T>(s: seq<T>, t: seq<T>, n: nat, cmp: Compare<T>)
    requires n <= |s| == |t| && multiset(s[..n]) == multiset(t[..n]) && s[n..] == t[n..]
    requires forall i, j | 0 <= i < n <= j < |s| :: cmp(s[i], s[j]) <= 0
    ensures forall i, j | 0 <= i < n <= j < |t| :: cmp(t[i], t[j]) <= 0
  {
    forall i, j | 0 <= i < n <= j < |t| ensures cmp(t[i], t[j]) <= 0 {
      assert t[i] == t[..n][i] && t[i] in multiset(t[..n]);
      assert t[i] in multiset(s[..n]);
      var k :| 0 <= k < n && s[..n][k] == t[i];
      assert t[j] == t[n..][j - n] == s[n..][j - n] == s[j];
    }
  }

  lemma WholePermuted<T>(s: seq<T>, t: seq<T>, n: nat)
    requires n <= |s| == |t| && multiset(s[..n]) == multiset(t[..n]) && s[n..] == t[n..]
    ensures multiset(s) == multiset(t)
  {
    assert s == s[..n] + s[n..] && t == t[..n] + t[n..];
  }

  /** The first loop of sort. */
  method BuildHeap<T(!new)>(a: array<T>, cmp: Compare<T>)
    requires Preorder(cmp)
    modifies a
    ensures Heap(a[..], 1, a.Length, cmp) && multiset(a[..]) == old(multiset(a[..]))
  {
    var cnt := a.Length;
    var i := cnt / 2;
    while i > 0
      invariant 0 <= i <= cnt / 2 && Heap(a[..], i + 1, cnt, cmp)
      invariant multiset(a[..]) == old(multiset(a[..]))
    {
      ghost var s := a[..];
      Heapify(a, i, cnt, cmp);
      assert a[..] == a[..cnt] && s == s[..cnt];
      i := i - 1;
    }
  }

  /** A rest of `n` on: ascending, and nowhere below what is in front of it. */
  ghost predicate Rest<T>(s: seq<T>, n: nat, cmp: Compare<T>)
    requires n <= |s|
  {
    Ascending(s[n..], cmp) && forall i, j | 0 <= i < n <= j < |s| :: cmp(s[i], s[j]) <= 0
  }

  lemma RestKept<T>(s: seq<T>, t: seq<T>, n: nat, cmp: Compare<T>)
    requires n <= |s| == |t| && multiset(s[..n]) == multiset(t[..n]) && s[n..] == t[n..] && Rest(s, n, cmp)
    ensures Rest(t, n, cmp) && multiset(s) == multiset(t)
  {
    FrontPermuted(s, t, n, cmp);
    WholePermuted(s, t, n);
  }

  /** The body of the second loop. */
  method SortStep<T(!new)>(a: array<T>, i: nat, cmp: Compare<T>)
    requires Preorder(cmp) && 1 < i <= a.Length && Sorting(a[..], i, cmp)
    modifies a
    ensures Sorting(a[..], i - 1, cmp) && multiset(a[..]) == old(multiset(a[..]))
  {
    SwapMax(a, i, cmp);
    SinkFirst(a, i - 1, cmp);
  }

  method SwapMax<T(!new)>(a: array<T>, i: nat, cmp: Compare<T>)
    requires Preorder(cmp) && 1 < i <= a.Length && Sorting(a[..], i, cmp)
    modifies a
    ensures Heap(a[..], 2, i - 1, cmp) && Rest(a[..], i - 1, cmp) && multiset(a[..]) == old(multiset(a[..]))
  {
    TakeMaxHeap(a[..], i, cmp);
    RootIsMaxOfAll(a[..], i, cmp);
    TakeMaxRest(a[..], i, cmp);
    SwappedPermutes(a[..], 0, i - 1, i);
    WholePermuted(a[..], Swapped(a[..], 0, i - 1), i);
    Swap(a, 1, i);
  }

  method SinkFirst<T(!new)>(a: array<T>, n: nat, cmp: Compare<T>)
    requires Preorder(cmp) && 0 < n <= a.Length && Heap(a[..], 2, n, cmp) && Rest(a[..], n, cmp)
    modifies a
    ensures Sorting(a[..], n, cmp) && multiset(a[..]) == old(multiset(a[..]))
  {
    ghost var s := a[..];
    assert s[..n] == a[..n] && s[n..] == a[n..];
    Heapify(a, 1, n, cmp);
    assert a[..][..n] == a[..n] && a[..][n..] == a[n..];
    RestKept(s, a[..], n, cmp);
  }

  /** sort: an ascending rearrangement, in place. */
  method Sort<T(!new)>(a: array<T>, cmp: Compare<T>)
    requires Preorder(cmp)
    modifies a
    ensures Ascending(a[..], cmp) && multiset(a[..]) == old(multiset(a[..]))
  {
    BuildHeap(a, cmp);
    var i := a.Length;
    while i > 1
      invariant 0 <= i <= a.Length && Sorting(a[..], i, cmp)
      invariant multiset(a[..]) == old(multiset(a[..]))
    {
      SortStep(a, i, cmp);
      i := i - 1;
    }
    SortedAtLast(a[..], i, cmp);
  }

  lemma SortedAtLast<T>(s: seq<T>, n: nat, cmp: Compare<T>)
    requires n <= 1 && n <= |s| && Sorting(s, n, cmp)
    ensures Ascending(s, cmp)
  {
    forall i, j | 0 <= i < j < |s| ensures cmp(s[i], s[j]) <= 0 {
      if i >= n {
        assert s[i] == s[n..][i - n] && s[j] == s[n..][j - n];
      }
    }
  }

  /** binary_search: the index of a match, exactly when there is one. */
  method BinarySearch<T(!new)>(key: T, a: array<T>, cmp: Compare<T>) returns (r: Option<nat>)
    requires Preorder(cmp) && Ascending(a[..], cmp)
    ensures r.Some? ==> r.value < a.Length && cmp(key, a[r.value]) == 0
    ensures r.None? ==> forall i | 0 <= i < a.Length :: cmp(key, a[i]) != 0
  {
    var first, last := 0, a.Length;
    while first < last
      invariant 0 <= first <= last <= a.Length
      invariant forall i | 0 <= i < first :: cmp(key, a[i]) > 0
      invariant forall i | last <= i < a.Length :: cmp(key, a[i]) < 0
    {
      var range := last - first;
      var middle := first + range / 2;
      var c := cmp(key, a[middle]);
      if c < 0 {
        Further(key, a[..], middle, cmp);
        last := middle;
      } else if c > 0 {
        Further(key, a[..], middle, cmp);
        first := middle + 1;
      } else {
        return Some(middle);
      }
    }
    r := None;
  }

  lemma Chain<T(!new)>(key: T, x: T, y: T, cmp: Compare<T>)
    requires Preorder(cmp) && cmp(x, y) <= 0
    ensures cmp(key, x) < 0 ==> cmp(key, y) < 0
    ensures cmp(key, y) > 0 ==> cmp(key, x) > 0
  {
    assert cmp(key, y) < 0 <==> cmp(y, key) > 0;
    assert cmp(key, x) < 0 <==> cmp(x, key) > 0;
  }

  /** A key below (above) an element is below (above) all that follow (precede) it. */
  lemma Further<T(!new)>(key: T, s: seq<T>, m: nat, cmp: Compare<T>)
    requires Preorder(cmp) && Ascending(s, cmp) && m < |s|
    ensures cmp(key, s[m]) < 0 ==> forall i | m <= i < |s| :: cmp(key, s[i]) < 0
    ensures cmp(key, s[m]) > 0 ==> forall i | 0 <= i <= m :: cmp(key, s[i]) > 0
  {
    forall i | m < i < |s| ensures cmp(key, s[m]) < 0 ==> cmp(key, s[i]) < 0 {
      Chain(key, s[m], s[i], cmp);
    }
    forall i | 0 <= i < m ensures cmp(key, s[m]) > 0 ==> cmp(key, s[i]) > 0 {
      Chain(key, s[i], s[m], cmp);
    }
  }
}
