/** Intrusive doubly linked lists with two sentinels (lib/kernel/list.c).
    Nodes live on the heap; the ghost sequence `cells` names them from head to tail. */
module KernelList {
  import opened Ordering
  import opened Merging

  class Elem {
    var prev: Elem?
    var next: Elem?

    predicate IsInterior() reads this { prev != null && next != null }
    predicate IsTail() reads this { prev != null && next == null }
  }

  ghost function First(s: seq<Elem>): Elem requires s != [] { s[0] }

  ghost function Last(s: seq<Elem>): Elem requires s != [] { s[|s| - 1] }

  type Less = (Elem, Elem) -> bool

  /** `c` with its part [i..j) moved to stand just before position `p`. */
  ghost function Moved<T>(c: seq<T>, p: nat, i: nat, j: nat): seq<T>
    requires i <= j <= |c| && (p <= i || j <= p <= |c|)
  {
    if p <= i then Swapped(c, p, i, j) else Swapped(c, i, j, p)
  }

  ghost function Reversed<T>(s: seq<T>): seq<T> {
    seq(|s|, i requires 0 <= i < |s| => s[|s| - 1 - i])
  }

  class List {
    const head: Elem
    const tail: Elem
    ghost var cells: seq<Elem>  // from head to tail, both included
    ghost var nodes: set<Elem>  // the nodes this list may touch

    static ghost predicate Distinct<T>(c: seq<T>) {
      forall i, j | 0 <= i < j < |c| :: c[i] != c[j]
    }

    static ghost predicate Linked(c: seq<Elem>)
      reads c
    {
      && (forall i {:trigger c[i].next} | 0 <= i < |c| - 1 :: c[i].next == c[i + 1])
      && (forall i {:trigger c[i].prev} | 0 < i < |c| :: c[i].prev == c[i - 1])
    }

    /** `t` follows directly on `s`. */
    static ghost predicate Joined(s: seq<Elem>, t: seq<Elem>)
      requires s != [] && t != []
      reads s, t
    {
      Last(s).next == First(t) && First(t).prev == Last(s)
    }

    static ghost predicate Within<T>(c: seq<T>, nodes: set<T>) {
      forall i | 0 <= i < |c| :: c[i] in nodes
    }

    static ghost predicate Apart<T>(s: seq<T>, t: seq<T>) {
      forall i, j | 0 <= i < |s| && 0 <= j < |t| :: s[i] != t[j]
    }

    static lemma LinksAt(c: seq<Elem>, k: nat)
      requires Linked(c) && 0 < k < |c|
      ensures c[k].prev == c[k - 1] && (k < |c| - 1 ==> c[k].next == c[k + 1])
    {
    }

    static lemma LinkedSplit(c: seq<Elem>, k: nat)
      requires 0 < k < |c| && Linked(c)
      ensures Linked(c[..k]) && Linked(c[k..]) && Joined(c[..k], c[k..])
    {
    }

    static lemma LinkedConcat(s: seq<Elem>, t: seq<Elem>)
      requires s != [] && t != []
      requires Linked(s) && Linked(t) && Joined(s, t)
      ensures Linked(s + t)
    {
    }

    static lemma DistinctSplit<T>(c: seq<T>, k: nat)
      requires k <= |c| && Distinct(c)
      ensures Distinct(c[..k]) && Distinct(c[k..]) && Apart(c[..k], c[k..])
    {
    }

    static lemma ReversedLinked(c: seq<Elem>)
      requires |c| >= 3 && Distinct(c)
      requires forall i | 1 < i < |c| - 1 :: c[i].next == c[i - 1]
      requires forall i | 1 <= i < |c| - 2 :: c[i].prev == c[i + 1]
      requires c[0].next == c[|c| - 2] && c[|c| - 2].prev == c[0]
      requires c[|c| - 1].prev == c[1] && c[1].next == c[|c| - 1]
      ensures Linked([c[0]] + Reversed(c[1..|c| - 1]) + [c[|c| - 1]])
    {
      var r := [c[0]] + Reversed(c[1..|c| - 1]) + [c[|c| - 1]];
      assert forall k | 0 < k < |c| - 1 :: r[k] == c[|c| - 1 - k];
    }

    static lemma ReversedDistinct(c: seq<Elem>, nodes: set<Elem>)
      requires |c| >= 3 && Distinct(c) && Within(c, nodes)
      ensures Within([c[0]] + Reversed(c[1..|c| - 1]) + [c[|c| - 1]], nodes)
      ensures Distinct([c[0]] + Reversed(c[1..|c| - 1]) + [c[|c| - 1]])
    {
      var r := [c[0]] + Reversed(c[1..|c| - 1]) + [c[|c| - 1]];
      assert forall k | 0 < k < |c| - 1 :: r[k] == c[|c| - 1 - k];
    }

    static lemma Parts(c: seq<Elem>, i: nat, j: nat)
      requires Linked(c) && Distinct(c) && 0 < i < j < |c|
      ensures Linked(c[..i]) && Linked(c[i..j]) && Linked(c[j..]) && Joined(c[..i], c[i..j]) && Joined(c[i..j], c[j..])
      ensures Distinct(c[..i]) && Distinct(c[i..j]) && Distinct(c[j..])
      ensures Apart(c[..i], c[i..j]) && Apart(c[..i], c[j..]) && Apart(c[i..j], c[j..])
    {
    }

    static lemma RestParts(c: seq<Elem>, i: nat, j: nat, q: nat)
      requires Distinct(c) && 0 < i < j < |c| && 0 < q < |c| - (j - i)
      requires Linked(c[..i] + c[j..])
      ensures var rest := c[..i] + c[j..];
              && Linked(rest[..q]) && Linked(rest[q..]) && Joined(rest[..q], rest[q..])
              && Distinct(rest[..q]) && Distinct(rest[q..]) && Apart(rest[..q], rest[q..])
              && Apart(rest[..q], c[i..j]) && Apart(c[i..j], rest[q..])
              && Distinct(rest[..q] + c[i..j] + rest[q..])
    {
      var rest := c[..i] + c[j..];
      LinkedSplit(rest, q);
      assert Distinct(rest);
      assert Apart(rest, c[i..j]);
    }

    static lemma MovedWithin(c: seq<Elem>, p: nat, i: nat, j: nat, nodes: set<Elem>)
      requires i <= j <= |c| && (p <= i || j <= p <= |c|) && Within(c, nodes)
      ensures Within(Moved(c, p, i, j), nodes)
    {
    }

    static lemma MovedNothing(c: seq<Elem>, p: nat, i: nat)
      requires i < |c| && p < |c|
      ensures Moved(c, p, i, i) == c
    {
    }

    static lemma MovedParts(c: seq<Elem>, p: nat, i: nat, j: nat, q: nat)
      requires 0 < i < j < |c| && 0 < p < |c| && (p < i || j <= p)
      requires q == if p < i then p else p - (j - i)
      ensures var rest := c[..i] + c[j..];
              && 0 < q < |rest| && rest[q] == c[p]
              && Moved(c, p, i, j) == rest[..q] + c[i..j] + rest[q..]
              && (rest[q - 1] == c[p - 1] || rest[q - 1] == c[i - 1])
    {
      var rest := c[..i] + c[j..];
      if p < i {
        assert rest[..q] == c[..p] && rest[q..] == c[p..i] + c[j..];
      } else {
        assert rest[..q] == c[..i] + c[j..p] && rest[q..] == c[p..];
      }
    }

    static lemma MovedEnds(c: seq<Elem>, p: nat, i: nat, j: nat)
      requires 0 < i < j < |c| && 0 < p < |c| && (p < i || j <= p)
      ensures var d := Moved(c, p, i, j);
              |d| == |c| && d[0] == c[0] && d[|c| - 1] == c[|c| - 1]
    {
    }

    ghost predicate Valid()
      reads this, nodes
    {
      && |cells| >= 2
      && Within(cells, nodes)
      && cells[0] == head && cells[|cells| - 1] == tail
      && Distinct(cells)
      && Linked(cells)
      && head.prev == null && tail.next == null
    }

    /** The elements between the sentinels. */
    ghost function Elems(): seq<Elem>
      reads this
      requires |cells| >= 2
    {
      cells[1..|cells| - 1]
    }

    constructor ()
      ensures Valid() && Elems() == []
      ensures fresh(nodes)
    {
      head := new Elem;
      tail := new Elem;
      new;
      head.prev := null;
      head.next := tail;
      tail.prev := head;
      tail.next := null;
      cells := [head, tail];
      nodes := {head, tail};
    }

    /** list_insert: the same four assignments that attach a range of one. */
    method Insert(before: Elem, elem: Elem, ghost k: nat)
      requires Valid() && 0 < k < |cells| && cells[k] == before
      requires elem !in nodes
      modifies this, nodes, elem
      ensures Valid()
      ensures cells == old(cells[..k] + [elem] + cells[k..])
      ensures nodes == old(nodes) + {elem}
    {
      assert before.IsInterior() || before.IsTail();
      ghost var c := cells;
      LinkedSplit(c, k);
      DistinctSplit(c, k);
      InsertedDistinct(c, k, elem, nodes);
      cells, nodes := c[..k] + [elem] + c[k..], nodes + {elem};
      Attach(before, elem, elem, c[..k], [elem], c[k..]);
      LinkedConcat(c[..k], [elem]);
      LinkedConcat(c[..k] + [elem], c[k..]);
    }

    static lemma InsertedDistinct(c: seq<Elem>, k: nat, e: Elem, nodes: set<Elem>)
      requires 0 < k < |c| && Distinct(c) && Within(c, nodes) && e !in nodes
      ensures Distinct(c[..k] + [e] + c[k..]) && Within(c[..k] + [e] + c[k..], nodes + {e})
      ensures Apart(c[..k], [e]) && Apart([e], c[k..])
    {
    }

    static lemma InsertedBetween(c: seq<Elem>, k: nat, e: Elem)
      requires 0 < k < |c|
      ensures (c[..k] + [e] + c[k..])[1..|c|] == c[1..|c| - 1][..k - 1] + [e] + c[1..|c| - 1][k - 1..]
    {
      var s := c[1..|c| - 1];
      assert s[..k - 1] == c[1..k] && s[k - 1..] == c[k..|c| - 1];
      assert (c[..k] + [e] + c[k..])[1..|c|] == c[1..k] + [e] + c[k..|c| - 1];
    }

    /** list_insert_ordered: the element goes just before the first one it is less than. */
    method InsertInOrder(elem: Elem, less: Less)
      requires Valid() && elem !in nodes
      modifies this, nodes, elem
      ensures Valid()
      ensures Elems() == InsertOrdered(less, old(Elems()), elem)
      ensures nodes == old(nodes) + {elem}
    {
      var e := head.next;
      ghost var s, k := Elems(), 1;
      while e != tail && !less(elem, e)
        invariant 0 < k < |cells| && e == cells[k]
        invariant forall i | 0 <= i < k - 1 :: !less(elem, s[i])
        decreases |cells| - k
      {
        assert cells[k] == s[k - 1];
        e := e.next;
        k := k + 1;
      }
      InsertOrderedAt(less, s, elem, k - 1);
      InsertedBetween(cells, k, elem);
      Insert(e, elem, k);
    }

    method Remove(elem: Elem, ghost k: nat) returns (after: Elem)
      requires Valid() && 0 < k < |cells| - 1 && cells[k] == elem
      modifies this, nodes
      ensures Valid()
      ensures cells == old(cells[..k] + cells[k + 1..])
      ensures nodes == old(nodes) - {elem}
      ensures after == cells[k]
    {
      assert elem.IsInterior();
      elem.prev.next := elem.next;
      elem.next.prev := elem.prev;
      after := elem.next;
      cells := cells[..k] + cells[k + 1..];
      nodes := nodes - {elem};
    }

    method PopFront() returns (front: Elem)
      requires Valid() && Elems() != []
      modifies this, nodes
      ensures Valid()
      ensures front == old(Elems())[0] && Elems() == old(Elems())[1..]
      ensures nodes == old(nodes) - {front}
    {
      front := head.next;
      var _ := Remove(front, 1);
    }

    /** Unlinks the range first..end, the parts around it becoming neighbours. */
    method Detach(first: Elem, end: Elem, ghost s: seq<Elem>, ghost r: seq<Elem>, ghost t: seq<Elem>)
      requires s != [] && r != [] && t != []
      requires Linked(s) && Linked(r) && Linked(t) && Joined(s, r) && Joined(r, t)
      requires Distinct(s) && Distinct(t) && Apart(s, r) && Apart(s, t) && Apart(r, t)
      requires First(r) == first && Last(r) == end
      modifies Last(s)`next, First(t)`prev
      ensures Linked(s) && Linked(r) && Linked(t) && Joined(s, t)
    {
      first.prev.next := end.next;
      end.next.prev := first.prev;
    }

    /** Links the range first..end in just before `before`. */
    method Attach(before: Elem, first: Elem, end: Elem, ghost s: seq<Elem>, ghost r: seq<Elem>, ghost t: seq<Elem>)
      requires s != [] && r != [] && t != []
      requires Linked(s) && Linked(r) && Linked(t) && Joined(s, t)
      requires Distinct(s) && Distinct(r) && Distinct(t) && Apart(s, r) && Apart(s, t) && Apart(r, t)
      requires First(r) == first && Last(r) == end && First(t) == before
      modifies Last(s)`next, First(t)`prev, first`prev, end`next
      ensures Linked(s) && Linked(r) && Linked(t) && Joined(s, r) && Joined(r, t)
    {
      first.prev := before.prev;
      end.next := before;
      before.prev.next := first;
      before.prev := end;
    }

    /** Moves [first, last) to stand just before `before`, which lies outside that range. */
    method Splice(before: Elem, first: Elem, last: Elem, ghost p: nat, ghost i: nat, ghost j: nat)
      requires Valid()
      requires 0 < p < |cells| && 0 < i <= j < |cells| && (p < i || j <= p)
      requires cells[p] == before && cells[i] == first && cells[j] == last
      modifies this`cells, nodes
      ensures Valid()
      ensures cells == Moved(old(cells), p, i, j)
    {
      LinksAt(cells, p);
      assert before.IsInterior() || before.IsTail();
      if first == last {
        MovedNothing(cells, p, i);
      } else {
        SpliceRange(before, first, last, p, i, j);
      }
    }

    /** The splice of a range that is not empty. */
    method SpliceRange(before: Elem, first: Elem, last: Elem, ghost p: nat, ghost i: nat, ghost j: nat)
      requires Valid()
      requires 0 < p < |cells| && 0 < i < j < |cells| && (p < i || j <= p)
      requires cells[p] == before && cells[i] == first && cells[j] == last
      modifies this`cells, nodes
      ensures Valid()
      ensures cells == Moved(old(cells), p, i, j)
    {
      ghost var c := cells;
      LinksAt(c, j);
      var end := last.prev;
      LinksAt(c, i);
      LinksAt(c, j - 1);
      assert first.IsInterior() && end.IsInterior();
      MovedEnds(c, p, i, j);
      cells := Moved(c, p, i, j);
      MovedWithin(c, p, i, j, nodes);
      Relink(before, first, end, c, p, i, j);
    }

    /** The two halves of a splice on the bare chain of nodes. */
    method Relink(before: Elem, first: Elem, end: Elem, ghost c: seq<Elem>, ghost p: nat, ghost i: nat, ghost j: nat)
      requires Linked(c) && Distinct(c)
      requires 0 < p < |c| && 0 < i < j < |c| && (p < i || j <= p)
      requires c[p] == before && c[i] == first && c[j - 1] == end
      modifies c
      ensures Linked(Moved(c, p, i, j)) && Distinct(Moved(c, p, i, j))
      ensures c[0].prev == old(c[0].prev) && c[|c| - 1].next == old(c[|c| - 1].next)
    {
      ghost var s, r, t := c[..i], c[i..j], c[j..];
      ghost var rest, q := s + t, if p < i then p else p - (j - i);
      ghost var u, v := rest[..q], rest[q..];
      MovedParts(c, p, i, j, q);
      Parts(c, i, j);
      assert First(t) != c[0] && Last(s) != c[|c| - 1];
      Detach(first, end, s, r, t);
      LinkedConcat(s, t);
      RestParts(c, i, j, q);
      assert First(v) != c[0] && Last(u) != c[|c| - 1];
      Attach(before, first, end, u, r, v);
      LinkedConcat(u, r);
      LinkedConcat(u + r, v);
    }

    /** The last two steps of a reversal: the sentinels, then the ends, exchange their links. */
    method SwapEnds(ghost c: seq<Elem>)
      requires |c| >= 3 && Distinct(c) && c[0] == head && c[|c| - 1] == tail
      requires head.next == c[1] && tail.prev == c[|c| - 2]
      requires forall i | 1 <= i < |c| - 1 :: c[i].prev == c[i + 1] && c[i].next == c[i - 1]
      modifies c
      ensures head.prev == old(head.prev) && tail.next == old(tail.next)
      ensures Linked([head] + Reversed(c[1..|c| - 1]) + [tail])
    {
      head.next, tail.prev := tail.prev, head.next;
      head.next.prev, tail.prev.next := tail.prev.next, head.next.prev;
      ReversedLinked(c);
    }

    /** The traversal of a reversal: every interior node exchanges its two links. */
    method FlipLinks(ghost c: seq<Elem>)
      requires |c| >= 3 && Distinct(c) && Linked(c) && c[0] == head && c[|c| - 1] == tail
      modifies c
      ensures head.next == c[1] && tail.prev == c[|c| - 2]
      ensures head.prev == old(head.prev) && tail.next == old(tail.next)
      ensures forall i | 1 <= i < |c| - 1 :: c[i].prev == c[i + 1] && c[i].next == c[i - 1]
    {
      var e := head.next;
      ghost var n, k := |c| - 1, 1;
      while e != tail
        invariant 1 <= k <= n && e == c[k]
        invariant head.next == c[1] && head.prev == old(head.prev)
        invariant tail.prev == c[n - 1] && tail.next == old(tail.next)
        invariant forall i | 1 <= i < k :: c[i].prev == c[i + 1] && c[i].next == c[i - 1]
        invariant forall i | k <= i < n :: c[i].next == c[i + 1] && c[i].prev == c[i - 1]
        decreases n - k
      {
        e.prev, e.next := e.next, e.prev;
        e := e.prev;
        k := k + 1;
      }
    }

    method Reverse()
      requires Valid()
      modifies this`cells, nodes
      ensures Valid()
      ensures |Elems()| == |old(Elems())|
      ensures forall i | 0 <= i < |Elems()| :: Elems()[i] == old(Elems())[|old(Elems())| - 1 - i]
    {
      if head.next != tail {
        ghost var c := cells;
        ReversedDistinct(c, nodes);
        cells := [head] + Reversed(c[1..|c| - 1]) + [tail];
        FlipLinks(c);
        SwapEnds(c);
      }
    }

    /** The exclusive end of the run that starts at `a` and goes no further than `b`;
        `s` names the elements before `b`, of which `a` is number `i`. */
    method FindEndOfRun(a: Elem, b: Elem, less: Less, ghost p: seq<Elem>, ghost s: seq<Elem>, ghost i: nat)
      returns (end: Elem)
      requires Valid() && p != [] && i < |s| && p + s + [b] <= cells && a == s[i]
      ensures end == cells[|p| + RunEnd(less, s, i)]
    {
      ghost var k := i + 1;
      assert cells[|p| + i] == s[i];
      end := a.next;
      while end != b && !less(end, end.prev)
        invariant i < k <= |s| && end == cells[|p| + k]
        invariant RunEnd(less, s, i) == if k < |s| && !less(s[k], s[k - 1]) then RunEnd(less, s, k) else k
        decreases |s| - k
      {
        assert cells[|p| + k] == s[k] && cells[|p| + k - 1] == s[k - 1];
        end := end.next;
        k := k + 1;
      }
      assert cells[|p| + |s|] == b;
      assert k < |s| ==> cells[|p| + k] == s[k] && cells[|p| + k - 1] == s[k - 1];
    }

    static lemma SwappedWithin<T>(p: seq<T>, x: seq<T>, q: seq<T>, a: nat, m: nat)
      requires a <= m < |x|
      ensures Swapped(p + x + q, |p| + a, |p| + m, |p| + m + 1) == p + Swapped(x, a, m, m + 1) + q
    {
      var c := p + x + q;
      assert c[..|p| + a] == p + x[..a];
      assert c[|p| + m..|p| + m + 1] == x[m..m + 1];
      assert c[|p| + a..|p| + m] == x[a..m];
      assert c[|p| + m + 1..] == x[m + 1..] + q;
    }

    static lemma SwappedCursors<T>(x: seq<T>, q: seq<T>, a: nat, b: nat)
      requires a < b < |x| && q != []
      ensures (Swapped(x, a, b, b + 1) + q)[a + 1] == (x + q)[a]
      ensures (Swapped(x, a, b, b + 1) + q)[b + 1] == (x + q)[b + 1]
    {
    }

    /** Moves `second`, the head of the second run, to stand before `first`. */
    method MoveHead(first: Elem, second: Elem, ghost p: seq<Elem>, ghost x: seq<Elem>, ghost a: nat, ghost b: nat,
                    ghost q: seq<Elem>)
      returns (next: Elem)
      requires Valid() && cells == p + x + q && p != [] && q != [] && a < b < |x|
      requires first == x[a] && second == x[b]
      modifies this`cells, nodes
      ensures Valid()
      ensures var y := Swapped(x, a, b, b + 1);
              && |y| == |x| && cells == p + y + q
              && (y + q)[a + 1] == first && (y + q)[b + 1] == next
    {
      WithinAt(p, x, q, cells);
      assert cells[|p| + a] == (x + q)[a] && cells[|p| + b] == (x + q)[b];
      next := second.next;
      assert next == cells[|p| + b + 1] == (x + q)[b + 1];
      SwappedWithin(p, x, q, a, b);
      SwappedCursors(x, q, a, b);
      Splice(first, next.prev, next, |p| + a, |p| + b, |p| + b + 1);
    }

    /** Merges the runs [a0, a1b0) and [a1b0, b1), moving nodes by splicing only;
        `x0` names the elements of both runs, of which `m` are in the first. */
    method InplaceMerge(a0: Elem, a1b0: Elem, b1: Elem, less: Less,
                        ghost p: seq<Elem>, ghost x0: seq<Elem>, ghost m: nat, ghost q: seq<Elem>)
      requires Valid() && cells == p + x0 + q && p != [] && q != [] && 0 < m < |x0|
      requires x0[0] == a0 && x0[m] == a1b0 && q[0] == b1
      modifies this`cells, nodes
      ensures Valid()
      ensures cells == p + MergeFrom(less, x0, 0, m) + q
    {
      ghost var x, a: nat, b: nat := x0, 0, m;
      var first, second := a0, a1b0;
      while first != second && second != b1
        invariant Valid()
        invariant |x| == |x0| && cells == p + x + q
        invariant a <= b <= |x|
        invariant first == (x + q)[a] && second == (x + q)[b]
        invariant MergeFrom(less, x, a, b) == MergeFrom(less, x0, 0, m)
        decreases |x| - a
      {
        WithinAt(p, x, q, cells);
        if !less(second, first) {
          first := first.next;
          a := a + 1;
        } else {
          second := MoveHead(first, second, p, x, a, b, q);
          x := Swapped(x, a, b, b + 1);
          a, b := a + 1, b + 1;
        }
      }
      WithinAt(p, x, q, cells);
      assert cells[|p| + a] == first && cells[|p| + b] == second && cells[|p| + |x|] == b1;
    }

    static lemma WithinAt<T>(p: seq<T>, x: seq<T>, q: seq<T>, c: seq<T>)
      requires c == p + x + q
      ensures forall k {:trigger (x + q)[k]} | 0 <= k < |x + q| :: c[|p| + k] == (x + q)[k]
    {
    }

    static lemma RestSplit<T>(p: seq<T>, rest: seq<T>, j: nat, t: T, c: seq<T>)
      requires c == p + rest + [t] && j <= |rest|
      ensures c == p + rest[..j] + (rest[j..] + [t]) && (rest[j..] + [t])[0] == c[|p| + j]
    {
      assert rest == rest[..j] + rest[j..];
    }

    static lemma Regroup<T>(h: T, s: seq<T>, m: seq<T>, r: seq<T>, t: T)
      ensures [h] + s + m + (r + [t]) == [h] + (s + m) + r + [t]
    {
    }

    static lemma Middle<T>(h: T, done: seq<T>, rest: seq<T>, t: T, c: seq<T>)
      requires c == [h] + done + rest + [t]
      ensures c[1..|c| - 1] == done + rest
      ensures c[1 + |done|] == (rest + [t])[0] && (rest == [] ==> done + rest == done)
    {
    }

    /** Merges the first two runs of `rest`, if there are two; `b1` is where the pass goes on. */
    method MergePair(a0: Elem, less: Less, ghost p: seq<Elem>, ghost rest: seq<Elem>) returns (last: bool, b1: Elem)
      requires Valid() && p != [] && rest != [] && cells == p + rest + [tail] && a0 == rest[0]
      modifies this`cells, nodes
      ensures Valid()
      ensures last <==> RunEnd(less, rest, 0) == |rest|
      ensures last ==> cells == old(cells)
      ensures !last ==>
                var i := RunEnd(less, rest, 0);
                var j := RunEnd(less, rest, i);
                && cells == p + MergeFrom(less, rest[..j], 0, i) + (rest[j..] + [tail])
                && b1 == (rest[j..] + [tail])[0]
    {
      ghost var i := RunEnd(less, rest, 0);
      WithinAt(p, rest, [tail], cells);
      assert cells[|p| + |rest|] == (rest + [tail])[|rest|] == tail;
      var a1b0 := FindEndOfRun(a0, tail, less, p, rest, 0);
      if a1b0 == tail {
        return true, tail;
      }
      assert a1b0 == (rest + [tail])[i];
      ghost var j := RunEnd(less, rest, i);
      b1 := FindEndOfRun(a1b0, tail, less, p, rest, i);
      RestSplit(p, rest, j, tail, cells);
      InplaceMerge(a0, a1b0, b1, less, p, rest[..j], i, rest[j..] + [tail]);
      last := false;
    }

    /** One pass: merges adjacent runs in pairs, and counts the runs it writes. */
    method MergePass(less: Less) returns (runCnt: nat)
      requires Valid()
      modifies this`cells, nodes
      ensures Valid()
      ensures Elems() == Pass(less, old(Elems()))
      ensures runCnt == PassCount(less, old(Elems()))
    {
      hide Within, Distinct;
      ghost var s0, done, rest := Elems(), [], Elems();
      var a0 := head.next;
      runCnt := 0;
      assert cells == [head] + done + rest + [tail];
      Middle(head, done, rest, tail, cells);
      assert done + Pass(less, rest) == Pass(less, s0);
      while a0 != tail
        invariant Valid()
        invariant cells == [head] + done + rest + [tail] && a0 == (rest + [tail])[0]
        invariant done + Pass(less, rest) == Pass(less, s0)
        invariant runCnt + PassCount(less, rest) == PassCount(less, s0)
        decreases |rest|
      {
        Middle(head, done, rest, tail, cells);
        runCnt := runCnt + 1;
        var last, b1 := MergePair(a0, less, [head] + done, rest);
        if last {
          Middle(head, done, rest, tail, cells);
          return;
        }
        ghost var i := RunEnd(less, rest, 0);
        ghost var j := RunEnd(less, rest, i);
        ghost var m := MergeFrom(less, rest[..j], 0, i);
        Regroup(head, done, m, rest[j..], tail);
        ConcatAssociative(done, m, Pass(less, rest[j..]));
        done, rest, a0 := done + m, rest[j..], b1;
      }
      Middle(head, done, rest, tail, cells);
    }

    /** list_sort: passes until a single run is left. */
    method Sort(less: Less)
      requires Valid() && StrictWeak(less, Elems())
      modifies this`cells, nodes
      ensures Valid()
      ensures Sorted(less, Elems())
      ensures Stable(less, old(Elems()), Elems())
      ensures Elems() == InsertAll(less, old(Elems()))
    {
      ghost var s0 := Elems();
      var runCnt := MergePass(less);
      PassHalves(less, s0);
      while runCnt > 1
        invariant Valid() && Stable(less, s0, Elems())
        invariant runCnt == Runs(less, Elems())
        decreases runCnt
      {
        ghost var s1 := Elems();
        StrictWeakStable(less, s0, s1);
        runCnt := MergePass(less);
        PassHalves(less, s1);
        StableTransitive(less, s0, s1, Elems());
      }
      StrictWeakStable(less, s0, Elems());
      OneRunIsSorted(less, Elems());
      SortIsInsertAll(less, s0, Elems());
    }
  }

  /** A stable sort builds the list that ordered insertion would have built. */
  lemma SortIsInsertAll<E>(less: (E, E) -> bool, s: seq<E>, t: seq<E>)
    requires StrictWeak(less, s) && Sorted(less, t) && Stable(less, s, t)
    ensures t == InsertAll(less, s)
  {
    InsertAllSorts(less, s);
    var u := InsertAll(less, s);
    StrictWeakStable(less, s, t);
    StrictWeakStable(less, s, u);
    forall x | x in t ensures Class(less, x, t) == Class(less, x, u) {
      MemberOf(less, s, t, x);
    }
    StableSortUnique(less, t, u);
  }
}
