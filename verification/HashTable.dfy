/** Chained hash tables that resize themselves (lib/kernel/hash.c). */
module HashTable {
  import opened Options
  import opened Powers
  import opened Bits
  import opened Ordering

  type Buckets<E> = seq<seq<E>>

  // ---------- powers of two ----------

  /** turn_off_least_1bit. */
  function TurnOff(x: nat): nat
    requires x > 0
  {
    And(x, x - 1)
  }

  lemma {:induction false} AndSelf(x: nat)
    ensures And(x, x) == x
  {
    if x > 0 {
      AndSelf(x / 2);
    }
  }

  /** Turning off the lowest bit keeps the highest, unless there is only one. */
  lemma {:induction false} TurnOffKeepsTop(x: nat, k: nat)
    requires Pow2(k) <= x < Pow2(k + 1)
    ensures x == Pow2(k) ==> TurnOff(x) == 0
    ensures x != Pow2(k) ==> Pow2(k) <= TurnOff(x) < x
  {
    if x % 2 == 1 {
      assert (x - 1) / 2 == x / 2;
      AndSelf(x / 2);
      assert TurnOff(x) == x - 1;
    } else {
      assert (x - 1) / 2 == x / 2 - 1 && (x - 1) % 2 == 1;
      assert k > 0;
      TurnOffKeepsTop(x / 2, k - 1);
      assert TurnOff(x) == 2 * TurnOff(x / 2);
    }
  }

  lemma {:induction false} TopBit(x: nat) returns (k: nat)
    requires x > 0
    ensures Pow2(k) <= x < Pow2(k + 1)
  {
    if x == 1 {
      k := 0;
    } else {
      k := TopBit(x / 2);
      k := k + 1;
    }
  }

  /** The bucket count that rehash aims for: the largest power of two that is at most max (4, cnt / 2). */
  method BestBucketCount(cnt: nat) returns (n: nat)
    ensures exists k: nat :: k >= 2 && n == Pow2(k) && n <= Want(cnt) < 2 * n
  {
    n := cnt / 2;
    if n < 4 {
      n := 4;
    }
    ghost var k := TopBit(n);
    assert k >= 2 by {
      assert Pow2(1) == 2 && Pow2(2) == 4;
    }
    while And(n, n - 1) != 0
      invariant Pow2(k) <= n <= Want(cnt) < Pow2(k + 1)
      decreases n
    {
      TurnOffKeepsTop(n, k);
      n := And(n, n - 1);
    }
    TurnOffKeepsTop(n, k);
  }

  function Want(cnt: nat): nat { if cnt / 2 < 4 then 4 else cnt / 2 }

  // ---------- buckets ----------

  /** hash & (bucket_cnt - 1). */
  function Slot(hash: nat, n: nat): nat
    requires n > 0
  {
    And(hash, n - 1)
  }

  ghost predicate Sized(n: nat) {
    exists k: nat :: k >= 2 && n == Pow2(k)
  }

  lemma SlotInRange(hash: nat, n: nat)
    requires Sized(n)
    ensures n >= 4 && Slot(hash, n) == hash % n && Slot(hash, n) < n
  {
    var k: nat :| k >= 2 && n == Pow2(k);
    Pow2Monotone(2, k);
    assert Pow2(2) == 4;
    AndLowMask(hash, k);
  }

  /** The caller's functions: `less` is a strict weak order, and equal elements hash alike. */
  ghost predicate Comparable<E(!new)>(hash: E -> nat, less: (E, E) -> bool) {
    && (forall x :: !less(x, x))
    && (forall x, y, z {:trigger less(x, y), less(y, z)} :: less(x, y) && less(y, z) ==> less(x, z))
    && (forall x, y, z {:trigger less(x, y), less(y, z)} :: less(x, z) ==> less(x, y) || less(y, z))
    && (forall x, y {:trigger hash(x), hash(y)} :: Equiv(less, x, y) ==> hash(x) == hash(y))
  }

  /** Every element is in the bucket of its hash. */
  ghost predicate Fits<E>(b: Buckets<E>, hash: E -> nat) {
    forall i, j | 0 <= i < |b| && 0 <= j < |b[i]| :: Slot(hash(b[i][j]), |b|) == i
  }

  /** No two elements of a bucket are equal. */
  ghost predicate NoEquals<E>(s: seq<E>, less: (E, E) -> bool) {
    forall j, k | 0 <= j < k < |s| :: !Equiv(less, s[j], s[k])
  }

  ghost predicate Unique<E>(b: Buckets<E>, less: (E, E) -> bool) {
    forall i | 0 <= i < |b| :: NoEquals(b[i], less)
  }

  function Flatten<E>(b: Buckets<E>): seq<E> {
    if b == [] then [] else b[0] + Flatten(b[1..])
  }

  ghost predicate Has<E>(b: Buckets<E>, x: E) {
    exists i | 0 <= i < |b| :: x in b[i]
  }

  ghost function Contents<E>(b: Buckets<E>): set<E> {
    set i, x | 0 <= i < |b| && x in b[i] :: x
  }

  ghost function Elements<E>(s: seq<E>): set<E> {
    set x | x in s
  }

  lemma InContents<E>(b: Buckets<E>, x: E)
    ensures x in Contents(b) <==> Has(b, x)
  {
    if Has(b, x) {
      var i :| 0 <= i < |b| && x in b[i];
      assert x in Contents(b);
    }
  }

  lemma {:induction false} FlattenConcat<E>(a: Buckets<E>, b: Buckets<E>)
    ensures Flatten(a + b) == Flatten(a) + Flatten(b)
  {
    if a == [] {
      assert a + b == b;
    } else {
      FlattenConcat(a[1..], b);
      assert (a + b)[1..] == a[1..] + b && (a + b)[0] == a[0];
      var x, y := Flatten(a[1..]), Flatten(b);
      assert a[0] + (x + y) == a[0] + x + y;
    }
  }

  /** Replacing one bucket. */
  lemma FlattenUpdate<E>(b: Buckets<E>, i: nat, s: seq<E>)
    requires i < |b|
    ensures Flatten(b[i := s]) == Flatten(b[..i]) + s + Flatten(b[i + 1..])
    ensures Flatten(b) == Flatten(b[..i]) + b[i] + Flatten(b[i + 1..])
  {
    var c := b[i := s];
    assert b == b[..i] + ([b[i]] + b[i + 1..]) && c == b[..i] + ([s] + b[i + 1..]);
    FlattenConcat(b[..i], [b[i]] + b[i + 1..]);
    FlattenConcat(b[..i], [s] + b[i + 1..]);
  }

  /** insert_elem: `e` goes to the front of bucket `i`. */
  function Put<E>(b: Buckets<E>, i: nat, e: E): Buckets<E>
    requires i < |b|
  {
    b[i := [e] + b[i]]
  }

  /** remove_elem of the element at place `j` of bucket `i`. */
  function Drop<E>(b: Buckets<E>, i: nat, j: nat): Buckets<E>
    requires i < |b| && j < |b[i]|
  {
    b[i := b[i][..j] + b[i][j + 1..]]
  }

  lemma PutCount<E>(b: Buckets<E>, i: nat, e: E)
    requires i < |b|
    ensures |Flatten(Put(b, i, e))| == |Flatten(b)| + 1
  {
    FlattenUpdate(b, i, [e] + b[i]);
  }

  lemma DropCount<E>(b: Buckets<E>, i: nat, j: nat)
    requires i < |b| && j < |b[i]|
    ensures |Flatten(Drop(b, i, j))| == |Flatten(b)| - 1
  {
    FlattenUpdate(b, i, b[i][..j] + b[i][j + 1..]);
  }

  lemma PutContents<E>(b: Buckets<E>, i: nat, e: E)
    requires i < |b|
    ensures Contents(Put(b, i, e)) == Contents(b) + {e}
  {
    var c := Put(b, i, e);
    forall x ensures x in Contents(c) <==> x in Contents(b) + {e} {
      if x in Contents(b) {
        var k :| 0 <= k < |b| && x in b[k];
        assert x in c[k];
      }
      assert e in c[i];
    }
  }

  lemma PutFits<E>(b: Buckets<E>, hash: E -> nat, i: nat, e: E)
    requires i < |b| && Fits(b, hash) && Slot(hash(e), |b|) == i
    ensures Fits(Put(b, i, e), hash)
  {
    var c := Put(b, i, e);
    forall k, j | 0 <= k < |c| && 0 <= j < |c[k]| ensures Slot(hash(c[k][j]), |c|) == k {
      if k == i && j > 0 {
        assert c[k][j] == b[k][j - 1];
      }
    }
  }

  lemma PutUnique<E>(b: Buckets<E>, less: (E, E) -> bool, i: nat, e: E)
    requires i < |b| && Unique(b, less) && forall j | 0 <= j < |b[i]| :: !Equiv(less, b[i][j], e)
    ensures Unique(Put(b, i, e), less)
  {
  }

  lemma DropFits<E>(b: Buckets<E>, hash: E -> nat, i: nat, j: nat)
    requires i < |b| && j < |b[i]| && Fits(b, hash)
    ensures Fits(Drop(b, i, j), hash)
  {
    var c := Drop(b, i, j);
    forall k, m | 0 <= k < |c| && 0 <= m < |c[k]| ensures Slot(hash(c[k][m]), |c|) == k {
      if k == i {
        assert c[k][m] == b[k][if m < j then m else m + 1];
      }
    }
  }

  lemma DropUnique<E>(b: Buckets<E>, less: (E, E) -> bool, i: nat, j: nat)
    requires i < |b| && j < |b[i]| && Unique(b, less)
    ensures Unique(Drop(b, i, j), less)
  {
    var s := b[i];
    var t := s[..j] + s[j + 1..];
    forall k, m | 0 <= k < m < |t| ensures !Equiv(less, t[k], t[m]) {
      assert t[k] == s[if k < j then k else k + 1] && t[m] == s[if m < j then m else m + 1];
    }
  }

  /** Equal elements of a table are one and the same. */
  lemma AtMostOneEqual<E(!new)>(b: Buckets<E>, hash: E -> nat, less: (E, E) -> bool, x: E, y: E)
    requires Comparable(hash, less) && Fits(b, hash) && Unique(b, less)
    requires Has(b, x) && Has(b, y) && Equiv(less, x, y)
    ensures x == y
  {
    var i :| 0 <= i < |b| && x in b[i];
    var k :| 0 <= k < |b| && y in b[k];
    var j :| 0 <= j < |b[i]| && b[i][j] == x;
    var m :| 0 <= m < |b[k]| && b[k][m] == y;
    assert i == Slot(hash(x), |b|) == Slot(hash(y), |b|) == k;
    assert NoEquals(b[i], less);
  }

  lemma DropContents<E(!new)>(b: Buckets<E>, hash: E -> nat, less: (E, E) -> bool, i: nat, j: nat)
    requires Comparable(hash, less) && Fits(b, hash) && Unique(b, less) && i < |b| && j < |b[i]|
    ensures Contents(Drop(b, i, j)) == Contents(b) - {b[i][j]}
  {
    var c, e := Drop(b, i, j), b[i][j];
    forall x ensures x in Contents(c) <==> x in Contents(b) && x != e {
      if x in Contents(b) && x != e {
        var k :| 0 <= k < |b| && x in b[k];
        var m :| 0 <= m < |b[k]| && b[k][m] == x;
        assert k == i ==> c[k][if m < j then m else m - 1] == x;
        assert x in c[k];
      }
      if x in Contents(c) {
        var k :| 0 <= k < |c| && x in c[k];
        var m :| 0 <= m < |c[k]| && c[k][m] == x;
        DroppedFrom(b, hash, less, i, j, k, m);
      }
    }
  }

  /** What is left after removing `b[i][j]` comes from elsewhere in the table. */
  lemma DroppedFrom<E(!new)>(b: Buckets<E>, hash: E -> nat, less: (E, E) -> bool, i: nat, j: nat, k: nat, m: nat)
    requires Comparable(hash, less) && Fits(b, hash) && Unique(b, less) && i < |b| && j < |b[i]|
    requires k < |b| && m < |Drop(b, i, j)[k]|
    ensures Drop(b, i, j)[k][m] in b[k] && Drop(b, i, j)[k][m] != b[i][j]
  {
    var n := if k == i && m >= j then m + 1 else m;
    assert Drop(b, i, j)[k][m] == b[k][n];
    assert Equiv(less, b[i][j], b[i][j]);
    assert NoEquals(b[i], less);
    assert Slot(hash(b[k][n]), |b|) == k && Slot(hash(b[i][j]), |b|) == i;
  }

  ghost predicate IsAnswer<E>(b: Buckets<E>, less: (E, E) -> bool, e: E, r: Option<E>) {
    match r
    case Some(x) => Has(b, x) && Equiv(less, x, e)
    case None => forall i, j | 0 <= i < |b| && 0 <= j < |b[i]| :: !Equiv(less, b[i][j], e)
  }

  /** A bucket without an equal of `e` means a table without one. */
  lemma OnlyInBucket<E(!new)>(b: Buckets<E>, hash: E -> nat, less: (E, E) -> bool, e: E)
    requires Comparable(hash, less) && Fits(b, hash) && Sized(|b|)
    ensures Slot(hash(e), |b|) < |b|
    ensures (forall j | 0 <= j < |b[Slot(hash(e), |b|)]| :: !Equiv(less, b[Slot(hash(e), |b|)][j], e)) ==>
            IsAnswer(b, less, e, None)
  {
    SlotInRange(hash(e), |b|);
    forall i, j | 0 <= i < |b| && 0 <= j < |b[i]| && Equiv(less, b[i][j], e) ensures i == Slot(hash(e), |b|) {
      assert Slot(hash(b[i][j]), |b|) == i;
    }
  }

  lemma {:induction false} FlattenHas<E>(b: Buckets<E>, x: E)
    ensures x in Flatten(b) <==> Has(b, x)
  {
    if b != [] {
      FlattenHas(b[1..], x);
      if Has(b, x) {
        var i :| 0 <= i < |b| && x in b[i];
        assert i > 0 ==> x in b[1..][i - 1];
      }
      if Has(b[1..], x) {
        var i :| 0 <= i < |b[1..]| && x in b[1..][i];
        assert x in b[i + 1];
      }
    }
  }

  /** No two elements of the table, laid out bucket after bucket, are equal. */
  lemma {:induction false} FlatUnique<E(!new)>(b: Buckets<E>, hash: E -> nat, less: (E, E) -> bool, i: nat)
    requires Comparable(hash, less) && Fits(b, hash) && Unique(b, less) && i <= |b|
    ensures NoEquals(Flatten(b[i..]), less)
    decreases |b| - i
  {
    if i < |b| {
      FlatUnique(b, hash, less, i + 1);
      assert b[i..][1..] == b[i + 1..];
      var s, t := b[i], Flatten(b[i + 1..]);
      forall j, k | 0 <= j < |s| && 0 <= k < |t| ensures !Equiv(less, s[j], t[k]) {
        FlattenHas(b[i + 1..], t[k]);
        var m :| 0 <= m < |b[i + 1..]| && t[k] in b[i + 1..][m];
        var n :| 0 <= n < |b[i + 1 + m]| && b[i + 1 + m][n] == t[k];
        assert Slot(hash(s[j]), |b|) == i && Slot(hash(t[k]), |b|) == i + 1 + m;
      }
      NoEqualsConcat(s, t, less);
    }
  }

  lemma NoEqualsConcat<E>(s: seq<E>, t: seq<E>, less: (E, E) -> bool)
    requires NoEquals(s, less) && NoEquals(t, less)
    requires forall j, k | 0 <= j < |s| && 0 <= k < |t| :: !Equiv(less, s[j], t[k])
    ensures NoEquals(s + t, less)
  {
  }

  /** Where the loops of rehash are: the first `m` elements are in their new buckets. */
  ghost predicate Moving<E>(flat: seq<E>, m: nat, into: Buckets<E>, hash: E -> nat, less: (E, E) -> bool)
    requires m <= |flat|
  {
    && Sized(|into|) && Fits(into, hash) && Unique(into, less) && |Flatten(into)| == m
    && Contents(into) == Elements(flat[..m])
  }

  lemma {:induction false} EmptyBuckets<E>(n: nat)
    ensures Flatten<E>(seq(n, _ => [])) == []
  {
    var b: Buckets<E> := seq(n, _ => []);
    if n > 0 {
      EmptyBuckets<E>(n - 1);
      assert b[1..] == seq(n - 1, _ => []);
    }
  }

  lemma MoveOne<E(!new)>(flat: seq<E>, m: nat, into: Buckets<E>, hash: E -> nat, less: (E, E) -> bool)
    requires m < |flat| && Moving(flat, m, into, hash, less) && NoEquals(flat, less)
    ensures Slot(hash(flat[m]), |into|) < |into|
    ensures Moving(flat, m + 1, Put(into, Slot(hash(flat[m]), |into|), flat[m]), hash, less)
  {
    var e := flat[m];
    SlotInRange(hash(e), |into|);
    var i := Slot(hash(e), |into|);
    forall j | 0 <= j < |into[i]| ensures !Equiv(less, into[i][j], e) {
      assert into[i][j] in into[i];
      InContents(into, into[i][j]);
    }
    PutFits(into, hash, i, e);
    PutUnique(into, less, i, e);
    PutCount(into, i, e);
    PutContents(into, i, e);
    assert flat[..m + 1] == flat[..m] + [e];
  }

  // ---------- the table ----------

  class Hash<E(==, !new)> {
    const hash: E -> nat
    const less: (E, E) -> bool
    var elemCnt: nat
    var buckets: Buckets<E>

    ghost predicate Valid()
      reads this
    {
      && Comparable(hash, less) && Sized(|buckets|)
      && Fits(buckets, hash) && Unique(buckets, less) && elemCnt == |Flatten(buckets)|
    }

    /** hash_init, once its malloc has succeeded. */
    constructor (hash: E -> nat, less: (E, E) -> bool)
      requires Comparable(hash, less)
      ensures Valid() && Contents(buckets) == {} && this.hash == hash && this.less == less
    {
      this.hash, this.less := hash, less;
      elemCnt := 0;
      buckets := seq(4, _ => []);
      EmptyBuckets<E>(4);
      assert Pow2(2) == 4;
    }

    /** find_bucket and find_elem: the bucket of `e`, and the place in it of an element equal to `e`. */
    method Locate(e: E) returns (i: nat, j: nat)
      requires Valid()
      ensures i < |buckets| && i == Slot(hash(e), |buckets|) && j <= |buckets[i]|
      ensures j < |buckets[i]| ==> Equiv(less, buckets[i][j], e)
      ensures j == |buckets[i]| ==> IsAnswer(buckets, less, e, None)
    {
      OnlyInBucket(buckets, hash, less, e);
      i := And(hash(e), |buckets| - 1);
      j := 0;
      while j < |buckets[i]|
        invariant j <= |buckets[i]|
        invariant forall k | 0 <= k < j :: !Equiv(less, buckets[i][k], e)
      {
        if !less(buckets[i][j], e) && !less(e, buckets[i][j]) {
          return;
        }
        j := j + 1;
      }
    }

    method Find(e: E) returns (r: Option<E>)
      requires Valid()
      ensures IsAnswer(buckets, less, e, r)
    {
      var i, j := Locate(e);
      r := if j < |buckets[i]| then Some(buckets[i][j]) else None;
    }

    method InsertElem(i: nat, e: E)
      requires Valid() && i == Slot(hash(e), |buckets|) < |buckets| && IsAnswer(buckets, less, e, None)
      modifies this
      ensures Valid() && Contents(buckets) == old(Contents(buckets)) + {e} && |buckets| == old(|buckets|)
    {
      PutFits(buckets, hash, i, e);
      PutUnique(buckets, less, i, e);
      PutCount(buckets, i, e);
      PutContents(buckets, i, e);
      elemCnt := elemCnt + 1;
      buckets := Put(buckets, i, e);
    }

    method RemoveElem(i: nat, j: nat)
      requires Valid() && i < |buckets| && j < |buckets[i]|
      modifies this
      ensures Valid() && Contents(buckets) == old(Contents(buckets)) - {old(buckets[i][j])} &&
              |buckets| == old(|buckets|)
      ensures buckets == Drop(old(buckets), i, j)
    {
      DropFits(buckets, hash, i, j);
      DropUnique(buckets, less, i, j);
      DropCount(buckets, i, j);
      DropContents(buckets, hash, less, i, j);
      elemCnt := elemCnt - 1;
      buckets := Drop(buckets, i, j);
    }

    /** rehash; `gotMemory` is whether its malloc succeeded.  The contents stay the same either way. */
    method Rehash(gotMemory: bool)
      requires Valid()
      modifies this
      ensures Valid() && Contents(buckets) == old(Contents(buckets)) && elemCnt == old(elemCnt)
      ensures gotMemory ==> |buckets| <= Want(elemCnt) < 2 * |buckets|
      ensures !gotMemory ==> buckets == old(buckets)
    {
      var n := BestBucketCount(elemCnt);
      if n != |buckets| && gotMemory {
        MoveTo(n);
      }
    }

    method MoveTo(n: nat)
      requires Valid() && Sized(n)
      modifies this`buckets
      ensures Valid() && Contents(buckets) == old(Contents(buckets)) && |buckets| == n
    {
      var was := buckets;
      ghost var flat := Flatten(was);
      FlatUnique(was, hash, less, 0);
      assert was[0..] == was;
      EmptyBuckets<E>(n);
      buckets := seq(n, _ => []);
      var i := 0;
      while i < |was|
        invariant 0 <= i <= |was| && |Flatten(was[..i])| <= |flat| && |buckets| == n
        invariant Moving(flat, |Flatten(was[..i])|, buckets, hash, less)
      {
        MoveBucket(was, i);
        i := i + 1;
      }
      assert was[..i] == was && flat[..|flat|] == flat;
      FlatContents(was);
    }

    /** The inner loop of rehash: the elements of one old bucket. */
    method MoveBucket(was: Buckets<E>, i: nat)
      requires Comparable(hash, less) && i < |was| && NoEquals(Flatten(was), less)
      requires |Flatten(was[..i])| <= |Flatten(was)| && Moving(Flatten(was), |Flatten(was[..i])|, buckets, hash, less)
      modifies this`buckets
      ensures |buckets| == old(|buckets|) && |Flatten(was[..i + 1])| <= |Flatten(was)|
      ensures Moving(Flatten(was), |Flatten(was[..i + 1])|, buckets, hash, less)
    {
      ghost var flat, m := Flatten(was), |Flatten(was[..i])|;
      FlattenUpdate(was, i, was[i]);
      FlattenNext(was, i);
      var j := 0;
      while j < |was[i]|
        invariant j <= |was[i]| && |buckets| == old(|buckets|)
        invariant Moving(flat, m + j, buckets, hash, less)
      {
        var e := was[i][j];
        assert flat[m + j] == e;
        MoveOne(flat, m + j, buckets, hash, less);
        buckets := Put(buckets, And(hash(e), |buckets| - 1), e);
        j := j + 1;
      }
    }

    /** hash_insert. */
    method Insert(e: E, gotMemory: bool) returns (found: Option<E>)
      requires Valid()
      modifies this
      ensures Valid() && IsAnswer(old(buckets), less, e, found)
      ensures Contents(buckets) == old(Contents(buckets)) + (if found.None? then {e} else {})
    {
      var i, j := Locate(e);
      if j < |buckets[i]| {
        found := Some(buckets[i][j]);
      } else {
        found := None;
        InsertElem(i, e);
      }
      Rehash(gotMemory);
    }

    /** hash_replace. */
    method Replace(e: E, gotMemory: bool) returns (found: Option<E>)
      requires Valid()
      modifies this
      ensures Valid() && IsAnswer(old(buckets), less, e, found)
      ensures Contents(buckets) == old(Contents(buckets)) - (if found.Some? then {found.value} else {}) + {e}
    {
      var i, j := Locate(e);
      found := None;
      if j < |buckets[i]| {
        found := Some(buckets[i][j]);
        NoneLeft(buckets, hash, less, i, j, e);
        RemoveElem(i, j);
      }
      InsertElem(i, e);
      Rehash(gotMemory);
    }

    /** hash_delete. */
    method Delete(e: E, gotMemory: bool) returns (found: Option<E>)
      requires Valid()
      modifies this
      ensures Valid() && IsAnswer(old(buckets), less, e, found)
      ensures Contents(buckets) == old(Contents(buckets)) - (if found.Some? then {found.value} else {})
    {
      var i, j := Locate(e);
      found := None;
      if j < |buckets[i]| {
        found := Some(buckets[i][j]);
        RemoveElem(i, j);
        Rehash(gotMemory);
      }
    }
  }

  /** A hash_iterator: its bucket, and the place in it of its element; the place before the first is -1. */
  datatype Cursor = Cursor(bucket: nat, pos: int)

  predicate At<E>(b: Buckets<E>, c: Cursor) {
    c.bucket < |b| && -1 <= c.pos < |b[c.bucket]|
  }

  /** What is still to come. */
  ghost function Rest<E>(b: Buckets<E>, c: Cursor): seq<E>
    requires At(b, c)
  {
    b[c.bucket][c.pos + 1..] + Flatten(b[c.bucket + 1..])
  }

  /** hash_first. */
  method First<E>(b: Buckets<E>) returns (c: Cursor)
    requires b != []
    ensures At(b, c) && Rest(b, c) == Flatten(b)
  {
    c := Cursor(0, -1);
  }

  /** hash_next: the next element, and none exactly at the end. */
  method Next<E>(b: Buckets<E>, c: Cursor) returns (c': Cursor, r: Option<E>)
    requires At(b, c)
    ensures r.None? <==> Rest(b, c) == []
    ensures r.Some? ==> At(b, c') && r.value == Rest(b, c)[0] && Rest(b, c') == Rest(b, c)[1..]
  {
    hide Flatten;
    var i, j := c.bucket, c.pos + 1;
    while j == |b[i]|
      invariant i < |b| && 0 <= j <= |b[i]|
      invariant b[i][j..] + Flatten(b[i + 1..]) == Rest(b, c)
      decreases |b| - i
    {
      FlattenFrom(b, i + 1);
      i := i + 1;
      if i >= |b| {
        return c, None;
      }
      j := 0;
    }
    c', r := Cursor(i, j), Some(b[i][j]);
    assert b[i][j..] == [b[i][j]] + b[i][j + 1..];
  }

  lemma FlattenFrom<E>(b: Buckets<E>, i: nat)
    requires i <= |b|
    ensures Flatten(b[i..]) == if i < |b| then b[i][0..] + Flatten(b[i + 1..]) else []
  {
    if i < |b| {
      assert b[i..][1..] == b[i + 1..];
    }
  }

  /** The iteration idiom. */
  method Iterate<E>(b: Buckets<E>) returns (all: seq<E>)
    requires b != []
    ensures all == Flatten(b)
  {
    var c := First(b);
    all := Remaining(b, c);
  }

  /** hash_next until it returns null. */
  method Remaining<E>(b: Buckets<E>, c: Cursor) returns (all: seq<E>)
    requires At(b, c)
    ensures all == Rest(b, c)
    decreases |Rest(b, c)|
  {
    hide Flatten, Rest;
    var c', r := Next(b, c);
    if r.None? {
      all := [];
    } else {
      var more := Remaining(b, c');
      all := [r.value] + more;
    }
  }

  /** What an iteration returns: every element of the table exactly once. */
  lemma IteratedOnce<E(!new)>(b: Buckets<E>, hash: E -> nat, less: (E, E) -> bool)
    requires Comparable(hash, less) && Fits(b, hash) && Unique(b, less)
    ensures Elements(Flatten(b)) == Contents(b)
    ensures forall j, k | 0 <= j < k < |Flatten(b)| :: Flatten(b)[j] != Flatten(b)[k]
  {
    FlatContents(b);
    FlatUnique(b, hash, less, 0);
    assert b[0..] == b;
    var all := Flatten(b);
    forall j, k | 0 <= j < k < |all| ensures all[j] != all[k] {
      assert !Equiv(less, all[j], all[k]) && Equiv(less, all[j], all[j]);
    }
  }

  lemma FlattenNext<E>(b: Buckets<E>, i: nat)
    requires i < |b|
    ensures Flatten(b[..i + 1]) == Flatten(b[..i]) + b[i]
  {
    assert b[..i + 1] == b[..i] + [b[i]];
    FlattenConcat(b[..i], [b[i]]);
    assert Flatten([b[i]]) == b[i] + Flatten([b[i]][1..]);
  }

  lemma FlatContents<E(!new)>(b: Buckets<E>)
    ensures Contents(b) == Elements(Flatten(b))
  {
    forall x ensures x in Contents(b) <==> x in Elements(Flatten(b)) {
      FlattenHas(b, x);
      InContents(b, x);
    }
  }

  /** Once the equal of `e` is out, nothing equal to `e` is left. */
  lemma NoneLeft<E(!new)>(b: Buckets<E>, hash: E -> nat, less: (E, E) -> bool, i: nat, j: nat, e: E)
    requires Comparable(hash, less) && Fits(b, hash) && Unique(b, less)
    requires i < |b| && j < |b[i]| && Equiv(less, b[i][j], e)
    ensures IsAnswer(Drop(b, i, j), less, e, None)
  {
    var c := Drop(b, i, j);
    forall k, m | 0 <= k < |c| && 0 <= m < |c[k]| ensures !Equiv(less, c[k][m], e) {
      DroppedFrom(b, hash, less, i, j, k, m);
      if Equiv(less, c[k][m], e) {
        assert c[k][m] in b[k] && b[i][j] in b[i];
        AtMostOneEqual(b, hash, less, c[k][m], b[i][j]);
      }
    }
  }
}
