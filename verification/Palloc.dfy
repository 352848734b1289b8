/** The page allocator: two pools of pages, each with a bitmap of the used ones (threads/palloc.c). */
module PageAllocator {
  import opened KernelBitmap
  import opened Vaddr

  /** A memory pool. Its base is a page-aligned kernel address, so it is not null. */
  datatype Pool = Pool(usedMap: Bitmap, base: nat)

  /** A group of contiguous pages, by page number. */
  datatype Extent = Extent(page: nat, cnt: nat)

  ghost predicate Disjoint(a: Extent, b: Extent) {
    a.page + a.cnt <= b.page || b.page + b.cnt <= a.page
  }

  predicate PageFromPool(pool: Pool, page: nat) {
    PgNo(pool.base) <= PgNo(page) < PgNo(pool.base) + pool.usedMap.bitCnt
  }

  ghost predicate InPool(pool: Pool, r: Extent) {
    PgNo(pool.base) <= r.page && r.page + r.cnt <= PgNo(pool.base) + pool.usedMap.bitCnt
  }

  /** All pages of `r`, if it lies in `pool`, are marked in `used`, that pool's bitmap. */
  ghost predicate Marked(pool: Pool, used: seq<bool>, r: Extent) {
    InPool(pool, r) ==> AllAre(used, r.page - PgNo(pool.base), r.cnt, true)
  }

  /** Filling other pages keeps a group marked; so does marking more. */
  lemma MarkedKept(pool: Pool, used: seq<bool>, r: Extent, idx: nat, cnt: nat, v: bool)
    requires Marked(pool, used, r) && idx + cnt <= |used|
    requires v || Disjoint(r, Extent(PgNo(pool.base) + idx, cnt))
    ensures Marked(pool, Filled(used, idx, cnt, v), r)
  {
  }

  // ---------- what the used bits are for ----------

  predicate InExtent(e: Extent, p: nat) { e.page <= p < e.page + e.cnt }

  ghost predicate InRuns(runs: set<Extent>, p: nat) {
    exists r | r in runs :: InExtent(r, p)
  }

  /** A page is marked exactly if it was so at boot or belongs to an outstanding group. */
  ghost predicate Accounted(pool: Pool, used: seq<bool>, runs: set<Extent>, reserved: set<nat>) {
    forall i: nat | i < |used| :: used[i] <==> PgNo(pool.base) + i in reserved || InRuns(runs, PgNo(pool.base) + i)
  }

  /** No outstanding group has a page that was marked at boot. */
  ghost predicate ReservedApart(runs: set<Extent>, reserved: set<nat>) {
    forall r, p | r in runs && p in reserved :: !InExtent(r, p)
  }

  lemma InMoreRuns(runs: set<Extent>, e: Extent, p: nat)
    ensures InRuns(runs + {e}, p) <==> InRuns(runs, p) || InExtent(e, p)
  {
    if InRuns(runs, p) {
      var r :| r in runs && InExtent(r, p);
      assert r in runs + {e};
    }
    assert e in runs + {e};
  }

  lemma InFewerRuns(runs: set<Extent>, e: Extent, p: nat)
    requires e in runs && forall r | r in runs && r != e :: Disjoint(r, e)
    ensures InRuns(runs - {e}, p) <==> InRuns(runs, p) && !InExtent(e, p)
  {
    if InRuns(runs, p) && !InExtent(e, p) {
      var r :| r in runs && InExtent(r, p);
      assert r in runs - {e};
    }
  }

  lemma AccountedTake(pool: Pool, used: seq<bool>, runs: set<Extent>, reserved: set<nat>, idx: nat, cnt: nat)
    requires Accounted(pool, used, runs, reserved) && idx + cnt <= |used|
    ensures Accounted(pool, Filled(used, idx, cnt, true), runs + {Extent(PgNo(pool.base) + idx, cnt)}, reserved)
  {
    var e, used' := Extent(PgNo(pool.base) + idx, cnt), Filled(used, idx, cnt, true);
    forall i: nat | i < |used'|
      ensures used'[i] <==> PgNo(pool.base) + i in reserved || InRuns(runs + {e}, PgNo(pool.base) + i)
    {
      InMoreRuns(runs, e, PgNo(pool.base) + i);
      assert used'[i] == (used[i] || InExtent(e, PgNo(pool.base) + i));
    }
  }

  lemma AccountedFree(pool: Pool, used: seq<bool>, runs: set<Extent>, reserved: set<nat>, idx: nat, cnt: nat)
    requires Accounted(pool, used, runs, reserved) && idx + cnt <= |used| && ReservedApart(runs, reserved)
    requires var e := Extent(PgNo(pool.base) + idx, cnt); e in runs && forall r | r in runs && r != e :: Disjoint(r, e)
    ensures Accounted(pool, Filled(used, idx, cnt, false), runs - {Extent(PgNo(pool.base) + idx, cnt)}, reserved)
  {
    var e, used' := Extent(PgNo(pool.base) + idx, cnt), Filled(used, idx, cnt, false);
    forall i: nat | i < |used'|
      ensures used'[i] <==> PgNo(pool.base) + i in reserved || InRuns(runs - {e}, PgNo(pool.base) + i)
    {
      InFewerRuns(runs, e, PgNo(pool.base) + i);
      assert used'[i] == (used[i] && !InExtent(e, PgNo(pool.base) + i));
    }
  }

  /** A group of the other pool does not matter. */
  lemma AccountedOtherTake(pool: Pool, used: seq<bool>, runs: set<Extent>, reserved: set<nat>, e: Extent)
    requires Accounted(pool, used, runs, reserved) && |used| == pool.usedMap.bitCnt
    requires Disjoint(e, Extent(PgNo(pool.base), pool.usedMap.bitCnt))
    ensures Accounted(pool, used, runs + {e}, reserved)
  {
    forall i: nat | i < |used|
      ensures used[i] <==> PgNo(pool.base) + i in reserved || InRuns(runs + {e}, PgNo(pool.base) + i)
    {
      InMoreRuns(runs, e, PgNo(pool.base) + i);
    }
  }

  lemma AccountedOtherFree(pool: Pool, used: seq<bool>, runs: set<Extent>, reserved: set<nat>, e: Extent)
    requires Accounted(pool, used, runs, reserved) && |used| == pool.usedMap.bitCnt
    requires Disjoint(e, Extent(PgNo(pool.base), pool.usedMap.bitCnt))
    requires e in runs && forall r | r in runs && r != e :: Disjoint(r, e)
    ensures Accounted(pool, used, runs - {e}, reserved)
  {
    forall i: nat | i < |used|
      ensures used[i] <==> PgNo(pool.base) + i in reserved || InRuns(runs - {e}, PgNo(pool.base) + i)
    {
      InFewerRuns(runs, e, PgNo(pool.base) + i);
    }
  }

  class Palloc {
    const kernel: Pool
    const user: Pool
    ghost const reserved: set<nat>  // pages marked before the first allocation
    ghost var runs: set<Extent>  // handed out and not yet freed

    ghost predicate PoolsValid() reads kernel.usedMap.bits, user.usedMap.bits {
      && kernel.usedMap.Valid() && user.usedMap.Valid()
      && kernel.usedMap.bits != user.usedMap.bits
      && kernel.base > 0 && user.base > 0 && PgOfs(kernel.base) == 0 && PgOfs(user.base) == 0
      && Disjoint(PoolExtent(kernel), PoolExtent(user))
    }

    static ghost function PoolExtent(p: Pool): Extent { Extent(PgNo(p.base), p.usedMap.bitCnt) }

    /** `r` is a nonempty group of used pages inside one pool. */
    ghost predicate Outstanding(usedKernel: seq<bool>, usedUser: seq<bool>, r: Extent) {
      && r.cnt > 0
      && (InPool(kernel, r) || InPool(user, r))
      && Marked(kernel, usedKernel, r) && Marked(user, usedUser, r)
    }

    /** Outstanding groups are marked in their pool and share no page, and nothing else is marked but what was at
        boot. */
    ghost predicate Valid() reads this, kernel.usedMap.bits, user.usedMap.bits {
      && PoolsValid()
      && RunsValid(UsedKernel(), UsedUser(), runs)
      && AllAccounted(UsedKernel(), UsedUser(), runs)
    }

    ghost predicate AllAccounted(usedKernel: seq<bool>, usedUser: seq<bool>, runs: set<Extent>) {
      && Accounted(kernel, usedKernel, runs, reserved) && Accounted(user, usedUser, runs, reserved)
      && ReservedApart(runs, reserved)
    }

    ghost predicate RunsValid(usedKernel: seq<bool>, usedUser: seq<bool>, runs: set<Extent>) {
      && (forall r | r in runs :: Outstanding(usedKernel, usedUser, r))
      && (forall r, s | r in runs && s in runs && r != s :: Disjoint(r, s))
    }

    ghost function UsedKernel(): seq<bool>
      reads kernel.usedMap.bits
      requires kernel.usedMap.Valid()
    {
      kernel.usedMap.Contents()
    }

    ghost function UsedUser(): seq<bool>
      reads user.usedMap.bits
      requires user.usedMap.Valid()
    {
      user.usedMap.Contents()
    }

    constructor (kernel: Pool, user: Pool)
      requires kernel.usedMap.Valid() && user.usedMap.Valid()
      requires kernel.usedMap.bits != user.usedMap.bits
      requires kernel.base > 0 && user.base > 0 && PgOfs(kernel.base) == 0 && PgOfs(user.base) == 0
      requires Disjoint(PoolExtent(kernel), PoolExtent(user))
      ensures Valid() && runs == {} && this.kernel == kernel && this.user == user
    {
      this.kernel, this.user, runs := kernel, user, {};
      reserved := MarkedPages(kernel, kernel.usedMap.Contents()) + MarkedPages(user, user.usedMap.Contents());
      new;
      BootAccounted(kernel, UsedKernel(), user, UsedUser());
      BootAccounted(user, UsedUser(), kernel, UsedKernel());
    }

    static ghost function MarkedPages(pool: Pool, used: seq<bool>): set<nat> {
      set i: nat | i < |used| && used[i] :: PgNo(pool.base) + i
    }

    static lemma BootAccounted(pool: Pool, used: seq<bool>, other: Pool, usedOther: seq<bool>)
      requires |used| == pool.usedMap.bitCnt && |usedOther| == other.usedMap.bitCnt
      requires Disjoint(PoolExtent(pool), PoolExtent(other))
      ensures Accounted(pool, used, {}, MarkedPages(pool, used) + MarkedPages(other, usedOther))
      ensures Accounted(pool, used, {}, MarkedPages(other, usedOther) + MarkedPages(pool, used))
    {
      forall i: nat | i < |used|
        ensures used[i] <==> PgNo(pool.base) + i in MarkedPages(pool, used) + MarkedPages(other, usedOther)
      {
      }
      assert MarkedPages(pool, used) + MarkedPages(other, usedOther) == MarkedPages(other, usedOther) +
          MarkedPages(pool, used);
    }

    function PoolOf(fromUser: bool): Pool { if fromUser then user else kernel }

    ghost function Used(fromUser: bool): seq<bool>
      reads kernel.usedMap.bits, user.usedMap.bits
      requires kernel.usedMap.Valid() && user.usedMap.Valid()
    {
      if fromUser then UsedUser() else UsedKernel()
    }

    /** Finds and marks the pages. */
    method TakePages(fromUser: bool, pageCnt: nat) returns (pages: nat)
      requires PoolsValid()
      modifies kernel.usedMap.bits, user.usedMap.bits
      ensures PoolsValid() && PgOfs(pages) == 0
      ensures Used(!fromUser) == old(Used(!fromUser))
      ensures pages == 0 <==> NoRun(old(Used(fromUser)), 0, pageCnt, false)
      ensures pages == 0 ==> Used(fromUser) == old(Used(fromUser))
      ensures pages != 0 ==> Taken(PoolOf(fromUser), old(Used(fromUser)), Used(fromUser), PgNo(pages), pageCnt)
    {
      var pool := PoolOf(fromUser);
      var found := pool.usedMap.ScanAndFlip(0, pageCnt, false);
      if found.BitmapError? {
        pages := 0;
      } else {
        pages := pool.base + PGSIZE * found.idx;
        PageAddress(pool.base, found.idx);
      }
    }

    /** palloc_get_multiple: 0 stands for the null pointer. */
    method GetMultiple(fromUser: bool, pageCnt: nat) returns (pages: nat)
      requires Valid()
      modifies this`runs, kernel.usedMap.bits, user.usedMap.bits
      ensures Valid() && PgOfs(pages) == 0
      ensures Used(!fromUser) == old(Used(!fromUser))
      ensures pages == 0 <==> NoRun(old(Used(fromUser)), 0, pageCnt, false)
      ensures pages == 0 ==> Used(fromUser) == old(Used(fromUser)) && runs == old(runs)
      ensures pages != 0 ==> Taken(PoolOf(fromUser), old(Used(fromUser)), Used(fromUser), PgNo(pages), pageCnt)
      ensures pages != 0 ==> runs == if pageCnt == 0 then old(runs) else old(runs) + {Extent(PgNo(pages), pageCnt)}
      ensures pages != 0 && pageCnt > 0 ==> forall r | r in old(runs) :: Disjoint(r, Extent(PgNo(pages), pageCnt))
    {
      hide Outstanding, Accounted, ReservedApart, Disjoint, Bitmap.Contents;
      ghost var k, u := UsedKernel(), UsedUser();
      pages := TakePages(fromUser, pageCnt);
      if pages != 0 {
        RunsAfterGet(fromUser, k, u, PgNo(pages) - PgNo(PoolOf(fromUser).base), pageCnt);
        AccountsAfterGet(fromUser, k, u, PgNo(pages) - PgNo(PoolOf(fromUser).base), pageCnt);
        if pageCnt > 0 {
          runs := runs + {Extent(PgNo(pages), pageCnt)};
        }
      }
    }

    /** The lowest group of free pages that fits, now marked; nothing else changed. */
    static ghost predicate Taken(pool: Pool, before: seq<bool>, after: seq<bool>, page: nat, cnt: nat) {
      && PgNo(pool.base) <= page
      && var idx := page - PgNo(pool.base);
      && IsFirstRun(before, 0, cnt, false, idx)
      && after == Filled(before, idx, cnt, true)
    }

    /** palloc_get_multiple from the kernel pool, as its kernel callers see it. */
    method GetKernel(pageCnt: nat) returns (pages: nat)
      requires Valid() && pageCnt > 0
      modifies this`runs, kernel.usedMap.bits, user.usedMap.bits
      ensures Valid() && PgOfs(pages) == 0
      ensures pages == 0 <==> NoRun(old(UsedKernel()), 0, pageCnt, false)
      ensures pages == 0 ==> runs == old(runs)
      ensures pages != 0 ==>
                && runs == old(runs) + {Extent(PgNo(pages), pageCnt)}
                && forall r | r in old(runs) :: Disjoint(r, Extent(PgNo(pages), pageCnt))
    {
      pages := GetMultiple(false, pageCnt);
    }

    /** Marking free pages keeps every group valid and makes the new one valid. */
    lemma RunsAfterGet(fromUser: bool, k: seq<bool>, u: seq<bool>, idx: nat, cnt: nat)
      requires |k| == kernel.usedMap.bitCnt && |u| == user.usedMap.bitCnt &&
               Disjoint(PoolExtent(kernel), PoolExtent(user))
      requires RunsValid(k, u, runs) && AllAre(if fromUser then u else k, idx, cnt, false)
      ensures var e := Extent(PgNo(PoolOf(fromUser).base) + idx, cnt);
              var k' := if fromUser then k else Filled(k, idx, cnt, true);
              var u' := if fromUser then Filled(u, idx, cnt, true) else u;
              && RunsValid(k', u', runs)
              && (cnt > 0 ==> RunsValid(k', u', runs + {e}) && forall r | r in runs :: Disjoint(r, e))
    {
      var pool, other, s := PoolOf(fromUser), PoolOf(!fromUser), if fromUser then u else k;
      forall r | r in runs ensures Marked(pool, Filled(s, idx, cnt, true), r) {
        MarkedKept(pool, s, r, idx, cnt, true);
      }
      if cnt > 0 {
        forall r | r in runs ensures Disjoint(r, Extent(PgNo(pool.base) + idx, cnt)) {
          FreeIsDisjoint(pool, other, s, r, idx, cnt);
        }
        NewRun(pool, s, idx, cnt);
      }
    }

    lemma AccountsAfterGet(fromUser: bool, k: seq<bool>, u: seq<bool>, idx: nat, cnt: nat)
      requires |k| == kernel.usedMap.bitCnt && |u| == user.usedMap.bitCnt &&
               Disjoint(PoolExtent(kernel), PoolExtent(user))
      requires AllAccounted(k, u, runs) && AllAre(if fromUser then u else k, idx, cnt, false)
      ensures var e := Extent(PgNo(PoolOf(fromUser).base) + idx, cnt);
              var k' := if fromUser then k else Filled(k, idx, cnt, true);
              var u' := if fromUser then Filled(u, idx, cnt, true) else u;
              AllAccounted(k', u', if cnt == 0 then runs else runs + {e})
    {
      var pool, other := PoolOf(fromUser), PoolOf(!fromUser);
      var e := Extent(PgNo(pool.base) + idx, cnt);
      var s, t := if fromUser then u else k, if fromUser then k else u;
      if cnt == 0 {
        assert Filled(s, idx, 0, true) == s;
      } else {
        AccountedTake(pool, s, runs, reserved, idx, cnt);
        AccountedOtherTake(other, t, runs, reserved, e);
        forall p | p in reserved ensures !InExtent(e, p) {
          var i := p - PgNo(pool.base);
          assert 0 <= i < |s| ==> s[i];
        }
      }
    }

    static lemma PageAddress(base: nat, idx: nat)
      requires PgOfs(base) == 0
      ensures PgOfs(base + PGSIZE * idx) == 0 && PgNo(base + PGSIZE * idx) == PgNo(base) + idx
    {
    }

    /** Free pages are no part of an outstanding group. */
    static lemma FreeIsDisjoint(pool: Pool, other: Pool, s: seq<bool>, r: Extent, idx: nat, cnt: nat)
      requires |s| == pool.usedMap.bitCnt && Disjoint(PoolExtent(pool), PoolExtent(other))
      requires InPool(pool, r) || InPool(other, r)
      requires InPool(pool, r) ==> AllAre(s, r.page - PgNo(pool.base), r.cnt, true)
      requires AllAre(s, idx, cnt, false) && cnt > 0 && r.cnt > 0
      ensures Disjoint(r, Extent(PgNo(pool.base) + idx, cnt))
    {
      if InPool(pool, r) {
        var k := r.page - PgNo(pool.base);
        assert !s[idx] && s[k];
      }
    }

    static lemma NewRun(pool: Pool, s: seq<bool>, idx: nat, cnt: nat)
      requires idx + cnt <= |s| == pool.usedMap.bitCnt
      ensures var e := Extent(PgNo(pool.base) + idx, cnt);
              InPool(pool, e) && Marked(pool, Filled(s, idx, cnt, true), e)
    {
    }

    /** palloc_free_multiple. */
    method FreeMultiple(pages: nat, pageCnt: nat)
      requires Valid() && PgOfs(pages) == 0
      requires pages == 0 || pageCnt == 0 || Extent(PgNo(pages), pageCnt) in runs
      modifies this`runs, kernel.usedMap.bits, user.usedMap.bits
      ensures Valid()
      ensures if pages == 0 || pageCnt == 0 then
                UsedKernel() == old(UsedKernel()) && UsedUser() == old(UsedUser()) && runs == old(runs)
              else
                && runs == old(runs) - {Extent(PgNo(pages), pageCnt)}
                && (if PageFromPool(kernel, pages) then
                      && UsedUser() == old(UsedUser())
                      && UsedKernel() == Filled(old(UsedKernel()), PgNo(pages) - PgNo(kernel.base), pageCnt, false)
                    else
                      && UsedKernel() == old(UsedKernel())
                      && UsedUser() == Filled(old(UsedUser()), PgNo(pages) - PgNo(user.base), pageCnt, false))
    {
      hide Accounted, ReservedApart, Bitmap.Contents;
      if pages == 0 || pageCnt == 0 {
        return;
      }
      ghost var e := Extent(PgNo(pages), pageCnt);
      ghost var k, u := UsedKernel(), UsedUser();
      assert Outstanding(k, u, e);
      var pool;
      if PageFromPool(kernel, pages) {
        pool := kernel;
      } else {
        assert PageFromPool(user, pages);
        pool := user;
      }
      var pageIdx := PgNo(pages) - PgNo(pool.base);
      var hole := pool.usedMap.Contains(pageIdx, pageCnt, false);
      assert !hole;
      AccountsAfterFree(pool == user, k, u, pageIdx, pageCnt);
      RunsAfterFree(pool == user, k, u, pageIdx, pageCnt);
      runs := runs - {e};
      pool.usedMap.SetMultiple(pageIdx, pageCnt, false);
    }

    /** Clearing one group keeps the others valid. */
    lemma RunsAfterFree(fromUser: bool, k: seq<bool>, u: seq<bool>, idx: nat, cnt: nat)
      requires |k| == kernel.usedMap.bitCnt && |u| == user.usedMap.bitCnt
      requires RunsValid(k, u, runs) && idx + cnt <= |if fromUser then u else k|
      requires Extent(PgNo(PoolOf(fromUser).base) + idx, cnt) in runs
      ensures var e := Extent(PgNo(PoolOf(fromUser).base) + idx, cnt);
              var k' := if fromUser then k else Filled(k, idx, cnt, false);
              var u' := if fromUser then Filled(u, idx, cnt, false) else u;
              RunsValid(k', u', runs - {e})
    {
      var pool, s := PoolOf(fromUser), if fromUser then u else k;
      var e := Extent(PgNo(pool.base) + idx, cnt);
      forall r | r in runs && r != e ensures Marked(pool, Filled(s, idx, cnt, false), r) {
        assert Outstanding(k, u, r) && Disjoint(r, e);
        MarkedKept(pool, s, r, idx, cnt, false);
      }
    }

    lemma AccountsAfterFree(fromUser: bool, k: seq<bool>, u: seq<bool>, idx: nat, cnt: nat)
      requires |k| == kernel.usedMap.bitCnt && |u| == user.usedMap.bitCnt &&
               Disjoint(PoolExtent(kernel), PoolExtent(user))
      requires AllAccounted(k, u, runs) && RunsValid(k, u, runs) && idx + cnt <= |if fromUser then u else k|
      requires Extent(PgNo(PoolOf(fromUser).base) + idx, cnt) in runs
      ensures var e := Extent(PgNo(PoolOf(fromUser).base) + idx, cnt);
              var k' := if fromUser then k else Filled(k, idx, cnt, false);
              var u' := if fromUser then Filled(u, idx, cnt, false) else u;
              AllAccounted(k', u', runs - {e})
    {
      var pool, other := PoolOf(fromUser), PoolOf(!fromUser);
      var s, t := if fromUser then u else k, if fromUser then k else u;
      AccountedFree(pool, s, runs, reserved, idx, cnt);
      AccountedOtherFree(other, t, runs, reserved, Extent(PgNo(pool.base) + idx, cnt));
    }
  }
}
