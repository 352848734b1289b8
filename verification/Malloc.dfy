/** The block allocator over the page allocator (threads/malloc.c). */
module BlockAllocator {
  import opened Powers
  import opened KernelBitmap
  import opened PageAllocator
  import opened Vaddr
  import opened MallocState

  const SIZE_LIMIT: nat := 0x1_0000_0000_0000_0000  // SIZE_MAX + 1

  datatype Descriptor = Descriptor(blockSize: nat, blocksPerArena: nat)

  /** DIV_ROUND_UP (size + sizeof *a, PGSIZE), every addition wrapping at SIZE_MAX. */
  function PageCount(size: nat): nat {
    ((size + HEADER) % SIZE_LIMIT + PGSIZE - 1) % SIZE_LIMIT / PGSIZE
  }

  /** A big block's pages hold the request and the header exactly when the sum does not wrap. */
  lemma PageCountEnough(size: nat)
    requires 1024 < size < SIZE_LIMIT
    ensures size + HEADER <= PGSIZE * PageCount(size) <==> size + HEADER + PGSIZE - 1 < SIZE_LIMIT
    ensures size + HEADER + PGSIZE - 1 < SIZE_LIMIT ==> PGSIZE * PageCount(size) < size + HEADER + PGSIZE
  {
  }

  /** The largest request wraps: it is given one page. */
  lemma PageCountWraps()
    ensures PageCount(SIZE_LIMIT - 1) == 1
  {
  }

  // ---------- removing the blocks of an arena from a free list ----------

  /** list_remove on a list that holds `x` once. */
  function RemoveOne(s: seq<nat>, x: nat): seq<nat> {
    if s == [] then [] else if s[0] == x then s[1..] else [s[0]] + RemoveOne(s[1..], x)
  }

  ghost function Keep(s: seq<nat>, dead: set<nat>): seq<nat> {
    if s == [] then [] else (if s[0] in dead then [] else [s[0]]) + Keep(s[1..], dead)
  }

  lemma {:induction false} KeepAll(s: seq<nat>)
    ensures Keep(s, {}) == s
  {
    if s != [] {
      KeepAll(s[1..]);
    }
  }

  lemma {:induction false} KeepWithout(s: seq<nat>, dead: set<nat>, x: nat)
    requires x !in s
    ensures Keep(s, dead + {x}) == Keep(s, dead)
  {
    if s != [] {
      KeepWithout(s[1..], dead, x);
    }
  }

  lemma {:induction false} RemoveFromKept(s: seq<nat>, dead: set<nat>, x: nat)
    requires NoDuplicates(s) && x !in dead
    ensures RemoveOne(Keep(s, dead), x) == Keep(s, dead + {x})
  {
    if s != [] {
      if s[0] == x {
        KeepWithout(s[1..], dead, x);
        assert Keep(s, dead) == [x] + Keep(s[1..], dead);
      } else {
        RemoveFromKept(s[1..], dead, x);
        if s[0] in dead {
          assert Keep(s, dead) == Keep(s[1..], dead);
        } else {
          assert Keep(s, dead)[1..] == Keep(s[1..], dead);
        }
      }
    }
  }

  lemma {:induction false} KeepIsOutside(s: seq<nat>, dead: set<nat>, a: nat)
    requires forall p | p in s :: p in dead <==> BlockToArena(p) == a
    ensures Keep(s, dead) == Outside(a, s)
  {
    if s != [] {
      assert s[0] in s;
      KeepIsOutside(s[1..], dead, a);
    }
  }

  /** On a consistent heap, an arena's blocks are the members of its free list on its page. */
  lemma DeadBlocks(h: Heap, runs: set<Extent>, a: nat, d: nat)
    requires Consistent(h, runs) && d < DESC_CNT && a in h.arenas && h.arenas[a].owner == Desc(d)
    ensures Keep(h.free[d], AllBlocks(a, d, BlocksPerArena(d))) == Outside(a, h.free[d])
  {
    forall p | p in h.free[d] ensures p in AllBlocks(a, d, BlocksPerArena(d)) <==> BlockToArena(p) == a {
      if BlockToArena(p) == a {
        BlockAmongAll(a, d, p);
      } else if p in AllBlocks(a, d, BlocksPerArena(d)) {
        IsBlockOf(a, d, p);
      }
    }
    KeepIsOutside(h.free[d], AllBlocks(a, d, BlocksPerArena(d)), a);
  }

  lemma NextDead(a: nat, d: nat, i: nat)
    ensures ArenaToBlock(a, d, i) !in AllBlocks(a, d, i)
    ensures AllBlocks(a, d, i + 1) == AllBlocks(a, d, i) + {ArenaToBlock(a, d, i)}
  {
    forall k | 0 <= k < i ensures ArenaToBlock(a, d, k) != ArenaToBlock(a, d, i) {
      BlocksApart(d, k, i);
    }
  }

  /** Every descriptor's arena has room for at least three blocks. */
  lemma ArenaNotEmpty(d: nat)
    requires d < DESC_CNT
    ensures BlocksPerArena(d) >= 3 && BlockSize(d) <= 1024
  {
    Pow2Monotone(d, 6);
    assert Pow2(6) == 64;
    DivAtLeast(PGSIZE - HEADER, BlockSize(d), 3);
  }

  class Malloc {
    const palloc: Palloc
    const descs: seq<Descriptor>  // filled in by malloc_init
    var arenas: map<nat, Arena>
    var free: seq<seq<nat>>
    ghost var live: map<nat, nat>

    ghost function Abstract(): Heap reads this { Heap(arenas, free, live) }

    ghost predicate DescsOk() {
      |descs| == DESC_CNT && forall d | 0 <= d < DESC_CNT :: descs[d] == Descriptor(BlockSize(d), BlocksPerArena(d))
    }

    ghost predicate Valid()
      reads this, palloc, palloc.kernel.usedMap.bits, palloc.user.usedMap.bits
    {
      && palloc.Valid() && DescsOk()
      && Good(Abstract(), palloc.runs)
    }

    /** malloc_init. */
    constructor (palloc: Palloc)
      requires palloc.Valid()
      ensures Valid() && this.palloc == palloc && live == map[]
    {
      this.palloc := palloc;
      var ds: seq<Descriptor>, lists: seq<seq<nat>> := [], [];
      var blockSize := 16;
      while blockSize < PGSIZE / 2
        invariant blockSize == BlockSize(|ds|) && |lists| == |ds| <= DESC_CNT
        invariant |ds| == DESC_CNT ==> blockSize == 2048
        invariant |ds| < DESC_CNT ==> blockSize <= 1024
        invariant forall d | 0 <= d < |ds| :: ds[d] == Descriptor(BlockSize(d), BlocksPerArena(d)) && lists[d] == []
        decreases DESC_CNT - |ds|
      {
        InitStep(|ds|);
        ds := ds + [Descriptor(blockSize, (PGSIZE - HEADER) / blockSize)];
        lists := lists + [[]];
        blockSize := blockSize * 2;
      }
      descs, free, arenas, live := ds, lists, map[], map[];
    }

    static lemma InitStep(n: nat)
      requires n <= DESC_CNT && BlockSize(n) < 2048
      ensures n < DESC_CNT && BlockSize(n + 1) == 2 * BlockSize(n)
      ensures n + 1 == DESC_CNT ==> BlockSize(n + 1) == 2048
      ensures n + 1 < DESC_CNT ==> BlockSize(n + 1) <= 1024
    {
      assert BlockSize(7) == 2048;
      if n + 1 < DESC_CNT {
        ArenaNotEmpty(n + 1);
      }
    }

    /** The pages that serving `size` would need from the page allocator: none if a block is free. */
    ghost function PagesNeeded(size: nat): nat
      reads this
      requires |free| == DESC_CNT
    {
      if size > 1024 then PageCount(size) else if free[DescFor(size)] == [] then 1 else 0
    }

    /** The smallest descriptor whose blocks hold `size` bytes. */
    static ghost function DescFor(size: nat): (d: nat)
      requires size <= 1024
      ensures d < DESC_CNT && size <= BlockSize(d) && (d > 0 ==> BlockSize(d - 1) < size)
    {
      assert BlockSize(6) == 1024;
      LeastDesc(size, 6)
    }

    static ghost function LeastDesc(size: nat, d: nat): (e: nat)
      requires size <= BlockSize(d)
      ensures e <= d && size <= BlockSize(e) && (e > 0 ==> BlockSize(e - 1) < size)
    {
      if d > 0 && size <= BlockSize(d - 1) then LeastDesc(size, d - 1) else d
    }

    /** The search loop over the descriptors. */
    method FindDescriptor(size: nat) returns (d: nat)
      requires DescsOk()
      ensures if size <= 1024 then d == DescFor(size) else d == DESC_CNT
    {
      d := 0;
      while d < |descs| && descs[d].blockSize < size
        invariant 0 <= d <= DESC_CNT
        invariant forall c | 0 <= c < d :: BlockSize(c) < size
      {
        d := d + 1;
      }
      assert BlockSize(6) == 1024;
      if d < DESC_CNT {
        Pow2Monotone(d, 6);
        LeastIs(size, d);
      }
    }

    static lemma LeastIs(size: nat, d: nat)
      requires size <= 1024 && size <= BlockSize(d) && (forall c | 0 <= c < d :: BlockSize(c) < size)
      ensures DescFor(size) == d
    {
      var e := DescFor(size);
      if e > d {
        Pow2Monotone(d, e - 1);
      }
    }

    /** Writes the header of a new arena at `a` and puts all its blocks on the free list. */
    method FillArena(a: nat, d: nat)
      requires DescsOk() && d < DESC_CNT == |free|
      modifies this`arenas, this`free
      ensures Abstract() == AddArena(old(Abstract()), a, d)
    {
      arenas := arenas[a := Arena(Desc(d), descs[d].blocksPerArena)];
      var i, list := 0, free[d];
      while i < descs[d].blocksPerArena
        invariant 0 <= i <= BlocksPerArena(d)
        invariant list == free[d] + BlockList(a, d, i)
      {
        list := list + [ArenaToBlock(a, d, i)];
        i := i + 1;
      }
      free := free[d := list];
    }

    /** Takes the first block off the free list. */
    method TakeFirst(d: nat, ghost size: nat) returns (p: nat)
      requires d < |free| && free[d] != [] && BlockToArena(free[d][0]) in arenas
      requires arenas[BlockToArena(free[d][0])].freeCnt > 0
      modifies this`arenas, this`free, this`live
      ensures p == old(free[d][0])
      ensures Abstract() == PopBlock(old(Abstract()), d, size)
    {
      p := free[d][0];
      var a := BlockToArena(p);
      free := free[d := free[d][1..]];
      arenas := arenas[a := arenas[a].(freeCnt := arenas[a].freeCnt - 1)];
      live := live[p := size];
    }

    /** Puts a block back, and takes all of its arena's blocks off again if none is in use. */
    method GiveBack(p: nat, d: nat) returns (empty: bool)
      requires DescsOk() && d < |free| == DESC_CNT && BlockToArena(p) in arenas
      modifies this`arenas, this`free, this`live
      ensures empty <==> old(arenas[BlockToArena(p)].freeCnt) + 1 >= BlocksPerArena(d)
      ensures Abstract() == PushBlock(old(Abstract()), p, d)
    {
      var a := BlockToArena(p);
      free := free[d := [p] + free[d]];
      arenas := arenas[a := arenas[a].(freeCnt := arenas[a].freeCnt + 1)];
      live := live - {p};
      empty := arenas[a].freeCnt >= descs[d].blocksPerArena;
    }

    method Unlink(a: nat, d: nat)
      requires DescsOk() && d < |free| == DESC_CNT && NoDuplicates(free[d])
      modifies this`free
      ensures free == old(free)[d := Keep(old(free[d]), AllBlocks(a, d, BlocksPerArena(d)))]
    {
      ghost var s := free[d];
      var i, list := 0, free[d];
      KeepAll(s);
      assert AllBlocks(a, d, 0) == {};
      while i < descs[d].blocksPerArena
        invariant 0 <= i <= BlocksPerArena(d)
        invariant free == old(free) && list == Keep(s, AllBlocks(a, d, i))
      {
        NextDead(a, d, i);
        RemoveFromKept(s, AllBlocks(a, d, i), ArenaToBlock(a, d, i));
        list := RemoveOne(list, ArenaToBlock(a, d, i));
        i := i + 1;
      }
      free := free[d := list];
    }

    /** Writes the header of a big block into its pages. */
    method PlaceBig(a: nat, pageCnt: nat, ghost size: nat)
      requires palloc.Valid() && DescsOk() && Good(AddBig(Abstract(), a, pageCnt, size), palloc.runs)
      modifies this`arenas, this`live
      ensures Valid() && live == old(live)[a + HEADER := size]
      ensures Abstract() == AddBig(old(Abstract()), a, pageCnt, size)
    {
      arenas := arenas[a := Arena(BigBlock, pageCnt)];
      live := live[a + HEADER := size];
    }

    /** Obtains the pages of a request too big for any descriptor. */
    method BigPages(ghost size: nat, pageCnt: nat) returns (a: nat)
      requires Valid() && 0 < size && size + HEADER <= PGSIZE * pageCnt
      modifies palloc`runs, palloc.kernel.usedMap.bits, palloc.user.usedMap.bits
      ensures palloc.Valid()
      ensures a == 0 <==> NoRun(old(palloc.UsedKernel()), 0, pageCnt, false)
      ensures a == 0 ==> palloc.runs == old(palloc.runs)
      ensures a != 0 ==>
                && a + HEADER !in live && Good(AddBig(Abstract(), a, pageCnt, size), palloc.runs)
                && Others(AddBig(Abstract(), a, pageCnt, size), palloc.runs) == old(Others(Abstract(), palloc.runs))
    {
      ghost var h, runs := Abstract(), palloc.runs;
      a := palloc.GetKernel(pageCnt);
      if a != 0 {
        BigServes(h, runs, a, pageCnt, size);
      }
    }

    /** Makes a new arena for the empty free list of descriptor `d`, if a page can be had. */
    method Refill(d: nat, ghost size: nat) returns (ok: bool)
      requires Valid() && d < DESC_CNT && 0 < size <= BlockSize(d) && free[d] == []
      modifies this`arenas, this`free, palloc`runs, palloc.kernel.usedMap.bits, palloc.user.usedMap.bits
      ensures palloc.Valid()
      ensures !ok <==> NoRun(old(palloc.UsedKernel()), 0, 1, false)
      ensures !ok ==> Abstract() == old(Abstract()) && palloc.runs == old(palloc.runs)
      ensures ok ==> Ready(Abstract(), palloc.runs, d, size) && live == old(live)
      ensures Others(Abstract(), palloc.runs) == old(Others(Abstract(), palloc.runs))
    {
      ghost var h, runs := Abstract(), palloc.runs;
      var a := palloc.GetKernel(1);
      if a == 0 {
        return false;
      }
      NewArenaServes(h, runs, a, d, size);
      FillArena(a, d);
      ok := true;
    }

    /** A request served from the free list of descriptor `d`, after a new arena if it is empty. */
    method AllocateSmall(size: nat, d: nat) returns (p: nat)
      requires Valid() && d < DESC_CNT && 0 < size <= BlockSize(d)
      modifies this`arenas, this`free, this`live, palloc`runs, palloc.kernel.usedMap.bits, palloc.user.usedMap.bits
      ensures Valid()
      ensures p == 0 <==> old(free[d]) == [] && NoRun(old(palloc.UsedKernel()), 0, 1, false)
      ensures p == 0 ==> Abstract() == old(Abstract()) && palloc.runs == old(palloc.runs)
      ensures p != 0 ==> p !in old(live) && live == old(live)[p := size]
      ensures Others(Abstract(), palloc.runs) == old(Others(Abstract(), palloc.runs))
    {
      if free[d] == [] {
        var ok := Refill(d, size);
        if !ok {
          return 0;
        }
      } else {
        PopServes(Abstract(), palloc.runs, d, size);
      }
      p := TakeFirst(d, size);
    }

    /** malloc: 0 stands for the null pointer. Requests so large that the page count wraps are
        excluded; PageCountEnough shows that those are exactly the ones not served properly. */
    method Allocate(size: nat) returns (p: nat)
      requires Valid() && size + HEADER + PGSIZE - 1 < SIZE_LIMIT
      modifies this`arenas, this`free, this`live, palloc`runs, palloc.kernel.usedMap.bits, palloc.user.usedMap.bits
      ensures Valid()
      ensures p == 0 <==>
                || size == 0
                || (old(PagesNeeded(size)) > 0 && NoRun(old(palloc.UsedKernel()), 0, old(PagesNeeded(size)), false))
      ensures p == 0 ==> Abstract() == old(Abstract()) && palloc.runs == old(palloc.runs)
      ensures p != 0 ==> p !in old(live) && live == old(live)[p := size]
      ensures Others(Abstract(), palloc.runs) == old(Others(Abstract(), palloc.runs))
    {
      if size == 0 {
        return 0;
      }
      var d := FindDescriptor(size);
      if d == |descs| {
        PageCountEnough(size);
        var a := BigPages(size, PageCount(size));
        if a == 0 {
          return 0;
        }
        PlaceBig(a, PageCount(size), size);
        p := a + HEADER;
      } else {
        p := AllocateSmall(size, d);
      }
    }

    method RemoveArena(a: nat, d: nat)
      requires DescsOk() && d < |free| == DESC_CNT && NoDuplicates(free[d])
      modifies this`arenas, this`free
      ensures Abstract() == Emptied(old(Abstract()), a, d)
    {
      Unlink(a, d);
      arenas := arenas - {a};
    }

    method FreeBig(p: nat)
      requires Valid() && p in live && BlockToArena(p) in arenas && arenas[BlockToArena(p)].owner.BigBlock?
      modifies this`arenas, this`live, palloc`runs, palloc.kernel.usedMap.bits, palloc.user.usedMap.bits
      ensures Valid() && live == old(live) - {p}
      ensures Others(Abstract(), palloc.runs) == old(Others(Abstract(), palloc.runs))
    {
      hide Consistent, Trimmed, Bitmap.Contents;
      ghost var h, runs := Abstract(), palloc.runs;
      var a := BlockToArena(p);
      LiveArena(h, runs, p);
      BigFreeServes(h, runs, a);
      var cnt := arenas[a].freeCnt;
      arenas := arenas - {a};
      live := live - {p};
      palloc.FreeMultiple(a, cnt);
    }

    method FreeSmall(p: nat, d: nat)
      requires Valid() && p in live && BlockToArena(p) in arenas && arenas[BlockToArena(p)].owner == Desc(d)
      modifies this`arenas, this`free, this`live, palloc`runs, palloc.kernel.usedMap.bits, palloc.user.usedMap.bits
      ensures Valid() && live == old(live) - {p}
      ensures Others(Abstract(), palloc.runs) == old(Others(Abstract(), palloc.runs))
    {
      hide ArenasOk, LiveOk, Covered, CountsOk, Trimmed, Bitmap.Contents;
      ghost var h, runs := Abstract(), palloc.runs;
      var a := BlockToArena(p);
      LiveArena(h, runs, p);
      FreeServes(h, runs, p, d);
      var empty := GiveBack(p, d);
      if empty {
        RemoveArena(a, d);
        palloc.FreeMultiple(a, 1);
      }
    }

    /** free: of the null pointer nothing, of a live block that block and no other. */
    method Free(p: nat)
      requires Valid() && (p == 0 || p in live)
      modifies this`arenas, this`free, this`live, palloc`runs, palloc.kernel.usedMap.bits, palloc.user.usedMap.bits
      ensures Valid() && live == old(live) - {p}
      ensures Others(Abstract(), palloc.runs) == old(Others(Abstract(), palloc.runs))
      ensures live == map[] ==>
                && arenas == map[]
                && Accounted(palloc.kernel, palloc.UsedKernel(), Others(Abstract(), palloc.runs), palloc.reserved)
    {
      FreeBlock(p);
      if live == map[] {
        AllFreedAllReturned(Abstract(), palloc.runs, palloc.kernel, palloc.UsedKernel(), palloc.reserved);
      }
    }

    method FreeBlock(p: nat)
      requires Valid() && (p == 0 || p in live)
      modifies this`arenas, this`free, this`live, palloc`runs, palloc.kernel.usedMap.bits, palloc.user.usedMap.bits
      ensures Valid() && live == old(live) - {p}
      ensures Others(Abstract(), palloc.runs) == old(Others(Abstract(), palloc.runs))
    {
      if p == 0 {
        NullNotLive(Abstract(), palloc.runs);
        return;
      }
      var a := BlockToArena(p);
      LiveArena(Abstract(), palloc.runs, p);
      if arenas[a].owner.BigBlock? {
        FreeBig(p);
      } else {
        FreeSmall(p, arenas[a].owner.d);
      }
    }
  }

  /** The heap once an arena's blocks are off the free list and its header is gone. */
  ghost function Emptied(h: Heap, a: nat, d: nat): Heap
    requires d < |h.free|
  {
    h.(arenas := h.arenas - {a}, free := h.free[d := Keep(h.free[d], AllBlocks(a, d, BlocksPerArena(d)))])
  }

  /** The first free block of descriptor `d` can be handed out for `size` bytes. */
  ghost predicate Ready(h: Heap, runs: set<Extent>, d: nat, size: nat) {
    && d < |h.free| && h.free[d] != []
    && var p := h.free[d][0];
    && p != 0 && p !in h.live
    && BlockToArena(p) in h.arenas && h.arenas[BlockToArena(p)].freeCnt > 0
    && Good(PopBlock(h, d, size), runs)
    && Others(PopBlock(h, d, size), runs) == Others(h, runs)
  }

  /** Every arena but `a` has a block in use. */
  ghost predicate TrimmedBut(h: Heap, a: nat) {
    forall b | b in h.arenas && h.arenas[b].owner.Desc? && b != a ::
      h.arenas[b].freeCnt < BlocksPerArena(h.arenas[b].owner.d)
  }

  lemma PopTrims(h: Heap, runs: set<Extent>, d: nat, size: nat)
    requires Consistent(h, runs) && d < DESC_CNT && h.free[d] != [] && TrimmedBut(h, BlockToArena(h.free[d][0]))
    requires BlockToArena(h.free[d][0]) in h.arenas && h.arenas[BlockToArena(h.free[d][0])].freeCnt > 0
    ensures Trimmed(PopBlock(h, d, size)) && h.free[d][0] != 0
  {
    var p := h.free[d][0];
    assert p in h.free[d];
    var a := BlockToArena(p);
    FreeAmongBlocks(h, a, d);
    BlockInside(a, d, p);
  }

  lemma NewArenaTrims(h: Heap, runs: set<Extent>, a: nat, d: nat)
    requires Trimmed(h) && d < |h.free| && h.free[d] == [] && a !in h.arenas && d < DESC_CNT
    requires ArenasOk(AddArena(h, a, d), runs)
    ensures var h' := AddArena(h, a, d);
            h'.free[d] != [] && BlockToArena(h'.free[d][0]) == a && TrimmedBut(h', a)
  {
    ArenaNotEmpty(d);
    var h' := AddArena(h, a, d);
    assert a in h'.arenas && h'.free[d][0] == ArenaToBlock(a, d, 0);
    BlockToArenaInverts(a, d, 0);
  }

  /** Everything about taking the first free block. */
  lemma PopServes(h: Heap, runs: set<Extent>, d: nat, size: nat)
    requires Consistent(h, runs) && d < DESC_CNT && h.free[d] != [] && 0 < size <= BlockSize(d)
    requires TrimmedBut(h, BlockToArena(h.free[d][0]))
    ensures Ready(h, runs, d, size)
  {
    PopKeeps(h, runs, d, size);
    PopTrims(h, runs, d, size);
    PopOthers(h, runs, d, size);
  }

  /** Everything about a new arena whose first block is taken at once. */
  lemma NewArenaServes(h: Heap, runs: set<Extent>, a: nat, d: nat, size: nat)
    requires Good(h, runs) && RunsApart(runs) && d < DESC_CNT && 0 < size <= BlockSize(d) && h.free[d] == []
    requires a > 0 && a % PGSIZE == 0 && forall r | r in runs :: Disjoint(r, Extent(PgNo(a), 1))
    ensures Ready(AddArena(h, a, d), runs + {Extent(PgNo(a), 1)}, d, size)
    ensures Others(AddArena(h, a, d), runs + {Extent(PgNo(a), 1)}) == Others(h, runs)
  {
    FreshPages(h, runs, a, 1);
    OthersAdded(h, AddArena(h, a, d), runs, a, Arena(Desc(d), BlocksPerArena(d)));
    AddArenaKeeps(h, runs, a, d);
    NewArenaTrims(h, runs + {Extent(PgNo(a), 1)}, a, d);
    PopServes(AddArena(h, a, d), runs + {Extent(PgNo(a), 1)}, d, size);
  }

  lemma NullNotLive(h: Heap, runs: set<Extent>)
    requires Good(h, runs)
    ensures 0 !in h.live
  {
  }

  /** The arena of a live block, as free finds it. */
  lemma LiveArena(h: Heap, runs: set<Extent>, p: nat)
    requires Good(h, runs) && p in h.live
    ensures var a := BlockToArena(p);
            && a in h.arenas && a > 0 && a % PGSIZE == 0 && ExtentOf(a, h.arenas[a]) in runs
            && (h.arenas[a].owner.BigBlock? ==> p == a + HEADER && h.arenas[a].freeCnt > 0)
            && (h.arenas[a].owner.Desc? ==> h.arenas[a].owner.d < DESC_CNT && IsBlock(a, h.arenas[a].owner.d, p))
  {
  }

  /** Everything about giving a block back, and its arena if that was its last block in use. */
  lemma FreeServes(h: Heap, runs: set<Extent>, p: nat, d: nat)
    requires Good(h, runs) && p in h.live && d < DESC_CNT
    requires BlockToArena(p) in h.arenas && h.arenas[BlockToArena(p)].owner == Desc(d)
    ensures var a := BlockToArena(p); var h' := PushBlock(h, p, d);
            && NoDuplicates(h'.free[d])
            && if h.arenas[a].freeCnt + 1 >= BlocksPerArena(d) then
                 && Good(Emptied(h', a, d), runs - {Extent(PgNo(a), 1)})
                 && Others(Emptied(h', a, d), runs - {Extent(PgNo(a), 1)}) == Others(h, runs)
               else Good(h', runs) && Others(h', runs) == Others(h, runs)
  {
    var a := BlockToArena(p);
    var h' := PushBlock(h, p, d);
    PushKeeps(h, runs, p, d);
    PushOthers(h, runs, p, d);
    if h.arenas[a].freeCnt + 1 >= BlocksPerArena(d) {
      OthersDropped(h', Emptied(h', a, d), runs, a);
      DeadBlocks(h', runs, a, d);
      DropArenaKeeps(h', runs, a, d);
      assert Trimmed(DropArena(h', a, d));
    }
  }

  lemma BigServes(h: Heap, runs: set<Extent>, a: nat, cnt: nat, size: nat)
    requires Good(h, runs) && RunsApart(runs) && cnt > 0 && 0 < size && size + HEADER <= PGSIZE * cnt
    requires a > 0 && a % PGSIZE == 0 && forall r | r in runs :: Disjoint(r, Extent(PgNo(a), cnt))
    ensures Good(AddBig(h, a, cnt, size), runs + {Extent(PgNo(a), cnt)})
    ensures a + HEADER !in h.live
    ensures Others(AddBig(h, a, cnt, size), runs + {Extent(PgNo(a), cnt)}) == Others(h, runs)
  {
    FreshPages(h, runs, a, cnt);
    AddBigKeeps(h, runs, a, cnt, size);
    OthersAdded(h, AddBig(h, a, cnt, size), runs, a, Arena(BigBlock, cnt));
  }

  lemma BigFreeServes(h: Heap, runs: set<Extent>, a: nat)
    requires Good(h, runs) && a in h.arenas && h.arenas[a].owner.BigBlock?
    ensures Good(DropBig(h, a), runs - {ExtentOf(a, h.arenas[a])})
    ensures Others(DropBig(h, a), runs - {ExtentOf(a, h.arenas[a])}) == Others(h, runs)
  {
    DropBigKeeps(h, runs, a);
    OthersDropped(h, DropBig(h, a), runs, a);
  }
}
