/** Arenas, free lists and live blocks of the block allocator (threads/malloc.c), as values. */
module MallocState {
  import opened Powers
  import opened PageAllocator
  import opened Sets
  import opened Vaddr

  const HEADER: nat := 24      // sizeof (struct arena)
  const DESC_CNT: nat := 7

  /** Block size of descriptor `d`: 16, 32, ..., 1024. */
  function BlockSize(d: nat): (n: nat)
    ensures n > 0
  {
    16 * Pow2(d)
  }

  function BlocksPerArena(d: nat): nat {
    DivAtLeast(PGSIZE - HEADER, BlockSize(d), 0);
    (PGSIZE - HEADER) / BlockSize(d)
  }

  /** An arena is one page: its header, and as many blocks as fit behind it. */
  lemma ArenaIsFull(d: nat)
    ensures HEADER + BlocksPerArena(d) * BlockSize(d) <= PGSIZE < HEADER + (BlocksPerArena(d) + 1) * BlockSize(d)
  {
    DivBounds(PGSIZE - HEADER, BlockSize(d));
  }

  datatype Owner = Desc(d: nat) | BigBlock

  /** An arena header: free blocks, or the pages of a big block. */
  datatype Arena = Arena(owner: Owner, freeCnt: nat)

  datatype Heap = Heap(
    arenas: map<nat, Arena>,       // by page address
    free: seq<seq<nat>>,           // one free list per descriptor
    live: map<nat, nat>)           // allocated blocks and the sizes asked for

  /** block_to_arena: the page a block is in. */
  function BlockToArena(p: nat): nat { p - p % PGSIZE }

  /** arena_to_block. */
  function ArenaToBlock(a: nat, d: nat, idx: nat): nat { a + HEADER + idx * BlockSize(d) }

  function Pages(r: Arena): nat { if r.owner.BigBlock? then r.freeCnt else 1 }

  function ExtentOf(a: nat, r: Arena): Extent { Extent(PgNo(a), Pages(r)) }

  /** `p` is one of the blocks of an arena at `a` of descriptor `d`. */
  ghost predicate IsBlock(a: nat, d: nat, p: nat) {
    exists k: nat :: k < BlocksPerArena(d) && p == ArenaToBlock(a, d, k)
  }

  /** The bytes a live block may use. */
  ghost function Capacity(r: Arena): nat {
    if r.owner.BigBlock? then PGSIZE * r.freeCnt - (if r.freeCnt == 0 then 0 else HEADER) else BlockSize(r.owner.d)
  }

  // ---------- address arithmetic ----------

  lemma BlockFits(d: nat, k: nat)
    requires k < BlocksPerArena(d)
    ensures HEADER + (k + 1) * BlockSize(d) <= PGSIZE
  {
    var b := BlockSize(d);
    DivBounds(PGSIZE - HEADER, b);
    MulMonotone(k + 1, BlocksPerArena(d), b);
  }

  /** block_to_arena inverts arena_to_block, and the alignment that it asserts holds. */
  lemma BlockToArenaInverts(a: nat, d: nat, k: nat)
    requires a % PGSIZE == 0 && k < BlocksPerArena(d)
    ensures BlockToArena(ArenaToBlock(a, d, k)) == a
    ensures PgOfs(ArenaToBlock(a, d, k)) >= HEADER
    ensures (PgOfs(ArenaToBlock(a, d, k)) - HEADER) % BlockSize(d) == 0
  {
    BlockFits(d, k);
    var b := BlockSize(d);
    assert (k + 1) * b == k * b + b;
    var ofs := HEADER + k * b;
    assert 0 <= ofs < PGSIZE;
    assert (a + ofs) % PGSIZE == ofs;
    MulDivCancel(k, b);
    assert b * k == k * b;
  }

  /** Different blocks of one arena do not overlap. */
  lemma BlocksApart(d: nat, j: nat, k: nat)
    requires j < k
    ensures j * BlockSize(d) + BlockSize(d) <= k * BlockSize(d)
  {
    MulMonotone(j + 1, k, BlockSize(d));
    assert (j + 1) * BlockSize(d) == j * BlockSize(d) + BlockSize(d);
  }

  // ---------- sets of blocks ----------

  ghost function AllBlocks(a: nat, d: nat, n: nat): (s: set<nat>)
  {
    set k | 0 <= k < n :: ArenaToBlock(a, d, k)
  }

  lemma {:induction false} AllBlocksCount(a: nat, d: nat, n: nat)
    ensures |AllBlocks(a, d, n)| == n
  {
    if n > 0 {
      AllBlocksCount(a, d, n - 1);
      var p := ArenaToBlock(a, d, n - 1);
      forall k | 0 <= k < n - 1 ensures ArenaToBlock(a, d, k) != p {
        BlocksApart(d, k, n - 1);
      }
      assert AllBlocks(a, d, n) == AllBlocks(a, d, n - 1) + {p};
    } else {
      assert AllBlocks(a, d, 0) == {};
    }
  }

  /** The blocks of arena `a` on a free list. */
  ghost function FreeIn(a: nat, list: seq<nat>): set<nat> {
    set p | p in list && BlockToArena(p) == a
  }

  ghost predicate NoDuplicates(s: seq<nat>) {
    forall i, j | 0 <= i < j < |s| :: s[i] != s[j]
  }

  // ---------- the invariant ----------

  /** Every arena is a page-aligned group of pages obtained from the page allocator. */
  ghost predicate ArenasOk(h: Heap, runs: set<Extent>) {
    forall a | a in h.arenas ::
      && a > 0 && a % PGSIZE == 0
      && ExtentOf(a, h.arenas[a]) in runs
      && (h.arenas[a].owner.Desc? ==> h.arenas[a].owner.d < DESC_CNT)
      && (h.arenas[a].owner.BigBlock? ==> h.arenas[a].freeCnt > 0)
  }

  /** Free lists hold, without repetition, blocks of arenas of their descriptor. */
  ghost predicate FreeOk(h: Heap) {
    && |h.free| == DESC_CNT
    && (forall d | 0 <= d < DESC_CNT :: NoDuplicates(h.free[d]))
    && (forall d, p | 0 <= d < DESC_CNT && p in h.free[d] ::
          var a := BlockToArena(p);
          a in h.arenas && h.arenas[a].owner == Desc(d) && IsBlock(a, d, p))
  }

  /** Live blocks are blocks of some arena, large enough, and on no free list. */
  ghost predicate LiveOk(h: Heap)
    requires |h.free| == DESC_CNT
  {
    forall p | p in h.live ::
      var a := BlockToArena(p);
      && a in h.arenas
      && 0 < h.live[p] <= Capacity(h.arenas[a])
      && match h.arenas[a].owner
         case Desc(d) => d < DESC_CNT && IsBlock(a, d, p) && p !in h.free[d]
         case BigBlock => p == a + HEADER
  }

  /** Nothing is lost: every block of every arena is free or live. */
  ghost predicate Covered(h: Heap)
    requires |h.free| == DESC_CNT
  {
    forall a | a in h.arenas ::
      match h.arenas[a].owner
      case Desc(d) => d < DESC_CNT && forall p | IsBlock(a, d, p) :: p in h.live || p in h.free[d]
      case BigBlock => a + HEADER in h.live
  }

  /** free_cnt counts the arena's blocks on its free list. */
  ghost predicate CountsOk(h: Heap)
    requires |h.free| == DESC_CNT
  {
    forall a | a in h.arenas && h.arenas[a].owner.Desc? && h.arenas[a].owner.d < DESC_CNT ::
      h.arenas[a].freeCnt == |FreeIn(a, h.free[h.arenas[a].owner.d])|
  }

  ghost predicate Consistent(h: Heap, runs: set<Extent>) {
    ArenasOk(h, runs) && FreeOk(h) && LiveOk(h) && Covered(h) && CountsOk(h)
  }

  /** Between calls no arena is entirely free. */
  ghost predicate Trimmed(h: Heap) {
    forall a | a in h.arenas && h.arenas[a].owner.Desc? :: h.arenas[a].freeCnt < BlocksPerArena(h.arenas[a].owner.d)
  }

  /** The state between calls. */
  ghost predicate Good(h: Heap, runs: set<Extent>) {
    Consistent(h, runs) && Trimmed(h)
  }

  // ---------- the steps of malloc and free ----------

  function BlockList(a: nat, d: nat, n: nat): seq<nat> {
    seq(n, k requires 0 <= k < n => ArenaToBlock(a, d, k))
  }

  /** A new arena: all its blocks go to the end of the free list. */
  ghost function AddArena(h: Heap, a: nat, d: nat): Heap
    requires d < |h.free|
  {
    h.(arenas := h.arenas[a := Arena(Desc(d), BlocksPerArena(d))],
       free := h.free[d := h.free[d] + BlockList(a, d, BlocksPerArena(d))])
  }

  /** The first free block is handed out. */
  ghost function PopBlock(h: Heap, d: nat, size: nat): Heap
    requires d < |h.free| && h.free[d] != [] && BlockToArena(h.free[d][0]) in h.arenas
    requires h.arenas[BlockToArena(h.free[d][0])].freeCnt > 0
  {
    var p := h.free[d][0];
    var a := BlockToArena(p);
    Heap(h.arenas[a := h.arenas[a].(freeCnt := h.arenas[a].freeCnt - 1)],
         h.free[d := h.free[d][1..]],
         h.live[p := size])
  }

  ghost function AddBig(h: Heap, a: nat, cnt: nat, size: nat): Heap {
    h.(arenas := h.arenas[a := Arena(BigBlock, cnt)], live := h.live[a + HEADER := size])
  }

  /** A block goes back to the front of its free list. */
  ghost function PushBlock(h: Heap, p: nat, d: nat): Heap
    requires d < |h.free| && BlockToArena(p) in h.arenas
  {
    var a := BlockToArena(p);
    Heap(h.arenas[a := h.arenas[a].(freeCnt := h.arenas[a].freeCnt + 1)],
         h.free[d := [p] + h.free[d]],
         h.live - {p})
  }

  /** `s` without the blocks of arena `a`. */
  ghost function Outside(a: nat, s: seq<nat>): seq<nat> {
    if s == [] then []
    else (if BlockToArena(s[0]) == a then [] else [s[0]]) + Outside(a, s[1..])
  }

  /** An arena goes back to the page allocator, its blocks leaving the free list. */
  ghost function DropArena(h: Heap, a: nat, d: nat): Heap
    requires d < |h.free|
  {
    h.(arenas := h.arenas - {a}, free := h.free[d := Outside(a, h.free[d])])
  }

  ghost function DropBig(h: Heap, a: nat): Heap {
    h.(arenas := h.arenas - {a}, live := h.live - {a + HEADER})
  }

  lemma {:induction false} OutsideMembers(a: nat, s: seq<nat>)
    ensures forall p :: p in Outside(a, s) <==> p in s && BlockToArena(p) != a
    ensures NoDuplicates(s) ==> NoDuplicates(Outside(a, s))
  {
    if s != [] {
      OutsideMembers(a, s[1..]);
      assert s == [s[0]] + s[1..];
    }
  }

  lemma IsBlockOf(a: nat, d: nat, p: nat)
    requires a % PGSIZE == 0 && IsBlock(a, d, p)
    ensures BlockToArena(p) == a
  {
    var k: nat :| k < BlocksPerArena(d) && p == ArenaToBlock(a, d, k);
    BlockToArenaInverts(a, d, k);
  }

  /** Groups of pages that start elsewhere and do not overlap cannot share an arena address. */
  ghost predicate RunsApart(runs: set<Extent>) {
    && (forall r | r in runs :: r.cnt > 0)
    && (forall r, s | r in runs && s in runs && r != s :: Disjoint(r, s))
  }

  /** Pages just obtained hold no arena yet. */
  lemma FreshPages(h: Heap, runs: set<Extent>, a: nat, cnt: nat)
    requires ArenasOk(h, runs) && RunsApart(runs) && cnt > 0
    requires forall r | r in runs :: Disjoint(r, Extent(PgNo(a), cnt))
    ensures a !in h.arenas
  {
  }

  /** A new arena's list holds each of its blocks once. */
  lemma NewBlocks(a: nat, d: nat)
    requires a % PGSIZE == 0
    ensures var n := BlocksPerArena(d); var list := BlockList(a, d, n);
            && NoDuplicates(list)
            && (forall p :: p in list <==> IsBlock(a, d, p))
            && (forall p | p in list :: BlockToArena(p) == a)
            && FreeIn(a, list) == AllBlocks(a, d, n)
  {
    var n := BlocksPerArena(d);
    var list := BlockList(a, d, n);
    forall i, j | 0 <= i < j < |list| ensures list[i] != list[j] {
      BlocksApart(d, i, j);
    }
    forall p ensures p in list <==> IsBlock(a, d, p) {
      if IsBlock(a, d, p) {
        var k: nat :| k < n && p == ArenaToBlock(a, d, k);
        assert list[k] == p;
      }
    }
    forall p | p in list ensures BlockToArena(p) == a {
      IsBlockOf(a, d, p);
    }
    forall p ensures p in FreeIn(a, list) <==> p in AllBlocks(a, d, n) {
      if p in AllBlocks(a, d, n) {
        var k :| 0 <= k < n && p == ArenaToBlock(a, d, k);
        assert list[k] == p;
      }
    }
  }

  lemma AddArenaFree(h: Heap, a: nat, d: nat)
    requires FreeOk(h) && d < DESC_CNT && a % PGSIZE == 0 && a !in h.arenas && h.free[d] == []
    ensures FreeOk(AddArena(h, a, d))
    ensures AddArena(h, a, d).free[d] == BlockList(a, d, BlocksPerArena(d))
  {
    NewBlocks(a, d);
    var h' := AddArena(h, a, d);
    assert h'.free[d] == BlockList(a, d, BlocksPerArena(d));
    forall c, p | 0 <= c < DESC_CNT && p in h'.free[c]
      ensures BlockToArena(p) in h'.arenas && h'.arenas[BlockToArena(p)].owner == Desc(c) &&
              IsBlock(BlockToArena(p), c, p)
    {
      if c != d {
        assert p in h.free[c];
      }
    }
  }

  lemma AddArenaCounts(h: Heap, a: nat, d: nat)
    requires FreeOk(h) && CountsOk(h) && d < DESC_CNT && a % PGSIZE == 0 && a !in h.arenas && h.free[d] == []
    ensures CountsOk(AddArena(h, a, d))
  {
    AddArenaFree(h, a, d);
    NewBlocks(a, d);
    AllBlocksCount(a, d, BlocksPerArena(d));
    var h' := AddArena(h, a, d);
    forall b | b in h'.arenas && h'.arenas[b].owner.Desc? && h'.arenas[b].owner.d < DESC_CNT
      ensures h'.arenas[b].freeCnt == |FreeIn(b, h'.free[h'.arenas[b].owner.d])|
    {
      if b != a && h'.arenas[b].owner.d == d {
        assert FreeIn(b, h'.free[d]) == {} == FreeIn(b, []);
      }
    }
  }

  lemma AddArenaLive(h: Heap, a: nat, d: nat)
    requires FreeOk(h) && LiveOk(h) && Covered(h) && d < DESC_CNT && a % PGSIZE == 0 && a !in h.arenas &&
             h.free[d] == []
    ensures LiveOk(AddArena(h, a, d)) && Covered(AddArena(h, a, d))
  {
    AddArenaFree(h, a, d);
    NewBlocks(a, d);
    var h' := AddArena(h, a, d);
    assert forall p | p in h'.live :: p in h.live && BlockToArena(p) != a;
    forall b | b in h'.arenas && h'.arenas[b].owner.Desc?
      ensures h'.arenas[b].owner.d < DESC_CNT
      ensures forall p | IsBlock(b, h'.arenas[b].owner.d, p) :: p in h'.live || p in h'.free[h'.arenas[b].owner.d]
    {
      if b != a && h'.arenas[b].owner.d == d {
        assert forall p | IsBlock(b, d, p) :: p in h.live;
      }
    }
  }

  lemma AddArenaKeeps(h: Heap, runs: set<Extent>, a: nat, d: nat)
    requires Consistent(h, runs) && d < DESC_CNT && a > 0 && a % PGSIZE == 0
    requires a !in h.arenas && h.free[d] == []
    ensures Consistent(AddArena(h, a, d), runs + {Extent(PgNo(a), 1)})
    ensures |AddArena(h, a, d).free[d]| == BlocksPerArena(d)
  {
    AddArenaFree(h, a, d);
    AddArenaCounts(h, a, d);
    AddArenaLive(h, a, d);
  }

  /** Taking the first element off a duplicate-free list. */
  lemma TailMembers(s: seq<nat>)
    requires s != [] && NoDuplicates(s)
    ensures NoDuplicates(s[1..])
    ensures forall p :: p in s[1..] <==> p in s && p != s[0]
  {
    assert s == [s[0]] + s[1..];
  }

  /** The arena of the first free block has a free block to give. */
  lemma PopEnabled(h: Heap, d: nat)
    requires FreeOk(h) && CountsOk(h) && d < DESC_CNT && h.free[d] != []
    ensures var a := BlockToArena(h.free[d][0]);
            a in h.arenas && h.arenas[a].owner == Desc(d) && h.arenas[a].freeCnt > 0
  {
    var p := h.free[d][0];
    assert p in h.free[d];
    assert p in FreeIn(BlockToArena(p), h.free[d]);
  }

  lemma PopCounts(h: Heap, d: nat, size: nat)
    requires FreeOk(h) && CountsOk(h) && d < DESC_CNT && h.free[d] != []
    requires BlockToArena(h.free[d][0]) in h.arenas && h.arenas[BlockToArena(h.free[d][0])].freeCnt > 0
    ensures CountsOk(PopBlock(h, d, size))
  {
    var s, h' := h.free[d], PopBlock(h, d, size);
    TailMembers(s);
    assert s[0] in h.free[d];
    forall b | b in h'.arenas && h'.arenas[b].owner.Desc? && h'.arenas[b].owner.d < DESC_CNT
      ensures h'.arenas[b].freeCnt == |FreeIn(b, h'.free[h'.arenas[b].owner.d])|
    {
      if h.arenas[b].owner.d == d {
        assert FreeIn(b, s[1..]) == FreeIn(b, s) - {s[0]};
        assert s[0] in FreeIn(b, s) <==> b == BlockToArena(s[0]);
      }
    }
  }

  lemma PopFree(h: Heap, d: nat, size: nat)
    requires FreeOk(h) && d < DESC_CNT && h.free[d] != []
    requires BlockToArena(h.free[d][0]) in h.arenas && h.arenas[BlockToArena(h.free[d][0])].freeCnt > 0
    ensures FreeOk(PopBlock(h, d, size))
  {
    var h' := PopBlock(h, d, size);
    TailMembers(h.free[d]);
    forall c, p | 0 <= c < DESC_CNT && p in h'.free[c]
      ensures BlockToArena(p) in h'.arenas && h'.arenas[BlockToArena(p)].owner == Desc(c) &&
              IsBlock(BlockToArena(p), c, p)
    {
      assert p in h.free[c];
    }
  }

  lemma PopLive(h: Heap, d: nat, size: nat)
    requires FreeOk(h) && LiveOk(h) && d < DESC_CNT && h.free[d] != [] && 0 < size <= BlockSize(d)
    requires BlockToArena(h.free[d][0]) in h.arenas && h.arenas[BlockToArena(h.free[d][0])].freeCnt > 0
    ensures LiveOk(PopBlock(h, d, size))
    ensures h.free[d][0] !in h.live
  {
    assert h.free[d][0] in h.free[d];
    TailMembers(h.free[d]);
  }

  lemma PopCovered(h: Heap, d: nat, size: nat)
    requires |h.free| == DESC_CNT && Covered(h) && d < DESC_CNT && h.free[d] != [] && NoDuplicates(h.free[d])
    requires BlockToArena(h.free[d][0]) in h.arenas && h.arenas[BlockToArena(h.free[d][0])].freeCnt > 0
    requires h.arenas[BlockToArena(h.free[d][0])].owner == Desc(d)
    ensures Covered(PopBlock(h, d, size))
  {
    TailMembers(h.free[d]);
    var h' := PopBlock(h, d, size);
    forall b | b in h'.arenas && h'.arenas[b].owner.Desc?
      ensures h'.arenas[b].owner.d < DESC_CNT
      ensures forall q | IsBlock(b, h'.arenas[b].owner.d, q) :: q in h'.live || q in h'.free[h'.arenas[b].owner.d]
    {
      var c := h.arenas[b].owner.d;
      assert forall q | IsBlock(b, c, q) :: q in h.live || q in h.free[c];
    }
  }

  lemma PopKeeps(h: Heap, runs: set<Extent>, d: nat, size: nat)
    requires Consistent(h, runs) && d < DESC_CNT && h.free[d] != [] && 0 < size <= BlockSize(d)
    ensures var a := BlockToArena(h.free[d][0]);
            a in h.arenas && h.arenas[a].freeCnt > 0 && h.arenas[a].owner == Desc(d)
    ensures Consistent(PopBlock(h, d, size), runs)
    ensures h.free[d][0] !in h.live
  {
    PopEnabled(h, d);
    PopFree(h, d, size);
    PopCounts(h, d, size);
    PopLive(h, d, size);
    PopCovered(h, d, size);
  }

  lemma PushFree(h: Heap, p: nat, d: nat)
    requires FreeOk(h) && LiveOk(h) && p in h.live && BlockToArena(p) in h.arenas && d < DESC_CNT
    requires h.arenas[BlockToArena(p)].owner == Desc(d)
    ensures FreeOk(PushBlock(h, p, d))
  {
    var h' := PushBlock(h, p, d);
    forall c, q | 0 <= c < DESC_CNT && q in h'.free[c]
      ensures BlockToArena(q) in h'.arenas && h'.arenas[BlockToArena(q)].owner == Desc(c) &&
              IsBlock(BlockToArena(q), c, q)
    {
      if q != p {
        assert q in h.free[c];
      }
    }
  }

  lemma PushLive(h: Heap, p: nat, d: nat)
    requires |h.free| == DESC_CNT && LiveOk(h) && p in h.live && BlockToArena(p) in h.arenas && d < DESC_CNT
    requires h.arenas[BlockToArena(p)].owner == Desc(d)
    ensures LiveOk(PushBlock(h, p, d))
  {
    var h' := PushBlock(h, p, d);
    assert forall c, q | 0 <= c < DESC_CNT && q in h'.free[c] :: q == p || q in h.free[c];
  }

  lemma PushCovered(h: Heap, p: nat, d: nat)
    requires |h.free| == DESC_CNT && Covered(h) && BlockToArena(p) in h.arenas && d < DESC_CNT
    requires h.arenas[BlockToArena(p)].owner == Desc(d)
    requires forall b | b in h.arenas :: b % PGSIZE == 0
    ensures Covered(PushBlock(h, p, d))
  {
    var h' := PushBlock(h, p, d);
    assert p in h'.free[d] && forall q | q in h.free[d] :: q in h'.free[d];
    forall b | b in h'.arenas
      ensures match h'.arenas[b].owner
              case Desc(c) => c < DESC_CNT && forall q | IsBlock(b, c, q) :: q in h'.live || q in h'.free[c]
              case BigBlock => b + HEADER in h'.live
    {
      match h.arenas[b].owner
      case Desc(c) =>
        forall q | IsBlock(b, c, q) ensures q in h'.live || q in h'.free[c] {
          IsBlockOf(b, c, q);
        }
      case BigBlock =>
        BigBlockArena(b);
    }
  }

  lemma BigBlockArena(a: nat)
    requires a % PGSIZE == 0
    ensures BlockToArena(a + HEADER) == a
  {
  }

  lemma BlockAmongAll(a: nat, d: nat, p: nat)
    requires IsBlock(a, d, p)
    ensures p in AllBlocks(a, d, BlocksPerArena(d))
  {
    var k: nat :| k < BlocksPerArena(d) && p == ArenaToBlock(a, d, k);
  }

  lemma PushCounts(h: Heap, p: nat, d: nat)
    requires FreeOk(h) && LiveOk(h) && CountsOk(h) && p in h.live && BlockToArena(p) in h.arenas && d < DESC_CNT
    requires h.arenas[BlockToArena(p)].owner == Desc(d)
    ensures CountsOk(PushBlock(h, p, d))
  {
    var s, h' := h.free[d], PushBlock(h, p, d);
    forall b | b in h'.arenas && h'.arenas[b].owner.Desc? && h'.arenas[b].owner.d < DESC_CNT
      ensures h'.arenas[b].freeCnt == |FreeIn(b, h'.free[h'.arenas[b].owner.d])|
    {
      if b == BlockToArena(p) {
        assert FreeIn(b, [p] + s) == FreeIn(b, s) + {p};
        assert p !in FreeIn(b, s);
      } else if h.arenas[b].owner.d == d {
        assert FreeIn(b, [p] + s) == FreeIn(b, s);
      }
    }
  }

  lemma PushKeeps(h: Heap, runs: set<Extent>, p: nat, d: nat)
    requires Consistent(h, runs) && p in h.live && d < DESC_CNT
    requires BlockToArena(p) in h.arenas && h.arenas[BlockToArena(p)].owner == Desc(d)
    ensures Consistent(PushBlock(h, p, d), runs)
  {
    PushFree(h, p, d);
    PushLive(h, p, d);
    PushCovered(h, p, d);
    PushCounts(h, p, d);
  }

  /** A subset of full size is everything. */
  lemma {:induction false} FullSubset(x: set<nat>, y: set<nat>)
    requires x <= y && |x| >= |y|
    ensures x == y
  {
    assert |y - x| == |y| - |x|;
  }

  /** An arena's free blocks are among its blocks; when they are as many, none is live. */
  lemma FreeAmongBlocks(h: Heap, a: nat, d: nat)
    requires FreeOk(h) && LiveOk(h) && CountsOk(h) && d < DESC_CNT
    requires a in h.arenas && h.arenas[a].owner == Desc(d)
    ensures h.arenas[a].freeCnt <= BlocksPerArena(d)
    ensures h.arenas[a].freeCnt == BlocksPerArena(d) ==> forall p | p in h.live :: BlockToArena(p) != a
  {
    var n := BlocksPerArena(d);
    var s, all := FreeIn(a, h.free[d]), AllBlocks(a, d, n);
    AllBlocksCount(a, d, n);
    forall p | p in s ensures p in all {
      assert p in h.free[d] && IsBlock(a, d, p);
    }
    SubsetSize(s, all);
    if h.arenas[a].freeCnt == n {
      FullSubset(s, all);
      forall p | p in h.live ensures BlockToArena(p) != a {
        if BlockToArena(p) == a {
          BlockAmongAll(a, d, p);
        }
      }
    }
  }

  lemma DropArenaFree(h: Heap, a: nat, d: nat)
    requires FreeOk(h) && d < DESC_CNT && a in h.arenas && h.arenas[a].owner == Desc(d)
    ensures FreeOk(DropArena(h, a, d))
  {
    OutsideMembers(a, h.free[d]);
    var h' := DropArena(h, a, d);
    forall c, q | 0 <= c < DESC_CNT && q in h'.free[c]
      ensures BlockToArena(q) in h'.arenas && h'.arenas[BlockToArena(q)].owner == Desc(c) &&
              IsBlock(BlockToArena(q), c, q)
    {
      assert q in h.free[c];
    }
  }

  lemma DropArenaCounts(h: Heap, a: nat, d: nat)
    requires FreeOk(h) && CountsOk(h) && d < DESC_CNT && a in h.arenas && h.arenas[a].owner == Desc(d)
    ensures |DropArena(h, a, d).free| == DESC_CNT && CountsOk(DropArena(h, a, d))
  {
    OutsideMembers(a, h.free[d]);
    var h' := DropArena(h, a, d);
    forall b | b in h'.arenas && h'.arenas[b].owner.Desc? && h'.arenas[b].owner.d < DESC_CNT
      ensures h'.arenas[b].freeCnt == |FreeIn(b, h'.free[h'.arenas[b].owner.d])|
    {
      if h.arenas[b].owner.d == d {
        assert FreeIn(b, h'.free[d]) == FreeIn(b, h.free[d]);
      }
    }
  }

  lemma DropArenaLive(h: Heap, a: nat, d: nat)
    requires FreeOk(h) && LiveOk(h) && Covered(h) && d < DESC_CNT && a in h.arenas && h.arenas[a].owner == Desc(d)
    requires forall b | b in h.arenas :: b % PGSIZE == 0
    requires forall p | p in h.live :: BlockToArena(p) != a
    ensures |DropArena(h, a, d).free| == DESC_CNT
    ensures LiveOk(DropArena(h, a, d)) && Covered(DropArena(h, a, d))
  {
    OutsideMembers(a, h.free[d]);
    var h' := DropArena(h, a, d);
    forall b | b in h'.arenas && h'.arenas[b].owner.Desc?
      ensures h'.arenas[b].owner.d < DESC_CNT
      ensures forall q | IsBlock(b, h'.arenas[b].owner.d, q) :: q in h'.live || q in h'.free[h'.arenas[b].owner.d]
    {
      var c := h.arenas[b].owner.d;
      forall q | IsBlock(b, c, q) ensures q in h'.live || q in h'.free[c] {
        IsBlockOf(b, c, q);
      }
    }
  }

  /** Page-aligned addresses are told apart by their page numbers. */
  lemma SamePage(a: nat, b: nat)
    requires a % PGSIZE == 0 && b % PGSIZE == 0 && PgNo(a) == PgNo(b)
    ensures a == b
  {
  }

  lemma DropRun(h: Heap, h': Heap, runs: set<Extent>, a: nat)
    requires ArenasOk(h, runs) && a in h.arenas && h'.arenas == h.arenas - {a}
    ensures ArenasOk(h', runs - {ExtentOf(a, h.arenas[a])})
  {
    forall b | b in h'.arenas ensures ExtentOf(b, h.arenas[b]) != ExtentOf(a, h.arenas[a]) {
      if PgNo(a) == PgNo(b) {
        SamePage(a, b);
      }
    }
  }

  lemma DropArenaKeeps(h: Heap, runs: set<Extent>, a: nat, d: nat)
    requires Consistent(h, runs) && d < DESC_CNT && a in h.arenas && h.arenas[a].owner == Desc(d)
    requires h.arenas[a].freeCnt == BlocksPerArena(d)
    ensures Consistent(DropArena(h, a, d), runs - {Extent(PgNo(a), 1)})
  {
    FreeAmongBlocks(h, a, d);
    DropArenaFree(h, a, d);
    DropArenaCounts(h, a, d);
    DropArenaLive(h, a, d);
    DropRun(h, DropArena(h, a, d), runs, a);
  }

  lemma AddBigKeeps(h: Heap, runs: set<Extent>, a: nat, cnt: nat, size: nat)
    requires Consistent(h, runs) && a > 0 && a % PGSIZE == 0 && a !in h.arenas
    requires cnt > 0 && 0 < size && size + HEADER <= PGSIZE * cnt
    ensures Consistent(AddBig(h, a, cnt, size), runs + {Extent(PgNo(a), cnt)})
    ensures a + HEADER !in h.live
  {
    BigBlockArena(a);
    AddBigFree(h, a, cnt, size);
    AddBigLive(h, a, cnt, size);
    AddBigCovered(h, a, cnt, size);
  }

  lemma AddBigFree(h: Heap, a: nat, cnt: nat, size: nat)
    requires FreeOk(h) && CountsOk(h) && a !in h.arenas
    ensures FreeOk(AddBig(h, a, cnt, size)) && CountsOk(AddBig(h, a, cnt, size))
  {
  }

  lemma AddBigLive(h: Heap, a: nat, cnt: nat, size: nat)
    requires |h.free| == DESC_CNT && LiveOk(h) && a % PGSIZE == 0 && a !in h.arenas
    requires cnt > 0 && 0 < size && size + HEADER <= PGSIZE * cnt
    ensures LiveOk(AddBig(h, a, cnt, size))
  {
    BigBlockArena(a);
    assert forall p | p in h.live :: BlockToArena(p) != a;
  }

  lemma AddBigCovered(h: Heap, a: nat, cnt: nat, size: nat)
    requires |h.free| == DESC_CNT && Covered(h) && a !in h.arenas
    ensures Covered(AddBig(h, a, cnt, size))
  {
  }

  lemma DropBigFree(h: Heap, a: nat)
    requires FreeOk(h) && CountsOk(h) && a in h.arenas && h.arenas[a].owner.BigBlock?
    ensures FreeOk(DropBig(h, a)) && CountsOk(DropBig(h, a))
  {
  }

  lemma DropBigLive(h: Heap, a: nat)
    requires |h.free| == DESC_CNT && LiveOk(h) && a in h.arenas && h.arenas[a].owner.BigBlock?
    ensures LiveOk(DropBig(h, a))
  {
    forall p | p in DropBig(h, a).live ensures BlockToArena(p) != a {
      assert p in h.live;
    }
  }

  lemma DropBigCovered(h: Heap, a: nat)
    requires |h.free| == DESC_CNT && Covered(h) && a in h.arenas
    requires forall b | b in h.arenas :: b % PGSIZE == 0
    ensures Covered(DropBig(h, a))
  {
    var h' := DropBig(h, a);
    BigBlockArena(a);
    forall b | b in h'.arenas
      ensures match h'.arenas[b].owner
              case Desc(c) => c < DESC_CNT && forall q | IsBlock(b, c, q) :: q in h'.live || q in h'.free[c]
              case BigBlock => b + HEADER in h'.live
    {
      match h.arenas[b].owner
      case Desc(c) =>
        forall q | IsBlock(b, c, q) ensures q in h'.live || q in h'.free[c] {
          IsBlockOf(b, c, q);
        }
      case BigBlock =>
        BigBlockArena(b);
    }
  }

  lemma DropBigKeeps(h: Heap, runs: set<Extent>, a: nat)
    requires Consistent(h, runs) && a in h.arenas && h.arenas[a].owner.BigBlock?
    ensures Consistent(DropBig(h, a), runs - {ExtentOf(a, h.arenas[a])})
  {
    DropRun(h, DropBig(h, a), runs, a);
    DropBigFree(h, a);
    DropBigLive(h, a);
    DropBigCovered(h, a);
  }

  // ---------- what the invariant promises callers ----------

  ghost predicate RangesApart(p: int, m: int, q: int, n: int) {
    p + m <= q || q + n <= p
  }

  /** The bytes of different arenas do not overlap. */
  lemma ArenasApart(h: Heap, runs: set<Extent>, a: nat, b: nat)
    requires ArenasOk(h, runs) && RunsApart(runs) && a in h.arenas && b in h.arenas && a != b
    ensures RangesApart(a, PGSIZE * Pages(h.arenas[a]), b, PGSIZE * Pages(h.arenas[b]))
  {
    var e, f := ExtentOf(a, h.arenas[a]), ExtentOf(b, h.arenas[b]);
    if PgNo(a) == PgNo(b) {
      SamePage(a, b);
    }
    assert e != f && Disjoint(e, f);
    assert a == PGSIZE * e.page && b == PGSIZE * f.page;
  }

  /** A live block lies inside its arena, past the header. */
  lemma LiveInside(h: Heap, p: nat)
    requires |h.free| == DESC_CNT && LiveOk(h) && p in h.live
    requires forall a | a in h.arenas && h.arenas[a].owner.BigBlock? :: h.arenas[a].freeCnt > 0
    ensures var a := BlockToArena(p);
            && a in h.arenas && a + HEADER <= p
            && p + h.live[p] <= p + Capacity(h.arenas[a]) <= a + PGSIZE * Pages(h.arenas[a])
  {
    var a := BlockToArena(p);
    if h.arenas[a].owner.Desc? {
      BlockInside(a, h.arenas[a].owner.d, p);
    }
  }

  lemma BlockInside(a: nat, d: nat, p: nat)
    requires IsBlock(a, d, p)
    ensures a + HEADER <= p && p + BlockSize(d) <= a + PGSIZE
  {
    var k: nat :| k < BlocksPerArena(d) && p == ArenaToBlock(a, d, k);
    BlockFits(d, k);
    assert (k + 1) * BlockSize(d) == k * BlockSize(d) + BlockSize(d);
  }

  lemma SameArenaApart(a: nat, d: nat, p: nat, q: nat)
    requires IsBlock(a, d, p) && IsBlock(a, d, q) && p != q
    ensures RangesApart(p, BlockSize(d), q, BlockSize(d))
  {
    var j: nat :| j < BlocksPerArena(d) && p == ArenaToBlock(a, d, j);
    var k: nat :| k < BlocksPerArena(d) && q == ArenaToBlock(a, d, k);
    if j < k {
      BlocksApart(d, j, k);
    } else {
      BlocksApart(d, k, j);
    }
  }

  /** Live blocks never overlap. */
  lemma LiveBlocksApart(h: Heap, runs: set<Extent>, p: nat, q: nat)
    requires Consistent(h, runs) && RunsApart(runs) && p in h.live && q in h.live && p != q
    ensures RangesApart(p, h.live[p], q, h.live[q])
  {
    var a, b := BlockToArena(p), BlockToArena(q);
    LiveInside(h, p);
    LiveInside(h, q);
    if a != b {
      ArenasApart(h, runs, a, b);
    } else {
      SameArenaApart(a, h.arenas[a].owner.d, p, q);
    }
  }

  /** No live block overlaps an arena header. */
  lemma LiveClearOfHeaders(h: Heap, runs: set<Extent>, p: nat, b: nat)
    requires Consistent(h, runs) && RunsApart(runs) && p in h.live && b in h.arenas
    ensures RangesApart(p, h.live[p], b, HEADER)
  {
    LiveInside(h, p);
    if BlockToArena(p) != b {
      ArenasApart(h, runs, BlockToArena(p), b);
      MulMonotone(1, Pages(h.arenas[b]), PGSIZE);
    }
  }

  /** An arena with fewer free blocks than blocks has a live one. */
  lemma ArenaHasLive(h: Heap, runs: set<Extent>, a: nat) returns (p: nat)
    requires Consistent(h, runs) && Trimmed(h) && a in h.arenas
    ensures p in h.live
  {
    if h.arenas[a].owner.BigBlock? {
      p := a + HEADER;
    } else {
      var d := h.arenas[a].owner.d;
      var all, s := AllBlocks(a, d, BlocksPerArena(d)), FreeIn(a, h.free[d]);
      AllBlocksCount(a, d, BlocksPerArena(d));
      if all <= s {
        SubsetSize(all, s);
      }
      p :| p in all && p !in s;
      assert IsBlock(a, d, p);
      IsBlockOf(a, d, p);
    }
  }

  /** When every block has been freed, no arena is left and every page is back: a pool's bitmap marks only what was
      marked at boot and what others hold. */
  lemma AllFreedAllReturned(h: Heap, runs: set<Extent>, pool: Pool, used: seq<bool>, reserved: set<nat>)
    requires Consistent(h, runs) && Trimmed(h) && h.live == map[] && Accounted(pool, used, runs, reserved)
    ensures h.arenas == map[] && Others(h, runs) == runs
    ensures Accounted(pool, used, Others(h, runs), reserved)
    ensures forall d | 0 <= d < DESC_CNT :: h.free[d] == []
  {
    if a :| a in h.arenas {
      var p := ArenaHasLive(h, runs, a);
    }
    assert Owned(h) == {};
    forall d | 0 <= d < DESC_CNT ensures h.free[d] == [] {
      if h.free[d] != [] {
        FirstIsFree(h, d);
      }
    }
  }

  lemma FirstIsFree(h: Heap, d: nat)
    requires FreeOk(h) && d < DESC_CNT && h.free[d] != []
    ensures BlockToArena(h.free[d][0]) in h.arenas
  {
    assert h.free[d][0] in h.free[d];
  }

  // ---------- pages that belong to others ----------

  /** The groups of pages that the arenas occupy. */
  ghost function Owned(h: Heap): set<Extent> {
    set a | a in h.arenas :: ExtentOf(a, h.arenas[a])
  }

  /** The groups handed out by the page allocator to anyone else. */
  ghost function Others(h: Heap, runs: set<Extent>): set<Extent> { runs - Owned(h) }

  /** Changing free_cnt of a descriptor's arena does not change what is owned. */
  lemma OwnedSame(h: Heap, h': Heap)
    requires h.arenas.Keys == h'.arenas.Keys
    requires forall a | a in h.arenas :: ExtentOf(a, h.arenas[a]) == ExtentOf(a, h'.arenas[a])
    ensures Owned(h) == Owned(h')
  {
    forall e ensures e in Owned(h) <==> e in Owned(h') {
      if e in Owned(h) {
        var a :| a in h.arenas && e == ExtentOf(a, h.arenas[a]);
        assert a in h'.arenas;
      }
      if e in Owned(h') {
        var a :| a in h'.arenas && e == ExtentOf(a, h'.arenas[a]);
        assert a in h.arenas;
      }
    }
  }

  lemma PopOthers(h: Heap, runs: set<Extent>, d: nat, size: nat)
    requires d < |h.free| && h.free[d] != [] && BlockToArena(h.free[d][0]) in h.arenas
    requires h.arenas[BlockToArena(h.free[d][0])].owner.Desc? && h.arenas[BlockToArena(h.free[d][0])].freeCnt > 0
    ensures Others(PopBlock(h, d, size), runs) == Others(h, runs)
  {
    OwnedSame(h, PopBlock(h, d, size));
  }

  lemma PushOthers(h: Heap, runs: set<Extent>, p: nat, d: nat)
    requires d < |h.free| && BlockToArena(p) in h.arenas && h.arenas[BlockToArena(p)].owner.Desc?
    ensures Others(PushBlock(h, p, d), runs) == Others(h, runs)
  {
    OwnedSame(h, PushBlock(h, p, d));
  }

  lemma OthersAdded(h: Heap, h': Heap, runs: set<Extent>, a: nat, r: Arena)
    requires h'.arenas == h.arenas[a := r] && a !in h.arenas && Pages(r) > 0 && RunsApart(runs)
    requires forall s | s in runs :: Disjoint(s, ExtentOf(a, r))
    ensures Others(h', runs + {ExtentOf(a, r)}) == Others(h, runs)
  {
    var e := ExtentOf(a, r);
    assert e !in runs;
    assert Owned(h') == Owned(h) + {e} by {
      forall x ensures x in Owned(h') <==> x in Owned(h) + {e} {
        if x in Owned(h) {
          var b :| b in h.arenas && x == ExtentOf(b, h.arenas[b]);
          assert b in h'.arenas;
        }
        if x == e {
          assert a in h'.arenas;
        }
      }
    }
  }

  lemma OthersDropped(h: Heap, h': Heap, runs: set<Extent>, a: nat)
    requires ArenasOk(h, runs) && a in h.arenas && h'.arenas == h.arenas - {a}
    ensures Others(h', runs - {ExtentOf(a, h.arenas[a])}) == Others(h, runs)
  {
    var e := ExtentOf(a, h.arenas[a]);
    assert Owned(h) == Owned(h') + {e} by {
      forall x ensures x in Owned(h) <==> x in Owned(h') + {e} {
        if x in Owned(h) && x != e {
          var b :| b in h.arenas && x == ExtentOf(b, h.arenas[b]);
          assert b in h'.arenas;
        }
        if x in Owned(h') {
          var b :| b in h'.arenas && x == ExtentOf(b, h'.arenas[b]);
          assert b in h.arenas;
        }
      }
    }
  }
}
