/** Four-level page tables (threads/mmu.c; 4-level paging, section 4.5 of the Intel 64 and IA-32
    Architectures Software Developer's Manual, Volume 3A), as values. */
module PageTable {
  import opened Powers
  import opened Vaddr

  const ENTRIES: nat := 512
  const KERN_BASE: nat := 0x8004000000
  const VPN_LIMIT: nat := 0x10_0000_0000  // 2^36 virtual pages in a 48-bit address space

  // ---------- words and addresses ----------

  predicate Present(w: nat) { w % 2 == 1 }

  predicate Writable(w: nat) { w / 2 % 2 == 1 }

  /** User code may use the page. */
  predicate User(w: nat) { w / 4 % 2 == 1 }

  /** None of the flag bits but those three is set. */
  predicate NoOtherFlag(w: nat) { w % PGSIZE < 8 }

  /** ptov (PTE_ADDR (w)). */
  function Target(w: nat): nat { w - w % PGSIZE + KERN_BASE }

  /** vtop (page) | PTE_U | PTE_W | PTE_P. */
  function TableWord(page: nat): nat
    requires page >= KERN_BASE
  {
    page - KERN_BASE + 7
  }

  /** vtop (page) | PTE_P | (rw ? PTE_W : 0) | PTE_U. */
  function LeafWord(page: nat, rw: bool): nat
    requires page >= KERN_BASE
  {
    page - KERN_BASE + (if rw then 7 else 5)
  }

  predicate IsPage(p: nat) { p >= KERN_BASE && (p - KERN_BASE) % PGSIZE == 0 }

  function Pow512(k: nat): (p: nat)
    ensures p > 0
  {
    if k == 0 then 1 else ENTRIES * Pow512(k - 1)
  }

  /** The index macros: PTX, PDX, PDPE and PML4 of page number `vpn`, for levels 0 to 3. */
  function Index(level: nat, vpn: nat): (i: nat)
    ensures i < ENTRIES
  {
    vpn / Pow512(level) % ENTRIES
  }

  /** Where a table stands in the tree: its level, and the page-number prefix it translates. */
  datatype Place = Place(level: nat, prefix: nat)

  const ROOT := Place(3, 0)

  function Child(pl: Place, i: nat): Place
    requires pl.level > 0
  {
    Place(pl.level - 1, pl.prefix * ENTRIES + i)
  }

  function Parent(pl: Place): Place { Place(pl.level + 1, pl.prefix / ENTRIES) }

  /** The place of the level-`level` table on the way to `vpn`. */
  function Path(level: nat, vpn: nat): Place { Place(level, vpn / Pow512(level + 1)) }

  lemma PathStep(level: nat, vpn: nat)
    ensures level > 0 ==> Path(level - 1, vpn) == Child(Path(level, vpn), Index(level, vpn))
    ensures Parent(Path(level, vpn)) == Path(level + 1, vpn)
  {
    assert Pow512(level + 2) == Pow512(level + 1) * ENTRIES;
    DivDiv(vpn, Pow512(level + 1), ENTRIES);
    if level > 0 {
      assert Pow512(level + 1) == Pow512(level) * ENTRIES;
      DivDiv(vpn, Pow512(level), ENTRIES);
    }
  }

  lemma PathAtRoot(vpn: nat)
    requires vpn < VPN_LIMIT
    ensures Path(3, vpn) == ROOT
  {
    assert Pow512(4) == VPN_LIMIT;
    DivUnique(vpn, VPN_LIMIT, 0);
  }

  lemma PathAtLeaf(vpn: nat)
    ensures Path(0, vpn) == Place(0, vpn / ENTRIES) && Index(0, vpn) == vpn % ENTRIES
  {
    assert Pow512(1) == ENTRIES;
  }

  lemma ChildUnique(pl: Place, i: nat, ql: Place, j: nat)
    requires pl.level > 0 && ql.level > 0 && i < ENTRIES && j < ENTRIES && Child(pl, i) == Child(ql, j)
    ensures pl == ql && i == j
  {
  }

  lemma ChildParent(pl: Place, i: nat)
    requires pl.level > 0 && i < ENTRIES
    ensures Parent(Child(pl, i)) == pl && Child(pl, i).prefix % ENTRIES == i
  {
  }

  // ---------- the tables of one address space ----------

  type Tables = map<nat, seq<nat>>

  /** Table pages by address, the pages still free, and where each table of this space stands. */
  datatype Space = Space(tables: Tables, free: set<nat>, at: map<Place, nat>)

  function EmptyTable(): (t: seq<nat>)
    ensures |t| == ENTRIES && forall i | 0 <= i < ENTRIES :: t[i] == 0
  {
    seq(ENTRIES, _ => 0)
  }

  /** Every table of the space is a page of 512 words. */
  ghost predicate TablesOk(s: Space) {
    forall pl | pl in s.at ::
      && s.at[pl] in s.tables && IsPage(s.at[pl]) && |s.tables[s.at[pl]]| == ENTRIES
      && pl.level <= 3 && (pl.level == 3 ==> pl == ROOT)
  }

  /** Each table stands in one place only. */
  ghost predicate Injective(s: Space) {
    forall pl, ql | pl in s.at && ql in s.at && pl != ql :: s.at[pl] != s.at[ql]
  }

  /** An upper-level entry is zero, or present and points to the table of its child place; it then restricts nothing, so
      that the page table entry alone decides what a page may be used for. */
  ghost predicate EntryOk(s: Space, pl: Place, i: nat)
    requires pl.level > 0 && pl in s.at && s.at[pl] in s.tables && i < |s.tables[s.at[pl]]|
  {
    var w := s.tables[s.at[pl]][i];
    if Child(pl, i) in s.at then Present(w) && Writable(w) && User(w) && Target(w) == s.at[Child(pl, i)] else w == 0
  }

  ghost predicate EntriesOk(s: Space)
    requires TablesOk(s)
  {
    forall pl, i | pl in s.at && pl.level > 0 && 0 <= i < ENTRIES :: EntryOk(s, pl, i)
  }

  ghost predicate ParentsOk(s: Space) {
    ROOT in s.at && forall pl | pl in s.at && pl.level < 3 :: Parent(pl) in s.at
  }

  ghost predicate FreeOk(s: Space) {
    forall p | p in s.free :: p !in s.tables && IsPage(p)
  }

  ghost predicate Ok(s: Space) {
    TablesOk(s) && Injective(s) && EntriesOk(s) && ParentsOk(s) && FreeOk(s)
  }

  // ---------- the flat view ----------

  /** The page table entry of `vpn`, or 0 if its page table does not exist. */
  ghost function Pte(s: Space, vpn: nat): nat
    requires TablesOk(s)
  {
    var pl := Place(0, vpn / ENTRIES);
    if pl in s.at then s.tables[s.at[pl]][vpn % ENTRIES] else 0
  }

  // ---------- one step of a creating walk ----------

  ghost function Grown(s: Space, pl: Place, i: nat, n: nat): Space
    requires pl.level > 0 && pl in s.at && s.at[pl] in s.tables && i < |s.tables[s.at[pl]]| && n >= KERN_BASE
  {
    var t := s.at[pl];
    Space(s.tables[n := EmptyTable()][t := s.tables[t][i := TableWord(n)]], s.free - {n}, s.at[Child(pl, i) := n])
  }

  /** What the words that the kernel writes mean to the processor: the entry of a table allows everything, that of a
      page what was asked for. */
  lemma WordBits(n: nat)
    requires IsPage(n)
    ensures var w := TableWord(n); Present(w) && Writable(w) && User(w) && NoOtherFlag(w) && Target(w) == n
    ensures forall rw :: IsLeaf(LeafWord(n, rw), n, rw)
  {
  }

  /** An entry that maps the frame `page` for user code, for writing if `rw`. */
  predicate IsLeaf(w: nat, page: nat, rw: bool) {
    Present(w) && User(w) && (Writable(w) <==> rw) && NoOtherFlag(w) && Target(w) == page
  }

  lemma GrownTables(s: Space, pl: Place, i: nat, n: nat)
    requires Ok(s) && pl.level > 0 && pl in s.at && i < ENTRIES && Child(pl, i) !in s.at && n in s.free
    ensures TablesOk(Grown(s, pl, i, n)) && Injective(Grown(s, pl, i, n))
    ensures FreeOk(Grown(s, pl, i, n)) && ParentsOk(Grown(s, pl, i, n))
  {
    ChildParent(pl, i);
  }

  lemma GrownEntries(s: Space, pl: Place, i: nat, n: nat)
    requires Ok(s) && pl.level > 0 && pl in s.at && i < ENTRIES && Child(pl, i) !in s.at && n in s.free
    requires TablesOk(Grown(s, pl, i, n))
    ensures EntriesOk(Grown(s, pl, i, n))
  {
    var s' := Grown(s, pl, i, n);
    WordBits(n);
    forall ql, j | ql in s'.at && ql.level > 0 && 0 <= j < ENTRIES ensures EntryOk(s', ql, j) {
      if ql == Child(pl, i) {
        NoGrandchild(s, ql, j);
        ChildParent(ql, j);
      } else {
        assert EntryOk(s, ql, j);
        if Child(ql, j) == Child(pl, i) {
          ChildUnique(ql, j, pl, i);
        }
      }
    }
  }

  /** A place that is not in the tree has no child in the tree. */
  lemma NoGrandchild(s: Space, ql: Place, j: nat)
    requires ParentsOk(s) && ql !in s.at && 0 < ql.level <= 3 && j < ENTRIES
    ensures Child(ql, j) !in s.at
  {
    ChildParent(ql, j);
  }

  lemma GrownOk(s: Space, pl: Place, i: nat, n: nat)
    requires Ok(s) && pl.level > 0 && pl in s.at && i < ENTRIES && Child(pl, i) !in s.at && n in s.free
    ensures Ok(Grown(s, pl, i, n))
  {
    GrownTables(s, pl, i, n);
    GrownEntries(s, pl, i, n);
  }

  /** A new table maps nothing: no translation changes. */
  lemma GrownPte(s: Space, pl: Place, i: nat, n: nat, v: nat)
    requires Ok(s) && pl.level > 0 && pl in s.at && i < ENTRIES && Child(pl, i) !in s.at && n in s.free
    requires TablesOk(Grown(s, pl, i, n))
    ensures Pte(Grown(s, pl, i, n), v) == Pte(s, v)
  {
    var ql := Place(0, v / ENTRIES);
    if ql in s.at {
      assert s.at[ql] != s.at[pl] && s.at[ql] != n;
    }
  }

  // ---------- a whole walk ----------

  /** The number of tables below `level` that are missing on the way to `vpn`. */
  ghost function Missing(s: Space, level: nat, vpn: nat): nat {
    if level == 0 then 0
    else if Path(level - 1, vpn) in s.at then Missing(s, level - 1, vpn)
    else level
  }

  /** The page is no table on the way to `vpn` from level `level` down to 1. */
  ghost predicate OffPath(s: Space, level: nat, vpn: nat, p: nat) {
    forall l: nat | 0 < l <= level && Path(l, vpn) in s.at :: s.at[Path(l, vpn)] != p
  }

  /** `s'` is `s` with some of the missing tables on the way to `vpn` added, mapping nothing new. */
  ghost predicate Extends(s: Space, s': Space, level: nat, vpn: nat)
    requires TablesOk(s) && TablesOk(s')
  {
    && (forall pl | pl in s.at :: pl in s'.at && s'.at[pl] == s.at[pl])
    && (forall pl | pl in s'.at && pl !in s.at :: pl.level < level && pl == Path(pl.level, vpn) && s'.at[pl] in s.free)
    && (forall v: nat :: Pte(s', v) == Pte(s, v))
    && (forall p | p in s.tables && OffPath(s, level, vpn, p) :: p in s'.tables && s'.tables[p] == s.tables[p])
    && s'.free <= s.free
  }

  lemma GrownExtends(s: Space, level: nat, vpn: nat, n: nat)
    requires Ok(s) && 0 < level <= 3 && Path(level, vpn) in s.at && Path(level - 1, vpn) !in s.at && n in s.free
    ensures var i := Index(level, vpn); var s' := Grown(s, Path(level, vpn), i, n);
            && Ok(s') && Path(level - 1, vpn) in s'.at && s'.at[Path(level - 1, vpn)] == n
            && Extends(s, s', level, vpn)
  {
    PathStep(level, vpn);
    var pl, i := Path(level, vpn), Index(level, vpn);
    GrownOk(s, pl, i, n);
    var s' := Grown(s, pl, i, n);
    forall v: nat ensures Pte(s', v) == Pte(s, v) {
      GrownPte(s, pl, i, n, v);
    }
    assert forall p | p in s.tables && OffPath(s, level, vpn, p) :: p != s.at[pl];
  }

  lemma GrownMissing(s: Space, level: nat, vpn: nat, n: nat)
    requires Ok(s) && 0 < level <= 3 && Path(level, vpn) in s.at && Path(level - 1, vpn) !in s.at && n in s.free
    ensures Missing(s, level, vpn) == level
    ensures Missing(Grown(s, Path(level, vpn), Index(level, vpn), n), level - 1, vpn) == level - 1
  {
    PathStep(level, vpn);
    if level > 1 {
      PathStep(level - 1, vpn);
      NoGrandchild(s, Path(level - 1, vpn), Index(level - 1, vpn));
    }
  }

  lemma ExtendsTransitive(s: Space, s1: Space, s2: Space, level: nat, vpn: nat)
    requires TablesOk(s) && TablesOk(s1) && TablesOk(s2) && level > 0
    requires Extends(s, s1, level, vpn) && Extends(s1, s2, level - 1, vpn)
    requires forall p | p in s.tables && OffPath(s, level, vpn, p) :: OffPath(s1, level - 1, vpn, p)
    ensures Extends(s, s2, level, vpn)
  {
    forall pl | pl in s2.at && pl !in s.at
      ensures pl.level < level && pl == Path(pl.level, vpn) && s2.at[pl] in s.free
    {
      if pl !in s1.at {
        assert pl.level < level - 1;
      }
    }
  }

  /** Tables added to `s` are new pages, so a page that was off the path stays off it. */
  lemma GrownOffPath(s: Space, level: nat, vpn: nat, n: nat, p: nat)
    requires Ok(s) && 0 < level <= 3 && Path(level, vpn) in s.at && Path(level - 1, vpn) !in s.at && n in s.free
    requires p in s.tables && OffPath(s, level, vpn, p)
    ensures OffPath(Grown(s, Path(level, vpn), Index(level, vpn), n), level - 1, vpn, p)
  {
    PathStep(level, vpn);
  }

  /** Undoing a step that turned out useless restores the space exactly. */
  lemma ShrunkBack(s: Space, pl: Place, i: nat, n: nat)
    requires Ok(s) && pl.level > 0 && pl in s.at && i < ENTRIES && Child(pl, i) !in s.at && n in s.free
    ensures var s' := Grown(s, pl, i, n); var t := s.at[pl];
            && t in s'.tables && t != n && i < |s'.tables[t]| && Target(s'.tables[t][i]) == n
            && Space((s'.tables - {n})[t := s'.tables[t][i := 0]], s'.free + {n}, s'.at - {Child(pl, i)}) == s
  {
    WordBits(n);
    var s', t := Grown(s, pl, i, n), s.at[pl];
    assert EntryOk(s, pl, i);
    assert s.tables[t][i] == 0;
    assert s'.tables[t][i := 0] == s.tables[t];
    assert s'.at - {Child(pl, i)} == s.at;
    assert (s'.tables - {n})[t := s'.tables[t][i := 0]] == s.tables;
  }

  /** What a walk without creation finds at an upper level. */
  lemma WalkStep(s: Space, level: nat, vpn: nat)
    requires Ok(s) && 0 < level <= 3 && Path(level, vpn) in s.at
    ensures var w := s.tables[s.at[Path(level, vpn)]][Index(level, vpn)];
            && (Present(w) <==> Path(level - 1, vpn) in s.at)
            && (Present(w) ==> Target(w) == s.at[Path(level - 1, vpn)])
  {
    PathStep(level, vpn);
    assert EntryOk(s, Path(level, vpn), Index(level, vpn));
  }

  /** Without its level-(l-1) table on the path, the leaf is not there either. */
  lemma {:induction false} NoLeafBelow(s: Space, level: nat, vpn: nat)
    requires Ok(s) && level <= 3 && Path(level, vpn) !in s.at
    ensures Path(0, vpn) !in s.at
  {
    if level > 0 {
      PathStep(level, vpn);
      NoGrandchild(s, Path(level, vpn), Index(level, vpn));
      NoLeafBelow(s, level - 1, vpn);
    }
  }

  /** A walk below an existing table extends the whole space. */
  lemma Downward(s: Space, s': Space, level: nat, vpn: nat)
    requires TablesOk(s) && TablesOk(s') && level > 0 && Extends(s, s', level - 1, vpn)
    ensures Extends(s, s', level, vpn)
  {
    forall p | p in s.tables && OffPath(s, level, vpn, p) ensures OffPath(s, level - 1, vpn, p) {
    }
  }

  /** Adding a table and then walking on below it extends the space. */
  lemma ExtendsGrown(s: Space, n: nat, s2: Space, level: nat, vpn: nat)
    requires Ok(s) && 0 < level <= 3 && Path(level, vpn) in s.at && Path(level - 1, vpn) !in s.at && n in s.free
    requires TablesOk(s2)
    requires var s1 := Grown(s, Path(level, vpn), Index(level, vpn), n);
             TablesOk(s1) && Extends(s1, s2, level - 1, vpn)
    ensures Extends(s, s2, level, vpn)
  {
    var s1 := Grown(s, Path(level, vpn), Index(level, vpn), n);
    GrownExtends(s, level, vpn, n);
    forall p | p in s.tables && OffPath(s, level, vpn, p) ensures OffPath(s1, level - 1, vpn, p) {
      GrownOffPath(s, level, vpn, n, p);
    }
    ExtendsTransitive(s, s1, s2, level, vpn);
  }

  // ---------- writing a page table entry ----------

  function SetEntry(tables: Tables, page: nat, i: nat, w: nat): Tables
    requires page in tables && i < |tables[page]|
  {
    var row: seq<nat> := tables[page];
    tables[page := row[i := w]]
  }

  ghost function WithPte(s: Space, pl: Place, i: nat, w: nat): Space
    requires pl in s.at && s.at[pl] in s.tables && i < |s.tables[s.at[pl]]|
  {
    s.(tables := SetEntry(s.tables, s.at[pl], i, w))
  }

  /** Writing a leaf entry keeps the tree and changes exactly one translation. */
  lemma WithPteOk(s: Space, vpn: nat, w: nat)
    requires Ok(s) && Path(0, vpn) in s.at
    ensures var s' := WithPte(s, Path(0, vpn), Index(0, vpn), w);
            && Ok(s')
            && Pte(s, vpn) == s.tables[s.at[Path(0, vpn)]][Index(0, vpn)]
            && forall v: nat :: Pte(s', v) == if v == vpn then w else Pte(s, v)
  {
    PathAtLeaf(vpn);
    var pl, i := Path(0, vpn), Index(0, vpn);
    var s' := WithPte(s, pl, i, w);
    assert TablesOk(s');
    forall ql, j | ql in s'.at && ql.level > 0 && 0 <= j < ENTRIES ensures EntryOk(s', ql, j) {
      assert EntryOk(s, ql, j);
    }
    forall v: nat ensures Pte(s', v) == if v == vpn then w else Pte(s, v) {
      var ql := Place(0, v / ENTRIES);
      if ql in s.at && ql != pl {
        assert s.at[ql] != s.at[pl];
      }
    }
  }
}
