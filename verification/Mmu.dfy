/** Walking, mapping and unmapping in one address space (threads/mmu.c). */
module Mmu {
  import opened Options
  import opened Powers
  import opened PageTable
  import opened Vaddr

  /** A page map level 4 and the pages its tables may be added from. */
  class AddressSpace {
    const pml4: nat
    var tables: Tables
    var free: set<nat>
    ghost var at: map<Place, nat>

    ghost function Abstract(): Space reads this { Space(tables, free, at) }

    ghost predicate Valid() reads this {
      Ok(Abstract()) && at[ROOT] == pml4
    }

    constructor (pml4: nat, tables: Tables, free: set<nat>, ghost at: map<Place, nat>)
      requires Ok(Space(tables, free, at)) && at[ROOT] == pml4
      ensures Valid() && Abstract() == Space(tables, free, at)
    {
      this.pml4, this.tables, this.free, this.at := pml4, tables, free, at;
    }

    /** Allocates a zeroed page `n` and installs it as the table below entry `idx` of `table`. */
    method AddTable(table: nat, idx: nat, n: nat, ghost pl: Place)
      requires n in free && IsPage(n) && pl.level > 0 && pl in at && at[pl] == table
      requires table in tables && table != n && idx < |tables[table]|
      modifies this`tables, this`free, this`at
      ensures Abstract() == Grown(old(Abstract()), pl, idx, n)
    {
      free := free - {n};
      tables := tables[n := EmptyTable()];
      var row: seq<nat> := tables[table];
      tables := tables[table := row[idx := TableWord(n)]];
      at := at[Child(pl, idx) := n];
    }

    /** Frees the table below entry `idx` of `table` again and clears the entry. */
    method DropTable(table: nat, idx: nat, ghost pl: Place)
      requires table in tables && idx < |tables[table]| && pl.level > 0
      modifies this`tables, this`free, this`at
      ensures var n := Target(old(tables[table][idx]));
              Abstract() == Space((old(tables) - {n})[table := old(tables[table])[idx := 0]], old(free) + {n},
                  old(at) - {Child(pl, idx)})
    {
      var n := Target(tables[table][idx]);
      var row: seq<nat> := tables[table];
      free := free + {n};
      tables := (tables - {n})[table := row[idx := 0]];
      at := at - {Child(pl, idx)};
    }

    /** pgdir_walk, pdpe_walk and pml4e_walk, for the tables at levels 1, 2 and 3: the address of the
        page table entry of `vpn` as page and index, or None for the null pointer. */
    method Walk(level: nat, table: nat, vpn: nat, create: bool) returns (r: Option<(nat, nat)>)
      requires Ok(Abstract()) && 0 < level <= 3 && Path(level, vpn) in at && at[Path(level, vpn)] == table
      modifies this`tables, this`free, this`at
      ensures Ok(Abstract()) && Extends(old(Abstract()), Abstract(), level, vpn)
      ensures r.None? || !create ==> Abstract() == old(Abstract())
      ensures r.Some? ==> Path(0, vpn) in at && r.value == (at[Path(0, vpn)], Index(0, vpn))
      ensures r.None? <==> Path(0, vpn) !in old(at) && (!create || |old(free)| < Missing(old(Abstract()), level, vpn))
      decreases level
    {
      ghost var s := Abstract();
      WalkStep(s, level, vpn);
      if Present(tables[table][Index(level, vpn)]) {
        r := WalkBelow(level, Target(tables[table][Index(level, vpn)]), vpn, create);
        Downward(s, Abstract(), level, vpn);
      } else {
        NoLeafBelow(s, level - 1, vpn);
        if !create || free == {} {
          r := None;
        } else {
          r := WalkNew(level, table, vpn);
        }
      }
    }

    /** The walk from the child table on. */
    method WalkBelow(level: nat, child: nat, vpn: nat, create: bool) returns (r: Option<(nat, nat)>)
      requires Ok(Abstract()) && 0 < level <= 3 && Path(level - 1, vpn) in at && at[Path(level - 1, vpn)] == child
      modifies this`tables, this`free, this`at
      ensures Ok(Abstract()) && Extends(old(Abstract()), Abstract(), level - 1, vpn)
      ensures r.None? || !create ==> Abstract() == old(Abstract())
      ensures r.Some? ==> Path(0, vpn) in at && r.value == (at[Path(0, vpn)], Index(0, vpn))
      ensures r.None? <==>
                && Path(0, vpn) !in old(at)
                && (!create || |old(free)| < Missing(old(Abstract()), level - 1, vpn))
      decreases level, 0
    {
      if level == 1 {
        r := Some((child, Index(0, vpn)));
      } else {
        r := Walk(level - 1, child, vpn, create);
      }
    }

    /** A walk that must add the table at level - 1, and takes it away again if the rest fails. */
    method WalkNew(level: nat, table: nat, vpn: nat) returns (r: Option<(nat, nat)>)
      requires Ok(Abstract()) && 0 < level <= 3 && Path(level, vpn) in at && at[Path(level, vpn)] == table
      requires Path(level - 1, vpn) !in at && free != {}
      modifies this`tables, this`free, this`at
      ensures Ok(Abstract()) && Extends(old(Abstract()), Abstract(), level, vpn)
      ensures r.None? ==> Abstract() == old(Abstract())
      ensures r.Some? ==> Path(0, vpn) in at && r.value == (at[Path(0, vpn)], Index(0, vpn))
      ensures r.None? <==> |old(free)| < Missing(old(Abstract()), level, vpn)
      decreases level, 1
    {
      ghost var s, pl := Abstract(), Path(level, vpn);
      var idx := Index(level, vpn);
      var n :| n in free;
      PathStep(level, vpn);
      NoLeafBelow(s, level - 1, vpn);
      GrownExtends(s, level, vpn, n);
      GrownMissing(s, level, vpn, n);
      ShrunkBack(s, pl, idx, n);
      AddTable(table, idx, n, pl);
      ghost var s1 := Abstract();
      r := WalkBelow(level, n, vpn, true);
      if r.None? {
        DropTable(table, idx, pl);
      } else {
        ExtendsGrown(s, n, Abstract(), level, vpn);
      }
    }

    /** pml4e_walk from the root. */
    method WalkFromRoot(vpn: nat, create: bool) returns (r: Option<(nat, nat)>)
      requires Valid() && vpn < VPN_LIMIT
      modifies this`tables, this`free, this`at
      ensures Valid() && Extends(old(Abstract()), Abstract(), 3, vpn)
      ensures r.None? || !create ==> Abstract() == old(Abstract())
      ensures r.Some? ==> Path(0, vpn) in at && r.value == (at[Path(0, vpn)], Index(0, vpn))
      ensures r.None? <==> Path(0, vpn) !in old(at) && (!create || |old(free)| < Missing(old(Abstract()), 3, vpn))
    {
      PathAtRoot(vpn);
      r := Walk(3, pml4, vpn, create);
    }

    /** pml4_get_page: the kernel address that `uaddr` translates to, 0 for the null pointer. */
    method GetPage(uaddr: nat) returns (kaddr: nat)
      requires Valid() && uaddr < KERN_BASE
      modifies this`tables, this`free, this`at
      ensures Abstract() == old(Abstract())
      ensures kaddr == Translate(Abstract(), uaddr)
    {
      var vpn := uaddr / PGSIZE;
      PathAtLeaf(vpn);
      var pte := WalkFromRoot(vpn, false);
      if pte.Some? && Present(tables[pte.value.0][pte.value.1]) {
        kaddr := Target(tables[pte.value.0][pte.value.1]) + uaddr % PGSIZE;
      } else {
        kaddr := 0;
      }
    }

    /** pml4_set_page. */
    method SetPage(upage: nat, kpage: nat, rw: bool) returns (ok: bool)
      requires Valid() && upage % PGSIZE == 0 && upage < KERN_BASE && IsPage(kpage)
      modifies this`tables, this`free, this`at
      ensures Valid()
      ensures !ok ==> Abstract() == old(Abstract())
      ensures !ok <==> Path(0, upage / PGSIZE) !in old(at) && |old(free)| < Missing(old(Abstract()), 3, upage / PGSIZE)
      ensures ok ==> IsLeaf(Pte(Abstract(), upage / PGSIZE), kpage, rw)
      ensures ok ==> forall v: nat | v != upage / PGSIZE :: Pte(Abstract(), v) == Pte(old(Abstract()), v)
      ensures forall p | p in old(tables) && OffWay(old(Abstract()), upage / PGSIZE, p) ::
                p in tables && tables[p] == old(tables)[p]
      ensures OtherEntriesKept(old(Abstract()), Abstract(), Index(3, upage / PGSIZE))
    {
      hide EntriesOk, Injective, ParentsOk, FreeOk, Extends, LeafWord, IsLeaf;
      var vpn := upage / PGSIZE;
      ghost var s := Abstract();
      var pte := WalkFromRoot(vpn, true);
      if pte.Some? {
        WordBits(kpage);
        SetLeaf(s, Abstract(), vpn, LeafWord(kpage, rw));
        OtherEntries(s, WithPte(Abstract(), Path(0, vpn), Index(0, vpn), LeafWord(kpage, rw)), vpn);
        tables := SetEntry(tables, pte.value.0, pte.value.1, LeafWord(kpage, rw));
      }
      ok := pte.Some?;
    }

    /** pml4_clear_page: only the present bit is cleared, the other bits stay. */
    method ClearPage(upage: nat)
      requires Valid() && upage % PGSIZE == 0 && upage < KERN_BASE
      modifies this`tables, this`free, this`at
      ensures Valid() && at == old(at) && free == old(free)
      ensures forall v: nat | v != upage / PGSIZE :: Pte(Abstract(), v) == Pte(old(Abstract()), v)
      ensures var w, w' := Pte(old(Abstract()), upage / PGSIZE), Pte(Abstract(), upage / PGSIZE);
              !Present(w') && w' / 2 == w / 2
    {
      hide EntriesOk, Injective, ParentsOk, FreeOk, Extends, Cleared;
      var vpn := upage / PGSIZE;
      ClearLeaf(Abstract(), vpn);
      ClearedBits(Pte(Abstract(), vpn));
      var pte := WalkFromRoot(vpn, false);
      if pte.Some? && Present(tables[pte.value.0][pte.value.1]) {
        tables := SetEntry(tables, pte.value.0, pte.value.1, tables[pte.value.0][pte.value.1] - 1);
      }
    }
  }

  /** The word with its present bit off. */
  function Cleared(w: nat): nat { if Present(w) then w - 1 else w }

  /** The present bit is off and every other bit as before. */
  lemma ClearedBits(w: nat)
    ensures !Present(Cleared(w)) && Cleared(w) / 2 == w / 2
    ensures Cleared(w) == if Present(w) then w - 1 else w
  {
  }

  lemma ClearLeaf(s: Space, vpn: nat)
    requires Ok(s)
    ensures Path(0, vpn) !in s.at ==> Cleared(Pte(s, vpn)) == Pte(s, vpn)
    ensures Path(0, vpn) in s.at ==>
              && Pte(s, vpn) == s.tables[s.at[Path(0, vpn)]][Index(0, vpn)]
              && var s' := WithPte(s, Path(0, vpn), Index(0, vpn), Cleared(Pte(s, vpn)));
              && Ok(s') && forall v: nat :: Pte(s', v) == if v == vpn then Cleared(Pte(s, v)) else Pte(s, v)
  {
    PathAtLeaf(vpn);
    if Path(0, vpn) in s.at {
      WithPteOk(s, vpn, Cleared(Pte(s, vpn)));
    }
  }

  /** The flat address translation that the tree stands for. */
  ghost function Translate(s: Space, uaddr: nat): nat
    requires TablesOk(s)
  {
    var w := Pte(s, uaddr / PGSIZE);
    if Present(w) then Target(w) + uaddr % PGSIZE else 0
  }

  /** The page is no table on the way to `vpn`: one of another address space, or one of this space that serves other
      pages. */
  ghost predicate OffWay(s: Space, vpn: nat, p: nat) {
    forall l: nat | l <= 3 && Path(l, vpn) in s.at :: s.at[Path(l, vpn)] != p
  }

  /** The entry of the root under which a place below the root stands. */
  function RootEntry(pl: Place): nat
    requires pl.level < 3
  {
    pl.prefix / Pow512(2 - pl.level)
  }

  /** The tables under every other entry of the root, such as those of the kernel that all processes share, are the
      same. */
  ghost predicate OtherEntriesKept(s: Space, s': Space, entry: nat) {
    forall pl | pl in s.at && pl.level < 3 && RootEntry(pl) != entry && s.at[pl] in s.tables ::
      s.at[pl] in s'.tables && s'.tables[s.at[pl]] == s.tables[s.at[pl]]
  }

  lemma PathEntry(l: nat, vpn: nat)
    requires l < 3 && vpn < VPN_LIMIT
    ensures RootEntry(Path(l, vpn)) == Index(3, vpn)
  {
    assert Pow512(0) == 1 && Pow512(1) == 0x200 && Pow512(2) == 0x4_0000 && Pow512(3) == 0x800_0000;
    DivDiv(vpn, Pow512(l + 1), Pow512(2 - l));
    assert vpn / 0x800_0000 < ENTRIES;
  }

  lemma OtherEntries(s: Space, s': Space, vpn: nat)
    requires Ok(s) && vpn < VPN_LIMIT
    requires forall p | p in s.tables && OffWay(s, vpn, p) :: p in s'.tables && s'.tables[p] == s.tables[p]
    ensures OtherEntriesKept(s, s', Index(3, vpn))
  {
    forall pl | pl in s.at && pl.level < 3 && RootEntry(pl) != Index(3, vpn) ensures OffWay(s, vpn, s.at[pl]) {
      forall l: nat | l <= 3 && Path(l, vpn) in s.at ensures s.at[Path(l, vpn)] != s.at[pl] {
        if l < 3 {
          PathEntry(l, vpn);
        }
      }
    }
  }

  /** A table off the way is neither changed by the walk nor newly allocated. */
  lemma OthersUntouched(s: Space, s1: Space, vpn: nat, p: nat)
    requires Ok(s) && Ok(s1) && Extends(s, s1, 3, vpn) && Path(0, vpn) in s1.at && p in s.tables && OffWay(s, vpn, p)
    ensures p in s1.tables && s1.tables[p] == s.tables[p] && p != s1.at[Path(0, vpn)]
  {
    assert OffPath(s, 3, vpn, p);
  }

  /** Everything about writing the leaf entry that a creating walk from `s` to `s1` has found. */
  lemma SetLeaf(s: Space, s1: Space, vpn: nat, w: nat)
    requires Ok(s) && Ok(s1) && Extends(s, s1, 3, vpn) && Path(0, vpn) in s1.at
    ensures var s2 := WithPte(s1, Path(0, vpn), Index(0, vpn), w);
            && Ok(s2) && s2.at == s1.at && ROOT in s.at && s1.at[ROOT] == s.at[ROOT]
            && (forall v: nat :: Pte(s2, v) == if v == vpn then w else Pte(s, v))
            && (forall p | p in s.tables && OffWay(s, vpn, p) :: p in s2.tables && s2.tables[p] == s.tables[p])
  {
    WithPteOk(s1, vpn, w);
    forall p | p in s.tables && OffWay(s, vpn, p)
      ensures p in s1.tables && s1.tables[p] == s.tables[p] && p != s1.at[Path(0, vpn)]
    {
      OthersUntouched(s, s1, vpn, p);
    }
  }

  /** After a successful pml4_set_page the page reads back as mapped, and every other page as before. */
  lemma SetThenGet(s: Space, s': Space, upage: nat, kpage: nat, rw: bool, uaddr: nat)
    requires TablesOk(s) && TablesOk(s') && upage % PGSIZE == 0 && IsLeaf(Pte(s', upage / PGSIZE), kpage, rw)
    requires forall v: nat | v != upage / PGSIZE :: Pte(s', v) == Pte(s, v)
    ensures Translate(s', uaddr) ==
            if uaddr / PGSIZE == upage / PGSIZE then kpage + uaddr % PGSIZE else Translate(s, uaddr)
  {
  }

  /** After pml4_clear_page no address of the page translates, and every other address as before. */
  lemma ClearThenGet(s: Space, s': Space, upage: nat, uaddr: nat)
    requires TablesOk(s) && TablesOk(s') && upage % PGSIZE == 0 && !Present(Pte(s', upage / PGSIZE))
    requires forall v: nat | v != upage / PGSIZE :: Pte(s', v) == Pte(s, v)
    ensures Translate(s', uaddr) == if uaddr / PGSIZE == upage / PGSIZE then 0 else Translate(s, uaddr)
  {
  }

  /** What the processor lets user code do with a page: it takes the conjunction of the bits on the way. */
  ghost predicate Allows(s: Space, vpn: nat, write: bool)
    requires TablesOk(s)
  {
    && Present(Pte(s, vpn)) && User(Pte(s, vpn)) && (write ==> Writable(Pte(s, vpn)))
    && forall l: nat | 0 < l <= 3 && Path(l, vpn) in s.at ::
         var w := s.tables[s.at[Path(l, vpn)]][Index(l, vpn)];
         Present(w) && User(w) && (write ==> Writable(w))
  }

  /** A page mapped by pml4_set_page can be read by user code, and written exactly if it was mapped so. */
  lemma MappedAllows(s: Space, vpn: nat, kpage: nat, rw: bool)
    requires Ok(s) && vpn < VPN_LIMIT && IsLeaf(Pte(s, vpn), kpage, rw)
    ensures Allows(s, vpn, false) && (Allows(s, vpn, true) <==> rw)
  {
    forall l: nat | 0 < l <= 3 && Path(l, vpn) in s.at
      ensures var w := s.tables[s.at[Path(l, vpn)]][Index(l, vpn)]; Present(w) && User(w) && Writable(w)
    {
      PathStep(l, vpn);
      MappedOnWay(s, vpn, l - 1);
      assert EntryOk(s, Path(l, vpn), Index(l, vpn));
    }
  }

  /** Below a page table that exists every table on the way exists. */
  lemma {:induction false} MappedOnWay(s: Space, vpn: nat, l: nat)
    requires Ok(s) && vpn < VPN_LIMIT && Pte(s, vpn) != 0 && l <= 3
    ensures Path(l, vpn) in s.at
  {
    PathAtLeaf(vpn);
    if l > 0 {
      MappedOnWay(s, vpn, l - 1);
      PathStep(l - 1, vpn);
    }
  }
}
