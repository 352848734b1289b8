/** Visiting and destroying whole page tables (threads/mmu.c, pml4_for_each and pml4_destroy). */
module PageTraversal {
  import opened Powers
  import opened PageTable
  import opened Vaddr

  // ---------- ranges of page numbers ----------

  /** The first page number that the table at `pl` translates; the range has Pow512(level + 1) pages. */
  function Base(pl: Place): nat { pl.prefix * Pow512(pl.level + 1) }

  /** The first page number below entry `i` of the table at `pl`. */
  function EntryBase(pl: Place, i: nat): nat { Base(pl) + i * Pow512(pl.level) }

  lemma EntryBaseIsChild(pl: Place, i: nat)
    requires pl.level > 0
    ensures EntryBase(pl, i) == Base(Child(pl, i))
    ensures EntryBase(pl, i + 1) == EntryBase(pl, i) + Pow512(pl.level)
  {
    var k := Pow512(pl.level);
    assert Pow512(pl.level + 1) == ENTRIES * k;
    assert pl.prefix * (ENTRIES * k) + i * k == (pl.prefix * ENTRIES + i) * k;
    assert (i + 1) * k == i * k + k;
  }

  /** The page numbers of a table's range are those whose path goes through it. */
  lemma InRange(pl: Place, v: nat)
    ensures Base(pl) <= v < Base(pl) + Pow512(pl.level + 1) <==> Path(pl.level, v) == pl
  {
    var k := Pow512(pl.level + 1);
    DivBounds(v, k);
    if Base(pl) <= v < Base(pl) + k {
      assert k * (pl.prefix + 1) == pl.prefix * k + k;
      DivUnique(v, k, pl.prefix);
    }
    if Path(pl.level, v) == pl {
      assert k * (pl.prefix + 1) == pl.prefix * k + k;
    }
  }

  // ---------- pml4_for_each ----------

  /** A call of the visitor: the entry's page and index, and the virtual address rebuilt for it. */
  datatype Call = Call(page: nat, idx: nat, va: nat)

  ghost function CallFor(s: Space, v: nat): Call
    requires TablesOk(s) && Present(Pte(s, v))
  {
    Call(s.at[Place(0, v / ENTRIES)], v % ENTRIES, v * PGSIZE)
  }

  /** One call for each present entry among `n` page numbers from `lo` on, in ascending order. */
  ghost function CallsFor(s: Space, lo: nat, n: nat): seq<Call>
    requires TablesOk(s)
  {
    if n == 0 then []
    else CallsFor(s, lo, n - 1) + if Present(Pte(s, lo + n - 1)) then [CallFor(s, lo + n - 1)] else []
  }

  /** What is called when `f` stops the traversal by returning false. */
  ghost function Until(f: Call -> bool, calls: seq<Call>): seq<Call> {
    if calls == [] then []
    else if f(calls[0]) then [calls[0]] + Until(f, calls[1..])
    else [calls[0]]
  }

  ghost predicate AllPass(f: Call -> bool, calls: seq<Call>) {
    forall i | 0 <= i < |calls| :: f(calls[i])
  }

  /** The calls made are the first ones, in order: all of them if none is refused, otherwise up to and including the
      first that is. */
  lemma {:induction false} UntilRefused(f: Call -> bool, calls: seq<Call>)
    ensures var made := Until(f, calls);
            && |made| <= |calls| && made == calls[..|made|]
            && (forall i | 0 <= i < |made| - 1 :: f(made[i]))
            && (if |made| < |calls| then made != [] && !f(made[|made| - 1]) else made == calls)
  {
    if calls != [] && f(calls[0]) {
      UntilRefused(f, calls[1..]);
    }
  }

  lemma {:induction false} CallsForConcat(s: Space, lo: nat, m: nat, n: nat)
    requires TablesOk(s)
    ensures CallsFor(s, lo, m + n) == CallsFor(s, lo, m) + CallsFor(s, lo + m, n)
  {
    if n > 0 {
      CallsForConcat(s, lo, m, n - 1);
    }
  }

  lemma {:induction false} CallsForNone(s: Space, lo: nat, n: nat)
    requires TablesOk(s) && forall v: nat | lo <= v < lo + n :: !Present(Pte(s, v))
    ensures CallsFor(s, lo, n) == []
  {
    if n > 0 {
      CallsForNone(s, lo, n - 1);
    }
  }

  lemma {:induction false} UntilPass(f: Call -> bool, x: seq<Call>, y: seq<Call>)
    requires AllPass(f, x)
    ensures Until(f, x + y) == x + Until(f, y)
  {
    if x == [] {
      assert x + y == y;
    } else {
      UntilPass(f, x[1..], y);
      assert (x + y)[1..] == x[1..] + y;
    }
  }

  lemma {:induction false} UntilStop(f: Call -> bool, x: seq<Call>, y: seq<Call>)
    requires !AllPass(f, x)
    ensures Until(f, x + y) == Until(f, x)
  {
    assert (x + y)[1..] == x[1..] + y;
    if f(x[0]) {
      assert exists i | 0 <= i < |x[1..]| :: !f(x[1..][i]) by {
        var i :| 0 <= i < |x| && !f(x[i]);
        assert x[1..][i - 1] == x[i];
      }
      UntilStop(f, x[1..], y);
    }
  }

  lemma {:induction false} UntilAll(f: Call -> bool, x: seq<Call>)
    requires AllPass(f, x)
    ensures Until(f, x) == x
  {
    UntilPass(f, x, []);
    assert x + [] == x;
  }

  /** An absent table translates nothing. */
  lemma AbsentMapsNothing(s: Space, pl: Place)
    requires Ok(s) && pl !in s.at && pl.level <= 3
    ensures CallsFor(s, Base(pl), Pow512(pl.level + 1)) == []
  {
    AbsentHasNoPte(s, pl);
    CallsForNone(s, Base(pl), Pow512(pl.level + 1));
  }

  lemma AbsentHasNoPte(s: Space, pl: Place)
    requires Ok(s) && pl !in s.at && pl.level <= 3
    ensures forall v: nat | Base(pl) <= v < Base(pl) + Pow512(pl.level + 1) :: !Present(Pte(s, v))
  {
    forall v: nat | Base(pl) <= v < Base(pl) + Pow512(pl.level + 1) ensures !Present(Pte(s, v)) {
      InRange(pl, v);
      NoLeafBelow(s, pl.level, v);
      PathAtLeaf(v);
    }
  }

  /** The calls below the first `i` entries of the table at `pl`. */
  ghost function CallsBelow(s: Space, pl: Place, i: nat): seq<Call>
    requires TablesOk(s)
  {
    CallsFor(s, Base(pl), i * Pow512(pl.level))
  }

  lemma CallsBelowConcat(s: Space, pl: Place, i: nat)
    requires TablesOk(s)
    ensures CallsBelow(s, pl, i + 1) == CallsBelow(s, pl, i) + CallsFor(s, EntryBase(pl, i), Pow512(pl.level))
  {
    var k := Pow512(pl.level);
    assert (i + 1) * k == i * k + k;
    CallsForConcat(s, Base(pl), i * k, k);
  }

  /** All calls of the table are those below its first `i` entries and some more. */
  lemma CallsBelowRest(s: Space, pl: Place, i: nat) returns (rest: seq<Call>)
    requires TablesOk(s) && i <= ENTRIES
    ensures CallsFor(s, Base(pl), Pow512(pl.level + 1)) == CallsBelow(s, pl, i) + rest
    ensures i == ENTRIES ==> rest == []
  {
    var k := Pow512(pl.level);
    var m := i * k;
    MulMonotone(i, ENTRIES, k);
    CallsForConcat(s, Base(pl), m, ENTRIES * k - m);
    rest := CallsFor(s, Base(pl) + m, ENTRIES * k - m);
  }

  lemma LeafCalls(s: Space, pl: Place, i: nat)
    requires TablesOk(s) && pl in s.at && pl.level == 0 && i < ENTRIES
    ensures var v := pl.prefix * ENTRIES + i;
            && Base(pl) + i == v && s.tables[s.at[pl]][i] == Pte(s, v)
            && CallsFor(s, v, 1) == if Present(Pte(s, v)) then [Call(s.at[pl], i, v * PGSIZE)] else []
  {
    assert Pow512(1) == ENTRIES;
    var v := pl.prefix * ENTRIES + i;
    assert v / ENTRIES == pl.prefix && v % ENTRIES == i;
    assert CallsFor(s, v, 0) == [];
  }

  /** The calls below entry `i` of the table at `pl`. */
  ghost function Next(s: Space, pl: Place, i: nat): seq<Call>
    requires TablesOk(s) && pl in s.at && i < ENTRIES
  {
    if pl.level == 0 then
      if Present(s.tables[s.at[pl]][i]) then [Call(s.at[pl], i, (pl.prefix * ENTRIES + i) * PGSIZE)] else []
    else
      if Child(pl, i) in s.at then CallsFor(s, Base(Child(pl, i)), Pow512(pl.level)) else []
  }

  lemma NextCalls(s: Space, pl: Place, i: nat)
    requires Ok(s) && pl in s.at && i < ENTRIES
    ensures CallsFor(s, EntryBase(pl, i), Pow512(pl.level)) == Next(s, pl, i)
  {
    hide CallsFor, Next;
    if pl.level > 0 {
      NextAbove(s, pl, i);
    } else {
      NextLeaf(s, pl, i);
    }
  }

  lemma NextLeaf(s: Space, pl: Place, i: nat)
    requires TablesOk(s) && pl in s.at && pl.level == 0 && i < ENTRIES
    ensures CallsFor(s, EntryBase(pl, i), Pow512(0)) == Next(s, pl, i)
  {
    LeafCalls(s, pl, i);
  }

  lemma NextAbove(s: Space, pl: Place, i: nat)
    requires Ok(s) && pl in s.at && pl.level > 0 && i < ENTRIES
    ensures CallsFor(s, EntryBase(pl, i), Pow512(pl.level)) == Next(s, pl, i)
  {
    EntryBaseIsChild(pl, i);
    if Child(pl, i) !in s.at {
      AbsentMapsNothing(s, Child(pl, i));
    }
  }

  lemma CallsBelowStep(s: Space, pl: Place, i: nat)
    requires Ok(s) && pl in s.at && i < ENTRIES
    ensures CallsBelow(s, pl, i + 1) == CallsBelow(s, pl, i) + Next(s, pl, i)
  {
    CallsBelowConcat(s, pl, i);
    NextCalls(s, pl, i);
  }

  lemma UntilSplit(f: Call -> bool, done: seq<Call>, next: seq<Call>, rest: seq<Call>)
    requires AllPass(f, done) && !AllPass(f, next)
    ensures Until(f, done + next + rest) == done + Until(f, next) && !AllPass(f, done + next + rest)
  {
    assert done + next + rest == done + (next + rest);
    UntilPass(f, done, next + rest);
    UntilStop(f, next, rest);
    var j :| 0 <= j < |next| && !f(next[j]);
    assert (done + next + rest)[|done| + j] == next[j];
  }

  /** A visitor that stops below entry `i` has stopped the whole traversal. */
  lemma StoppedAt(s: Space, pl: Place, i: nat, f: Call -> bool)
    requires Ok(s) && pl in s.at && i < ENTRIES
    requires AllPass(f, CallsBelow(s, pl, i)) && !AllPass(f, Next(s, pl, i))
    ensures var calls := CallsFor(s, Base(pl), Pow512(pl.level + 1));
            Until(f, calls) == CallsBelow(s, pl, i) + Until(f, Next(s, pl, i)) && !AllPass(f, calls)
  {
    CallsBelowStep(s, pl, i);
    var rest := CallsBelowRest(s, pl, i + 1);
    UntilSplit(f, CallsBelow(s, pl, i), Next(s, pl, i), rest);
  }

  /** pt_for_each at level 0; pgdir_for_each, pdp_for_each and pml4_for_each at levels 1 to 3.
      The visitor's decisions are `f`; the calls made are returned. */
  method ForEach(ghost s: Space, tables: Tables, level: nat, prefix: nat, table: nat, f: Call -> bool)
    returns (ok: bool, log: seq<Call>)
    requires Ok(s) && tables == s.tables && Place(level, prefix) in s.at && s.at[Place(level, prefix)] == table
    ensures var calls := CallsFor(s, Base(Place(level, prefix)), Pow512(level + 1));
            log == Until(f, calls) && (ok <==> AllPass(f, calls))
    decreases level, 1
  {
    ghost var pl := Place(level, prefix);
    log := [];
    var i := 0;
    while i < ENTRIES
      invariant 0 <= i <= ENTRIES
      invariant log == CallsBelow(s, pl, i) && AllPass(f, log)
    {
      CallsBelowStep(s, pl, i);
      var fine, more := VisitEntry(s, tables, level, prefix, table, i, f);
      if !fine {
        StoppedAt(s, pl, i, f);
        return false, log + more;
      }
      log := log + more;
      i := i + 1;
    }
    ghost var rest := CallsBelowRest(s, pl, ENTRIES);
    UntilAll(f, log);
    ok := true;
  }

  /** The body of those loops: one entry. */
  method VisitEntry(ghost s: Space, tables: Tables, level: nat, prefix: nat, table: nat, i: nat, f: Call -> bool)
    returns (fine: bool, more: seq<Call>)
    requires Ok(s) && tables == s.tables && Place(level, prefix) in s.at && s.at[Place(level, prefix)] == table &&
             i < ENTRIES
    ensures var next := Next(s, Place(level, prefix), i);
            && more == Until(f, next) && (fine <==> AllPass(f, next))
            && (fine ==> more == next)
    decreases level, 0
  {
    ghost var pl := Place(level, prefix);
    var w := tables[table][i];
    fine, more := true, [];
    if level == 0 {
      if Present(w) {
        var call := Call(table, i, (prefix * ENTRIES + i) * PGSIZE);
        fine, more := f(call), [call];
      }
    } else {
      assert EntryOk(s, pl, i);
      if Present(w) {
        fine, more := ForEach(s, tables, level - 1, prefix * ENTRIES + i, Target(w), f);
      }
    }
    if fine {
      UntilAll(f, Next(s, pl, i));
    }
  }

  /** The addresses are strictly ascending and below `bound`. */
  ghost predicate Ascending(calls: seq<Call>, bound: nat) {
    && (forall i | 0 <= i < |calls| :: calls[i].va < bound)
    && (forall i, j | 0 <= i < j < |calls| :: calls[i].va < calls[j].va)
  }

  /** The calls come in ascending order of address, so none is repeated. */
  lemma {:induction false} CallsAscend(s: Space, lo: nat, n: nat)
    requires TablesOk(s)
    ensures Ascending(CallsFor(s, lo, n), (lo + n) * PGSIZE)
  {
    if n > 0 {
      CallsAscend(s, lo, n - 1);
      var before, v := CallsFor(s, lo, n - 1), lo + n - 1;
      AscendingMore(before, v * PGSIZE, if Present(Pte(s, v)) then [CallFor(s, v)] else [], (lo + n) * PGSIZE);
    }
  }

  lemma AscendingMore(calls: seq<Call>, bound: nat, more: seq<Call>, bound': nat)
    requires Ascending(calls, bound) && bound < bound' && |more| <= 1
    requires forall i | 0 <= i < |more| :: more[i].va == bound
    ensures Ascending(calls + more, bound')
  {
  }

  /** There is a call for a page number exactly when it is in range and its entry is present. */
  lemma {:induction false} CallsExact(s: Space, lo: nat, n: nat, c: Call)
    requires TablesOk(s)
    ensures c in CallsFor(s, lo, n) <==>
            exists v: nat :: lo <= v < lo + n && Present(Pte(s, v)) && c == CallFor(s, v)
  {
    if n > 0 {
      CallsExact(s, lo, n - 1, c);
      var v := lo + n - 1;
      if Present(Pte(s, v)) && c == CallFor(s, v) {
        assert c in CallsFor(s, lo, n);
      }
    }
  }

  /** The rebuilt address is the shifted indices put together, and walking it leads back to the entry. */
  lemma CallWalksBack(s: Space, v: nat)
    requires TablesOk(s) && Present(Pte(s, v)) && v < VPN_LIMIT
    ensures var c := CallFor(s, v);
            && c.va / PGSIZE == v
            && Path(0, c.va / PGSIZE) in s.at
            && c.page == s.at[Path(0, c.va / PGSIZE)] && c.idx == Index(0, c.va / PGSIZE)
            && c.va == Index(3, v) * 0x80_0000_0000 + Index(2, v) * 0x4000_0000 + Index(1, v) * 0x20_0000 +
                Index(0, v) * 0x1000
  {
    PathAtLeaf(v);
    MulDivCancel(v, PGSIZE);
    Digits(v);
  }

  lemma Digits(v: nat)
    requires v < VPN_LIMIT
    ensures v == Index(3, v) * 0x800_0000 + Index(2, v) * 0x4_0000 + Index(1, v) * 0x200 + Index(0, v)
  {
    assert Pow512(0) == 1 && Pow512(1) == 0x200 && Pow512(2) == 0x4_0000 && Pow512(3) == 0x800_0000;
    var a := v / 0x200;
    var b := a / 0x200;
    var c := b / 0x200;
    DivDiv(v, 0x200, 0x200);
    DivDiv(v, 0x4_0000, 0x200);
    assert c < 0x200;
  }

  // ---------- pml4_destroy ----------

  /** `ql` stands in the subtree of `pl`. */
  ghost predicate Under(pl: Place, ql: Place) {
    ql.level <= pl.level && ql.prefix / Pow512(pl.level - ql.level) == pl.prefix
  }

  /** The table pages of the subtree of `pl`. */
  ghost function TreePages(s: Space, pl: Place): set<nat> {
    set ql | ql in s.at && Under(pl, ql) :: s.at[ql]
  }

  /** The pages freed for the first `n` entries of the table at `pl`. */
  ghost function FreedBelow(s: Space, pl: Place, n: nat): seq<nat>
    requires TablesOk(s) && pl in s.at && n <= ENTRIES
    decreases pl.level, n
  {
    if n == 0 then [] else FreedBelow(s, pl, n - 1) + FreedAt(s, pl, n - 1)
  }

  /** The pages freed for entry `i`: a present frame, or a whole subtree ending with its table. */
  ghost function FreedAt(s: Space, pl: Place, i: nat): seq<nat>
    requires TablesOk(s) && pl in s.at && i < ENTRIES
    decreases pl.level, i
  {
    var w := s.tables[s.at[pl]][i];
    if pl.level == 0 then (if Present(w) then [Target(w)] else [])
    else if Child(pl, i) in s.at then FreedBelow(s, Child(pl, i), ENTRIES) + [s.at[Child(pl, i)]]
    else []
  }

  /** Everything that destroying the table at `pl` frees, in order: what it refers to, then itself. */
  ghost function Freed(s: Space, pl: Place): seq<nat>
    requires TablesOk(s) && pl in s.at
  {
    FreedBelow(s, pl, ENTRIES) + [s.at[pl]]
  }

  /** What pml4_destroy frees: everything under entry 0, then the root. */
  ghost function FreedByRoot(s: Space, root: Place): seq<nat>
    requires TablesOk(s) && root in s.at
  {
    FreedAt(s, root, 0) + [s.at[root]]
  }

  lemma UnderChild(pl: Place, i: nat, ql: Place)
    requires pl.level > 0 && i < ENTRIES
    ensures Under(Child(pl, i), ql) ==> Under(pl, ql) && ql.level < pl.level
  {
    if Under(Child(pl, i), ql) {
      var k := Pow512(pl.level - 1 - ql.level);
      assert Pow512(pl.level - ql.level) == k * ENTRIES;
      DivDiv(ql.prefix, k, ENTRIES);
    }
  }

  /** A place strictly below `pl` is below exactly one of its children. */
  lemma UnderSome(pl: Place, ql: Place)
    requires Under(pl, ql) && ql != pl
    ensures ql.level < pl.level
    ensures exists i | 0 <= i < ENTRIES :: Under(Child(pl, i), ql)
  {
    assert Pow512(0) == 1;
    if ql.level < pl.level {
      var k := Pow512(pl.level - 1 - ql.level);
      assert Pow512(pl.level - ql.level) == k * ENTRIES;
      DivDiv(ql.prefix, k, ENTRIES);
      var i := ql.prefix / k % ENTRIES;
      assert Under(Child(pl, i), ql);
    }
  }

  lemma UnderOne(pl: Place, i: nat, j: nat, ql: Place)
    requires pl.level > 0 && i < ENTRIES && j < ENTRIES && Under(Child(pl, i), ql) && Under(Child(pl, j), ql)
    ensures i == j
  {
  }

  lemma UnderSelf(pl: Place)
    ensures Under(pl, pl)
  {
    assert Pow512(0) == 1;
  }

  /** The subtree's pages below the first `n` entries. */
  ghost function PagesBelow(s: Space, pl: Place, n: nat): set<nat>
    requires pl.level > 0
  {
    set i, ql | 0 <= i < n && ql in s.at && Under(Child(pl, i), ql) :: s.at[ql]
  }

  lemma PagesBelowStep(s: Space, pl: Place, n: nat)
    requires pl.level > 0
    ensures PagesBelow(s, pl, n + 1) == PagesBelow(s, pl, n) + TreePages(s, Child(pl, n))
  {
  }

  lemma TreePagesAll(s: Space, pl: Place)
    requires pl in s.at && pl.level > 0
    ensures TreePages(s, pl) == PagesBelow(s, pl, ENTRIES) + {s.at[pl]}
  {
    UnderSelf(pl);
    forall p ensures p in TreePages(s, pl) <==> p in PagesBelow(s, pl, ENTRIES) + {s.at[pl]} {
      if p in TreePages(s, pl) {
        var ql :| ql in s.at && Under(pl, ql) && s.at[ql] == p;
        if ql != pl {
          UnderSome(pl, ql);
          var i :| 0 <= i < ENTRIES && Under(Child(pl, i), ql);
          assert p in PagesBelow(s, pl, ENTRIES);
        }
      }
      if p in PagesBelow(s, pl, ENTRIES) {
        var i, ql :| 0 <= i < ENTRIES && ql in s.at && Under(Child(pl, i), ql) && s.at[ql] == p;
        UnderChild(pl, i, ql);
      }
    }
  }

  /** The tables of the subtree of `pl` are still as they were in `s`. */
  ghost predicate Intact(s: Space, tables: Tables, pl: Place) {
    forall ql | ql in s.at && Under(pl, ql) && s.at[ql] in s.tables ::
      s.at[ql] in tables && tables[s.at[ql]] == s.tables[s.at[ql]]
  }

  /** Freeing what is below earlier entries leaves the table itself and later subtrees intact. */
  lemma StillIntact(s: Space, tables: Tables, pl: Place, n: nat)
    requires Ok(s) && pl in s.at && pl.level > 0 && n < ENTRIES && Intact(s, tables, pl)
    ensures s.at[pl] !in PagesBelow(s, pl, n)
    ensures Child(pl, n) in s.at ==> Intact(s, tables - PagesBelow(s, pl, n), Child(pl, n))
  {
    forall ql | ql in s.at && Under(Child(pl, n), ql) ensures Under(pl, ql) && s.at[ql] !in PagesBelow(s, pl, n) {
      UnderChild(pl, n, ql);
      if s.at[ql] in PagesBelow(s, pl, n) {
        var i, rl :| 0 <= i < n && rl in s.at && Under(Child(pl, i), rl) && s.at[rl] == s.at[ql];
        UnderOne(pl, i, n, ql);
      }
    }
  }

  lemma AbsentHasNoPages(s: Space, pl: Place)
    requires Ok(s) && pl !in s.at && pl.level <= 3
    ensures TreePages(s, pl) == {}
  {
    forall ql | ql in s.at ensures !Under(pl, ql) {
      if Under(pl, ql) {
        AncestorIn(s, pl, ql);
      }
    }
  }

  /** Every place above a table of the tree holds a table of the tree. */
  lemma {:induction false} AncestorIn(s: Space, pl: Place, ql: Place)
    requires ParentsOk(s) && ql in s.at && Under(pl, ql) && pl.level <= 3
    ensures pl in s.at
    decreases pl.level - ql.level
  {
    assert Pow512(0) == 1;
    if ql.level < pl.level {
      var k := Pow512(pl.level - ql.level - 1);
      assert Pow512(pl.level - ql.level) == ENTRIES * k;
      DivDiv(ql.prefix, ENTRIES, k);
      AncestorIn(s, pl, Parent(ql));
    }
  }

  lemma LeafPages(s: Space, pl: Place)
    requires pl in s.at && pl.level == 0
    ensures TreePages(s, pl) == {s.at[pl]}
  {
    assert Pow512(0) == 1;
    UnderSelf(pl);
  }

  /** Physical memory as destruction sees it: the tables, and the pages given back so far. */
  class Memory {
    var tables: Tables
    var freed: seq<nat>

    constructor (tables: Tables)
      ensures this.tables == tables && freed == []
    {
      this.tables, freed := tables, [];
    }

    /** palloc_free_page: a freed page can no longer be read as a table. */
    method FreePage(page: nat)
      modifies this
      ensures tables == old(tables) - {page} && freed == old(freed) + [page]
    {
      tables := tables - {page};
      freed := freed + [page];
    }

    /** pt_destroy. */
    method DestroyLeaf(ghost s: Space, ghost pl: Place, table: nat)
      requires TablesOk(s) && FramesAreData(s, pl) && tables.Keys <= s.tables.Keys
      requires pl in s.at && pl.level == 0 && s.at[pl] == table && Intact(s, tables, pl)
      modifies this
      ensures freed == old(freed) + Freed(s, pl)
      ensures tables == old(tables) - TreePages(s, pl)
    {
      ghost var was, before := freed, tables;
      UnderSelf(pl);
      var i := 0;
      while i < ENTRIES
        invariant 0 <= i <= ENTRIES
        invariant freed == was + FreedBelow(s, pl, i)
        invariant tables == before
      {
        var w := tables[table][i];
        if Present(w) {
          FrameIsData(s, pl, i);
          FreePage(Target(w));
          assert tables == before;
        }
        i := i + 1;
      }
      LeafPages(s, pl);
      FreePage(table);
    }

    /** pgdir_destroy at level 1, pdpe_destroy at level 2. */
    method DestroyBranch(ghost s: Space, level: nat, ghost pl: Place, table: nat)
      requires Ok(s) && FramesAreData(s, pl) && tables.Keys <= s.tables.Keys
      requires pl in s.at && pl.level == level > 0 && s.at[pl] == table && Intact(s, tables, pl)
      modifies this
      ensures freed == old(freed) + Freed(s, pl)
      ensures tables == old(tables) - TreePages(s, pl)
      decreases level, 2
    {
      DestroyEntries(s, level, pl, table);
      TreePagesAll(s, pl);
      FreePage(table);
    }

    /** The loops of pgdir_destroy and pdpe_destroy. */
    method DestroyEntries(ghost s: Space, level: nat, ghost pl: Place, table: nat)
      requires Ok(s) && FramesAreData(s, pl) && tables.Keys <= s.tables.Keys
      requires pl in s.at && pl.level == level > 0 && s.at[pl] == table && Intact(s, tables, pl)
      modifies this
      ensures freed == old(freed) + FreedBelow(s, pl, ENTRIES)
      ensures tables == old(tables) - PagesBelow(s, pl, ENTRIES)
      decreases level, 1
    {
      hide Intact, PagesBelow, FramesAreData, FreedAt;
      ghost var was, before := freed, tables;
      NoneBelowYet(s, pl, tables);
      var i := 0;
      while i < ENTRIES
        invariant 0 <= i <= ENTRIES
        invariant freed == was + FreedBelow(s, pl, i)
        invariant tables == before - PagesBelow(s, pl, i)
      {
        FramesOfChild(s, pl, i);
        DestroyEntry(s, level, pl, table, i, before);
        i := i + 1;
      }
    }

    /** The body of the loops of pgdir_destroy and pdpe_destroy. */
    method DestroyEntry(ghost s: Space, level: nat, ghost pl: Place, table: nat, i: nat, ghost before: Tables)
      requires Ok(s) && before.Keys <= s.tables.Keys
      requires pl in s.at && pl.level == level > 0 && s.at[pl] == table && i < ENTRIES && Intact(s, before, pl)
      requires FramesAreData(s, Child(pl, i))
      requires tables == before - PagesBelow(s, pl, i)
      modifies this
      ensures freed == old(freed) + FreedAt(s, pl, i)
      ensures tables == before - PagesBelow(s, pl, i + 1)
      decreases level, 0
    {
      EntryGone(s, before, pl, i);
      assert EntryOk(s, pl, i);
      var w := tables[table][i];
      if Present(w) {
        if level == 1 {
          DestroyLeaf(s, Child(pl, i), Target(w));
        } else {
          DestroyBranch(s, level - 1, Child(pl, i), Target(w));
        }
      }
    }

    /** pml4_destroy: everything under entry 0, then the root itself. */
    method DestroyRoot(ghost s: Space, ghost root: Place, pml4: nat)
      requires Ok(s) && tables.Keys <= s.tables.Keys
      requires root in s.at && root.level == 3 && s.at[root] == pml4 && Intact(s, tables, root)
      requires FramesAreData(s, Child(root, 0))
      modifies this
      ensures freed == old(freed) + FreedByRoot(s, root)
      ensures tables == old(tables) - PagesBelow(s, root, 1) - {pml4}
    {
      hide Intact, PagesBelow, FramesAreData, FreedAt;
      NoneBelowYet(s, root, tables);
      DestroyEntry(s, 3, root, pml4, 0, tables);
      FreePage(pml4);
    }
  }

  /** The frames mapped through the table at `pl` are data pages, not page tables.  Elsewhere, as in the kernel's
      own map of all memory, entries may well point to tables. */
  ghost predicate FramesAreData(s: Space, pl: Place)
    requires TablesOk(s)
  {
    forall v: nat | Path(pl.level, v) == pl && Present(Pte(s, v)) :: Target(Pte(s, v)) !in s.tables
  }

  lemma FramesOfChild(s: Space, pl: Place, i: nat)
    requires TablesOk(s) && pl.level > 0 && i < ENTRIES && FramesAreData(s, pl)
    ensures FramesAreData(s, Child(pl, i))
  {
    forall v: nat | Path(pl.level - 1, v) == Child(pl, i) && Present(Pte(s, v)) ensures Target(Pte(s, v)) !in s.tables {
      PathStep(pl.level - 1, v);
      ChildParent(pl, i);
    }
  }

  lemma NoneBelowYet(s: Space, pl: Place, tables: Tables)
    requires pl.level > 0
    ensures tables - PagesBelow(s, pl, 0) == tables
  {
    assert PagesBelow(s, pl, 0) == {};
  }

  lemma FrameIsData(s: Space, pl: Place, i: nat)
    requires TablesOk(s) && FramesAreData(s, pl) && pl in s.at && pl.level == 0 && i < ENTRIES
    requires Present(s.tables[s.at[pl]][i])
    ensures Target(s.tables[s.at[pl]][i]) !in s.tables
  {
    LeafPte(s, pl, i);
    PathAtLeaf(pl.prefix * ENTRIES + i);
  }

  lemma LeafPte(s: Space, pl: Place, i: nat)
    requires TablesOk(s) && pl in s.at && pl.level == 0 && i < ENTRIES
    ensures Pte(s, pl.prefix * ENTRIES + i) == s.tables[s.at[pl]][i]
  {
    PathAtLeaf(pl.prefix * ENTRIES + i);
  }

  /** Entry `n`: its subtree is intact before its turn, and gone after it. */
  lemma EntryGone(s: Space, before: Tables, pl: Place, n: nat)
    requires Ok(s) && pl in s.at && pl.level > 0 && n < ENTRIES && Intact(s, before, pl)
    ensures var t := before - PagesBelow(s, pl, n);
            && s.at[pl] in t && t[s.at[pl]] == s.tables[s.at[pl]]
            && (Child(pl, n) in s.at ==> Intact(s, t, Child(pl, n)))
            && t - TreePages(s, Child(pl, n)) == before - PagesBelow(s, pl, n + 1)
            && (Child(pl, n) !in s.at ==> t == before - PagesBelow(s, pl, n + 1))
  {
    UnderSelf(pl);
    StillIntact(s, before, pl, n);
    PagesBelowStep(s, pl, n);
    if Child(pl, n) !in s.at {
      AbsentHasNoPages(s, Child(pl, n));
    }
  }

  // ---------- exactly once ----------

  /** The frames of the present entries of `n` pages from `lo`, in order, one for each entry. */
  ghost function Frames(s: Space, lo: nat, n: nat): seq<nat>
    requires TablesOk(s)
  {
    if n == 0 then []
    else
      var w := Pte(s, lo + n - 1);
      Frames(s, lo, n - 1) + if Present(w) then [Target(w)] else []
  }

  lemma {:induction false} FramesConcat(s: Space, lo: nat, m: nat, n: nat)
    requires TablesOk(s)
    ensures Frames(s, lo, m + n) == Frames(s, lo, m) + Frames(s, lo + m, n)
  {
    if n > 0 {
      FramesConcat(s, lo, m, n - 1);
    }
  }

  lemma {:induction false} FramesNone(s: Space, lo: nat, n: nat)
    requires TablesOk(s) && forall v: nat | lo <= v < lo + n :: !Present(Pte(s, v))
    ensures Frames(s, lo, n) == []
  {
    if n > 0 {
      FramesNone(s, lo, n - 1);
    }
  }

  /** The frames below the first `n` entries of the table at `pl`. */
  ghost function FramesBelow(s: Space, pl: Place, n: nat): seq<nat>
    requires TablesOk(s)
  {
    Frames(s, Base(pl), n * Pow512(pl.level))
  }

  lemma FramesBelowStep(s: Space, pl: Place, n: nat)
    requires TablesOk(s)
    ensures FramesBelow(s, pl, n + 1) == FramesBelow(s, pl, n) + Frames(s, EntryBase(pl, n), Pow512(pl.level))
  {
    var k := Pow512(pl.level);
    assert (n + 1) * k == n * k + k;
    FramesConcat(s, Base(pl), n * k, k);
  }

  /** The table pages freed along with the first `n` entries of the table at `pl`. */
  ghost function EarlierPages(s: Space, pl: Place, n: nat): set<nat> {
    if pl.level == 0 then {} else PagesBelow(s, pl, n)
  }

  /** `freed` holds each page of `pages` once, each element of `frames` once, and nothing else. */
  ghost predicate Once(freed: seq<nat>, pages: set<nat>, frames: seq<nat>) {
    forall p {:trigger multiset(freed)[p]} :: multiset(freed)[p] == multiset(frames)[p] + if p in pages then 1 else 0
  }

  lemma OnceConcat(freed: seq<nat>, pages: set<nat>, frames: seq<nat>, freed': seq<nat>, pages': set<nat>,
                   frames': seq<nat>)
    requires Once(freed, pages, frames) && Once(freed', pages', frames') && pages !! pages'
    ensures Once(freed + freed', pages + pages', frames + frames')
  {
  }

  lemma OnceMore(freed: seq<nat>, pages: set<nat>, frames: seq<nat>, page: nat)
    requires Once(freed, pages, frames) && page !in pages
    ensures Once(freed + [page], pages + {page}, frames)
  {
  }

  lemma EarlierApart(s: Space, pl: Place, n: nat)
    requires Ok(s) && pl in s.at && pl.level > 0 && n < ENTRIES
    ensures PagesBelow(s, pl, n) !! TreePages(s, Child(pl, n))
  {
    forall i, ql, rl | 0 <= i < n && ql in s.at && Under(Child(pl, i), ql) && rl in s.at && Under(Child(pl, n), rl)
      ensures s.at[ql] != s.at[rl]
    {
      if ql == rl {
        UnderOne(pl, i, n, ql);
      }
    }
  }

  lemma OwnApart(s: Space, pl: Place, n: nat)
    requires Ok(s) && pl in s.at && n <= ENTRIES
    ensures s.at[pl] !in EarlierPages(s, pl, n)
  {
    if pl.level > 0 {
      forall i, ql | 0 <= i < n && ql in s.at && Under(Child(pl, i), ql) ensures s.at[ql] != s.at[pl] {
        UnderChild(pl, i, ql);
      }
    }
  }

  /** The table pages freed along with entry `i`. */
  ghost function PagesAt(s: Space, pl: Place, i: nat): set<nat> {
    if pl.level == 0 then {} else TreePages(s, Child(pl, i))
  }

  lemma EarlierStep(s: Space, pl: Place, n: nat)
    ensures EarlierPages(s, pl, n + 1) == EarlierPages(s, pl, n) + PagesAt(s, pl, n)
  {
    if pl.level > 0 {
      PagesBelowStep(s, pl, n);
    }
  }

  ghost predicate BelowOnce(s: Space, pl: Place, n: nat)
    requires TablesOk(s) && pl in s.at && n <= ENTRIES
  {
    Once(FreedBelow(s, pl, n), EarlierPages(s, pl, n), FramesBelow(s, pl, n))
  }

  /** What entry `i` frees is counted right, and no table page of it was freed by an earlier entry. */
  ghost predicate AtOnce(s: Space, pl: Place, i: nat)
    requires TablesOk(s) && pl in s.at && i < ENTRIES
  {
    && Once(FreedAt(s, pl, i), PagesAt(s, pl, i), Frames(s, EntryBase(pl, i), Pow512(pl.level)))
    && EarlierPages(s, pl, i) !! PagesAt(s, pl, i)
  }

  lemma BelowOnceStep(s: Space, pl: Place, n: nat)
    requires TablesOk(s) && pl in s.at && n < ENTRIES && BelowOnce(s, pl, n) && AtOnce(s, pl, n)
    ensures BelowOnce(s, pl, n + 1)
  {
    FramesBelowStep(s, pl, n);
    EarlierStep(s, pl, n);
    OnceConcat(FreedBelow(s, pl, n), EarlierPages(s, pl, n), FramesBelow(s, pl, n),
               FreedAt(s, pl, n), PagesAt(s, pl, n), Frames(s, EntryBase(pl, n), Pow512(pl.level)));
  }

  lemma BelowOnceNone(s: Space, pl: Place)
    requires TablesOk(s) && pl in s.at
    ensures BelowOnce(s, pl, 0)
  {
    assert EarlierPages(s, pl, 0) == {};
    assert FramesBelow(s, pl, 0) == [];
  }

  ghost predicate TreeOnce(s: Space, pl: Place)
    requires TablesOk(s) && pl in s.at
  {
    Once(Freed(s, pl), TreePages(s, pl), Frames(s, Base(pl), Pow512(pl.level + 1)))
  }

  lemma FreedAtOnce(s: Space, pl: Place, i: nat)
    requires Ok(s) && pl in s.at && i < ENTRIES
    requires pl.level > 0 && Child(pl, i) in s.at ==> TreeOnce(s, Child(pl, i))
    ensures AtOnce(s, pl, i)
  {
    hide Frames, Under;
    if pl.level == 0 {
      LeafFrame(s, pl, i);
    } else {
      EarlierApart(s, pl, i);
      if Child(pl, i) in s.at {
        EntryBaseIsChild(pl, i);
      } else {
        AbsentFreesNothing(s, pl, i);
      }
    }
  }

  lemma AbsentFreesNothing(s: Space, pl: Place, i: nat)
    requires Ok(s) && pl in s.at && pl.level > 0 && i < ENTRIES && Child(pl, i) !in s.at
    ensures Once(FreedAt(s, pl, i), PagesAt(s, pl, i), Frames(s, EntryBase(pl, i), Pow512(pl.level)))
  {
    EntryBaseIsChild(pl, i);
    AbsentHasNoPte(s, Child(pl, i));
    FramesNone(s, Base(Child(pl, i)), Pow512(pl.level));
    AbsentHasNoPages(s, Child(pl, i));
  }

  lemma LeafFrame(s: Space, pl: Place, i: nat)
    requires TablesOk(s) && pl in s.at && pl.level == 0 && i < ENTRIES
    ensures Frames(s, EntryBase(pl, i), 1) == FreedAt(s, pl, i)
  {
    LeafPte(s, pl, i);
    assert Frames(s, EntryBase(pl, i), 0) == [];
  }

  lemma TreeOnceFromBelow(s: Space, pl: Place)
    requires Ok(s) && pl in s.at && BelowOnce(s, pl, ENTRIES)
    ensures TreeOnce(s, pl)
  {
    OwnApart(s, pl, ENTRIES);
    OnceMore(FreedBelow(s, pl, ENTRIES), EarlierPages(s, pl, ENTRIES), FramesBelow(s, pl, ENTRIES), s.at[pl]);
    if pl.level > 0 {
      TreePagesAll(s, pl);
    } else {
      LeafPages(s, pl);
    }
  }

  lemma EntryOnce(s: Space, pl: Place, n: nat)
    requires Ok(s) && pl in s.at && n < ENTRIES && BelowOnce(s, pl, n)
    requires pl.level > 0 && Child(pl, n) in s.at ==> TreeOnce(s, Child(pl, n))
    ensures BelowOnce(s, pl, n + 1)
  {
    FreedAtOnce(s, pl, n);
    BelowOnceStep(s, pl, n);
  }

  /** Destroying a table frees every table page of its subtree once, the frame of every present entry
      below it once, and nothing else. */
  lemma {:induction false} FreedOnce(s: Space, pl: Place)
    requires Ok(s) && pl in s.at
    ensures TreeOnce(s, pl)
    decreases pl.level, 1
  {
    EntriesOnce(s, pl);
    TreeOnceFromBelow(s, pl);
  }

  lemma {:induction false} EntriesOnce(s: Space, pl: Place)
    requires Ok(s) && pl in s.at
    ensures BelowOnce(s, pl, ENTRIES)
    decreases pl.level, 0
  {
    hide BelowOnce, TreeOnce;
    BelowOnceNone(s, pl);
    for n := 0 to ENTRIES
      invariant BelowOnce(s, pl, n)
    {
      if pl.level > 0 && Child(pl, n) in s.at {
        FreedOnce(s, Child(pl, n));
      }
      EntryOnce(s, pl, n);
    }
  }

  /** The root of a tree: destroying what is under its first entry and then the root itself frees the
      root and every table page under that entry once, the frame of every present entry below it once,
      and nothing else. */
  lemma FreedByRootOnce(s: Space, root: Place)
    requires Ok(s) && root in s.at && root.level > 0
    ensures Once(FreedByRoot(s, root), PagesBelow(s, root, 1) + {s.at[root]}, FramesBelow(s, root, 1))
  {
    if Child(root, 0) in s.at {
      FreedOnce(s, Child(root, 0));
    }
    FreedAtOnce(s, root, 0);
    OwnApart(s, root, 1);
    FirstEntryOnce(s, root);
  }

  lemma FirstEntryOnce(s: Space, root: Place)
    requires TablesOk(s) && root in s.at && root.level > 0 && AtOnce(s, root, 0) &&
             s.at[root] !in EarlierPages(s, root, 1)
    ensures Once(FreedByRoot(s, root), PagesBelow(s, root, 1) + {s.at[root]}, FramesBelow(s, root, 1))
  {
    hide Frames, PagesBelow;
    BelowOnceNone(s, root);
    BelowOnceStep(s, root, 0);
    assert FreedBelow(s, root, 1) == FreedAt(s, root, 0) by {
      assert FreedBelow(s, root, 0) == [];
    }
    OnceMore(FreedAt(s, root, 0), PagesBelow(s, root, 1), FramesBelow(s, root, 1), s.at[root]);
  }

  /** No page is freed twice exactly when no two present entries under the first entry share a frame, and
      no such frame is one of the freed tables. */
  lemma NoDoubleFree(s: Space, root: Place)
    requires Ok(s) && root in s.at && root.level > 0
    ensures (forall p :: multiset(FreedByRoot(s, root))[p] <= 1) <==>
            (forall p ::
              multiset(FramesBelow(s, root, 1))[p] <= if p in PagesBelow(s, root, 1) + {s.at[root]} then 0 else 1)
  {
    FreedByRootOnce(s, root);
    OnceEach(FreedByRoot(s, root), PagesBelow(s, root, 1) + {s.at[root]}, FramesBelow(s, root, 1));
  }

  lemma OnceEach(freed: seq<nat>, pages: set<nat>, frames: seq<nat>)
    requires Once(freed, pages, frames)
    ensures (forall p :: multiset(freed)[p] <= 1) <==>
            (forall p :: multiset(frames)[p] <= if p in pages then 0 else 1)
  {
    forall p ensures multiset(freed)[p] <= 1 <==> multiset(frames)[p] <= if p in pages then 0 else 1 {
    }
  }
}
