/** Directories (filesys/directory.c): slots of 20 bytes in an inode's data.  Entries are read and written through
    InodeIo, across sector boundaries, and every such transfer can lack the memory for its bounce buffer: the loops
    take a read that runs short for the end of the directory. */
module Directory {
  import opened Options
  import opened Bytes
  import opened InodeIo

  const ENTRY: nat := 20      // sizeof (struct dir_entry)
  const NAME_MAX: nat := 14

  /** A file name: bytes other than the terminating zero. */
  type Name = seq<Byte>

  predicate NoZero(n: Name) { forall i | 0 <= i < |n| :: n[i] != 0 }

  /** What dir_add accepts. */
  predicate Allowed(n: Name) { 0 < |n| <= NAME_MAX }

  // ---------- one entry: sector (4 bytes), name (15 bytes), in_use (1 byte) ----------

  /** What a slot says: nothing, or that the file `name` has its header in `sector`. */
  datatype Entry = Free | Used(name: Name, sector: nat)

  predicate InUse(e: seq<Byte>)
    requires |e| == ENTRY
  {
    e[19] != 0
  }

  /** The bytes before the first zero: what strcmp and strlcpy see. */
  function Cut(s: seq<Byte>): (n: Name)
    ensures NoZero(n)
  {
    if s == [] || s[0] == 0 then [] else [s[0]] + Cut(s[1..])
  }

  function NameOf(e: seq<Byte>): Name
    requires |e| == ENTRY
  {
    Cut(e[4..19])
  }

  function SectorField(e: seq<Byte>): nat
    requires |e| == ENTRY
  {
    Little(e[..4])
  }

  function Meaning(e: seq<Byte>): Entry
    requires |e| == ENTRY
  {
    if InUse(e) then Used(NameOf(e), SectorField(e)) else Free
  }

  /** The entry that dir_add writes over `e`: strlcpy leaves the bytes behind the terminator alone. */
  function Filled(e: seq<Byte>, name: Name, sector: nat): (r: seq<Byte>)
    requires |e| == ENTRY && Allowed(name)
    ensures |r| == ENTRY
  {
    LittleBytes(sector, 4) + (name + [0] + e[4 + |name| + 1..19]) + [1]
  }

  function Erased(e: seq<Byte>): (r: seq<Byte>)
    requires |e| == ENTRY
    ensures |r| == ENTRY
  {
    e[19 := 0]
  }

  lemma {:induction false} CutAtZero(n: Name, rest: seq<Byte>)
    requires NoZero(n)
    ensures Cut(n + [0] + rest) == n
  {
    var s := n + [0] + rest;
    if n != [] {
      assert s[1..] == n[1..] + [0] + rest;
      CutAtZero(n[1..], rest);
    }
  }

  /** A filled entry reads back, whatever was in the buffer before. */
  lemma FilledReadsBack(e: seq<Byte>, name: Name, sector: nat)
    requires |e| == ENTRY && Allowed(name) && NoZero(name) && sector < 0x1_0000_0000
    ensures Meaning(Filled(e, name, sector)) == Used(name, sector)
  {
    var rest := e[4 + |name| + 1..19];
    assert Filled(e, name, sector)[4..19] == name + [0] + rest;
    CutAtZero(name, rest);
    FourBytes();
    LittleReadsBack(sector, 4);
    assert Filled(e, name, sector)[..4] == LittleBytes(sector, 4);
  }

  // ---------- the slots ----------

  function Slots(data: seq<Byte>): nat { |data| / ENTRY }

  function Slot(data: seq<Byte>, i: nat): (e: seq<Byte>)
    requires i < Slots(data)
    ensures |e| == ENTRY
  {
    data[i * ENTRY..i * ENTRY + ENTRY]
  }

  /** What the slots say, in order. */
  ghost function Table(data: seq<Byte>): (t: seq<Entry>)
    ensures |t| == Slots(data)
  {
    seq(Slots(data), i requires 0 <= i < Slots(data) => Meaning(Slot(data, i)))
  }

  /** `data` with entry `e` put into slot `k`. */
  function WithSlot(data: seq<Byte>, k: nat, e: seq<Byte>): seq<Byte>
    requires k < Slots(data) && |e| == ENTRY
  {
    data[..k * ENTRY] + e + data[k * ENTRY + ENTRY..]
  }

  lemma SlotOfWithSlot(data: seq<Byte>, k: nat, e: seq<Byte>, i: nat)
    requires k < Slots(data) && |e| == ENTRY && i < Slots(data)
    ensures Slots(WithSlot(data, k, e)) == Slots(data)
    ensures Slot(WithSlot(data, k, e), i) == if i == k then e else Slot(data, i)
  {
  }

  lemma TableWithSlot(data: seq<Byte>, k: nat, e: seq<Byte>)
    requires k < Slots(data) && |e| == ENTRY
    ensures Table(WithSlot(data, k, e)) == Table(data)[k := Meaning(e)]
  {
    forall i | 0 <= i < Slots(data)
      ensures Slots(WithSlot(data, k, e)) == Slots(data)
      ensures Table(WithSlot(data, k, e))[i] == Table(data)[k := Meaning(e)][i]
    {
      SlotOfWithSlot(data, k, e, i);
    }
  }

  /** Bytes behind the last whole slot do not matter. */
  lemma TailIgnored(data: seq<Byte>, data': seq<Byte>)
    requires |data'| == |data| && data'[..Slots(data) * ENTRY] == data[..Slots(data) * ENTRY]
    ensures Table(data') == Table(data)
  {
    forall i | 0 <= i < Slots(data) ensures Slot(data', i) == Slot(data, i) {
      SlotOfWhole(data, i);
      SlotOfWhole(data', i);
    }
  }

  lemma SlotOfWhole(data: seq<Byte>, i: nat)
    requires i < Slots(data)
    ensures i * ENTRY + ENTRY <= Slots(data) * ENTRY
    ensures Slot(data, i) == data[..Slots(data) * ENTRY][i * ENTRY..i * ENTRY + ENTRY]
  {
  }

  /** A directory just created, all zeros, has only free slots. */
  lemma NewIsEmpty(data: seq<Byte>)
    requires forall i | 0 <= i < |data| :: data[i] == 0
    ensures Table(data) == seq(Slots(data), _ => Free)
  {
    forall i | 0 <= i < Slots(data) ensures Table(data)[i] == Free {
      assert Slot(data, i)[19] == data[i * ENTRY + 19];
    }
  }

  // ---------- what the loops find ----------

  predicate Holds(t: seq<Entry>, i: nat, name: Name) {
    i < |t| && t[i].Used? && t[i].name == name
  }

  /** Where lookup ends from slot `i` on if only slots before `reach` can be read: at the first slot that holds `name`,
      or, for none, at |t|. */
  ghost function Search(t: seq<Entry>, name: Name, reach: nat, i: nat): (k: nat)
    requires i <= |t|
    ensures i <= k <= |t|
    ensures k < |t| ==> k < reach && Holds(t, k, name)
    ensures forall j: nat | i <= j < k && j < reach :: !Holds(t, j, name)
    decreases |t| - i
  {
    if i == |t| || i >= reach then |t|
    else if Holds(t, i, name) then i
    else Search(t, name, reach, i + 1)
  }

  /** The slot that lookup finds with `reach` reads, or |t|. */
  ghost function Found(t: seq<Entry>, name: Name, reach: nat): (k: nat)
    ensures k <= |t|
    ensures k < |t| ==> k < reach && Holds(t, k, name)
    ensures forall j: nat | j < k && j < reach :: !Holds(t, j, name)
  {
    Search(t, name, reach, 0)
  }

  /** Where the search of dir_add for a free slot stops from slot `i` on: at a free slot, at the first slot it cannot
      read, or at the end. */
  ghost function Scan(t: seq<Entry>, reach: nat, i: nat): (k: nat)
    requires i <= |t|
    ensures i <= k <= |t|
    ensures k < |t| ==> t[k].Free? || k >= reach
    ensures (k <= reach || k == i) && forall j | i <= j < k :: t[j].Used?
    decreases |t| - i
  {
    if i == |t| || i >= reach || t[i].Free? then i else Scan(t, reach, i + 1)
  }

  /** The slot that dir_add writes with `reach` reads. */
  ghost function Target(t: seq<Entry>, reach: nat): (k: nat)
    ensures k <= |t|
    ensures k < |t| ==> t[k].Free? || k >= reach
    ensures k <= reach && forall j | 0 <= j < k :: t[j].Used?
  {
    Scan(t, reach, 0)
  }

  /** dir_add succeeds: `lookups` and `scans` reads find memory in its two loops, `mem` is for its write. */
  ghost predicate CanAdd(t: seq<Entry>, name: Name, lookups: nat, scans: nat, mem: bool) {
    Allowed(name) && Found(t, name, lookups) == |t| && Target(t, scans) < |t| && mem
  }

  // ---------- the map that the slots stand for ----------

  /** The slots stand for the map `m`: those in use have different names and agree with `m`, which has no others. */
  ghost predicate Represents(t: seq<Entry>, m: map<Name, nat>) {
    && (forall i: nat, n | Holds(t, i, n) :: n in m && m[n] == t[i].sector)
    && (forall n | n in m :: exists i: nat :: Holds(t, i, n))
    && (forall i: nat, j: nat, n | Holds(t, i, n) && Holds(t, j, n) :: i == j)
  }

  /** lookup answers as the map does exactly if its reads reach the slot of the name. */
  lemma LookupIsMap(t: seq<Entry>, m: map<Name, nat>, name: Name, reach: nat)
    requires Represents(t, m)
    ensures (Found(t, name, reach) < |t| <==> name in m) <==> forall i: nat | Holds(t, i, name) :: i < reach
    ensures Found(t, name, reach) < |t| ==> name in m && t[Found(t, name, reach)].sector == m[name]
  {
    var k := Found(t, name, reach);
    if name in m {
      var i: nat :| Holds(t, i, name);
      assert i < reach ==> k <= i;
    }
  }

  /** `t` with slot `k` overwritten by dir_add. */
  ghost function Put(t: seq<Entry>, k: nat, name: Name, sector: nat): seq<Entry>
    requires k < |t|
  {
    t[k := Used(name, sector)]
  }

  lemma HoldsPut(t: seq<Entry>, k: nat, name: Name, sector: nat, i: nat, n: Name)
    requires k < |t|
    ensures Holds(Put(t, k, name, sector), i, n) <==> if i == k then n == name else Holds(t, i, n)
  {
  }

  /** The map without the name in slot `k`, which dir_add overwrites. */
  ghost function Without(t: seq<Entry>, m: map<Name, nat>, k: nat): map<Name, nat>
    requires k < |t|
  {
    if t[k].Used? then m - {t[k].name} else m
  }

  lemma PutRepresents(t: seq<Entry>, m: map<Name, nat>, k: nat, name: Name, sector: nat)
    requires Represents(t, m) && k < |t| && (name !in m || Holds(t, k, name))
    ensures Represents(Put(t, k, name, sector), Without(t, m, k)[name := sector])
  {
    var t', m' := Put(t, k, name, sector), Without(t, m, k)[name := sector];
    forall i: nat, n ensures Holds(t', i, n) <==> if i == k then n == name else Holds(t, i, n) {
      HoldsPut(t, k, name, sector, i, n);
    }
    forall i: nat, n | Holds(t', i, n) ensures n in m' && m'[n] == t'[i].sector {
      if i != k && t[k].Used? {
        assert Holds(t, k, t[k].name);
      }
    }
    forall n | n in m' ensures exists i: nat :: Holds(t', i, n) {
      if n == name {
        assert Holds(t', k, n);
      } else {
        var i: nat :| Holds(t, i, n);
        assert Holds(t', i, n);
      }
    }
  }

  /** A name stored a second time: the slots stand for no map any more. */
  lemma PutTwice(t: seq<Entry>, j: nat, k: nat, name: Name, sector: nat, m': map<Name, nat>)
    requires k < |t| && j != k && Holds(t, j, name)
    ensures !Represents(Put(t, k, name, sector), m')
  {
    HoldsPut(t, k, name, sector, j, name);
    HoldsPut(t, k, name, sector, k, name);
  }

  /** An entry overwritten: no slot holds its name any more. */
  lemma PutLoses(t: seq<Entry>, m: map<Name, nat>, k: nat, was: Name, name: Name, sector: nat)
    requires Represents(t, m) && Holds(t, k, was) && was != name
    ensures forall i: nat :: !Holds(Put(t, k, name, sector), i, was)
    ensures was in m && !Represents(Put(t, k, name, sector), m[name := sector])
  {
    forall i: nat ensures !Holds(Put(t, k, name, sector), i, was) {
      HoldsPut(t, k, name, sector, i, was);
    }
    assert was in m[name := sector];
  }

  /** What a successful dir_add does to the map.  It adds the pair exactly if the name is new and the slot it writes is
      free, or if that slot holds the name itself; there is a map at all exactly if no other slot holds the name. */
  lemma AddIsUpdate(t: seq<Entry>, m: map<Name, nat>, name: Name, sector: nat, lookups: nat, scans: nat)
    requires Represents(t, m) && CanAdd(t, name, lookups, scans, true)
    ensures var k := Target(t, scans);
            && (Represents(Put(t, k, name, sector), m[name := sector]) <==>
                (name !in m && t[k].Free?) || Holds(t, k, name))
            && ((exists m' :: Represents(Put(t, k, name, sector), m')) <==> name !in m || Holds(t, k, name))
            && (name !in m <==> forall i: nat | Holds(t, i, name) :: i < lookups)
  {
    var k := Target(t, scans);
    LookupIsMap(t, m, name, lookups);
    if name !in m || Holds(t, k, name) {
      PutRepresents(t, m, k, name, sector);
      if t[k].Used? && t[k].name != name {
        PutLoses(t, m, k, t[k].name, name, sector);
      } else {
        assert Without(t, m, k)[name := sector] == m[name := sector];
      }
    } else {
      var j: nat :| Holds(t, j, name);
      forall m' ensures !Represents(Put(t, k, name, sector), m') {
        PutTwice(t, j, k, name, sector, m');
      }
    }
  }

  /** With memory for every read it is as documented: the name must be new and some slot free, and then one pair is
      added. */
  lemma AddWithMemory(t: seq<Entry>, m: map<Name, nat>, name: Name, sector: nat, lookups: nat, scans: nat)
    requires Represents(t, m) && lookups >= |t| && scans >= |t|
    ensures CanAdd(t, name, lookups, scans, true) <==> Allowed(name) && name !in m && HasFree(t)
    ensures CanAdd(t, name, lookups, scans, true) ==>
              Represents(Put(t, Target(t, scans), name, sector), m[name := sector])
  {
    LookupIsMap(t, m, name, lookups);
    if CanAdd(t, name, lookups, scans, true) {
      AddIsUpdate(t, m, name, sector, lookups, scans);
    }
  }

  /** Some slot is free. */
  ghost predicate HasFree(t: seq<Entry>) {
    exists i | 0 <= i < |t| :: t[i].Free?
  }

  /** dir_remove takes one name out of the map. */
  lemma EraseRemoves(t: seq<Entry>, m: map<Name, nat>, k: nat, name: Name)
    requires Represents(t, m) && Holds(t, k, name)
    ensures Represents(t[k := Free], m - {name})
  {
    var t' := t[k := Free];
    forall i: nat, n ensures Holds(t', i, n) <==> i != k && Holds(t, i, n) {
    }
    forall n | n in m - {name} ensures exists i: nat :: Holds(t', i, n) {
      var i: nat :| Holds(t, i, n);
      assert Holds(t', i, n);
    }
  }

  /** The names in use in the slots from `i` on, in order. */
  ghost function NamesFrom(t: seq<Entry>, i: nat): seq<Name>
    decreases |t| - i
  {
    if i >= |t| then []
    else (if t[i].Used? then [t[i].name] else []) + NamesFrom(t, i + 1)
  }

  // ---------- the code ----------

  class Dir {
    const disk: Disk
    const inode: Inode
    var pos: nat

    ghost predicate Valid()
      reads disk
    {
      OnDisk(disk.sectors, inode)
    }

    ghost function Entries(): seq<Entry>
      requires Valid()
      reads disk
    {
      Table(Data(disk.sectors, inode))
    }

    /** dir_open. */
    constructor (disk: Disk, inode: Inode)
      ensures this.disk == disk && this.inode == inode && pos == 0
    {
      this.disk, this.inode, pos := disk, inode, 0;
    }

    /** One turn of the loops: reads slot `i` into the buffer `e`.  `mem` is whether the bounce buffer could be had. */
    method ReadSlot(i: nat, e: seq<Byte>, mem: bool) returns (ok: bool, e': seq<Byte>)
      requires Valid() && |e| == ENTRY
      ensures |e'| == ENTRY
      ensures ok <==> mem && i < |Entries()|
      ensures ok ==> e' == Slot(Data(disk.sectors, inode), i) && Meaning(e') == Entries()[i]
    {
      var bytes := disk.ReadAt(inode, ENTRY, i * ENTRY, mem);
      e' := bytes + e[|bytes|..];
      ok := |bytes| == ENTRY;
    }

    /** lookup, with memory for the first `reach` reads: the slot it finds, and its bytes. */
    method Lookup(name: Name, reach: nat) returns (found: bool, i: nat, e: seq<Byte>)
      requires Valid()
      ensures i == Found(Entries(), name, reach) && (found <==> i < |Entries()|)
      ensures found ==> e == Slot(Data(disk.sectors, inode), i) && Meaning(e) == Entries()[i]
    {
      ghost var t := Entries();
      i := 0;
      e := seq(ENTRY, _ => 0);
      var ok;
      ok, e := ReadSlot(0, e, 0 < reach);
      while ok
        invariant i <= |t| && |e| == ENTRY && (ok <==> i < reach && i < |t|)
        invariant ok ==> e == Slot(Data(disk.sectors, inode), i) && Meaning(e) == t[i]
        invariant Search(t, name, reach, i) == Found(t, name, reach)
        decreases |t| - i
      {
        if InUse(e) && NameOf(e) == name {
          return true, i, e;
        }
        i := i + 1;
        ok, e := ReadSlot(i, e, i < reach);
      }
      found := false;
      i := inode.length / ENTRY;
    }

    /** dir_lookup, up to the sector it opens. */
    method Find(name: Name, reach: nat) returns (sector: Option<nat>)
      requires Valid()
      ensures var t := Entries(); var k := Found(t, name, reach);
              sector == if k < |t| then Some(t[k].sector) else None
    {
      var found, i, e := Lookup(name, reach);
      if found {
        sector := Some(SectorField(e));
      } else {
        sector := None;
      }
    }

    /** The slot that dir_add will write, and what its buffer, `junk` at first, holds by then. */
    method FreeSlot(reach: nat, junk: seq<Byte>) returns (i: nat, e: seq<Byte>)
      requires Valid() && |junk| == ENTRY
      ensures i == Target(Entries(), reach) && |e| == ENTRY
    {
      ghost var t := Entries();
      i := 0;
      var ok;
      ok, e := ReadSlot(0, junk, 0 < reach);
      while ok
        invariant i <= |t| && |e| == ENTRY && (ok <==> i < reach && i < |t|)
        invariant ok ==> Meaning(e) == t[i]
        invariant Scan(t, reach, i) == Target(t, reach)
        decreases |t| - i
      {
        if !InUse(e) {
          return;
        }
        i := i + 1;
        ok, e := ReadSlot(i, e, i < reach);
      }
    }

    /** inode_write_at of one entry at slot `i`; `mem` is whether its bounce buffer could be had. */
    method WriteSlot(i: nat, e: seq<Byte>, mem: bool) returns (ok: bool)
      requires Valid() && |e| == ENTRY && i <= |Entries()|
      modifies disk
      ensures Valid() && ChangedIn(old(disk.sectors), disk.sectors, Extent(inode))
      ensures ok <==> mem && i < |old(Entries())|
      ensures Entries() == if ok then old(Entries())[i := Meaning(e)] else old(Entries())
      ensures !ok && (!mem || inode.length % ENTRY == 0) ==> disk.sectors == old(disk.sectors)
    {
      hide Rewritten, ChangedIn, Table;
      ghost var data := Data(disk.sectors, inode);
      var n := disk.WriteAt(inode, e, ENTRY, i * ENTRY, mem, false);
      WriteIsFlat(old(disk.sectors), inode, i * ENTRY, e[..n], disk.sectors);
      WriteStaysInside(old(disk.sectors), inode, i * ENTRY, e[..n], disk.sectors);
      ok := n == ENTRY;
      if ok {
        TableWithSlot(data, i, e);
        assert e[..n] == e;
      } else {
        TailIgnored(data, Data(disk.sectors, inode));
        if !mem || inode.length % ENTRY == 0 {
          NothingRewritten(old(disk.sectors), inode.start, i * ENTRY, disk.sectors);
        }
      }
    }

    /** dir_add, with memory for the first `lookups` reads of its lookup, for the first `scans` of its search, and, as
        `mem`, for its write.  If it fails every slot is as before; bytes can change only behind the last whole slot. */
    method Add(name: Name, sector: nat, lookups: nat, scans: nat, mem: bool, junk: seq<Byte>) returns (success: bool)
      requires Valid() && NoZero(name) && sector < 0x1_0000_0000 && |junk| == ENTRY
      modifies disk
      ensures Valid() && ChangedIn(old(disk.sectors), disk.sectors, Extent(inode))
      ensures success <==> CanAdd(old(Entries()), name, lookups, scans, mem)
      ensures var t := old(Entries()); Entries() == if success then Put(t, Target(t, scans), name, sector) else t
      ensures var t := old(Entries());
              !success && (!Allowed(name) || Found(t, name, lookups) < |t| || !mem || inode.length % ENTRY == 0) ==>
                disk.sectors == old(disk.sectors)
    {
      hide ChangedIn, Table, Data, OnDisk;
      UnchangedIn(disk.sectors);
      if name == [] || |name| > NAME_MAX {
        return false;
      }
      var found, _, _ := Lookup(name, lookups);
      if found {
        return false;
      }
      var i, e := FreeSlot(scans, junk);
      FilledReadsBack(e, name, sector);
      success := WriteSlot(i, Filled(e, name, sector), mem);
    }

    /** The erasing write of dir_remove, of the bytes `e` found at slot `i`. */
    method Erase(i: nat, e: seq<Byte>, mem: bool) returns (erased: bool)
      requires Valid() && i < |Entries()| && e == Slot(Data(disk.sectors, inode), i)
      modifies disk
      ensures Valid() && erased == mem && ChangedIn(old(disk.sectors), disk.sectors, Extent(inode))
      ensures Entries() == if erased then old(Entries())[i := Free] else old(Entries())
      ensures !erased ==> disk.sectors == old(disk.sectors)
    {
      erased := WriteSlot(i, Erased(e), mem);
    }

    /** dir_remove; `canOpen` is whether the inode could be opened, `mem` whether the entry could be written.
        `victim` is the sector of the inode to be removed. */
    method Remove(name: Name, reach: nat, canOpen: bool, mem: bool) returns (victim: Option<nat>)
      requires Valid()
      modifies disk
      ensures Valid() && ChangedIn(old(disk.sectors), disk.sectors, Extent(inode))
      ensures var t := old(Entries()); var k := Found(t, name, reach);
              if k < |t| && canOpen && mem then victim == Some(t[k].sector) && Entries() == t[k := Free]
              else victim == None && disk.sectors == old(disk.sectors)
    {
      hide ChangedIn, Table, Data, OnDisk;
      UnchangedIn(disk.sectors);
      var found, i, e := Lookup(name, reach);
      if !found || !canOpen {
        return None;
      }
      var erased := Erase(i, e, mem);
      victim := if erased then Some(SectorField(e)) else None;
    }

    /** dir_readdir from slot `at`, with memory for the first `reach` reads, of which it leaves `left`: the next name in
        use.  Nothing is skipped: where it stops for lack of memory the next call goes on. */
    method ReadDir(ghost at: nat, reach: nat) returns (name: Option<Name>, left: nat, ghost at': nat)
      requires Valid() && pos == at * ENTRY
      modifies this`pos
      ensures pos == at' * ENTRY && at <= at' && at' + left == at + reach
      ensures NamesFrom(Entries(), at) == (if name.Some? then [name.value] else []) + NamesFrom(Entries(), at')
      ensures name.Some? ==> at < at'
      ensures name.None? ==> left == 0 || at' >= |Entries()|
    {
      hide Data, OnDisk, Table;
      ghost var t := Entries();
      var i := pos / ENTRY;
      var e := seq(ENTRY, _ => 0);
      left := reach;
      var ok;
      ok, e := ReadSlot(i, e, left > 0);
      while ok
        invariant pos == i * ENTRY && at <= i && i + left == at + reach && |e| == ENTRY
        invariant (ok <==> left > 0 && i < |t|) && (ok ==> Meaning(e) == t[i])
        invariant NamesFrom(t, i) == NamesFrom(t, at)
        decreases left
      {
        pos, i, left := pos + ENTRY, i + 1, left - 1;
        if InUse(e) {
          return Some(NameOf(e)), left, i;
        }
        ok, e := ReadSlot(i, e, left > 0);
      }
      name, at' := None, i;
    }
  }

  /** What was listed, the name in hand and what is left make the whole listing. */
  ghost predicate Listed(all: seq<Name>, names: seq<Name>, name: Option<Name>, rest: seq<Name>) {
    names + ((if name.Some? then [name.value] else []) + rest) == all
  }

  lemma ListedMore(all: seq<Name>, names: seq<Name>, n: Name, rest: seq<Name>, name: Option<Name>, rest': seq<Name>)
    requires Listed(all, names, Some(n), rest) && rest == (if name.Some? then [name.value] else []) + rest'
    ensures Listed(all, names + [n], name, rest')
  {
    assert names + ([n] + rest) == names + [n] + rest;
  }

  lemma ListedBegins(name: Option<Name>, rest: seq<Name>)
    ensures Listed((if name.Some? then [name.value] else []) + rest, [], name, rest)
  {
  }

  lemma ListedEnds(all: seq<Name>, names: seq<Name>, rest: seq<Name>)
    requires Listed(all, names, None, rest)
    ensures names + rest == all
  {
    assert [] + rest == rest;
  }

  /** Reading a directory that does not change from its beginning until a call finds nothing, with memory for `reach`
      reads in all: the names in the slots read. */
  method ListAll(dir: Dir, reach: nat) returns (names: seq<Name>, ghost at: nat)
    requires dir.Valid() && dir.pos == 0
    modifies dir`pos
    ensures names + NamesFrom(dir.Entries(), at) == NamesFrom(dir.Entries(), 0)
    ensures at == reach || at >= |dir.Entries()|
  {
    hide Data, OnDisk, Table, NamesFrom, Listed;
    names := [];
    ghost var t := dir.Entries();
    var name, left;
    name, left, at := dir.ReadDir(0, reach);
    ListedBegins(name, NamesFrom(t, at));
    while name.Some?
      invariant dir.pos == at * ENTRY && at + left == reach
      invariant Listed(NamesFrom(t, 0), names, name, NamesFrom(t, at))
      invariant name.None? ==> left == 0 || at >= |t|
      decreases left, name.Some?
    {
      ghost var was, n, rest := names, name.value, NamesFrom(t, at);
      names := names + [name.value];
      name, left, at := dir.ReadDir(at, left);
      ListedMore(NamesFrom(t, 0), was, n, rest, name, NamesFrom(t, at));
    }
    ListedEnds(NamesFrom(t, 0), names, NamesFrom(t, at));
  }

  /** `n` is the name of an in-use slot from `i` on. */
  ghost predicate HeldFrom(t: seq<Entry>, i: nat, n: Name) {
    exists j: nat :: j >= i && Holds(t, j, n)
  }

  lemma {:induction false} NamesFromHas(t: seq<Entry>, i: nat, n: Name)
    ensures n in NamesFrom(t, i) <==> HeldFrom(t, i, n)
    decreases |t| - i
  {
    if i < |t| {
      NamesFromHas(t, i + 1, n);
      HeldFromNext(t, i, n);
    }
  }

  lemma HeldFromNext(t: seq<Entry>, i: nat, n: Name)
    ensures HeldFrom(t, i, n) <==> Holds(t, i, n) || HeldFrom(t, i + 1, n)
  {
    if HeldFrom(t, i, n) {
      var j: nat :| j >= i && Holds(t, j, n);
      assert j > i ==> j >= i + 1;
    }
    if HeldFrom(t, i + 1, n) {
      var j: nat :| j >= i + 1 && Holds(t, j, n);
      assert j >= i;
    }
  }

  /** No name comes twice in a listing. */
  lemma {:induction false} NamesOnce(t: seq<Entry>, m: map<Name, nat>, i: nat)
    requires Represents(t, m)
    ensures forall j, k | 0 <= j < k < |NamesFrom(t, i)| :: NamesFrom(t, i)[j] != NamesFrom(t, i)[k]
    decreases |t| - i
  {
    if i < |t| {
      NamesOnce(t, m, i + 1);
      var rest := NamesFrom(t, i + 1);
      if t[i].Used? {
        var n := t[i].name;
        assert Holds(t, i, n);
        NamesFromHas(t, i + 1, n);
        assert n !in rest;
        assert NamesFrom(t, i) == [n] + rest;
      } else {
        assert NamesFrom(t, i) == rest;
      }
    }
  }

  /** A listing that memory sufficed for has exactly the names of the map. */
  lemma NamesAll(t: seq<Entry>, m: map<Name, nat>, n: Name)
    requires Represents(t, m)
    ensures n in NamesFrom(t, 0) <==> n in m
  {
    NamesFromHas(t, 0, n);
    if n in m {
      var i: nat :| Holds(t, i, n);
      assert i >= 0 && HeldFrom(t, 0, n);
    }
  }

  /** A listing cut short after `reach` slots is complete exactly if no later slot is in use. */
  lemma ListingComplete(t: seq<Entry>, names: seq<Name>, at: nat)
    requires names + NamesFrom(t, at) == NamesFrom(t, 0)
    ensures names == NamesFrom(t, 0) <==> forall j | at <= j < |t| :: t[j].Free?
  {
    if names == NamesFrom(t, 0) {
      assert |NamesFrom(t, at)| == 0;
      forall j | at <= j < |t| ensures t[j].Free? {
        if t[j].Used? {
          assert Holds(t, j, t[j].name);
          NamesFromHas(t, at, t[j].name);
        }
      }
    } else if NamesFrom(t, at) != [] {
      var n := NamesFrom(t, at)[0];
      NamesFromHas(t, at, n);
    }
  }
}
