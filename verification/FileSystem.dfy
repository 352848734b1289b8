/** Creating, opening, closing and removing files (filesys/filesys.c, filesys/inode.c) on one disk that holds the inode
    headers, the root directory, the free map's file and all data.  Whether each allocation of memory succeeds is a
    parameter. */
module FileSystem {
  import opened Options
  import opened Bytes
  import opened KernelBitmap
  import opened InodeIo
  import opened KernelFreeMap
  import opened FsState
  import Directory

  // ---------- the disk ----------

  /** The header of each live inode is in its sector. */
  ghost predicate HeadersStored(live: map<nat, Inode>, d: Sectors) {
    forall s | s in live :: s < |d| && |d[s]| == SECTOR && HeaderOf(d[s]) == live[s]
  }

  /** Header and data sectors of a file are the same. */
  ghost predicate FileKept(d: Sectors, d': Sectors, s: nat, f: Inode) {
    |d'| == |d| && forall x | x in Owned(s, f) && x < |d| :: d'[x] == d[x]
  }

  /** So they are for every file but the free map's and the root directory. */
  ghost predicate OthersKept(live: map<nat, Inode>, d: Sectors, d': Sectors) {
    forall s | s in live && !System(s) :: FileKept(d, d', s, live[s])
  }

  /** A new file: its header is in sector `s`, its data sectors are zero. */
  ghost predicate Laid(d: Sectors, s: nat, f: Inode) {
    && s < |d| && |d[s]| == SECTOR && HeaderOf(d[s]) == f
    && forall i | i in Extent(f) && i < |d| :: d[i] == Zeros()
  }

  ghost predicate ReadsZero(d: Sectors, f: Inode) {
    OnDisk(d, f) && forall i | 0 <= i < f.length :: Data(d, f)[i] == 0
  }

  lemma LaidReadsZero(d: Sectors, s: nat, f: Inode)
    requires OnDisk(d, f) && Laid(d, s, f)
    ensures ReadsZero(d, f)
  {
    forall i | 0 <= i < f.length ensures Data(d, f)[i] == 0 {
      SectorOfInside(d, f, i);
      InsideExtent(f, i);
      assert SectorOf(f, i) in Extent(f);
    }
  }

  lemma StillLaid(d: Sectors, x: set<nat>, d': Sectors, s: nat, f: Inode)
    requires Laid(d, s, f) && ChangedIn(d, d', x) && x !! Owned(s, f)
    ensures Laid(d', s, f)
  {
  }

  lemma LaidIsLaid(d: Sectors, s: nat, f: Inode, d': Sectors)
    requires Formatted(d) && s < |d| && Storable(f) && s !in Extent(f)
    requires Zeroed(d[s := Header(f)], f.start, SectorCount(f.length), d')
    ensures Laid(d', s, f) && ChangedIn(d, d', Owned(s, f))
  {
    HeaderReadsBack(f);
  }

  /** Writing the data of the two system files, and nothing else, keeps all headers and all other files. */
  lemma SystemWrites(live: map<nat, Inode>, d: Sectors, x: set<nat>, d': Sectors)
    requires FilesApart(live, |d|) && HeadersStored(live, d) && ChangedIn(d, d', x)
    requires FREE_MAP_SECTOR in live && ROOT_DIR_SECTOR in live
    requires x <= Extent(live[FREE_MAP_SECTOR]) + Extent(live[ROOT_DIR_SECTOR])
    ensures HeadersStored(live, d') && OthersKept(live, d, d')
  {
    forall s | s in live ensures s !in x {
      assert s in Owned(s, live[s]);
    }
  }

  /** A run of no sectors is found at once. */
  lemma EmptyRun(marks: seq<bool>, cnt: nat, idx: nat)
    requires IsFirstRun(marks, 0, cnt, false, idx) && |marks| <= 0x1_0000_0000
    ensures idx < 0x1_0000_0000 || |marks| == 0
  {
    if cnt == 0 {
      assert AllAre(marks, 0, 0, false);
    }
  }

  /** The free map's file and its header are marked, and sector `sector` is marked and no part of its data. */
  ghost predicate MapKept(marks: seq<bool>, file: Option<Inode>, sector: nat) {
    && sector < |marks| && marks[sector]
    && (file.Some? ==> sector !in Extent(file.value) && forall x | x in Extent(file.value) :: x < |marks| && marks[x])
  }

  ghost function MapSectors(file: Option<Inode>): set<nat> {
    if file.Some? then Extent(file.value) else {}
  }

  lemma FirstRunApart(marks: seq<bool>, file: Option<Inode>, sector: nat, f: Inode)
    requires MapKept(marks, file, sector) && AllAre(marks, f.start, SectorCount(f.length), false)
    ensures sector !in Extent(f) && MapSectors(file) !! Owned(sector, f)
  {
  }

  /** inode_create: `mem` is whether there was memory for the header, `mapMem` for the bounce buffer that saves the free
      map. */
  method InodeCreate(freeMap: FreeMap, sector: nat, length: nat, mem: bool, mapMem: bool) returns (ok: bool, f: Inode)
    requires freeMap.Valid() && MapKept(freeMap.Marks(), freeMap.file, sector)
    requires length < 0x8000_0000 && |freeMap.store.sectors| <= 0x1_0000_0000
    modifies freeMap.bits.bits, freeMap.store
    ensures freeMap.Valid()
    ensures ok <==> mem && !NoRun(old(freeMap.Marks()), 0, SectorCount(length), false) &&
                    (freeMap.file.None? || Saves(freeMap.bits.bitCnt, mapMem))
    ensures ok ==>
              && f.length == length && IsFirstRun(old(freeMap.Marks()), 0, SectorCount(length), false, f.start)
              && freeMap.Marks() == Filled(old(freeMap.Marks()), f.start, SectorCount(length), true)
              && Laid(freeMap.store.sectors, sector, f)
              && ChangedIn(old(freeMap.store.sectors), freeMap.store.sectors,
                           MapSectors(freeMap.file) + Owned(sector, f))
              && (freeMap.file.Some? ==> freeMap.Stored() == freeMap.Marks())
    ensures !ok ==>
              && freeMap.Marks() == old(freeMap.Marks())
              && ChangedIn(old(freeMap.store.sectors), freeMap.store.sectors, MapSectors(freeMap.file))
              && (freeMap.file.Some? ==> SameBehind(freeMap.Stored(), old(freeMap.Stored())))
  {
    hide Bitmap.Contents, Bitmap.Valid, Data, Unpack, ChangedIn, Laid, NoRun, Zeroed, Saved;
    ok, f := false, Inode(0, 0);
    var store := freeMap.store;
    ghost var marks, d := freeMap.Marks(), store.sectors;
    UnchangedIn(d);
    if mem {
      ghost var was := if freeMap.file.Some? then freeMap.Stored() else marks;
      var r, at := freeMap.Allocate(SectorCount(length), mapMem);
      if r.BitmapError? && !NoRun(marks, 0, SectorCount(length), false) && freeMap.file.Some? {
        SavedBehind(was, Filled(marks, at, SectorCount(length), true));
      }
      if r.Found? {
        f := Inode(r.idx, length);
        EmptyRun(marks, SectorCount(length), r.idx);
        FirstRunApart(marks, freeMap.file, sector, f);
        ghost var d1 := store.sectors;
        store.Write(sector, Header(f));
        store.Zero(f.start, SectorCount(length));
        LaidIsLaid(d1, sector, f, store.sectors);
        ChangedInThen(d, MapSectors(freeMap.file), d1, Owned(sector, f), store.sectors);
        ZeroedFormatted(d1[sector := Header(f)], f.start, SectorCount(length), store.sectors);
        if freeMap.file.Some? {
          KeptData(d1, Owned(sector, f), store.sectors, freeMap.file.value);
        }
        ok := true;
      }
    }
  }

  lemma ZeroedFormatted(d: Sectors, start: nat, cnt: nat, d': Sectors)
    requires Zeroed(d, start, cnt, d')
    ensures Formatted(d') && |d'| == |d|
  {
  }

  // ---------- creating ----------

  /** Which allocations of filesys_create find memory: the root directory's in-memory inode and directory object; the
      bounce buffers that save the free map when the header and when the data sectors are taken; the header; how many
      reads of each loop of dir_add; the bounce buffers for the new entry and for saving the map after a failure. */
  datatype CreateMem = CreateMem(
    root: bool, dir: bool, headerMap: bool, header: bool, dataMap: bool, lookups: nat, scans: nat, entry: bool,
    release: bool)

  /** After a failed creation the file of the map, which held the map before, still holds it: the map could be saved, or
      sector `s`, taken for the header and given back, lies where that makes no difference. */
  predicate CreateSaves(n: nat, mem: CreateMem, s: nat) {
    if Saves(n, mem.headerMap) then Saves(n, mem.release) || s < WholeBits(n) else s >= WholeBits(n)
  }

  /** The same after the sectors of `f` in sector `s` were released. */
  predicate CloseSaves(n: nat, s: nat, f: Inode, map1: bool, map2: bool) {
    || Saves(n, map2)
    || ((Saves(n, map1) || s < WholeBits(n)) &&
        (SectorCount(f.length) == 0 || f.start + SectorCount(f.length) <= WholeBits(n)))
  }

  /** Whether the file of the map holds the map after such a release, `now`, if it did before, `was`. */
  ghost predicate SavedAfter(was: bool, now: bool, n: nat, s: nat, f: Inode, map1: bool, map2: bool) {
    (Saves(n, map2) ==> now) && (was ==> (now <==> CloseSaves(n, s, f, map1, map2)))
  }

  /** Both allocations of a creation succeed. */
  ghost predicate Takes(marks: seq<bool>, size: nat, mem: CreateMem) {
    && mem.header && Saves(|marks|, mem.headerMap) && Saves(|marks|, mem.dataMap)
    && TakesBoth(marks, SectorCount(size))
  }

  /** They take the lowest free sectors. */
  ghost predicate TakesLowest(marks: seq<bool>, s: nat, f: Inode) {
    && IsFirstRun(marks, 0, 1, false, s)
    && IsFirstRun(Filled(marks, s, 1, true), 0, SectorCount(f.length), false, f.start)
  }

  /** One new live inode, in sectors that were free and are marked now, the lowest ones. */
  ghost predicate IsNew(marks: seq<bool>, marks': seq<bool>, live: map<nat, Inode>, live': map<nat, Inode>, size: nat,
                        s: nat, f: Inode) {
    && s !in live && live' == live[s := f] && f.length == size && TakesLowest(marks, s, f)
    && marks' == Filled(Filled(marks, s, 1, true), f.start, SectorCount(size), true)
  }

  /** The directory has the new entry in slot `k`; a file whose entry was there is lost. */
  ghost predicate EnteredAt(root: Table, root': Table, lost: set<nat>, lost': set<nat>, k: nat, name: Name, s: nat) {
    k < |root| && root' == Directory.Put(root, k, name, s) && lost' == lost + InSlot(root, k)
  }

  /** The state after a successful creation. */
  ghost predicate IsCreated(st: State, st': State, name: Name, size: nat, scans: nat, s: nat, f: Inode) {
    && IsNew(st.marks, st'.marks, st.live, st'.live, size, s, f)
    && EnteredAt(st.root, st'.root, st.lost, st'.lost, Directory.Target(st.root, scans), name, s)
    && st'.inodes == st.inodes && st'.handles == st.handles
  }

  /** The free map after a failure: as before, except that data sectors already taken stay marked. */
  ghost predicate LeftMarked(marks: seq<bool>, marks': seq<bool>, start: nat, cnt: nat, took: bool) {
    && (took ==> AllAre(marks, start, cnt, false) && marks' == Filled(marks, start, cnt, true))
    && (marks' == marks <==> !took || cnt == 0)
  }

  /** The state after a failed creation. */
  ghost predicate Failed(st: State, st': State, took: bool, s: nat, f: Inode) {
    if took then
      && IsTaken(st.marks, s, f)
      && st' == st.(marks := AfterFailure(st.marks, s, f.start, SectorCount(f.length)))
    else st' == st
  }

  lemma LowestIsTaken(marks: seq<bool>, s: nat, f: Inode)
    requires TakesLowest(marks, s, f)
    ensures IsTaken(marks, s, f) && f.start + SectorCount(f.length) <= |marks|
  {
  }

  /** Whether both can be taken is decided by the lowest free sector. */
  lemma FirstTaken(marks: seq<bool>, s: nat, cnt: nat)
    requires IsFirstRun(marks, 0, 1, false, s)
    ensures s < |marks| && |Filled(marks, s, 1, true)| == |marks| && Filled(marks, s, 1, true)[s]
    ensures TakesBoth(marks, cnt) <==> !NoRun(Filled(marks, s, 1, true), 0, cnt, false)
  {
    if TakesBoth(marks, cnt) {
      var s': nat :| IsFirstRun(marks, 0, 1, false, s') && !NoRun(Filled(marks, s', 1, true), 0, cnt, false);
      assert s' == s;
    }
  }

  lemma NoneTaken(marks: seq<bool>, cnt: nat)
    ensures NoRun(marks, 0, 1, false) ==> !TakesBoth(marks, cnt)
  {
  }

  /** Taking a free sector leaves the free map's file as it is. */
  lemma MapStillKept(st: State, s: nat, mapFile: Inode)
    requires Inv(st) && st.live[FREE_MAP_SECTOR] == mapFile && IsFirstRun(st.marks, 0, 1, false, s)
    ensures MapKept(Filled(st.marks, s, 1, true), Some(mapFile), s)
  {
    assert Sound(st.marks, FREE_MAP_SECTOR, mapFile);
    forall x: nat | x in Extent(mapFile) ensures x < |st.marks| && x != s && Filled(st.marks, s, 1, true)[x] {
      assert Owns(FREE_MAP_SECTOR, mapFile, x);
      FilledAt(st.marks, s, 1, true, x);
    }
    FilledAt(st.marks, s, 1, true, s);
  }

  lemma HeaderStillMarked(one: seq<bool>, s: nat, f: Inode, took: bool, marks: seq<bool>)
    requires s < |one| && one[s] && (took ==> f.start + SectorCount(f.length) <= |one|)
    requires marks == if took then Filled(one, f.start, SectorCount(f.length), true) else one
    ensures AllAre(marks, s, 1, true)
  {
    if took {
      FilledAt(one, f.start, SectorCount(f.length), true, s);
    }
  }

  lemma FailedKeeps(st: State, st': State, took: bool, s: nat, f: Inode, cnt: nat)
    requires Inv(st) && Failed(st, st', took, s, f) && (took ==> cnt == SectorCount(f.length))
    ensures Inv(st') && LeftMarked(st.marks, st'.marks, f.start, cnt, took)
  {
    if took {
      FailureLeaks(st.marks, s, f.start, SectorCount(f.length));
      forall x: nat | x < |st.marks| && st.marks[x] ensures st'.marks[x] {
        FilledAt(st.marks, f.start, SectorCount(f.length), true, x);
      }
      MoreMarksKeep(st, st'.marks);
    }
  }

  /** What a creation writes: the system files, and the new file if both allocations succeeded. */
  ghost function Touched(live: map<nat, Inode>, took: bool, s: nat, f: Inode): set<nat>
    requires FREE_MAP_SECTOR in live && ROOT_DIR_SECTOR in live
  {
    Extent(live[FREE_MAP_SECTOR]) + Extent(live[ROOT_DIR_SECTOR]) + if took then Owned(s, f) else {}
  }

  /** It keeps every header and every other file. */
  lemma CreateWrites(live: map<nat, Inode>, d: Sectors, took: bool, s: nat, f: Inode, d': Sectors)
    requires FilesApart(live, |d|) && HeadersStored(live, d) && FREE_MAP_SECTOR in live && ROOT_DIR_SECTOR in live
    requires took ==> s !in live && FilesApart(live[s := f], |d|)
    requires ChangedIn(d, d', Touched(live, took, s, f))
    ensures HeadersStored(live, d') && OthersKept(live, d, d')
  {
    hide FilesApart, Touched;
    forall t | t in live
      ensures t < |d| && t !in Touched(live, took, s, f)
      ensures !System(t) ==> Owned(t, live[t]) !! Touched(live, took, s, f)
    {
      Untouched(live, |d|, took, s, f, t);
    }
  }

  lemma Untouched(live: map<nat, Inode>, n: nat, took: bool, s: nat, f: Inode, t: nat)
    requires FilesApart(live, n) && FREE_MAP_SECTOR in live && ROOT_DIR_SECTOR in live && t in live
    requires took ==> s !in live && FilesApart(live[s := f], n)
    ensures t < n && t !in Touched(live, took, s, f)
    ensures !System(t) ==> Owned(t, live[t]) !! Touched(live, took, s, f)
  {
    assert t in Owned(t, live[t]);
    if took {
      var more := live[s := f];
      assert more[t] == live[t] && more[s] == f && t != s;
      assert Owned(t, more[t]) !! Owned(s, more[s]);
    }
  }

  // ---------- opening and removing ----------

  /** Which allocations of filesys_open find memory. */
  datatype OpenMem = OpenMem(root: bool, dir: bool, lookups: nat, inode: bool, file: bool)

  /** Which allocations of filesys_remove find memory; `map1` and `map2` save the map when sectors are released. */
  datatype RemoveMem = RemoveMem(
    root: bool, dir: bool, lookups: nat, inode: bool, entry: bool, map1: bool, map2: bool)

  class FileSys {
    const freeMap: FreeMap
    const store: Disk
    var inodes: seq<OpenInode>
    ghost const mapFile: Inode
    ghost const rootDir: Inode
    ghost var handles: multiset<nat>
    ghost var live: map<nat, Inode>
    ghost var lost: set<nat>

    ghost predicate Placed()
      reads this, freeMap, freeMap.bits.bits, store
    {
      && freeMap.store == store && freeMap.file == Some(mapFile) && freeMap.Valid()
      && OnDisk(store.sectors, rootDir) && |store.sectors| <= 0x1_0000_0000
    }

    /** The slots of the root directory, as they are on disk. */
    ghost function Root(): Table
      requires Placed()
      reads this, freeMap, freeMap.bits.bits, store
    {
      Directory.Table(Data(store.sectors, rootDir))
    }

    ghost function State(): State
      requires Placed()
      reads this, freeMap, freeMap.bits.bits, store
    {
      FsState.State(freeMap.Marks(), Root(), inodes, handles, live, lost)
    }

    ghost predicate Valid()
      reads this, freeMap, freeMap.bits.bits, store
    {
      && Placed() && Inv(State()) && HeadersStored(live, store.sectors)
      && FREE_MAP_SECTOR in live && live[FREE_MAP_SECTOR] == mapFile
      && ROOT_DIR_SECTOR in live && live[ROOT_DIR_SECTOR] == rootDir
    }

    /** dir_open_root succeeds. */
    ghost predicate RootOpens(mem: bool, dirMem: bool)
      reads this
    {
      (mem || handles[ROOT_DIR_SECTOR] > 0) && dirMem
    }

    /** The file of the free map holds the map. */
    ghost predicate Synced()
      requires Placed()
      reads this, freeMap, freeMap.bits.bits, store
    {
      freeMap.Stored() == freeMap.Marks()
    }

    /** The two system files on a disk just formatted, the free map's open. */
    constructor (freeMap: FreeMap, mapFile: Inode, ghost rootDir: Inode)
      requires freeMap.Valid() && freeMap.file == Some(mapFile) && |freeMap.store.sectors| <= 0x1_0000_0000
      requires OnDisk(freeMap.store.sectors, rootDir)
      requires Directory.Table(Data(freeMap.store.sectors, rootDir)) == NoEntries(rootDir)
      requires Inv(TwoFiles(freeMap.Marks(), mapFile, rootDir))
      requires HeadersStored(map[FREE_MAP_SECTOR := mapFile, ROOT_DIR_SECTOR := rootDir], freeMap.store.sectors)
      ensures Valid() && this.freeMap == freeMap && store == freeMap.store
      ensures State() == TwoFiles(freeMap.Marks(), mapFile, rootDir)
    {
      this.freeMap, store, inodes := freeMap, freeMap.store, [OpenInode(FREE_MAP_SECTOR, 1, false, mapFile)];
      this.mapFile, this.rootDir, handles, lost := mapFile, rootDir, multiset{FREE_MAP_SECTOR}, {};
      live := map[FREE_MAP_SECTOR := mapFile, ROOT_DIR_SECTOR := rootDir];
    }

    /** The search of inode_open. */
    method Locate(sector: nat) returns (k: nat)
      ensures k <= |inodes|
      ensures k < |inodes| ==> inodes[k].sector == sector
      ensures k == |inodes| ==> forall i | 0 <= i < |inodes| :: inodes[i].sector != sector
    {
      k := 0;
      while k < |inodes|
        invariant k <= |inodes|
        invariant forall i | 0 <= i < k :: inodes[i].sector != sector
      {
        if inodes[k].sector == sector {
          return;
        }
        k := k + 1;
      }
    }

    /** inode_open: `f` is what the in-memory inode holds. */
    method InodeOpen(sector: nat, mem: bool) returns (ok: bool, f: Inode)
      requires Valid() && sector in live
      modifies this`inodes, this`handles
      ensures Valid()
      ensures ok <==> mem || old(handles)[sector] > 0
      ensures ok ==> f == live[sector]
      ensures handles == old(handles) + (if ok then multiset{sector} else multiset{})
      ensures !ok ==> inodes == old(inodes)
    {
      hide Bitmap.Contents, Bitmap.Valid, Inv, Data;
      ok, f := false, Inode(0, 0);
      OpenHasHandle(State(), sector);
      var k := Locate(sector);
      if k < |inodes| {
        ReopenedKeeps(State(), k);
        OnListIsLive(State(), k);
        inodes := inodes[k := inodes[k].(openCnt := inodes[k].openCnt + 1)];
        handles := handles + multiset{sector};
        return true, inodes[k].data;
      }
      if mem {
        OpenedKeeps(State(), sector);
        var s := store.Read(sector);
        f := HeaderOf(s);
        inodes := [OpenInode(sector, 1, false, f)] + inodes;
        handles := handles + multiset{sector};
        ok := true;
      }
    }

    /** inode_close: the last close of an inode whose name was removed, and no other, releases its sectors.  `map1` and
        `map2` are whether the map could be saved then. */
    method InodeClose(sector: nat, map1: bool, map2: bool)
      requires Valid() && handles[sector] > 0
      modifies this`inodes, this`handles, this`live, freeMap.bits.bits, store
      ensures Valid() && handles == old(handles) - multiset{sector} && Root() == old(Root())
      ensures sector in old(live) && OthersKept(old(live), old(store.sectors), store.sectors)
      ensures var gone := old(handles)[sector] == 1 && Doomed(old(State()), sector);
              && live == old(live) - (if gone then {sector} else {})
              && (gone ==>
                    && IsReleased(old(freeMap.Marks()), freeMap.Marks(), sector, old(live)[sector])
                    && ChangedIn(old(store.sectors), store.sectors, Extent(mapFile))
                    && SavedAfter(old(Synced()), Synced(), freeMap.bits.bitCnt, sector, old(live)[sector], map1, map2))
              && (!gone ==> freeMap.Marks() == old(freeMap.Marks()) && store.sectors == old(store.sectors))
    {
      hide Bitmap.Contents, Bitmap.Valid, FreeMap.Valid, Data, Inv, IsReleased, ChangedIn, HeadersStored, Sound, Named,
           OthersKept;
      ghost var st := State();
      OpenHasHandle(st, sector);
      var k := Locate(sector);
      ClosedAtKeeps(st, k);
      OnListIsLive(st, k);
      ClosedAtReleases(st, k);
      CountIsHandles(st, k);
      CloseAt(k, map1, map2);
    }

    method CloseAt(k: nat, map1: bool, map2: bool)
      requires Valid() && k < |inodes| && Sound(freeMap.Marks(), inodes[k].sector, inodes[k].data)
      modifies this`inodes, this`handles, this`live, freeMap.bits.bits, store
      ensures Placed() && State() == ClosedAt(old(State()), k) && HeadersStored(live, store.sectors)
      ensures OthersKept(old(live), old(store.sectors), store.sectors)
      ensures var o := old(inodes)[k];
              if o.openCnt <= 1 && o.removed then
                && ChangedIn(old(store.sectors), store.sectors, Extent(mapFile))
                && SavedAfter(old(Synced()), Synced(), freeMap.bits.bitCnt, o.sector, o.data, map1, map2)
              else store.sectors == old(store.sectors)
    {
      hide Bitmap.Contents, Bitmap.Valid, Data, Inv, ChangedIn, HeadersStored, Sound, OthersKept;
      AllKept(live, store.sectors);
      ghost var st, d := State(), store.sectors;
      var o := inodes[k];
      if o.openCnt > 1 {
        handles := handles - multiset{o.sector};
        inodes := inodes[k := o.(openCnt := o.openCnt - 1)];
      } else {
        InvApart(st);
        Forget(k, map1, map2);
        RootKept(st.live, d, store.sectors, mapFile, rootDir);
        FewerHeaders(st.live, store.sectors, o.sector);
      }
    }

    /** The end of inode_close, with no opener left. */
    method Forget(k: nat, map1: bool, map2: bool)
      requires Placed() && k < |inodes| && Sound(freeMap.Marks(), inodes[k].sector, inodes[k].data)
      modifies this`inodes, this`handles, this`live, freeMap.bits.bits, store
      ensures freeMap.Valid()
      ensures var o := old(inodes)[k];
              && inodes == old(inodes)[..k] + old(inodes)[k + 1..] && handles == old(handles) - multiset{o.sector}
              && (o.removed ==>
                    && freeMap.Marks() == Released(old(freeMap.Marks()), o.sector, o.data)
                    && live == old(live) - {o.sector}
                    && ChangedIn(old(store.sectors), store.sectors, Extent(mapFile))
                    && SavedAfter(old(freeMap.Stored() == freeMap.Marks()), freeMap.Stored() == freeMap.Marks(),
                                  freeMap.bits.bitCnt, o.sector, o.data, map1, map2))
              && (!o.removed ==>
                    freeMap.Marks() == old(freeMap.Marks()) && live == old(live) && store.sectors == old(store.sectors))
    {
      hide Bitmap.Contents, Bitmap.Valid, Data, ChangedIn, Saved, OnDisk;
      var o := inodes[k];
      inodes := inodes[..k] + inodes[k + 1..];
      handles := handles - multiset{o.sector};
      if o.removed {
        ghost var marks, d := freeMap.Marks(), store.sectors;
        freeMap.Release(o.sector, 1, map1);
        ghost var d1 := store.sectors;
        DataStillMarked(marks, o.sector, o.data);
        ReleasesSaved(marks, o.sector, o.data.start, SectorCount(o.data.length), map1, map2);
        ghost var was := freeMap.Stored();
        freeMap.Release(o.data.start, SectorCount(o.data.length), map2);
        if Saves(freeMap.bits.bitCnt, map2) {
          SavedWhole(was, freeMap.Marks(), map2);
        }
        ChangedInTwice(d, d1, Extent(mapFile), store.sectors);
        live := live - {o.sector};
      }
    }

    /** dir_open_root: `mem` is whether the in-memory inode could be had, `dirMem` the directory object; without the
        latter the inode is closed again. */
    method DirOpenRoot(mem: bool, dirMem: bool) returns (dir: Directory.Dir?)
      requires Valid()
      modifies this`inodes, this`handles, this`live, freeMap.bits.bits, store
      ensures Valid() && live == old(live)
      ensures freeMap.Marks() == old(freeMap.Marks()) && store.sectors == old(store.sectors)
      ensures dir != null <==> old(RootOpens(mem, dirMem))
      ensures dir != null ==> fresh(dir) && dir.disk == store && dir.inode == rootDir
      ensures handles == old(handles) + (if dir != null then multiset{ROOT_DIR_SECTOR} else multiset{})
    {
      hide Bitmap.Contents, Bitmap.Valid, FreeMap.Valid, Data, Inv, IsReleased, HeadersStored, Named;
      dir := null;
      var ok, f := InodeOpen(ROOT_DIR_SECTOR, mem);
      if ok {
        if dirMem {
          dir := new Directory.Dir(store, f);
        } else {
          BackOut(old(handles), ROOT_DIR_SECTOR);
          CloseRoot();
        }
      }
    }

    /** dir_close of the root directory: nothing is released. */
    method CloseRoot()
      requires Valid() && handles[ROOT_DIR_SECTOR] > 0
      modifies this`inodes, this`handles, this`live, freeMap.bits.bits, store
      ensures Valid() && handles == old(handles) - multiset{ROOT_DIR_SECTOR} && live == old(live)
      ensures freeMap.Marks() == old(freeMap.Marks()) && store.sectors == old(store.sectors)
    {
      hide Bitmap.Contents, Bitmap.Valid, FreeMap.Valid, Data, Inv, IsReleased, HeadersStored, Named;
      InodeClose(ROOT_DIR_SECTOR, true, true);
    }

    /** inode_create and dir_add of filesys_create, once header sector `s` is marked; `st` is the state before that. */
    method MakeAndEnter(dir: Directory.Dir, name: Name, s: nat, size: nat, mem: CreateMem, junk: seq<Byte>,
                        ghost st: State)
      returns (success: bool, took: bool, ghost f: Inode)
      requires Placed() && dir.disk == store && dir.inode == rootDir
      requires Inv(st) && IsFirstRun(st.marks, 0, 1, false, s) && State() == st.(marks := Filled(st.marks, s, 1, true))
      requires st.live[FREE_MAP_SECTOR] == mapFile && st.live[ROOT_DIR_SECTOR] == rootDir
      requires Directory.NoZero(name) && size < 0x8000_0000 && |junk| == Directory.ENTRY
      modifies store, freeMap.bits.bits
      ensures Placed()
      ensures took <==>
                && mem.header && Saves(freeMap.bits.bitCnt, mem.dataMap)
                && !NoRun(old(freeMap.Marks()), 0, SectorCount(size), false)
      ensures success <==> took && Directory.CanAdd(st.root, name, mem.lookups, mem.scans, mem.entry)
      ensures success ==> Directory.Target(st.root, mem.scans) < |st.root|
      ensures var k := Directory.Target(st.root, mem.scans);
              Root() == if success then Directory.Put(st.root, k, name, s) else st.root
      ensures took ==>
                && f.length == size && TakesLowest(st.marks, s, f)
                && freeMap.Marks() == Filled(old(freeMap.Marks()), f.start, SectorCount(size), true)
                && Laid(store.sectors, s, f) && Synced()
      ensures !took ==> freeMap.Marks() == old(freeMap.Marks()) && SameBehind(freeMap.Stored(), old(freeMap.Stored()))
      ensures ChangedIn(old(store.sectors), store.sectors, Touched(st.live, took, s, f))
    {
      hide Bitmap.Contents, Bitmap.Valid, Data, Inv, ChangedIn, NoRun, Laid, Directory.Table, FilesApart, Touched,
           Unpack;
      ghost var d := store.sectors;
      success := false;
      MapStillKept(st, s, mapFile);
      SystemApart(st);
      var g;
      took, g := InodeCreate(freeMap, s, size, mem.header, mem.dataMap);
      f := g;
      ghost var d1 := store.sectors;
      if took {
        LowestIsTaken(st.marks, s, f);
        NewApart(st, s, f);
        KeptData(d, Extent(mapFile) + Owned(s, f), d1, rootDir);
        success := dir.Add(name, s, mem.lookups, mem.scans, mem.entry, junk);
        KeptData(d1, Extent(rootDir), store.sectors, mapFile);
        StillLaid(d1, Extent(rootDir), store.sectors, s, f);
        ChangedInThen(d, Extent(mapFile) + Owned(s, f), d1, Extent(rootDir), store.sectors);
        TouchedIs(st.live, true, s, f);
      } else {
        KeptData(d, Extent(mapFile), d1, rootDir);
        UnchangedIn(d1);
        ChangedInThen(d, Extent(mapFile), d1, Extent(rootDir), d1);
        TouchedIs(st.live, false, s, f);
      }
    }

    /** The first free_map_allocate of filesys_create. */
    method TakeHeader(mem: bool) returns (r: Index, ghost at: nat)
      requires Placed() && Extent(mapFile) !! Extent(rootDir)
      modifies store, freeMap.bits.bits
      ensures Placed() && Root() == old(Root()) && ChangedIn(old(store.sectors), store.sectors, Extent(mapFile))
      ensures r.Found? <==> !NoRun(old(freeMap.Marks()), 0, 1, false) && Saves(freeMap.bits.bitCnt, mem)
      ensures !NoRun(old(freeMap.Marks()), 0, 1, false) ==> IsFirstRun(old(freeMap.Marks()), 0, 1, false, at)
      ensures r.Found? ==> r.idx == at && freeMap.Marks() == Filled(old(freeMap.Marks()), at, 1, true) && Synced()
      ensures r.BitmapError? ==> freeMap.Marks() == old(freeMap.Marks())
      ensures NoRun(old(freeMap.Marks()), 0, 1, false) ==> store.sectors == old(store.sectors)
      ensures r.BitmapError? && !NoRun(old(freeMap.Marks()), 0, 1, false) && old(Synced()) ==>
                (Synced() <==> at >= WholeBits(freeMap.bits.bitCnt))
    {
      hide Bitmap.Contents, Bitmap.Valid, Data, ChangedIn, Directory.Table, Saved, Unpack, NoRun, IsFirstRun;
      ghost var d, marks := store.sectors, freeMap.Marks();
      r, at := freeMap.Allocate(1, mem);
      KeptData(d, Extent(mapFile), store.sectors, rootDir);
      if r.BitmapError? && !NoRun(marks, 0, 1, false) {
        RunIsClear(marks, at);
        ShortAllocation(marks, at, 1);
      }
    }

    /** The free_map_release of a failed creation. */
    method GiveBack(s: nat, mem: bool)
      requires Placed() && AllAre(freeMap.Marks(), s, 1, true) && Extent(mapFile) !! Extent(rootDir)
      requires SameBehind(freeMap.Stored(), freeMap.Marks())
      modifies store, freeMap.bits.bits
      ensures Placed() && freeMap.Marks() == Filled(old(freeMap.Marks()), s, 1, false) && Root() == old(Root())
      ensures ChangedIn(old(store.sectors), store.sectors, Extent(mapFile))
      ensures Synced() <==> Saves(freeMap.bits.bitCnt, mem) || s < WholeBits(freeMap.bits.bitCnt)
    {
      hide Bitmap.Contents, Bitmap.Valid, Data, ChangedIn, Directory.Table, Saved, Unpack, SameBehind;
      ghost var d := store.sectors;
      ReleaseSaved(freeMap.Stored(), freeMap.Marks(), s, 1, mem);
      freeMap.Release(s, 1, mem);
      KeptData(d, Extent(mapFile), store.sectors, rootDir);
    }

    /** The rest of filesys_create once header sector `s` is marked; `st` is the state before that.  On failure the
        sector is given back. */
    method FinishCreate(dir: Directory.Dir, name: Name, s: nat, size: nat, mem: CreateMem, junk: seq<Byte>,
                        ghost st: State)
      returns (success: bool, took: bool, ghost f: Inode)
      requires Placed() && dir.disk == store && dir.inode == rootDir && Synced()
      requires Inv(st) && IsFirstRun(st.marks, 0, 1, false, s) && State() == st.(marks := Filled(st.marks, s, 1, true))
      requires st.live[FREE_MAP_SECTOR] == mapFile && st.live[ROOT_DIR_SECTOR] == rootDir
      requires Directory.NoZero(name) && size < 0x8000_0000 && |junk| == Directory.ENTRY
      modifies this`live, this`lost, store, freeMap.bits.bits
      ensures Placed()
      ensures took <==>
                mem.header && Saves(freeMap.bits.bitCnt, mem.dataMap) && TakesBoth(st.marks, SectorCount(size))
      ensures success <==> took && Directory.CanAdd(st.root, name, mem.lookups, mem.scans, mem.entry)
      ensures took ==> f.length == size && TakesLowest(st.marks, s, f) && Laid(store.sectors, s, f)
      ensures success ==>
                && IsTaken(st.marks, s, f) && Directory.Target(st.root, mem.scans) < |st.root|
                && State() == Created(st, Directory.Target(st.root, mem.scans), name, s, f)
      ensures !success ==> Failed(st, State(), took, s, f)
      ensures Synced() <==>
                success || Saves(freeMap.bits.bitCnt, mem.release) || s < WholeBits(freeMap.bits.bitCnt)
      ensures ChangedIn(old(store.sectors), store.sectors, Touched(st.live, took, s, f))
    {
      hide Bitmap.Contents, Bitmap.Valid, Data, Inv, ChangedIn, NoRun, Laid, Directory.Table, FilesApart, Touched,
           Unpack, Saved, IsFirstRun, TakesBoth, Directory.CanAdd, AllAre, IsTaken, Saves, TakesLowest;
      ghost var d := store.sectors;
      SystemApart(st);
      FirstTaken(st.marks, s, SectorCount(size));
      success, took, f := MakeAndEnter(dir, name, s, size, mem, junk, st);
      TouchesMap(st.live, took, s, f);
      ghost var mid := store.sectors;
      if took {
        LowestIsTaken(st.marks, s, f);
        NewApart(st, s, f);
      }
      if success {
        live := live[s := f];
        lost := lost + InSlot(st.root, Directory.Target(st.root, mem.scans));
      } else {
        HeaderStillMarked(Filled(st.marks, s, 1, true), s, f, took, freeMap.Marks());
        assert SameBehind(freeMap.Stored(), freeMap.Marks());
        GiveBack(s, mem.release);
        AfterRelease(st.marks, s);
        ThenWider(d, Touched(st.live, took, s, f), mid, Extent(mapFile), store.sectors);
        if took {
          StillLaid(mid, Extent(mapFile), store.sectors, s, f);
        }
      }
    }

    /** filesys_create with the root directory open.  `took` is whether both the header and the data sectors could be
        taken, in `s` and `f`. */
    method TryCreate(dir: Directory.Dir, name: Name, size: nat, mem: CreateMem, junk: seq<Byte>)
      returns (success: bool, ghost took: bool, ghost s: nat, ghost f: Inode)
      requires Valid() && dir.disk == store && dir.inode == rootDir
      requires Directory.NoZero(name) && size < 0x8000_0000 && |junk| == Directory.ENTRY
      modifies this`live, this`lost, store, freeMap.bits.bits
      ensures Placed()
      ensures took == Takes(old(freeMap.Marks()), size, mem)
      ensures success <==> took && Directory.CanAdd(old(Root()), name, mem.lookups, mem.scans, mem.entry)
      ensures took ==> f.length == size && TakesLowest(old(freeMap.Marks()), s, f) && Laid(store.sectors, s, f)
      ensures success ==>
                && IsTaken(old(freeMap.Marks()), s, f) && Directory.Target(old(Root()), mem.scans) < |old(Root())|
                && State() == Created(old(State()), Directory.Target(old(Root()), mem.scans), name, s, f) && Synced()
      ensures !success ==> Failed(old(State()), State(), took, s, f)
      ensures !NoRun(old(freeMap.Marks()), 0, 1, false) ==> IsFirstRun(old(freeMap.Marks()), 0, 1, false, s)
      ensures old(Synced()) ==>
                (Synced() <==> success || NoRun(old(freeMap.Marks()), 0, 1, false) ||
                               CreateSaves(freeMap.bits.bitCnt, mem, s))
      ensures ChangedIn(old(store.sectors), store.sectors, Touched(old(live), took, s, f))
    {
      hide Bitmap.Contents, Bitmap.Valid, Data, Inv, ChangedIn, NoRun, Laid, Directory.Table, FilesApart, Touched,
           Unpack, HeadersStored, Saved, IsFirstRun, TakesBoth, Directory.CanAdd, AllAre, IsTaken, Saves, TakesLowest;
      success, took, s, f := false, false, 0, Inode(0, 0);
      ghost var st, d := State(), store.sectors;
      NoneTaken(st.marks, SectorCount(size));
      SystemApart(st);
      var r;
      r, s := TakeHeader(mem.headerMap);
      ghost var d1 := store.sectors;
      if r.Found? {
        var ok;
        success, ok, f := FinishCreate(dir, name, r.idx, size, mem, junk, st);
        took := ok;
      } else {
        UnchangedIn(d1);
      }
      TouchesMap(st.live, took, s, f);
      WiderThen(d, Extent(mapFile), d1, Touched(st.live, took, s, f), store.sectors);
    }

    /** The same, with what it means for the files: a new one that reads as zeros, or none; the others are as before. */
    method CreateIn(dir: Directory.Dir, name: Name, size: nat, mem: CreateMem, junk: seq<Byte>)
      returns (success: bool, ghost s: nat, ghost f: Inode)
      requires Valid() && dir.disk == store && dir.inode == rootDir
      requires Directory.NoZero(name) && size < 0x8000_0000 && |junk| == Directory.ENTRY
      modifies this`live, this`lost, store, freeMap.bits.bits
      ensures Valid()
      ensures success <==>
                && Takes(old(freeMap.Marks()), size, mem)
                && Directory.CanAdd(old(Root()), name, mem.lookups, mem.scans, mem.entry)
      ensures success ==> IsCreated(old(State()), State(), name, size, mem.scans, s, f) && ReadsZero(store.sectors, f)
      ensures success ==> Synced()
      ensures !success ==>
                && State() == old(State()).(marks := freeMap.Marks())
                && LeftMarked(old(freeMap.Marks()), freeMap.Marks(), f.start, SectorCount(size),
                              Takes(old(freeMap.Marks()), size, mem))
      ensures Takes(old(freeMap.Marks()), size, mem) ==> f.length == size && TakesLowest(old(freeMap.Marks()), s, f)
      ensures !NoRun(old(freeMap.Marks()), 0, 1, false) ==> IsFirstRun(old(freeMap.Marks()), 0, 1, false, s)
      ensures old(Synced()) ==>
                (Synced() <==> success || NoRun(old(freeMap.Marks()), 0, 1, false) ||
                               CreateSaves(freeMap.bits.bitCnt, mem, s))
      ensures OthersKept(old(live), old(store.sectors), store.sectors)
    {
      hide Bitmap.Contents, Bitmap.Valid, Data, Inv, ChangedIn, Laid, Directory.Table, FilesApart, Touched, Unpack,
           Takes, HeadersStored, TakesLowest, LeftMarked, OthersKept, Directory.CanAdd, IsTaken, ReadsZero;
      ghost var st, d := State(), store.sectors;
      ghost var took;
      success, took, s, f := TryCreate(dir, name, size, mem, junk);
      InvApart(st);
      if took {
        LowestIsTaken(st.marks, s, f);
        TakenApart(st, s, f);
        NewOnDisk(st, s, f, store.sectors);
        LaidReadsZero(store.sectors, s, f);
      }
      CreateWrites(st.live, d, took, s, f, store.sectors);
      if success {
        CreatedKeeps(st, Directory.Target(st.root, mem.scans), name, s, f);
        OneMoreHeader(st.live, store.sectors, s, f);
      } else {
        FailedKeeps(st, State(), took, s, f, SectorCount(size));
      }
    }

    /** filesys_create.  `junk` is what the entry buffer of dir_add holds at first. */
    method Create(name: Name, size: nat, mem: CreateMem, junk: seq<Byte>)
      returns (success: bool, ghost s: nat, ghost f: Inode)
      requires Valid() && Directory.NoZero(name) && size < 0x8000_0000 && |junk| == Directory.ENTRY
      modifies this, store, freeMap.bits.bits
      ensures Valid() && handles == old(handles)
      ensures success <==>
                && old(RootOpens(mem.root, mem.dir)) && Takes(old(freeMap.Marks()), size, mem)
                && Directory.CanAdd(old(Root()), name, mem.lookups, mem.scans, mem.entry)
      ensures success ==>
                && Synced() && ReadsZero(store.sectors, f)
                && IsNew(old(freeMap.Marks()), freeMap.Marks(), old(live), live, size, s, f)
                && EnteredAt(old(Root()), Root(), old(lost), lost, Directory.Target(old(Root()), mem.scans), name, s)
      ensures !success ==> Root() == old(Root()) && live == old(live) && lost == old(lost)
      ensures !success ==>
                var took := old(RootOpens(mem.root, mem.dir)) && Takes(old(freeMap.Marks()), size, mem);
                && LeftMarked(old(freeMap.Marks()), freeMap.Marks(), f.start, SectorCount(size), took)
                && (took ==> f.length == size && TakesLowest(old(freeMap.Marks()), s, f))
      ensures old(RootOpens(mem.root, mem.dir)) && !NoRun(old(freeMap.Marks()), 0, 1, false) ==>
                IsFirstRun(old(freeMap.Marks()), 0, 1, false, s)
      ensures old(Synced()) ==>
                (Synced() <==>
                   || success || !old(RootOpens(mem.root, mem.dir)) || NoRun(old(freeMap.Marks()), 0, 1, false)
                   || CreateSaves(freeMap.bits.bitCnt, mem, s))
      ensures OthersKept(old(live), old(store.sectors), store.sectors)
    {
      hide Bitmap.Contents, Bitmap.Valid, FreeMap.Valid, Data, Inv, HeadersStored, Takes, TakesLowest,
           Directory.CanAdd, ReadsZero, Directory.Table;
      s, f, success := 0, Inode(0, 0), false;
      var dir := DirOpenRoot(mem.root, mem.dir);
      if dir != null {
        success, s, f := CreateIn(dir, name, size, mem, junk);
        BackOut(old(handles), ROOT_DIR_SECTOR);
        CloseRoot();
      }
    }

    /** filesys_open. */
    method Open(name: Name, mem: OpenMem) returns (file: bool)
      requires Valid()
      modifies this`inodes, this`handles, this`live, freeMap.bits.bits, store
      ensures Valid() && live == old(live)
      ensures freeMap.Marks() == old(freeMap.Marks()) && store.sectors == old(store.sectors)
      ensures var t := old(Root()); var k := Directory.Found(t, name, mem.lookups);
              && (file <==> old(RootOpens(mem.root, mem.dir)) && k < |t| &&
                            (mem.inode || old(handles)[t[k].sector] > 0) && mem.file)
              && handles == old(handles) + (if file then multiset{t[k].sector} else multiset{})
    {
      hide Inv, Bitmap.Valid, Bitmap.Contents, FreeMap.Valid, Data, HeadersStored, Directory.Table, Named;
      var sector;
      file, sector := LookupInRoot(name, mem);
      if file {
        NamedBy(Root(), Directory.Found(Root(), name, mem.lookups), sector);
        BackOut(old(handles), sector);
        FileOpen(sector, mem.file);
        file := mem.file;
      }
    }

    /** The part of filesys_open that uses the root directory. */
    method LookupInRoot(name: Name, mem: OpenMem) returns (ok: bool, sector: nat)
      requires Valid()
      modifies this`inodes, this`handles, this`live, freeMap.bits.bits, store
      ensures Valid() && live == old(live)
      ensures freeMap.Marks() == old(freeMap.Marks()) && store.sectors == old(store.sectors)
      ensures var t := old(Root()); var k := Directory.Found(t, name, mem.lookups);
              && (ok <==> old(RootOpens(mem.root, mem.dir)) && k < |t| &&
                          (mem.inode || old(handles)[t[k].sector] > 0))
              && (ok ==> Names(t, k, sector))
              && handles == old(handles) + (if ok then multiset{t[k].sector} else multiset{})
    {
      hide Inv, Bitmap.Valid, Bitmap.Contents, FreeMap.Valid, Data, HeadersStored, Directory.Table;
      ok, sector := false, 0;
      EntriesLive(State());
      var dir := DirOpenRoot(mem.root, mem.dir);
      if dir != null {
        ghost var more;
        ok, sector, more := DirLookup(dir, name, mem.lookups, mem.inode);
        BackOutUnder(old(handles), ROOT_DIR_SECTOR, more);
        CloseRoot();
      }
    }

    /** dir_lookup in the root directory; `more` is the open it leaves outstanding. */
    method DirLookup(dir: Directory.Dir, name: Name, lookups: nat, mem: bool)
      returns (ok: bool, sector: nat, ghost more: multiset<nat>)
      requires Valid() && dir.disk == store && dir.inode == rootDir
      modifies this`inodes, this`handles
      ensures Valid() && handles == old(handles) + more
      ensures var t := Root(); var k := Directory.Found(t, name, lookups);
              && (ok <==> k < |t| && (mem || old(handles)[t[k].sector] > 0))
              && (ok ==> Names(t, k, sector) && more == multiset{sector})
      ensures !ok ==> more == multiset{}
    {
      hide Inv, Bitmap.Valid, Bitmap.Contents, FreeMap.Valid, Data, HeadersStored, Directory.Table;
      ok, sector, more := false, 0, multiset{};
      EntriesLive(State());
      var found := dir.Find(name, lookups);
      if found.Some? {
        sector := found.value;
        assert Names(Root(), Directory.Found(Root(), name, lookups), sector);
        var open, _ := InodeOpen(sector, mem);
        ok := open;
        more := if ok then multiset{sector} else multiset{};
      }
    }

    /** file_open of an inode just opened, which has a name: keeps it, or closes it again for lack of memory. */
    method FileOpen(sector: nat, mem: bool)
      requires Valid() && Named(Root(), sector) && handles[sector] > 0
      modifies this`inodes, this`handles, this`live, freeMap.bits.bits, store
      ensures Valid() && live == old(live)
      ensures freeMap.Marks() == old(freeMap.Marks()) && store.sectors == old(store.sectors)
      ensures handles == old(handles) - (if mem then multiset{} else multiset{sector})
    {
      hide Inv, Bitmap.Valid, Bitmap.Contents, FreeMap.Valid, Data, HeadersStored, Directory.Table, Named;
      if !mem {
        InodeClose(sector, true, true);
      }
    }

    /** filesys_remove: the name goes at once, the sectors only if nobody has the file open. */
    method Remove(name: Name, mem: RemoveMem) returns (success: bool)
      requires Valid()
      modifies this`inodes, this`handles, this`live, freeMap.bits.bits, store
      ensures Valid() && handles == old(handles)
      ensures var t := old(Root()); var k := Directory.Found(t, name, mem.lookups);
              && (success <==> old(RootOpens(mem.root, mem.dir)) && k < |t| &&
                               (mem.inode || old(handles)[t[k].sector] > 0) && mem.entry)
              && (success ==>
                    && Root() == t[k := Directory.Free]
                    && IsRemoved(t[k].sector, old(handles), old(live), old(freeMap.Marks()), live, freeMap.Marks())
                    && (t[k].sector !in live ==>
                          SavedAfter(old(Synced()), Synced(), freeMap.bits.bitCnt, t[k].sector,
                                     old(live)[t[k].sector], mem.map1, mem.map2)))
      ensures !success ==>
                live == old(live) && freeMap.Marks() == old(freeMap.Marks()) && store.sectors == old(store.sectors)
      ensures live == old(live) ==> (Synced() <==> old(Synced()))
      ensures OthersKept(live, old(store.sectors), store.sectors)
    {
      hide Bitmap.Valid, Bitmap.Contents, FreeMap.Valid, Data, HeadersStored, Directory.Table, Inv, IsReleased,
           OthersKept;
      success := false;
      AllKept(live, store.sectors);
      EntriesLive(State());
      var dir := DirOpenRoot(mem.root, mem.dir);
      if dir != null {
        success := RemoveIn(dir, name, mem);
        BackOut(old(handles), ROOT_DIR_SECTOR);
        CloseRoot();
      }
    }

    /** dir_remove, with the root directory open. */
    method RemoveIn(dir: Directory.Dir, name: Name, mem: RemoveMem) returns (success: bool)
      requires Valid() && dir.disk == store && dir.inode == rootDir
      modifies this`inodes, this`handles, this`live, freeMap.bits.bits, store
      ensures Valid() && handles == old(handles)
      ensures var t := old(Root()); var k := Directory.Found(t, name, mem.lookups);
              && (success <==> k < |t| && (mem.inode || old(handles)[t[k].sector] > 0) && mem.entry)
              && (success ==>
                    && Root() == t[k := Directory.Free]
                    && IsRemoved(t[k].sector, old(handles), old(live), old(freeMap.Marks()), live, freeMap.Marks())
                    && (t[k].sector !in live ==>
                          SavedAfter(old(Synced()), Synced(), freeMap.bits.bitCnt, t[k].sector,
                                     old(live)[t[k].sector], mem.map1, mem.map2)))
      ensures !success ==>
                live == old(live) && freeMap.Marks() == old(freeMap.Marks()) && store.sectors == old(store.sectors)
      ensures live == old(live) ==> (Synced() <==> old(Synced()))
      ensures OthersKept(live, old(store.sectors), store.sectors)
    {
      hide Bitmap.Valid, Bitmap.Contents, FreeMap.Valid, Data, HeadersStored, Directory.Table, Inv, IsReleased,
           OthersKept;
      success := false;
      AllKept(live, store.sectors);
      EntriesLive(State());
      var found, k, e := dir.Lookup(name, mem.lookups);
      if found {
        var sector := Directory.SectorField(e);
        assert Names(Root(), k, sector);
        var open, _ := InodeOpen(sector, mem.inode);
        if open {
          BackOut(old(handles), sector);
          success := EraseAndClose(dir, sector, k, e, mem);
        }
      }
    }

    /** dir_remove once the inode is open: erase, mark removed, close. */
    method EraseAndClose(dir: Directory.Dir, sector: nat, k: nat, e: seq<Byte>, mem: RemoveMem) returns (erased: bool)
      requires Valid() && dir.disk == store && dir.inode == rootDir
      requires Names(Root(), k, sector) && handles[sector] > 0 && sector in live && !System(sector)
      requires k < Directory.Slots(Data(store.sectors, rootDir))
      requires e == Directory.Slot(Data(store.sectors, rootDir), k)
      modifies this`inodes, this`handles, this`live, freeMap.bits.bits, store
      ensures Valid() && handles == old(handles) - multiset{sector} && erased == mem.entry
      ensures erased ==>
                && Root() == old(Root())[k := Directory.Free]
                && IsRemoved(sector, handles, old(live), old(freeMap.Marks()), live, freeMap.Marks())
                && (sector !in live ==>
                      SavedAfter(old(Synced()), Synced(), freeMap.bits.bitCnt, sector, old(live)[sector], mem.map1,
                                 mem.map2))
      ensures !erased ==>
                live == old(live) && freeMap.Marks() == old(freeMap.Marks()) && store.sectors == old(store.sectors)
      ensures live == old(live) ==> (Synced() <==> old(Synced()))
      ensures OthersKept(live, old(store.sectors), store.sectors)
    {
      hide Bitmap.Valid, Bitmap.Contents, FreeMap.Valid, Data, HeadersStored, Directory.Table, Inv, IsReleased,
           OthersKept, Named, ChangedIn;
      ghost var before, files := store.sectors, live;
      erased := Unlink(dir, sector, k, e, mem.entry);
      assert !erased ==> Named(Root(), sector) by {
        NamedBy(Root(), k, sector);
      }
      ghost var mid := store.sectors;
      InodeClose(sector, mem.map1, mem.map2);
      KeptThen(files, before, mid, store.sectors, live);
    }

    /** The end of dir_remove: the entry in slot `k` is erased and its open inode marked removed, or, if the entry
        cannot be written, nothing happens. */
    method Unlink(dir: Directory.Dir, sector: nat, k: nat, e: seq<Byte>, mem: bool) returns (erased: bool)
      requires Valid() && dir.disk == store && dir.inode == rootDir
      requires Names(Root(), k, sector) && handles[sector] > 0
      requires k < Directory.Slots(Data(store.sectors, rootDir))
      requires e == Directory.Slot(Data(store.sectors, rootDir), k)
      modifies this`inodes, store
      ensures Valid() && erased == mem
      ensures Root() == if erased then old(Root())[k := Directory.Free] else old(Root())
      ensures erased ==> Doomed(State(), sector)
      ensures !erased ==> store.sectors == old(store.sectors)
      ensures freeMap.Stored() == old(freeMap.Stored()) && freeMap.Marks() == old(freeMap.Marks())
      ensures OthersKept(live, old(store.sectors), store.sectors)
    {
      hide Bitmap.Valid, Bitmap.Contents, Data, HeadersStored, Directory.Table, Inv, OthersKept, Doomed, Names,
           ChangedIn, FilesApart;
      ghost var st, d := State(), store.sectors;
      OpenHasHandle(st, sector);
      SystemApart(st);
      InvApart(st);
      erased := dir.Erase(k, e, mem);
      SystemWrites(live, d, Extent(rootDir), store.sectors);
      KeptData(d, Extent(rootDir), store.sectors, mapFile);
      if erased {
        var i := Locate(sector);
        UnlinkedKeeps(st, k, i);
        inodes := inodes[i := inodes[i].(removed := true)];
      }
    }
  }

  /** What removing the name of the file in sector `s` releases: its sectors at once if nobody has it open, nothing
      otherwise. */
  ghost predicate IsRemoved(s: nat, handles: multiset<nat>, live: map<nat, Inode>, marks: seq<bool>,
                            live': map<nat, Inode>, marks': seq<bool>) {
    && s in live
    && if handles[s] == 0 then live' == live - {s} && IsReleased(marks, marks', s, live[s])
       else live' == live && marks' == marks
  }

  /** Every entry names a live file that is not a system file. */
  lemma EntriesLive(st: State)
    requires Inv(st)
    ensures forall i: nat, s | Names(st.root, i, s) :: s in st.live && !System(s)
    ensures forall i: nat | i < |st.root| && st.root[i].Used? ::
              st.root[i].sector in st.live && !System(st.root[i].sector)
  {
    forall i: nat | i < |st.root| && st.root[i].Used? ensures Names(st.root, i, st.root[i].sector) {
    }
  }

  lemma NamedBy(root: Table, i: nat, s: nat)
    ensures Names(root, i, s) ==> Named(root, s)
  {
  }

  lemma AllKept(live: map<nat, Inode>, d: Sectors)
    ensures OthersKept(live, d, d)
  {
  }

  lemma KeptThen(live: map<nat, Inode>, d: Sectors, d1: Sectors, d2: Sectors, live': map<nat, Inode>)
    requires OthersKept(live, d, d1) && OthersKept(live, d1, d2)
    requires forall s | s in live' :: s in live && live'[s] == live[s]
    ensures OthersKept(live', d, d2)
  {
  }

  lemma BackOutUnder(handles: multiset<nat>, s: nat, more: multiset<nat>)
    ensures (handles + multiset{s} + more)[s] > 0
    ensures handles + multiset{s} + more - multiset{s} == handles + more
  {
  }

  lemma TouchesMap(live: map<nat, Inode>, took: bool, s: nat, f: Inode)
    requires FREE_MAP_SECTOR in live && ROOT_DIR_SECTOR in live
    ensures Extent(live[FREE_MAP_SECTOR]) <= Touched(live, took, s, f)
  {
  }

  lemma WiderThen(d: Sectors, x: set<nat>, d1: Sectors, y: set<nat>, d2: Sectors)
    requires ChangedIn(d, d1, x) && ChangedIn(d1, d2, y) && x <= y
    ensures ChangedIn(d, d2, y)
  {
  }

  lemma ThenWider(d: Sectors, y: set<nat>, d1: Sectors, x: set<nat>, d2: Sectors)
    requires ChangedIn(d, d1, y) && ChangedIn(d1, d2, x) && x <= y
    ensures ChangedIn(d, d2, y)
  {
  }

  lemma RunIsClear(marks: seq<bool>, at: nat)
    requires IsFirstRun(marks, 0, 1, false, at)
    ensures AllAre(marks, at, 1, false)
  {
  }

  /** A header sector given back. */
  lemma AfterRelease(marks: seq<bool>, s: nat)
    requires IsFirstRun(marks, 0, 1, false, s)
    ensures Filled(Filled(marks, s, 1, true), s, 1, false) == marks
  {
    FilledBack(marks, s, 1);
  }

  lemma NewOnDisk(st: State, s: nat, f: Inode, d: Sectors)
    requires IsTaken(st.marks, s, f) && Formatted(d) && |d| == |st.marks|
    ensures OnDisk(d, f)
  {
  }

  lemma OneMoreHeader(live: map<nat, Inode>, d: Sectors, s: nat, f: Inode)
    requires HeadersStored(live, d) && Laid(d, s, f)
    ensures HeadersStored(live[s := f], d)
  {
  }

  lemma TouchedIs(live: map<nat, Inode>, took: bool, s: nat, f: Inode)
    requires FREE_MAP_SECTOR in live && ROOT_DIR_SECTOR in live
    ensures took ==>
              Extent(live[FREE_MAP_SECTOR]) + Owned(s, f) + Extent(live[ROOT_DIR_SECTOR]) == Touched(live, took, s, f)
    ensures !took ==> Extent(live[FREE_MAP_SECTOR]) + Extent(live[ROOT_DIR_SECTOR]) == Touched(live, took, s, f)
  {
  }

  /** The data of the two system files lie apart. */
  lemma SystemApart(st: State)
    requires Inv(st)
    ensures FREE_MAP_SECTOR in st.live && ROOT_DIR_SECTOR in st.live
    ensures Extent(st.live[FREE_MAP_SECTOR]) !! Extent(st.live[ROOT_DIR_SECTOR])
  {
    InvApart(st);
    assert Owned(FREE_MAP_SECTOR, st.live[FREE_MAP_SECTOR]) !! Owned(ROOT_DIR_SECTOR, st.live[ROOT_DIR_SECTOR]);
  }

  /** And so does a new file. */
  lemma NewApart(st: State, s: nat, f: Inode)
    requires Inv(st) && IsTaken(st.marks, s, f)
    ensures forall t | t in st.live :: Extent(st.live[t]) !! Owned(s, f)
  {
    TakenApart(st, s, f);
    var more := st.live[s := f];
    forall t | t in st.live ensures Extent(st.live[t]) !! Owned(s, f) {
      assert Owned(t, more[t]) !! Owned(s, more[s]);
    }
  }

  lemma BackOut(handles: multiset<nat>, s: nat)
    ensures handles + multiset{s} - multiset{s} == handles
  {
  }

  lemma OpenHasHandle(st: State, s: nat)
    requires Inv(st)
    ensures IsOpen(st, s) <==> st.handles[s] > 0
  {
    if i :| 0 <= i < |st.inodes| && st.inodes[i].sector == s {
      assert OpenOk(st, st.inodes[i]);
    }
  }

  lemma OnListIsLive(st: State, k: nat)
    requires Inv(st) && k < |st.inodes|
    ensures st.inodes[k].sector in st.live && st.inodes[k].data == st.live[st.inodes[k].sector]
  {
    assert OpenOk(st, st.inodes[k]);
  }

  lemma CountIsHandles(st: State, k: nat)
    requires Inv(st) && k < |st.inodes|
    ensures st.inodes[k].openCnt == st.handles[st.inodes[k].sector] > 0
    ensures st.inodes[k].removed <==> Doomed(st, st.inodes[k].sector)
  {
    assert OpenOk(st, st.inodes[k]);
  }

  /** Releasing the header leaves the data sectors marked. */
  lemma DataStillMarked(marks: seq<bool>, s: nat, f: Inode)
    requires Sound(marks, s, f)
    ensures AllAre(marks, s, 1, true)
    ensures AllAre(Filled(marks, s, 1, false), f.start, SectorCount(f.length), true)
  {
    assert Owns(s, f, s);
    forall x: nat | f.start <= x < f.start + SectorCount(f.length) ensures Filled(marks, s, 1, false)[x] {
      assert Owns(s, f, x);
      FilledAt(marks, s, 1, false, x);
    }
  }

  /** Saving the map does not touch the root directory or any header. */
  lemma RootKept(live: map<nat, Inode>, d: Sectors, d': Sectors, mapFile: Inode, rootDir: Inode)
    requires FilesApart(live, |d|) && HeadersStored(live, d) && OnDisk(d, rootDir) && Formatted(d')
    requires FREE_MAP_SECTOR in live && live[FREE_MAP_SECTOR] == mapFile
    requires ROOT_DIR_SECTOR in live && live[ROOT_DIR_SECTOR] == rootDir
    requires d' == d || ChangedIn(d, d', Extent(mapFile))
    ensures OnDisk(d', rootDir) && Data(d', rootDir) == Data(d, rootDir)
    ensures HeadersStored(live, d') && OthersKept(live, d, d')
  {
    UnchangedIn(d);
    SystemWrites(live, d, Extent(mapFile), d');
    assert Extent(rootDir) <= Owned(ROOT_DIR_SECTOR, rootDir) && Extent(mapFile) <= Owned(FREE_MAP_SECTOR, mapFile);
    KeptData(d, Extent(mapFile), d', rootDir);
  }

  lemma FewerHeaders(live: map<nat, Inode>, d: Sectors, s: nat)
    requires HeadersStored(live, d)
    ensures HeadersStored(live - {s}, d)
  {
  }

  // ---------- formatting ----------

  /** dir_create of the root directory: 16 entries. */
  const ROOT_DIR_SIZE: nat := 16 * Directory.ENTRY

  /** A map with the first `k` of `n` sectors marked. */
  ghost function Low(n: nat, k: nat): (s: seq<bool>)
    ensures |s| == n && forall x: nat | x < n :: s[x] == (x < k)
  {
    seq(n, x => x < k)
  }

  /** The lowest free run of such a map starts where the marks end. */
  lemma LowRuns(n: nat, k: nat, cnt: nat)
    requires k <= n && cnt > 0
    ensures NoRun(Low(n, k), 0, cnt, false) <==> k + cnt > n
    ensures k + cnt <= n ==> IsFirstRun(Low(n, k), 0, cnt, false, k)
    ensures forall i: nat | IsFirstRun(Low(n, k), 0, cnt, false, i) :: i == k
    ensures k + cnt <= n ==> Filled(Low(n, k), k, cnt, true) == Low(n, k + cnt)
  {
    if k + cnt <= n {
      assert AllAre(Low(n, k), k, cnt, false);
    }
    forall i: nat | AllAre(Low(n, k), i, cnt, false) ensures i >= k {
      assert Low(n, k)[i] == false;
    }
  }

  /** Where formatting puts the two system files on a disk of `n` sectors. */
  function MapFile(n: nat): Inode { Inode(2, FileSize(n)) }

  function RootFile(n: nat): Inode { Inode(2 + SectorCount(FileSize(n)), ROOT_DIR_SIZE) }

  /** The sectors in use after formatting. */
  function SystemSectors(n: nat): nat { 2 + SectorCount(FileSize(n)) + SectorCount(ROOT_DIR_SIZE) }

  /** free_map_init and free_map_create: the map in memory, and its file.  Null stands for the panics. */
  method FreeMapCreate(store: Disk, objects: bool, bounces: bool) returns (freeMap: FreeMap?)
    requires Formatted(store.sectors) && 2 <= |store.sectors| <= 0x1_0000_0000
    modifies store
    ensures Formatted(store.sectors) && |store.sectors| == old(|store.sectors|)
    ensures var n := |store.sectors|;
            freeMap != null <==> objects && 2 + SectorCount(FileSize(n)) <= n && Saves(n, bounces)
    ensures var n := |store.sectors|;
            freeMap != null ==>
              && fresh(freeMap) && fresh(freeMap.bits) && fresh(freeMap.bits.bits) && freeMap.store == store
              && freeMap.Valid() && freeMap.file == Some(MapFile(n))
              && freeMap.Marks() == Low(n, 2 + SectorCount(FileSize(n))) && HeaderOf(store.sectors[0]) == MapFile(n)
  {
    hide Bitmap.Contents, Bitmap.Valid, Data, NoRun, IsFirstRun, Low, Unpack, Saved;
    freeMap := null;
    var n := |store.sectors|;
    var m := new FreeMap(store);
    IsLow(n, m.Marks());
    LowRuns(n, 2, SectorCount(FileSize(n)));
    var ok, f := InodeCreate(m, FREE_MAP_SECTOR, FileSize(n), objects, bounces);
    if ok {
      m.Open(f);
      ghost var d := store.sectors;
      ok := m.Save(bounces);
      assert store.sectors[0] == d[0];
      if ok {
        freeMap := m;
      }
    }
  }

  lemma IsLow(n: nat, marks: seq<bool>)
    requires marks == seq(n, x => x < 2) && n >= 2
    ensures marks == Low(n, 2) && MapKept(marks, None, FREE_MAP_SECTOR)
  {
  }

  /** Formatting keeps the map's file clear of the root directory's header. */
  lemma MapFileKept(n: nat)
    requires 2 + SectorCount(FileSize(n)) <= n
    ensures MapKept(Low(n, 2 + SectorCount(FileSize(n))), Some(MapFile(n)), ROOT_DIR_SECTOR)
  {
  }

  lemma FormattedInv(n: nat)
    requires n >= 2 && SystemSectors(n) <= n
    ensures Inv(TwoFiles(Low(n, SystemSectors(n)), MapFile(n), RootFile(n)))
  {
    var a, b := SectorCount(FileSize(n)), SectorCount(ROOT_DIR_SIZE);
    assert FirstMarks(n) == Low(n, 2);
    LowRuns(n, 2, a);
    LowRuns(n, 2 + a, b);
    FormattedOk(n, MapFile(n), RootFile(n));
  }

  /** dir_create of the root directory: its header is stored and all its slots are free. */
  method RootCreate(freeMap: FreeMap, objects: bool, bounces: bool) returns (ok: bool)
    requires freeMap.Valid() && |freeMap.store.sectors| <= 0x1_0000_0000
    requires var n := |freeMap.store.sectors|;
             && 2 + SectorCount(FileSize(n)) <= n && freeMap.file == Some(MapFile(n))
             && freeMap.Marks() == Low(n, 2 + SectorCount(FileSize(n)))
             && HeaderOf(freeMap.store.sectors[0]) == MapFile(n)
    modifies freeMap.bits.bits, freeMap.store
    ensures freeMap.Valid()
    ensures var n := |freeMap.store.sectors|; ok <==> objects && SystemSectors(n) <= n && Saves(n, bounces)
    ensures var n, d := |freeMap.store.sectors|, freeMap.store.sectors;
            ok ==>
              && freeMap.Marks() == Low(n, SystemSectors(n)) && freeMap.Stored() == freeMap.Marks()
              && HeaderOf(d[0]) == MapFile(n) && HeaderOf(d[1]) == RootFile(n) && OnDisk(d, RootFile(n))
              && Directory.Table(Data(d, RootFile(n))) == NoEntries(RootFile(n))
  {
    hide Bitmap.Contents, Bitmap.Valid, Data, NoRun, IsFirstRun, Low, Unpack, Directory.Table, SameBehind, Saves;
    var store := freeMap.store;
    var n := |store.sectors|;
    MapFileKept(n);
    LowRuns(n, 2 + SectorCount(FileSize(n)), SectorCount(ROOT_DIR_SIZE));
    ghost var d := store.sectors;
    var g;
    ok, g := InodeCreate(freeMap, ROOT_DIR_SECTOR, ROOT_DIR_SIZE, objects, bounces);
    if ok {
      assert store.sectors[0] == d[0];
      LaidReadsZero(store.sectors, ROOT_DIR_SECTOR, g);
      Directory.NewIsEmpty(Data(store.sectors, g));
    }
  }

  /** filesys_init with formatting: free_map_init, do_format and free_map_open.  `objects` is whether every object could
      be allocated, `bounces` every bounce buffer.  Null stands for the panics. */
  method Format(store: Disk, objects: bool, bounces: bool) returns (fs: FileSys?)
    requires Formatted(store.sectors) && 2 <= |store.sectors| <= 0x1_0000_0000
    modifies store
    ensures var n := old(|store.sectors|); fs != null <==> objects && Saves(n, bounces) && SystemSectors(n) <= n
    ensures var n := old(|store.sectors|);
            fs != null ==>
              && fresh(fs) && fresh(fs.freeMap) && fresh(fs.freeMap.bits.bits) && fs.store == store && fs.Valid()
              && fs.State() == TwoFiles(Low(n, SystemSectors(n)), MapFile(n), RootFile(n)) && fs.Synced()
  {
    hide Bitmap.Contents, Bitmap.Valid, Data, Low, Unpack, Inv, Directory.Table, ElemCnt;
    fs := null;
    var n := |store.sectors|;
    var freeMap := FreeMapCreate(store, objects, bounces);
    if freeMap != null {
      var ok := RootCreate(freeMap, objects, bounces);
      if ok {
        freeMap.Open(MapFile(n));
        ok := freeMap.Load(bounces);
        if ok {
          FormattedInv(n);
          fs := new FileSys(freeMap, MapFile(n), RootFile(n));
        }
      }
    }
  }

  /** filesys_init without formatting, up to the free map: free_map_init and free_map_open on a disk whose map was saved
      as `f`.  What was saved is read back. */
  method Mount(store: Disk, ghost f: Inode, objects: bool, bounces: bool) returns (freeMap: FreeMap?)
    requires Formatted(store.sectors) && 2 <= |store.sectors| && HeaderOf(store.sectors[FREE_MAP_SECTOR]) == f
    requires OnDisk(store.sectors, f) && f.length == FileSize(|store.sectors|)
    ensures freeMap != null <==> objects && Saves(|store.sectors|, bounces)
    ensures freeMap != null ==>
              && freeMap.Valid() && freeMap.store == store && freeMap.file == Some(f)
              && freeMap.Marks() == BitsOf(Data(store.sectors, f), |store.sectors|)
  {
    hide Bitmap.Contents, Bitmap.Valid, Data, Unpack;
    freeMap := null;
    if objects {
      var m := new FreeMap(store);
      m.Open(f);
      var ok := m.Load(bounces);
      if ok {
        freeMap := m;
      }
    }
  }

  /** So a file system whose map is saved finds it again. */
  method MountAgain(fs: FileSys, objects: bool, bounces: bool) returns (freeMap: FreeMap?)
    requires fs.Valid() && fs.Synced() && |fs.store.sectors| >= 2
    ensures freeMap != null <==> objects && Saves(fs.freeMap.bits.bitCnt, bounces)
    ensures freeMap != null ==> freeMap.Valid() && freeMap.Marks() == fs.freeMap.Marks()
  {
    hide Bitmap.Contents, Bitmap.Valid, Data, Unpack, Inv;
    freeMap := Mount(fs.store, fs.mapFile, objects, bounces);
  }
}
