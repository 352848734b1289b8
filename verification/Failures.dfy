/** Three things that go wrong in filesys_create, each on a disk just formatted: sectors that stay marked, a name that
    is stored twice, and a file that is lost. */
module Failures {
  import opened Bytes
  import opened KernelBitmap
  import opened InodeIo
  import opened KernelFreeMap
  import opened FsState
  import opened FileSystem
  import Directory

  const A: Directory.Name := ['a' as nat]
  const B: Directory.Name := ['b' as nat]

  /** Memory for everything; 16 reads are all slots of the root directory. */
  const ENOUGH := CreateMem(true, true, true, true, true, 16, 16, true, true)

  function Junk(): (e: seq<Byte>)
    ensures |e| == Directory.ENTRY
  {
    seq(Directory.ENTRY, _ => 0)
  }

  /** Header and data sectors are those from `k` on, and no others are marked in addition. */
  ghost predicate TakenFrom(n: nat, k: nat, size: nat, s: nat, f: Inode) {
    && s == k < n && (size > 0 ==> f.start == k + 1) && f.start + SectorCount(size) <= n
    && Filled(Filled(Low(n, k), s, 1, true), f.start, SectorCount(size), true) == Low(n, k + 1 + SectorCount(size))
  }

  /** A creation with the first `k` sectors of `n` in use takes sector `k` and those behind it. */
  lemma LowTakes(n: nat, k: nat, size: nat, mem: CreateMem)
    requires k + 1 + SectorCount(size) <= n && mem.header && mem.headerMap && mem.dataMap
    ensures Takes(Low(n, k), size, mem)
    ensures forall s: nat, f: Inode | TakesLowest(Low(n, k), s, f) && f.length == size ::
              TakenFrom(n, k, size, s, f)
  {
    var cnt := SectorCount(size);
    LowRuns(n, k, 1);
    if cnt > 0 {
      LowRuns(n, k + 1, cnt);
    } else {
      assert AllAre(Low(n, k + 1), 0, 0, false);
    }
    forall s: nat, f: Inode | TakesLowest(Low(n, k), s, f) && f.length == size
      ensures TakenFrom(n, k, size, s, f)
    {
      if cnt == 0 {
        assert Filled(Low(n, k + 1), f.start, 0, true) == Low(n, k + 1);
      }
    }
  }

  /** A new root directory takes an entry in slot 0. */
  lemma EmptyTakes(t: Table, name: Name)
    requires t == seq(16, _ => Directory.Free) && Directory.Allowed(name)
    ensures Directory.CanAdd(t, name, 16, 16, true) && Directory.Target(t, 16) == 0
  {
    assert t[0].Free?;
  }

  lemma SmallDisk(n: nat)
    requires 5 <= n <= 64
    ensures SystemSectors(n) == 4 && NoEntries(RootFile(n)) == seq(16, _ => Directory.Free)
  {
  }

  /** A disk of `n` sectors, formatted, with an empty file "a" in sector 4 and slot 0. */
  method WithA(store: Disk) returns (fs: FileSys)
    requires Formatted(store.sectors) && 5 <= |store.sectors| <= 64
    modifies store
    ensures fresh(fs) && fresh(fs.freeMap) && fresh(fs.freeMap.bits.bits) && fs.store == store && fs.Valid()
    ensures fs.freeMap.Marks() == Low(old(|store.sectors|), 5) && 4 in fs.live && fs.lost == {}
    ensures fs.Root() == seq(16, _ => Directory.Free)[0 := Directory.Used(A, 4)]
  {
    hide Bitmap.Contents, Bitmap.Valid, FreeMap.Valid, Data, Inv, Directory.Table, HeadersStored, Takes, TakesLowest,
         Low, OthersKept, ReadsZero;
    ghost var n := |store.sectors|;
    SmallDisk(n);
    LowTakes(n, 4, 0, ENOUGH);
    EmptyTakes(seq(16, _ => Directory.Free), A);
    var made := Format(store, true, true);
    fs := made;
    var ok, s, f := fs.Create(A, 0, ENOUGH, Junk());
  }

  /** The name "a" is taken, so that creating it with one byte of data fails; the header sector is given back, the data
      sector stays marked. */
  method FailedCreateLeaks(store: Disk) returns (fs: FileSys, ok: bool)
    requires Formatted(store.sectors) && |store.sectors| == 7
    modifies store
    ensures fs.Valid() && !ok && fs.freeMap.Marks() == [true, true, true, true, true, false, true]
    ensures fs.Root() == seq(16, _ => Directory.Free)[0 := Directory.Used(A, 4)]
  {
    hide Bitmap.Contents, Bitmap.Valid, FreeMap.Valid, Data, Inv, Directory.Table, HeadersStored, Takes, TakesLowest,
         OthersKept, ReadsZero;
    fs := WithA(store);
    ghost var t := fs.Root();
    LowTakes(7, 5, 1, ENOUGH);
    assert Directory.Holds(t, 0, A);
    assert !Directory.CanAdd(t, A, 16, 16, true);
    ghost var s, f;
    ok, s, f := fs.Create(A, 1, ENOUGH, Junk());
    assert f.start == 6 && Filled(Low(7, 5), 6, 1, true) == [true, true, true, true, true, false, true];
  }

  /** No read of the lookup finds memory: "a" is stored a second time, and the directory stands for no map. */
  method ShortLookupDuplicates(store: Disk) returns (fs: FileSys, ok: bool)
    requires Formatted(store.sectors) && |store.sectors| == 7
    modifies store
    ensures fs.Valid() && ok && forall m :: !Directory.Represents(fs.Root(), m)
    ensures Directory.Holds(fs.Root(), 0, A) && Directory.Holds(fs.Root(), 1, A)
  {
    hide Bitmap.Contents, Bitmap.Valid, FreeMap.Valid, Data, Inv, Directory.Table, HeadersStored, Takes, TakesLowest,
         OthersKept, ReadsZero, Low;
    fs := WithA(store);
    ghost var t := fs.Root();
    var mem := ENOUGH.(lookups := 0);
    LowTakes(7, 5, 0, mem);
    assert t[0].Used? && t[1].Free?;
    ghost var s, f;
    ok, s, f := fs.Create(A, 0, mem, Junk());
    forall m ensures !Directory.Represents(fs.Root(), m) {
      Directory.PutTwice(t, 0, 1, A, 5, m);
    }
  }

  /** No read of the search for a free slot finds memory: the entry of "a" is overwritten, and its file is lost. */
  method ShortScanLoses(store: Disk) returns (fs: FileSys, ok: bool)
    requires Formatted(store.sectors) && |store.sectors| == 7
    modifies store
    ensures fs.Valid() && ok && Directory.Holds(fs.Root(), 0, B) && fs.lost == {4} && 4 in fs.live
    ensures forall i: nat :: !Directory.Holds(fs.Root(), i, A)
  {
    hide Bitmap.Contents, Bitmap.Valid, FreeMap.Valid, Data, Inv, Directory.Table, HeadersStored, Takes, TakesLowest,
         OthersKept, ReadsZero, Low;
    fs := WithA(store);
    ghost var t := fs.Root();
    var mem := ENOUGH.(scans := 0);
    LowTakes(7, 5, 0, mem);
    assert Directory.Target(t, 0) == 0;
    ghost var s, f;
    ok, s, f := fs.Create(B, 0, mem, Junk());
  }
}
