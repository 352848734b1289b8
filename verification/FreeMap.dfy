/** The free map (filesys/free-map.c): a bitmap of the disk's sectors, and the file it is saved in on that disk. */
module KernelFreeMap {
  import opened Options
  import opened Powers
  import opened Bits
  import opened Bytes
  import opened KernelBitmap
  import opened InodeIo

  const FREE_MAP_SECTOR: nat := 0
  const ROOT_DIR_SECTOR: nat := 1

  predicate System(s: nat) { s == FREE_MAP_SECTOR || s == ROOT_DIR_SECTOR }

  /** bitmap_file_size: whole 64-bit words. */
  function FileSize(n: nat): nat { WORD * ElemCnt(n) }

  /** How many of `n` bits lie in the whole sectors of the file: those are written without a bounce buffer. */
  function WholeBits(n: nat): (k: nat)
    ensures k <= n
  {
    var k := 8 * (FileSize(n) - FileSize(n) % SECTOR);
    if k < n then k else n
  }

  /** bitmap_write writes everything; `mem` is whether its bounce buffer can be had. */
  predicate Saves(n: nat, mem: bool) { mem || FileSize(n) % SECTOR == 0 }

  lemma SavesAll(n: nat)
    ensures FileSize(n) % SECTOR == 0 <==> WholeBits(n) == n
  {
  }

  /** What the file holds after bitmap_write of `marks`, if it held `was`. */
  ghost function Saved(was: seq<bool>, marks: seq<bool>, mem: bool): (s: seq<bool>)
    requires |was| == |marks|
    ensures |s| == |marks|
  {
    if mem then marks else marks[..WholeBits(|marks|)] + was[WholeBits(|marks|)..]
  }

  /** How many bytes of its file bitmap_write and bitmap_read move. */
  lemma MovedBytes(n: nat, mem: bool)
    ensures Moved(FileSize(n), 0, FileSize(n), mem) == if mem then FileSize(n) else FileSize(n) - FileSize(n) % SECTOR
    ensures Moved(FileSize(n), 0, FileSize(n), mem) == FileSize(n) <==> Saves(n, mem)
  {
  }

  /** The words of what was read of the file: as many as the bitmap needs if it was all. */
  lemma FileWords(b: seq<Byte>, n: nat)
    requires |b| == FileSize(n) || |b| == FileSize(n) - FileSize(n) % SECTOR
    ensures |Words(b)| <= ElemCnt(n) && (|Words(b)| == ElemCnt(n) <==> |b| == FileSize(n))
    ensures forall i | 0 <= i < |Words(b)| :: Words(b)[i] < Pow2(ELEM_BITS)
  {
    WordsWriteBack(b);
  }

  lemma SavedWhole(was: seq<bool>, marks: seq<bool>, mem: bool)
    requires |was| == |marks| && Saves(|marks|, mem)
    ensures Saved(was, marks, mem) == marks
  {
    SavesAll(|marks|);
  }

  /** An allocation undone because the map could not be saved: the file still holds the map exactly if the run lies
      behind the part that was written. */
  lemma ShortAllocation(marks: seq<bool>, idx: nat, cnt: nat)
    requires AllAre(marks, idx, cnt, false) && cnt > 0
    ensures Saved(marks, Filled(marks, idx, cnt, true), false) == marks <==> idx >= WholeBits(|marks|)
  {
    var w, s := WholeBits(|marks|), Saved(marks, Filled(marks, idx, cnt, true), false);
    if idx < w {
      assert s[idx] != marks[idx];
    } else {
      assert s == marks;
    }
  }

  /** `a` and `b` agree behind the whole sectors of the file. */
  ghost predicate SameBehind(a: seq<bool>, b: seq<bool>) {
    |a| == |b| && a[WholeBits(|a|)..] == b[WholeBits(|b|)..]
  }

  lemma SavedBehind(was: seq<bool>, marks: seq<bool>)
    requires |was| == |marks|
    ensures SameBehind(Saved(was, marks, false), was)
  {
  }

  /** What the file lacks of the map can only be behind its whole sectors. */
  lemma SavedIsMap(was: seq<bool>, marks: seq<bool>, mem: bool)
    requires |was| == |marks|
    ensures Saved(was, marks, mem) == marks <==> mem || SameBehind(was, marks)
  {
    var w := WholeBits(|marks|);
    if Saved(was, marks, mem) == marks && !mem {
      assert Saved(was, marks, mem)[w..] == was[w..];
    }
    assert marks == marks[..w] + marks[w..];
  }

  /** Clearing a run that was marked changes nothing behind the whole sectors exactly if it lies within them. */
  lemma ClearedBehind(marks: seq<bool>, idx: nat, cnt: nat)
    requires AllAre(marks, idx, cnt, true)
    ensures SameBehind(marks, Filled(marks, idx, cnt, false)) <==> cnt == 0 || idx + cnt <= WholeBits(|marks|)
  {
    var w, marks', last := WholeBits(|marks|), Filled(marks, idx, cnt, false), idx + cnt - 1;
    if cnt > 0 && idx + cnt > w {
      assert marks[w..][last - w] != marks'[w..][last - w];
    }
  }

  /** One release: the file, which agreed with the map behind its whole sectors, holds the map exactly if it could be
      saved or the run lies within the whole sectors. */
  lemma ReleaseSaved(was: seq<bool>, marks: seq<bool>, idx: nat, cnt: nat, mem: bool)
    requires SameBehind(was, marks) && AllAre(marks, idx, cnt, true)
    ensures Saved(was, Filled(marks, idx, cnt, false), mem) == Filled(marks, idx, cnt, false) <==>
            Saves(|marks|, mem) || cnt == 0 || idx + cnt <= WholeBits(|marks|)
  {
    var marks' := Filled(marks, idx, cnt, false);
    SavedIsMap(was, marks', mem);
    ClearedBehind(marks, idx, cnt);
    SavesAll(|marks|);
  }

  /** Two releases one after the other, from a file that held the map. */
  lemma ReleasesSaved(marks: seq<bool>, s: nat, idx: nat, cnt: nat, mem1: bool, mem2: bool)
    requires AllAre(marks, s, 1, true) && AllAre(Filled(marks, s, 1, false), idx, cnt, true)
    ensures var one := Filled(marks, s, 1, false); var two := Filled(one, idx, cnt, false);
            Saved(Saved(marks, one, mem1), two, mem2) == two <==>
              || Saves(|marks|, mem2)
              || ((Saves(|marks|, mem1) || s < WholeBits(|marks|)) && (cnt == 0 || idx + cnt <= WholeBits(|marks|)))
  {
    var one, w := Filled(marks, s, 1, false), WholeBits(|marks|);
    var two := Filled(one, idx, cnt, false);
    SavesAll(|marks|);
    SavedIsMap(Saved(marks, one, mem1), two, mem2);
    ClearedBehind(marks, s, 1);
    ClearedBehind(one, idx, cnt);
    SavedBehind(marks, one);
    if s >= w && w < |marks| {
      assert marks[w..][s - w] && !two[w..][s - w];
    }
    if cnt > 0 && idx + cnt > w {
      var last := idx + cnt - 1;
      assert one[w..][last - w] && !two[w..][last - w] && marks[w..][last - w];
    }
  }

  /** The bits that the file holds. */
  ghost function BitsOf(data: seq<Byte>, n: nat): (s: seq<bool>)
    requires |data| == FileSize(n)
    ensures |s| == n
  {
    Unpack(Words(data), n)
  }

  /** Bits of words of which the first `k` were replaced. */
  lemma UnpackMixed(a: seq<nat>, b: seq<nat>, n: nat, k: nat)
    requires |a| == |b| == ElemCnt(n) && k <= |a|
    ensures var w := if ELEM_BITS * k < n then ELEM_BITS * k else n;
            Unpack(a[..k] + b[k..], n) == Unpack(a, n)[..w] + Unpack(b, n)[w..]
  {
    var w := if ELEM_BITS * k < n then ELEM_BITS * k else n;
    forall i | 0 <= i < n ensures Unpack(a[..k] + b[k..], n)[i] == (Unpack(a, n)[..w] + Unpack(b, n)[w..])[i] {
      assert i < ELEM_BITS * k <==> ElemIdx(i) < k;
    }
  }

  /** The bytes of the file after a write that moved `moved` bytes, whole sectors or all of them. */
  lemma BitsWritten(ws: seq<nat>, data: seq<Byte>, n: nat, mem: bool, moved: nat)
    requires AreWords(ws) && |ws| == ElemCnt(n) && |data| == FileSize(n)
    requires moved == if mem then FileSize(n) else FileSize(n) - FileSize(n) % SECTOR
    ensures |Flat(ws)| == FileSize(n)
    ensures BitsOf(Flat(ws)[..moved] + data[moved..], n) == Saved(BitsOf(data, n), Unpack(ws, n), mem)
  {
    var k := moved / WORD;
    assert moved == WORD * k;
    WordsWriteBack(data);
    WordsMixed(ws, Words(data), k);
    UnpackMixed(ws, Words(data), n, k);
  }

  class FreeMap {
    const bits: Bitmap
    const store: Disk
    var file: Option<Inode>     // free_map_file

    ghost predicate Valid()
      reads this, bits.bits, store
    {
      && bits.Valid() && Formatted(store.sectors) && |store.sectors| == bits.bitCnt
      && (file.Some? ==> OnDisk(store.sectors, file.value) && file.value.length == FileSize(bits.bitCnt))
    }

    /** The map in memory. */
    ghost function Marks(): (s: seq<bool>)
      requires Valid()
      reads this, bits.bits, store
      ensures |s| == bits.bitCnt
    {
      bits.Contents()
    }

    /** The map as its file has it. */
    ghost function Stored(): (s: seq<bool>)
      requires Valid() && file.Some?
      reads this, bits.bits, store
      ensures |s| == bits.bitCnt
    {
      BitsOf(Data(store.sectors, file.value), bits.bitCnt)
    }

    /** free_map_init. */
    constructor (store: Disk)
      requires Formatted(store.sectors) && |store.sectors| >= 2
      ensures Valid() && fresh(bits) && fresh(bits.bits) && this.store == store && file == None
      ensures Marks() == seq(|store.sectors|, x => x < 2)
    {
      var b := new Bitmap(|store.sectors|);
      b.Mark(FREE_MAP_SECTOR);
      b.Mark(ROOT_DIR_SECTOR);
      bits, this.store, file := b, store, None;
    }

    /** bitmap_write of the map into its file. */
    method Save(mem: bool) returns (ok: bool)
      requires Valid() && file.Some?
      modifies store
      ensures Valid() && ChangedIn(old(store.sectors), store.sectors, Extent(file.value))
      ensures ok == Saves(bits.bitCnt, mem)
      ensures Stored() == Saved(old(Stored()), Marks(), mem)
    {
      hide Rewritten, Data, Unpack, Saved, ChangedIn, Moved, Saves, Pow2, Flat;
      MovedBytes(bits.bitCnt, mem);
      var ws := bits.Write();
      var f, size := file.value, FileSize(bits.bitCnt);
      var bytes := Flat(ws);
      ghost var data := Data(store.sectors, f);
      var n := store.WriteAt(f, bytes, size, 0, mem, false);
      WriteIsFlat(old(store.sectors), f, 0, bytes[..n], store.sectors);
      WriteStaysInside(old(store.sectors), f, 0, bytes[..n], store.sectors);
      assert data[..0] == [];
      assert Data(store.sectors, f) == bytes[..n] + data[n..];
      BitsWritten(ws, data, bits.bitCnt, mem, n);
      ok := n == size;
    }

    /** free_map_allocate: the lowest free run, unless there is none or the map cannot be saved.  `at` is the run that
        was marked, if only for a while. */
    method Allocate(cnt: nat, mem: bool) returns (r: Index, ghost at: nat)
      requires Valid()
      modifies bits.bits, store
      ensures Valid()
      ensures r.Found? <==> !NoRun(old(Marks()), 0, cnt, false) && (file.None? || Saves(bits.bitCnt, mem))
      ensures !NoRun(old(Marks()), 0, cnt, false) ==> IsFirstRun(old(Marks()), 0, cnt, false, at)
      ensures r.Found? ==> r.idx == at && Marks() == Filled(old(Marks()), at, cnt, true)
      ensures r.BitmapError? ==> Marks() == old(Marks())
      ensures file.None? || NoRun(old(Marks()), 0, cnt, false) ==> store.sectors == old(store.sectors)
      ensures file.Some? && !NoRun(old(Marks()), 0, cnt, false) ==>
                && Stored() == Saved(old(Stored()), Filled(old(Marks()), at, cnt, true), mem)
                && (r.Found? ==> Stored() == Marks())
      ensures file.Some? ==> ChangedIn(old(store.sectors), store.sectors, Extent(file.value))
    {
      hide Data, Unpack, Saved, ChangedIn, Bitmap.Contents, Bitmap.Valid;
      ghost var before := Marks();
      UnchangedIn(store.sectors);
      r := bits.ScanAndFlip(0, cnt, false);
      at := if r.Found? then r.idx else 0;
      if r.Found? && file.Some? {
        ghost var was := Stored();
        var ok := Save(mem);
        if ok {
          SavedWhole(was, Marks(), mem);
        } else {
          bits.SetMultiple(r.idx, cnt, false);
          FilledBack(before, r.idx, cnt);
          r := BitmapError;
        }
      }
    }

    /** free_map_release, which does not look whether the map could be saved. */
    method Release(sector: nat, cnt: nat, mem: bool)
      requires Valid() && file.Some? && AllAre(Marks(), sector, cnt, true)
      modifies bits.bits, store
      ensures Valid() && Marks() == Filled(old(Marks()), sector, cnt, false)
      ensures ChangedIn(old(store.sectors), store.sectors, Extent(file.value))
      ensures Stored() == Saved(old(Stored()), Marks(), mem)
    {
      hide Data, Unpack, Saved, ChangedIn;
      bits.SetMultiple(sector, cnt, false);
      var _ := Save(mem);
    }

    /** Opening the file: its inode `f` is what the header in FREE_MAP_SECTOR says. */
    method Open(ghost f: Inode)
      requires Valid() && |store.sectors| > FREE_MAP_SECTOR && HeaderOf(store.sectors[FREE_MAP_SECTOR]) == f
      requires OnDisk(store.sectors, f) && f.length == FileSize(bits.bitCnt)
      modifies this`file
      ensures Valid() && file == Some(f)
    {
      var s := store.Read(FREE_MAP_SECTOR);
      file := Some(HeaderOf(s));
    }

    /** The bitmap_read of free_map_open: the map in memory becomes the stored one, or the kernel panics. */
    method Load(mem: bool) returns (ok: bool)
      requires Valid() && file.Some?
      modifies bits.bits
      ensures Valid() && ok == Saves(bits.bitCnt, mem)
      ensures ok ==> Marks() == Stored() == old(Stored())
    {
      hide Data, Unpack, Moved, Saves, Words, Pow2, ElemCnt, Bit;
      MovedBytes(bits.bitCnt, mem);
      var size := FileSize(bits.bitCnt);
      var bytes := store.ReadAt(file.value, size, 0, mem);
      assert |bytes| == size ==> bytes == Data(store.sectors, file.value);
      FileWords(bytes, bits.bitCnt);
      ghost var was := bits.bits[..];
      ok := bits.Read(Words(bytes));
      if ok {
        assert Words(bytes) + was[|Words(bytes)|..] == Words(bytes);
      }
    }
  }

  lemma FilledBack(s: seq<bool>, start: nat, cnt: nat)
    requires AllAre(s, start, cnt, false)
    ensures Filled(Filled(s, start, cnt, true), start, cnt, false) == s
  {
  }
}
