/** Reading and writing an inode's data sector by sector (filesys/inode.c), against the flat file it stands for. */
module InodeIo {
  import opened Bytes

  const SECTOR: nat := 512

  type Sectors = seq<seq<Byte>>

  /** The two fields of the on-disk inode that place its data. */
  datatype Inode = Inode(start: nat, length: nat)

  predicate Formatted(d: Sectors) { forall i | 0 <= i < |d| :: |d[i]| == SECTOR }

  /** bytes_to_sectors. */
  function SectorCount(length: nat): nat { (length + SECTOR - 1) / SECTOR }

  /** As few sectors as hold that many bytes. */
  lemma SectorCountLeast(length: nat)
    ensures length <= SectorCount(length) * SECTOR < length + SECTOR
  {
  }

  predicate OnDisk(d: Sectors, f: Inode) { Formatted(d) && f.start + SectorCount(f.length) <= |d| }

  /** byte_to_sector, for a position inside the file. */
  function SectorOf(f: Inode, pos: nat): nat { f.start + pos / SECTOR }

  lemma SectorOfInside(d: Sectors, f: Inode, pos: nat)
    requires OnDisk(d, f) && pos < f.length
    ensures SectorOf(f, pos) < |d|
  {
  }

  // ---------- the flat file ----------

  ghost function ByteAt(d: Sectors, f: Inode, pos: nat): Byte
    requires OnDisk(d, f) && pos < f.length
  {
    SectorOfInside(d, f, pos);
    d[SectorOf(f, pos)][pos % SECTOR]
  }

  /** The contents of the file, as one string of bytes. */
  ghost function Data(d: Sectors, f: Inode): (s: seq<Byte>)
    requires OnDisk(d, f)
    ensures |s| == f.length
  {
    seq(f.length, pos requires 0 <= pos < f.length => ByteAt(d, f, pos))
  }

  /** How many bytes a transfer moves when memory is not short. */
  function Count(size: int, offset: nat, length: nat): (n: nat)
  {
    if size <= 0 || offset >= length then 0
    else if size <= length - offset then size
    else length - offset
  }

  /** How many it moves; without a bounce buffer it stops at the first part of a sector. */
  function Moved(size: int, offset: nat, length: nat, bounce: bool): nat {
    var n := Count(size, offset, length);
    if bounce then n else if offset % SECTOR == 0 then n - n % SECTOR else 0
  }

  /** `d` with `data` written at `offset` of the file that starts at sector `start`. */
  ghost predicate Rewritten(d: Sectors, start: nat, offset: nat, data: seq<Byte>, d': Sectors) {
    && Formatted(d) && Formatted(d') && |d'| == |d|
    && forall i, k | 0 <= i < |d| && 0 <= k < SECTOR :: d'[i][k] == NewByte(d, start, offset, data, i, k)
  }

  ghost function NewByte(d: Sectors, start: nat, offset: nat, data: seq<Byte>, i: nat, k: nat): Byte
    requires Formatted(d) && i < |d| && k < SECTOR
  {
    var pos := (i - start) * SECTOR + k;
    if i >= start && offset <= pos < offset + |data| then data[pos - offset] else d[i][k]
  }

  function Zeros(): (s: seq<Byte>)
    ensures |s| == SECTOR && forall k | 0 <= k < SECTOR :: s[k] == 0
  {
    seq(SECTOR, _ => 0)
  }

  /** `d'` is `d` with `cnt` sectors from `start` zeroed. */
  ghost predicate Zeroed(d: Sectors, start: nat, cnt: nat, d': Sectors) {
    && Formatted(d) && Formatted(d') && |d'| == |d|
    && forall i | 0 <= i < |d| :: d'[i] == if start <= i < start + cnt then Zeros() else d[i]
  }

  lemma InsideExtent(f: Inode, pos: nat)
    requires pos < f.length
    ensures f.start <= SectorOf(f, pos) < f.start + SectorCount(f.length)
  {
  }

  // ---------- which sectors differ ----------

  predicate InExtent(f: Inode, i: nat) { f.start <= i < f.start + SectorCount(f.length) }

  /** The data sectors of `f`. */
  ghost function Extent(f: Inode): (x: set<nat>)
    ensures forall i: nat :: i in x <==> InExtent(f, i)
  {
    set i: nat | i < f.start + SectorCount(f.length) && InExtent(f, i)
  }

  /** Sectors outside `x` are the same. */
  ghost predicate ChangedIn(d: Sectors, d': Sectors, x: set<nat>) {
    |d'| == |d| && forall i: nat | i < |d| && i !in x :: d'[i] == d[i]
  }

  lemma UnchangedIn(d: Sectors)
    ensures forall x :: ChangedIn(d, d, x)
  {
  }

  lemma ChangedInThen(d: Sectors, x: set<nat>, d1: Sectors, y: set<nat>, d2: Sectors)
    requires ChangedIn(d, d1, x) && ChangedIn(d1, d2, y)
    ensures ChangedIn(d, d2, x + y)
  {
  }

  lemma ChangedInTwice(d: Sectors, d1: Sectors, x: set<nat>, d2: Sectors)
    requires ChangedIn(d, d1, x) && ChangedIn(d1, d2, x)
    ensures ChangedIn(d, d2, x)
  {
  }

  /** A file none of whose sectors changed has the same data. */
  lemma KeptData(d: Sectors, x: set<nat>, d': Sectors, f: Inode)
    requires OnDisk(d, f) && Formatted(d') && ChangedIn(d, d', x) && Extent(f) !! x
    ensures OnDisk(d', f) && Data(d', f) == Data(d, f)
  {
    forall pos | 0 <= pos < f.length ensures Data(d', f)[pos] == Data(d, f)[pos] {
      SectorOfInside(d, f, pos);
      InsideExtent(f, pos);
      assert SectorOf(f, pos) in Extent(f);
    }
  }

  // ---------- headers ----------

  const INODE_MAGIC: nat := 0x494e_4f44

  /** What fits in the fields of struct inode_disk. */
  predicate Storable(f: Inode) { f.start < 0x1_0000_0000 && f.length < 0x8000_0000 }

  /** The sector that inode_create writes as the header of `f`. */
  function Header(f: Inode): (s: seq<Byte>)
    ensures |s| == SECTOR
  {
    LittleBytes(f.start, 4) + LittleBytes(f.length, 4) + LittleBytes(INODE_MAGIC, 4) + seq(SECTOR - 12, _ => 0)
  }

  /** The inode that inode_open finds in a header sector. */
  function HeaderOf(s: seq<Byte>): Inode
    requires |s| == SECTOR
  {
    Inode(Little(s[..4]), Little(s[4..8]))
  }

  lemma HeaderReadsBack(f: Inode)
    requires Storable(f)
    ensures HeaderOf(Header(f)) == f
  {
    FourBytes();
    LittleReadsBack(f.start, 4);
    LittleReadsBack(f.length, 4);
    assert Header(f)[..4] == LittleBytes(f.start, 4) && Header(f)[4..8] == LittleBytes(f.length, 4);
  }

  // ---------- chunks ----------

  function Min(a: int, b: int): int { if a < b then a else b }

  /** The next chunk: what is left of the request, of the file and of the sector, whichever is least. */
  function Chunk(left: int, ofs: nat, length: nat): int {
    Min(left, Min(length - ofs, SECTOR - ofs % SECTOR))
  }

  predicate Whole(ofs: nat, chunk: int) { ofs % SECTOR == 0 && chunk == SECTOR }

  /** A transfer that has moved `done` bytes so far. */
  predicate Underway(size: int, offset: nat, length: nat, mem: bool, done: nat) {
    && done <= Count(size, offset, length)
    && (done > 0 && !mem ==> offset % SECTOR == 0 && done % SECTOR == 0)
  }

  lemma Begins(size: int, offset: nat, length: nat, mem: bool)
    ensures Underway(size, offset, length, mem, 0)
  {
  }

  lemma GoesOn(size: int, offset: nat, length: nat, mem: bool, done: nat)
    requires Underway(size, offset, length, mem, done)
    requires var chunk := Chunk(size - done, offset + done, length); chunk > 0 && (mem || Whole(offset + done, chunk))
    ensures var chunk := Chunk(size - done, offset + done, length);
            && Underway(size, offset, length, mem, done + chunk)
            && offset + done + chunk <= length && (offset + done) % SECTOR + chunk <= SECTOR
  {
    if !mem {
      SumMultiple(offset, done);
    }
  }

  lemma SumMultiple(a: nat, b: nat)
    requires b > 0 ==> a % SECTOR == 0 && b % SECTOR == 0
    ensures (a + b) % SECTOR == a % SECTOR
    ensures b % SECTOR == 0 ==> (b + SECTOR) % SECTOR == 0
  {
  }

  /** Where it stops, exactly as many bytes have been moved as specified. */
  lemma Stops(size: int, offset: nat, length: nat, mem: bool, done: nat)
    requires Underway(size, offset, length, mem, done)
    requires var chunk := Chunk(size - done, offset + done, length);
             size - done <= 0 || chunk <= 0 || (!mem && !Whole(offset + done, chunk))
    ensures done == Moved(size, offset, length, mem)
  {
    var n := Count(size, offset, length);
    if !mem && offset % SECTOR == 0 {
      SumMultiple(offset, done);
      if done < n {
        assert n - done < SECTOR;
        LastMultiple(n, done);
      }
    }
  }

  lemma LastMultiple(n: nat, m: nat)
    requires m <= n < m + SECTOR && m % SECTOR == 0
    ensures n - n % SECTOR == m
  {
  }

  // ---------- the code ----------

  class Disk {
    var sectors: Sectors

    method Read(i: nat) returns (s: seq<Byte>)
      requires Formatted(sectors) && i < |sectors|
      ensures s == sectors[i] && |s| == SECTOR
    {
      s := sectors[i];
    }

    method Write(i: nat, s: seq<Byte>)
      requires Formatted(sectors) && i < |sectors| && |s| == SECTOR
      modifies this
      ensures sectors == old(sectors)[i := s] && Formatted(sectors)
    {
      sectors := sectors[i := s];
    }

    /** The loop of inode_create that zeroes the data sectors. */
    method Zero(start: nat, cnt: nat)
      requires Formatted(sectors) && start + cnt <= |sectors|
      modifies this
      ensures Zeroed(old(sectors), start, cnt, sectors)
    {
      var i := 0;
      while i < cnt
        invariant 0 <= i <= cnt && Zeroed(old(sectors), start, i, sectors)
      {
        Write(start + i, Zeros());
        i := i + 1;
      }
    }

    /** inode_read_at: `mem` is whether the malloc of the bounce buffer succeeds. */
    method ReadAt(f: Inode, size: int, offset: nat, mem: bool) returns (buffer: seq<Byte>)
      requires OnDisk(sectors, f)
      ensures |buffer| == Moved(size, offset, f.length, mem)
      ensures offset + |buffer| <= f.length ==> buffer == Data(sectors, f)[offset..offset + |buffer|]
      ensures |buffer| > 0 ==> offset + |buffer| <= f.length
    {
      hide Underway, Moved, Data;
      buffer := [];
      Begins(size, offset, f.length, mem);
      var left, ofs := size, offset;
      while left > 0
        invariant ofs == offset + |buffer| && left == size - |buffer|
        invariant Underway(size, offset, f.length, mem, |buffer|)
        invariant ofs <= f.length ==> buffer == Data(sectors, f)[offset..ofs]
        invariant |buffer| > 0 ==> ofs <= f.length
        decreases left
      {
        var chunk := Chunk(left, ofs, f.length);
        if chunk <= 0 || (!Whole(ofs, chunk) && !mem) {
          Stops(size, offset, f.length, mem, |buffer|);
          return;
        }
        GoesOn(size, offset, f.length, mem, |buffer|);
        var more := ReadChunk(f, ofs, chunk);
        buffer := buffer + more;
        left, ofs := left - chunk, ofs + chunk;
      }
      Stops(size, offset, f.length, mem, |buffer|);
    }

    /** One chunk, inside one sector: read whole into the buffer, or copied out of the bounce buffer. */
    method ReadChunk(f: Inode, ofs: nat, chunk: nat) returns (more: seq<Byte>)
      requires OnDisk(sectors, f) && 0 < chunk && ofs + chunk <= f.length && ofs % SECTOR + chunk <= SECTOR
      ensures more == Data(sectors, f)[ofs..ofs + chunk]
    {
      SectorOfInside(sectors, f, ofs);
      var s := Read(SectorOf(f, ofs));
      if ofs % SECTOR == 0 && chunk == SECTOR {
        more := s;
      } else {
        more := s[ofs % SECTOR..ofs % SECTOR + chunk];
      }
      forall i | 0 <= i < chunk ensures more[i] == Data(sectors, f)[ofs + i] {
        SameSector(ofs, i);
      }
    }

    /** inode_write_at: `denied` is whether deny_write_cnt is positive. */
    method WriteAt(f: Inode, data: seq<Byte>, size: int, offset: nat, mem: bool, denied: bool) returns (n: nat)
      requires OnDisk(sectors, f) && size <= |data|
      modifies this
      ensures OnDisk(sectors, f)
      ensures n == if denied then 0 else Moved(size, offset, f.length, mem)
      ensures n <= |data| && Rewritten(old(sectors), f.start, offset, data[..n], sectors)
    {
      hide Rewritten, Underway, Moved;
      n := 0;
      Begins(size, offset, f.length, mem);
      NothingWritten(sectors, f.start, offset);
      assert data[..0] == [];
      if denied {
        return;
      }
      var left, ofs := size, offset;
      while left > 0
        invariant ofs == offset + n && left == size - n && n <= |data| && OnDisk(sectors, f)
        invariant Underway(size, offset, f.length, mem, n)
        invariant Rewritten(old(sectors), f.start, offset, data[..n], sectors)
        decreases left
      {
        var chunk := Chunk(left, ofs, f.length);
        if chunk <= 0 || (!Whole(ofs, chunk) && !mem) {
          Stops(size, offset, f.length, mem, n);
          return;
        }
        GoesOn(size, offset, f.length, mem, n);
        ghost var before := sectors;
        WriteChunk(f, ofs, data[n..n + chunk]);
        WrittenOn(old(sectors), f.start, offset, data[..n], before, data[n..n + chunk], sectors);
        assert data[..n] + data[n..n + chunk] == data[..n + chunk];
        left, ofs, n := left - chunk, ofs + chunk, n + chunk;
      }
      Stops(size, offset, f.length, mem, n);
    }

    /** One chunk, inside one sector: written whole, or merged into the sector in the bounce buffer. */
    method WriteChunk(f: Inode, ofs: nat, bytes: seq<Byte>)
      requires OnDisk(sectors, f)
      requires 0 < |bytes| && ofs + |bytes| <= f.length && ofs % SECTOR + |bytes| <= SECTOR
      modifies this
      ensures OnDisk(sectors, f) && Rewritten(old(sectors), f.start, ofs, bytes, sectors)
    {
      SectorOfInside(sectors, f, ofs);
      var idx, at, chunk := SectorOf(f, ofs), ofs % SECTOR, |bytes|;
      var bounce := bytes;
      if !(at == 0 && chunk == SECTOR) {
        if at > 0 || chunk < SECTOR - at {
          bounce := Read(idx);
        } else {
          assert false;
        }
        bounce := bounce[..at] + bytes + bounce[at + chunk..];
      }
      Write(idx, bounce);
      SectorRewritten(old(sectors), f.start, ofs, bytes, bounce);
    }
  }

  lemma NothingWritten(d: Sectors, start: nat, offset: nat)
    requires Formatted(d)
    ensures Rewritten(d, start, offset, [], d)
  {
  }

  /** One write after another, where the first left off. */
  lemma WrittenOn(d: Sectors, start: nat, offset: nat, x: seq<Byte>, d1: Sectors, y: seq<Byte>, d2: Sectors)
    requires Rewritten(d, start, offset, x, d1) && Rewritten(d1, start, offset + |x|, y, d2)
    ensures Rewritten(d, start, offset, x + y, d2)
  {
    forall i, k | 0 <= i < |d| && 0 <= k < SECTOR ensures d2[i][k] == NewByte(d, start, offset, x + y, i, k) {
      assert d2[i][k] == NewByte(d1, start, offset + |x|, y, i, k);
      assert d1[i][k] == NewByte(d, start, offset, x, i, k);
    }
  }

  /** Bytes merged into one sector. */
  lemma SectorRewritten(d: Sectors, start: nat, ofs: nat, bytes: seq<Byte>, s: seq<Byte>)
    requires Formatted(d) && start + ofs / SECTOR < |d| && ofs % SECTOR + |bytes| <= SECTOR
    requires var was, at := d[start + ofs / SECTOR], ofs % SECTOR; s == was[..at] + bytes + was[at + |bytes|..]
    ensures Rewritten(d, start, ofs, bytes, d[start + ofs / SECTOR := s])
  {
    var idx, at := start + ofs / SECTOR, ofs % SECTOR;
    forall i, k | 0 <= i < |d| && 0 <= k < SECTOR
      ensures d[idx := s][i][k] == NewByte(d, start, ofs, bytes, i, k)
    {
      if i >= start {
        PosInChunk(ofs, |bytes|, i - start, k);
      }
    }
  }

  lemma PosInChunk(ofs: nat, n: nat, q: nat, k: nat)
    requires ofs % SECTOR + n <= SECTOR && k < SECTOR
    ensures ofs <= q * SECTOR + k < ofs + n <==> q == ofs / SECTOR && ofs % SECTOR <= k < ofs % SECTOR + n
  {
  }

  // ---------- what a write means for files ----------

  /** A write replaces exactly the bytes it names in its own file. */
  lemma WriteIsFlat(d: Sectors, f: Inode, offset: nat, data: seq<Byte>, d': Sectors)
    requires OnDisk(d, f) && Rewritten(d, f.start, offset, data, d') && offset + |data| <= f.length
    ensures OnDisk(d', f)
    ensures Data(d', f) == Data(d, f)[..offset] + data + Data(d, f)[offset + |data|..]
  {
    var old', new' := Data(d, f), Data(d', f);
    forall pos | 0 <= pos < f.length ensures new'[pos] == (old'[..offset] + data + old'[offset + |data|..])[pos] {
      SectorOfInside(d, f, pos);
      var i, k := SectorOf(f, pos), pos % SECTOR;
      assert d'[i][k] == NewByte(d, f.start, offset, data, i, k);
      assert (i - f.start) * SECTOR + k == pos;
    }
  }

  /** And touches no sector outside the extent of that file. */
  lemma WriteStaysInside(d: Sectors, f: Inode, offset: nat, data: seq<Byte>, d': Sectors)
    requires OnDisk(d, f) && Rewritten(d, f.start, offset, data, d') && offset + |data| <= f.length
    ensures ChangedIn(d, d', Extent(f))
  {
    forall i: nat | i < |d| && i !in Extent(f) ensures d'[i] == d[i] {
      forall k | 0 <= k < SECTOR ensures d'[i][k] == d[i][k] {
        assert d'[i][k] == NewByte(d, f.start, offset, data, i, k);
      }
    }
  }

  predicate ApartFrom(f: Inode, g: Inode) {
    f.start + SectorCount(f.length) <= g.start || g.start + SectorCount(g.length) <= f.start
  }

  lemma OtherFileUnchanged(d: Sectors, f: Inode, offset: nat, data: seq<Byte>, d': Sectors, g: Inode)
    requires OnDisk(d, f) && OnDisk(d, g) && ApartFrom(f, g)
    requires Rewritten(d, f.start, offset, data, d') && offset + |data| <= f.length
    ensures OnDisk(d', g) && Data(d', g) == Data(d, g)
  {
    WriteStaysInside(d, f, offset, data, d');
    KeptData(d, Extent(f), d', g);
  }

  lemma NothingRewritten(d: Sectors, start: nat, offset: nat, d': Sectors)
    requires Rewritten(d, start, offset, [], d')
    ensures d' == d
  {
    forall i | 0 <= i < |d| ensures d'[i] == d[i] {
      assert forall k | 0 <= k < SECTOR :: d'[i][k] == NewByte(d, start, offset, [], i, k);
    }
  }

  lemma SameSector(ofs: nat, i: nat)
    requires ofs % SECTOR + i < SECTOR
    ensures (ofs + i) / SECTOR == ofs / SECTOR && (ofs + i) % SECTOR == ofs % SECTOR + i
  {
  }
}
