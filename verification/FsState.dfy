/** Which sectors belong to which file, as the file system's operations change it (filesys/inode.c,
    filesys/free-map.c, filesys/filesys.c): the state and its steps, as values. */
module FsState {
  import opened KernelBitmap
  import opened InodeIo
  import opened KernelFreeMap
  import Directory

  type Name = Directory.Name

  type Table = seq<Directory.Entry>

  /** An in-memory inode. */
  datatype OpenInode = OpenInode(sector: nat, openCnt: nat, removed: bool, data: Inode)

  /** `marks` is the free map, `root` the slots of the root directory, `inodes` the list of open inodes.  `handles`
      counts the outstanding opens of each sector, `live` holds the inodes that were created and not yet released,
      and `lost` those among them whose directory entry was overwritten. */
  datatype State = State(
    marks: seq<bool>, root: Table, inodes: seq<OpenInode>, handles: multiset<nat>, live: map<nat, Inode>,
    lost: set<nat>)

  /** Sector `x` is the header or a data sector of inode `f` in sector `s`. */
  predicate Owns(s: nat, f: Inode, x: nat) {
    x == s || f.start <= x < f.start + SectorCount(f.length)
  }

  /** Slot `i` names the inode in sector `s`. */
  predicate Names(root: Table, i: nat, s: nat) {
    i < |root| && root[i].Used? && root[i].sector == s
  }

  ghost predicate Named(root: Table, s: nat) {
    exists i: nat :: Names(root, i, s)
  }

  // ---------- the invariant ----------

  ghost predicate Sound(marks: seq<bool>, s: nat, f: Inode) {
    && s < |marks| && f.start + SectorCount(f.length) <= |marks|
    && (forall x: nat | Owns(s, f, x) :: marks[x])
    && !(f.start <= s < f.start + SectorCount(f.length))
  }

  ghost predicate Marked(st: State) {
    forall s | s in st.live :: Sound(st.marks, s, st.live[s])
  }

  ghost predicate Disjoint(st: State) {
    forall s, t, x: nat | s in st.live && t in st.live && Owns(s, st.live[s], x) && Owns(t, st.live[t], x) :: s == t
  }

  /** Entries name live files, each in one slot only; none names a lost one. */
  ghost predicate NamesOk(st: State) {
    && (forall i: nat, s | Names(st.root, i, s) :: s in st.live && !System(s) && s !in st.lost)
    && (forall i: nat, j: nat, s | Names(st.root, i, s) && Names(st.root, j, s) :: i == j)
  }

  ghost predicate LostOk(st: State) {
    forall s | s in st.lost :: s in st.live && !System(s)
  }

  /** The inode in sector `s` is to be deleted at its last close: its name was removed. */
  ghost predicate Doomed(st: State, s: nat) {
    !Named(st.root, s) && !System(s) && s !in st.lost
  }

  /** One in-memory inode: its count is the outstanding opens, and it is marked removed once its name was removed. */
  ghost predicate OpenOk(st: State, o: OpenInode) {
    && o.sector in st.live && o.data == st.live[o.sector]
    && o.openCnt == st.handles[o.sector] > 0
    && (o.removed <==> Doomed(st, o.sector))
  }

  ghost predicate ListOk(st: State) {
    && (forall i | 0 <= i < |st.inodes| :: OpenOk(st, st.inodes[i]))
    && (forall i, j | 0 <= i < j < |st.inodes| :: st.inodes[i].sector != st.inodes[j].sector)
  }

  ghost predicate IsOpen(st: State, s: nat) {
    exists i | 0 <= i < |st.inodes| :: st.inodes[i].sector == s
  }

  /** Opens are on the list, and a live inode has a name, is a system file, is still open, or is lost. */
  ghost predicate Held(st: State) {
    && (forall s | st.handles[s] > 0 :: IsOpen(st, s))
    && (forall s | s in st.live :: Doomed(st, s) ==> IsOpen(st, s))
  }

  ghost predicate SystemLive(st: State) { FREE_MAP_SECTOR in st.live && ROOT_DIR_SECTOR in st.live }

  ghost predicate Inv(st: State) {
    Marked(st) && Disjoint(st) && NamesOk(st) && LostOk(st) && ListOk(st) && Held(st) && SystemLive(st)
  }

  // ---------- the steps ----------

  /** The inode whose entry is in slot `k`, if any. */
  ghost function InSlot(root: Table, k: nat): set<nat>
    requires k < |root|
  {
    if root[k].Used? then {root[k].sector} else {}
  }

  /** A file created in sector `s` and entered in slot `k`: what that slot named is lost. */
  ghost function Created(st: State, k: nat, name: Name, s: nat, f: Inode): State
    requires s < |st.marks| && f.start + SectorCount(f.length) <= |st.marks| && k < |st.root|
  {
    st.(marks := Filled(Filled(st.marks, s, 1, true), f.start, SectorCount(f.length), true),
        root := Directory.Put(st.root, k, name, s), live := st.live[s := f], lost := st.lost + InSlot(st.root, k))
  }

  /** The sectors of a new file are free. */
  ghost predicate CanCreate(st: State, k: nat, s: nat, f: Inode) {
    k < |st.root| && IsTaken(st.marks, s, f)
  }

  /** Header sector `s` and then the data sectors of `f` were free. */
  ghost predicate IsTaken(marks: seq<bool>, s: nat, f: Inode) {
    && s < |marks| && !marks[s]
    && AllAre(Filled(marks, s, 1, true), f.start, SectorCount(f.length), false)
  }

  lemma FreeIsUnowned(st: State, x: nat)
    requires Marked(st) && x < |st.marks| && !st.marks[x]
    ensures forall s | s in st.live :: !Owns(s, st.live[s], x)
  {
    forall s | s in st.live ensures !Owns(s, st.live[s], x) {
      assert Sound(st.marks, s, st.live[s]);
    }
  }

  /** Every sector of inode `f` in sector `s`. */
  ghost function Owned(s: nat, f: Inode): set<nat> { {s} + Extent(f) }

  /** Files on a disk of `n` sectors do not share any. */
  ghost predicate FilesApart(live: map<nat, Inode>, n: nat) {
    && (forall s | s in live :: s < n && live[s].start + SectorCount(live[s].length) <= n && s !in Extent(live[s]))
    && (forall s, t | s in live && t in live && s != t :: Owned(s, live[s]) !! Owned(t, live[t]))
  }

  lemma InvApart(st: State)
    requires Inv(st)
    ensures FilesApart(st.live, |st.marks|)
  {
    hide ListOk, Held, NamesOk, LostOk;
    forall s | s in st.live ensures Sound(st.marks, s, st.live[s]) {
    }
    forall s, t, x | s in st.live && t in st.live && s != t && x in Owned(s, st.live[s])
      ensures x !in Owned(t, st.live[t])
    {
      assert Owns(s, st.live[s], x);
      assert !Owns(t, st.live[t], x);
    }
  }

  /** Sectors just taken belong to no other file. */
  lemma TakenApart(st: State, s: nat, f: Inode)
    requires Inv(st) && IsTaken(st.marks, s, f)
    ensures s !in st.live && FilesApart(st.live[s := f], |st.marks|)
  {
    InvApart(st);
    forall x: nat | x in Owned(s, f) ensures x < |st.marks| && !st.marks[x] && (x in Extent(f) ==> x != s) {
      FilledAt(st.marks, s, 1, true, x);
    }
    forall t, x | t in st.live && x in Owned(s, f) ensures x !in Owned(t, st.live[t]) {
      FreeIsUnowned(st, x);
      assert !Owns(t, st.live[t], x);
    }
    assert s in Owned(s, f) && (s in st.live ==> s in Owned(s, st.live[s]));
  }

  lemma FilledAt(s: seq<bool>, start: nat, cnt: nat, v: bool, i: nat)
    requires start + cnt <= |s| && i < |s|
    ensures |Filled(s, start, cnt, v)| == |s|
    ensures Filled(s, start, cnt, v)[i] == if start <= i < start + cnt then v else s[i]
  {
  }

  lemma CreatedMark(st: State, k: nat, name: Name, s: nat, f: Inode, x: nat)
    requires CanCreate(st, k, s, f) && x < |st.marks|
    ensures f.start + SectorCount(f.length) <= |st.marks| && |Created(st, k, name, s, f).marks| == |st.marks|
    ensures Created(st, k, name, s, f).marks[x] == (st.marks[x] || Owns(s, f, x))
    ensures Owns(s, f, x) ==> !st.marks[x]
    ensures f.start <= x < f.start + SectorCount(f.length) ==> x != s
  {
    var one := Filled(st.marks, s, 1, true);
    FilledAt(st.marks, s, 1, true, x);
    FilledAt(one, f.start, SectorCount(f.length), true, x);
    if f.start <= x < f.start + SectorCount(f.length) {
      assert one[x] == false;
    }
  }

  lemma CreatedMarked(st: State, k: nat, name: Name, s: nat, f: Inode)
    requires Marked(st) && CanCreate(st, k, s, f)
    ensures f.start + SectorCount(f.length) <= |st.marks| && Marked(Created(st, k, name, s, f))
  {
    CreatedMark(st, k, name, s, f, s);
    var st' := Created(st, k, name, s, f);
    forall t | t in st'.live ensures Sound(st'.marks, t, st'.live[t]) {
      assert t != s ==> Sound(st.marks, t, st.live[t]);
      forall x: nat | Owns(t, st'.live[t], x) ensures x < |st'.marks| && st'.marks[x] {
        CreatedMark(st, k, name, s, f, x);
      }
    }
  }

  lemma CreatedDisjoint(st: State, k: nat, name: Name, s: nat, f: Inode)
    requires Marked(st) && Disjoint(st) && CanCreate(st, k, s, f)
    ensures s !in st.live
    ensures f.start + SectorCount(f.length) <= |st.marks| && Disjoint(Created(st, k, name, s, f))
  {
    FreeIsUnowned(st, s);
    CreatedMark(st, k, name, s, f, s);
    assert s in st.live ==> Owns(s, st.live[s], s);
    forall x: nat, t | Owns(s, f, x) && t in st.live ensures !Owns(t, st.live[t], x) {
      if x < |st.marks| {
        CreatedMark(st, k, name, s, f, x);
        FreeIsUnowned(st, x);
      }
    }
  }

  /** After the entry in slot `k` was replaced. */
  lemma NamesPut(root: Table, k: nat, name: Name, s: nat, i: nat, t: nat)
    requires k < |root|
    ensures Names(Directory.Put(root, k, name, s), i, t) <==> if i == k then t == s else Names(root, i, t)
  {
  }

  /** A file other than the new one is to be deleted after a creation exactly if it was before. */
  lemma DoomedPut(st: State, k: nat, name: Name, s: nat, f: Inode, t: nat)
    requires NamesOk(st) && s < |st.marks| && f.start + SectorCount(f.length) <= |st.marks| && k < |st.root|
    ensures Doomed(Created(st, k, name, s, f), t) <==> t != s && Doomed(st, t)
  {
    var st' := Created(st, k, name, s, f);
    NamesPut(st.root, k, name, s, k, s);
    if Named(st.root, t) {
      var i: nat :| Names(st.root, i, t);
      NamesPut(st.root, k, name, s, i, t);
      assert i == k ==> t in InSlot(st.root, k);
    }
    if Named(st'.root, t) {
      var i: nat :| Names(st'.root, i, t);
      NamesPut(st.root, k, name, s, i, t);
    }
    assert st.root[k].Used? ==> Names(st.root, k, st.root[k].sector);
  }

  lemma CreatedNames(st: State, k: nat, name: Name, s: nat, f: Inode)
    requires NamesOk(st) && LostOk(st) && CanCreate(st, k, s, f) && s !in st.live && !System(s)
    requires f.start + SectorCount(f.length) <= |st.marks|
    ensures NamesOk(Created(st, k, name, s, f)) && LostOk(Created(st, k, name, s, f))
  {
    var st' := Created(st, k, name, s, f);
    assert st.root[k].Used? ==> Names(st.root, k, st.root[k].sector);
    forall i: nat, t ensures Names(st'.root, i, t) <==> if i == k then t == s else Names(st.root, i, t) {
      if t >= 0 {
        NamesPut(st.root, k, name, s, i, t);
      }
    }
  }

  lemma CreatedListOk(st: State, k: nat, name: Name, s: nat, f: Inode)
    requires ListOk(st) && NamesOk(st) && CanCreate(st, k, s, f) && s !in st.live
    requires f.start + SectorCount(f.length) <= |st.marks|
    ensures ListOk(Created(st, k, name, s, f))
  {
    var st' := Created(st, k, name, s, f);
    forall i | 0 <= i < |st.inodes| ensures OpenOk(st', st.inodes[i]) {
      assert OpenOk(st, st.inodes[i]);
      DoomedPut(st, k, name, s, f, st.inodes[i].sector);
    }
  }

  lemma CreatedHeld(st: State, k: nat, name: Name, s: nat, f: Inode)
    requires Held(st) && NamesOk(st) && CanCreate(st, k, s, f)
    requires f.start + SectorCount(f.length) <= |st.marks|
    ensures Held(Created(st, k, name, s, f))
  {
    var st' := Created(st, k, name, s, f);
    assert forall t | IsOpen(st, t) :: IsOpen(st', t);
    forall t | t in st'.live && Doomed(st', t) ensures IsOpen(st', t) {
      DoomedPut(st, k, name, s, f, t);
    }
  }

  /** filesys_create keeps the invariant. */
  lemma CreatedKeeps(st: State, k: nat, name: Name, s: nat, f: Inode)
    requires Inv(st) && CanCreate(st, k, s, f)
    ensures s !in st.live && !System(s)
    ensures f.start + SectorCount(f.length) <= |st.marks| && Inv(Created(st, k, name, s, f))
  {
    hide Marked, Disjoint, NamesOk, LostOk, ListOk, Held;
    CreatedMarked(st, k, name, s, f);
    CreatedDisjoint(st, k, name, s, f);
    CreatedNames(st, k, name, s, f);
    CreatedListOk(st, k, name, s, f);
    CreatedHeld(st, k, name, s, f);
  }

  lemma MoreMarksSound(st: State, marks: seq<bool>)
    requires Marked(st) && |marks| == |st.marks| && forall x | 0 <= x < |marks| && st.marks[x] :: marks[x]
    ensures Marked(st.(marks := marks))
  {
    forall s | s in st.live ensures Sound(marks, s, st.live[s]) {
      assert Sound(st.marks, s, st.live[s]);
    }
  }

  lemma SameButMarks(st: State, marks: seq<bool>)
    ensures var st' := st.(marks := marks);
            && (Disjoint(st) ==> Disjoint(st')) && (NamesOk(st) ==> NamesOk(st')) && (LostOk(st) ==> LostOk(st'))
  {
  }

  /** Marking more sectors: an allocation, whether or not a file comes of it. */
  lemma MoreMarksKeep(st: State, marks: seq<bool>)
    requires Inv(st) && |marks| == |st.marks| && forall x | 0 <= x < |marks| && st.marks[x] :: marks[x]
    ensures Inv(st.(marks := marks))
  {
    hide Marked, Disjoint, NamesOk, LostOk, Named;
    SameButMarks(st, marks);
    MoreMarksSound(st, marks);
    var st' := st.(marks := marks);
    forall i | 0 <= i < |st.inodes| ensures OpenOk(st', st.inodes[i]) {
      assert OpenOk(st, st.inodes[i]);
    }
    assert forall s | IsOpen(st, s) :: IsOpen(st', s);
  }

  // ---------- opening ----------

  /** inode_reopen of the inode at place `k` of the list. */
  ghost function Reopened(st: State, k: nat): State
    requires k < |st.inodes|
  {
    var o := st.inodes[k];
    st.(inodes := st.inodes[k := o.(openCnt := o.openCnt + 1)], handles := st.handles + multiset{o.sector})
  }

  /** inode_open of a sector that is not open yet. */
  ghost function Opened(st: State, s: nat): State
    requires s in st.live
  {
    st.(inodes := [OpenInode(s, 1, false, st.live[s])] + st.inodes, handles := st.handles + multiset{s})
  }

  /** What only concerns the disk and the directory. */
  ghost predicate FilesOk(st: State) {
    Marked(st) && Disjoint(st) && NamesOk(st) && LostOk(st) && SystemLive(st)
  }

  lemma SameFilesOk(st: State, st': State)
    requires FilesOk(st) && st'.marks == st.marks && st'.root == st.root && st'.live == st.live && st'.lost == st.lost
    ensures FilesOk(st')
  {
  }

  lemma ReopenedKeeps(st: State, k: nat)
    requires Inv(st) && k < |st.inodes|
    ensures Inv(Reopened(st, k))
  {
    hide Marked, Disjoint, NamesOk, LostOk, Named;
    SameFilesOk(st, Reopened(st, k));
    var st', s := Reopened(st, k), st.inodes[k].sector;
    forall i | 0 <= i < |st'.inodes| ensures OpenOk(st', st'.inodes[i]) && st'.inodes[i].sector == st.inodes[i].sector {
      assert OpenOk(st, st.inodes[i]);
      assert i != k ==> st.inodes[i].sector != s;
    }
    SameSectorsHeld(st, st', s);
  }

  /** If the list names the same sectors and only `s` may have more opens, everything is still held. */
  lemma SameSectorsHeld(st: State, st': State, s: nat)
    requires Held(st) && st'.root == st.root && st'.live == st.live && st'.lost == st.lost && IsOpen(st', s)
    requires forall t | IsOpen(st, t) :: IsOpen(st', t)
    requires forall t | t != s :: st'.handles[t] <= st.handles[t]
    ensures Held(st')
  {
    forall t | st'.handles[t] > 0 ensures IsOpen(st', t) {
      if t != s {
        assert st'.handles[t] <= st.handles[t];
      }
    }
  }

  lemma OpenedList(st: State, s: nat)
    requires ListOk(st) && Held(st) && s in st.live && !IsOpen(st, s)
    ensures ListOk(Opened(st, s))
  {
    var st' := Opened(st, s);
    assert st.handles[s] == 0;
    forall i | 0 <= i < |st'.inodes| ensures OpenOk(st', st'.inodes[i]) &&
        (i > 0 ==> st'.inodes[i] == st.inodes[i - 1]) {
      if i > 0 {
        assert OpenOk(st, st.inodes[i - 1]) && st.inodes[i - 1].sector != s;
      }
    }
  }

  lemma OpenedHeld(st: State, s: nat)
    requires Held(st) && s in st.live
    ensures Held(Opened(st, s))
  {
    var st' := Opened(st, s);
    forall t | IsOpen(st, t) ensures IsOpen(st', t) {
      var i :| 0 <= i < |st.inodes| && st.inodes[i].sector == t;
      assert st'.inodes[i + 1].sector == t;
    }
    assert st'.inodes[0].sector == s;
    SameSectorsHeld(st, st', s);
  }

  lemma OpenedKeeps(st: State, s: nat)
    requires Inv(st) && s in st.live && !IsOpen(st, s)
    ensures Inv(Opened(st, s))
  {
    hide Marked, Disjoint, NamesOk, LostOk, ListOk, Held;
    SameFilesOk(st, Opened(st, s));
    OpenedList(st, s);
    OpenedHeld(st, s);
  }

  // ---------- removing ----------

  /** dir_remove of the entry in slot `j`, whose inode is open at place `k`. */
  ghost function Unlinked(st: State, j: nat, k: nat): State
    requires j < |st.root| && k < |st.inodes|
  {
    st.(root := st.root[j := Directory.Free], inodes := st.inodes[k := st.inodes[k].(removed := true)])
  }

  lemma NamedLess(st: State, j: nat, s: nat, t: nat)
    requires NamesOk(st) && Names(st.root, j, s)
    ensures Named(st.root[j := Directory.Free], t) <==> t != s && Named(st.root, t)
  {
    var root' := st.root[j := Directory.Free];
    if Named(st.root, t) && t != s {
      var i: nat :| Names(st.root, i, t);
      assert Names(root', i, t);
    }
    if Named(root', t) {
      var i: nat :| Names(root', i, t);
      assert Names(st.root, i, t);
    }
  }

  lemma UnlinkedNames(st: State, j: nat, k: nat)
    requires NamesOk(st) && j < |st.root| && k < |st.inodes|
    ensures NamesOk(Unlinked(st, j, k))
  {
    var st' := Unlinked(st, j, k);
    assert forall i: nat, t | Names(st'.root, i, t) :: Names(st.root, i, t);
  }

  lemma UnlinkedKeeps(st: State, j: nat, k: nat)
    requires Inv(st) && k < |st.inodes| && Names(st.root, j, st.inodes[k].sector)
    ensures Inv(Unlinked(st, j, k)) && Doomed(Unlinked(st, j, k), st.inodes[k].sector)
  {
    var st', s := Unlinked(st, j, k), st.inodes[k].sector;
    UnlinkedNames(st, j, k);
    NamedLess(st, j, s, s);
    forall i | 0 <= i < |st'.inodes| ensures OpenOk(st', st'.inodes[i]) && st'.inodes[i].sector == st.inodes[i].sector {
      assert OpenOk(st, st.inodes[i]);
      assert i != k ==> st.inodes[i].sector != s;
      NamedLess(st, j, s, st.inodes[i].sector);
    }
    forall t | IsOpen(st, t) ensures IsOpen(st', t) {
      var i :| 0 <= i < |st.inodes| && st.inodes[i].sector == t;
      assert st'.inodes[i].sector == t;
    }
    forall t | t in st'.live && Doomed(st', t) ensures IsOpen(st', t) {
      NamedLess(st, j, s, t);
      assert st'.inodes[k].sector == s;
    }
  }

  // ---------- closing ----------

  /** inode_close with other openers left. */
  ghost function Closed(st: State, k: nat): State
    requires k < |st.inodes| && st.inodes[k].openCnt > 1
  {
    var o := st.inodes[k];
    st.(inodes := st.inodes[k := o.(openCnt := o.openCnt - 1)], handles := st.handles - multiset{o.sector})
  }

  /** The free map after the sectors of inode `f` in sector `s` were released. */
  ghost function Released(marks: seq<bool>, s: nat, f: Inode): seq<bool>
    requires s < |marks| && f.start + SectorCount(f.length) <= |marks|
  {
    Filled(Filled(marks, s, 1, false), f.start, SectorCount(f.length), false)
  }

  /** inode_close by the last opener. */
  ghost function ClosedLast(st: State, k: nat): State
    requires k < |st.inodes|
    requires st.inodes[k].sector < |st.marks| &&
             st.inodes[k].data.start + SectorCount(st.inodes[k].data.length) <= |st.marks|
  {
    var o := st.inodes[k];
    var st' := st.(inodes := st.inodes[..k] + st.inodes[k + 1..], handles := st.handles - multiset{o.sector});
    if o.removed then st'.(marks := Released(st.marks, o.sector, o.data), live := st.live - {o.sector}) else st'
  }

  lemma ClosedList(st: State, k: nat)
    requires ListOk(st) && k < |st.inodes| && st.inodes[k].openCnt > 1
    ensures ListOk(Closed(st, k))
  {
    var st', s := Closed(st, k), st.inodes[k].sector;
    forall i | 0 <= i < |st'.inodes| ensures OpenOk(st', st'.inodes[i]) && st'.inodes[i].sector == st.inodes[i].sector {
      assert OpenOk(st, st.inodes[i]);
      assert i != k ==> st.inodes[i].sector != s;
    }
  }

  lemma ClosedHeld(st: State, k: nat)
    requires Held(st) && k < |st.inodes| && st.inodes[k].openCnt > 1
    ensures Held(Closed(st, k))
  {
    var st' := Closed(st, k);
    forall t | IsOpen(st, t) ensures IsOpen(st', t) {
      var i :| 0 <= i < |st.inodes| && st.inodes[i].sector == t;
      assert st'.inodes[i].sector == t;
    }
    assert st'.inodes[k].sector == st.inodes[k].sector;
    SameSectorsHeld(st, st', st.inodes[k].sector);
  }

  lemma ClosedKeeps(st: State, k: nat)
    requires Inv(st) && k < |st.inodes| && st.inodes[k].openCnt > 1
    ensures Inv(Closed(st, k))
  {
    hide Marked, Disjoint, NamesOk, LostOk, ListOk, Held;
    SameFilesOk(st, Closed(st, k));
    ClosedList(st, k);
    ClosedHeld(st, k);
  }

  /** A release clears the sectors of that inode and no others. */
  lemma ReleasedAt(marks: seq<bool>, s: nat, f: Inode, x: nat)
    requires s < |marks| && f.start + SectorCount(f.length) <= |marks| && x < |marks|
    ensures |Released(marks, s, f)| == |marks|
    ensures Released(marks, s, f)[x] == (marks[x] && !Owns(s, f, x))
  {
    FilledAt(marks, s, 1, false, x);
    FilledAt(Filled(marks, s, 1, false), f.start, SectorCount(f.length), false, x);
  }

  ghost predicate LastOpener(st: State, k: nat) {
    k < |st.inodes| && st.inodes[k].openCnt == 1
  }

  lemma LastIsSound(st: State, k: nat)
    requires Marked(st) && ListOk(st) && k < |st.inodes|
    ensures Sound(st.marks, st.inodes[k].sector, st.inodes[k].data)
  {
    assert OpenOk(st, st.inodes[k]);
  }

  lemma ClosedLastMarked(st: State, k: nat)
    requires Inv(st) && LastOpener(st, k) && st.inodes[k].removed &&
             Sound(st.marks, st.inodes[k].sector, st.inodes[k].data)
    ensures Marked(ClosedLast(st, k))
  {
    var st', s, f := ClosedLast(st, k), st.inodes[k].sector, st.inodes[k].data;
    assert OpenOk(st, st.inodes[k]);
    ReleasedAt(st.marks, s, f, s);
    forall t | t in st'.live ensures Sound(st'.marks, t, st'.live[t]) {
      assert Sound(st.marks, t, st.live[t]);
      forall x: nat | Owns(t, st.live[t], x) ensures st'.marks[x] {
        ReleasedAt(st.marks, s, f, x);
      }
    }
  }

  lemma ClosedLastList(st: State, k: nat)
    requires Inv(st) && LastOpener(st, k) && Sound(st.marks, st.inodes[k].sector, st.inodes[k].data)
    ensures ListOk(ClosedLast(st, k))
  {
    var st', s := ClosedLast(st, k), st.inodes[k].sector;
    forall i | 0 <= i < |st'.inodes|
      ensures OpenOk(st', st'.inodes[i]) && st'.inodes[i] == st.inodes[if i < k then i else i + 1]
    {
      var j := if i < k then i else i + 1;
      assert st'.inodes[i] == st.inodes[j];
      assert OpenOk(st, st.inodes[j]) && st.inodes[j].sector != s;
    }
  }

  lemma OthersStillOpen(st: State, k: nat, t: nat)
    requires k < |st.inodes| && t != st.inodes[k].sector && IsOpen(st, t)
    requires Sound(st.marks, st.inodes[k].sector, st.inodes[k].data)
    ensures IsOpen(ClosedLast(st, k), t)
  {
    var i :| 0 <= i < |st.inodes| && st.inodes[i].sector == t;
    assert ClosedLast(st, k).inodes[if i < k then i else i - 1] == st.inodes[i];
  }

  lemma ClosedLastHeld(st: State, k: nat)
    requires ListOk(st) && Held(st) && LastOpener(st, k) && Sound(st.marks, st.inodes[k].sector, st.inodes[k].data)
    ensures Held(ClosedLast(st, k))
  {
    var st', s := ClosedLast(st, k), st.inodes[k].sector;
    assert OpenOk(st, st.inodes[k]);
    forall t | st'.handles[t] > 0 ensures IsOpen(st', t) {
      assert t != s && st.handles[t] > 0;
      OthersStillOpen(st, k, t);
    }
    forall t | t in st'.live && Doomed(st', t) ensures IsOpen(st', t) {
      assert Doomed(st, t);
      OthersStillOpen(st, k, t);
    }
  }

  /** inode_close by the last opener keeps the invariant; a removed inode is released then. */
  lemma ClosedLastKeeps(st: State, k: nat)
    requires Inv(st) && LastOpener(st, k) && Sound(st.marks, st.inodes[k].sector, st.inodes[k].data)
    ensures Inv(ClosedLast(st, k))
  {
    var s := st.inodes[k].sector;
    assert OpenOk(st, st.inodes[k]);
    ClosedLastList(st, k);
    ClosedLastHeld(st, k);
    if st.inodes[k].removed {
      ClosedLastMarked(st, k);
      assert forall i: nat :: !Names(st.root, i, s);
    }
  }

  /** inode_close of the inode at place `k`. */
  ghost function ClosedAt(st: State, k: nat): State
    requires k < |st.inodes| && Sound(st.marks, st.inodes[k].sector, st.inodes[k].data)
  {
    if st.inodes[k].openCnt > 1 then Closed(st, k) else ClosedLast(st, k)
  }

  lemma ClosedAtKeeps(st: State, k: nat)
    requires Inv(st) && k < |st.inodes|
    ensures Sound(st.marks, st.inodes[k].sector, st.inodes[k].data) && Inv(ClosedAt(st, k))
  {
    LastIsSound(st, k);
    assert OpenOk(st, st.inodes[k]);
    if st.inodes[k].openCnt > 1 {
      ClosedKeeps(st, k);
    } else {
      ClosedLastKeeps(st, k);
    }
  }

  /** `marks'` is `marks` with the sectors of one inode, all marked before, cleared. */
  ghost predicate IsReleased(marks: seq<bool>, marks': seq<bool>, s: nat, f: Inode) {
    && |marks'| == |marks| && Sound(marks, s, f)
    && forall x: nat | x < |marks| :: marks'[x] == (marks[x] && !Owns(s, f, x))
  }

  /** A close releases the inode's sectors exactly when it is the last and the inode's name was removed. */
  lemma ClosedAtReleases(st: State, k: nat)
    requires Inv(st) && k < |st.inodes| && Sound(st.marks, st.inodes[k].sector, st.inodes[k].data)
    ensures var s, st' := st.inodes[k].sector, ClosedAt(st, k);
            var gone := st.handles[s] == 1 && Doomed(st, s);
            && s in st.live && st'.live == st.live - (if gone then {s} else {})
            && if gone then IsReleased(st.marks, st'.marks, s, st.live[s]) else st'.marks == st.marks
  {
    var o := st.inodes[k];
    assert OpenOk(st, o);
    if st.handles[o.sector] == 1 && o.removed {
      forall x: nat | x < |st.marks|
        ensures |Released(st.marks, o.sector, o.data)| == |st.marks|
        ensures Released(st.marks, o.sector, o.data)[x] == (st.marks[x] && !Owns(o.sector, o.data, x))
      {
        ReleasedAt(st.marks, o.sector, o.data, x);
      }
      ReleasedAt(st.marks, o.sector, o.data, o.sector);
    }
  }

  // ---------- runs ----------

  /** `Make` is a successful filesys_create that writes slot `slot`, `Waste` the marks a failed one leaves behind,
      `OpenNew` and `OpenMore` are opens, `Drop` the removal of an entry whose inode is open, `Close` one
      inode_close. */
  datatype Event =
    | Make(slot: nat, name: Name, s: nat, f: Inode) | Waste(marks: seq<bool>)
    | OpenNew(sector: nat) | OpenMore(k: nat) | Drop(gone: nat, at: nat) | Close(place: nat)

  ghost predicate Enabled(st: State, e: Event) {
    match e
    case Make(slot, name, s, f) => CanCreate(st, slot, s, f) && f.start + SectorCount(f.length) <= |st.marks|
    case Waste(marks) => |marks| == |st.marks| && forall x | 0 <= x < |marks| && st.marks[x] :: marks[x]
    case OpenNew(sector) => sector in st.live && !IsOpen(st, sector)
    case OpenMore(k) => k < |st.inodes|
    case Drop(gone, at) => at < |st.inodes| && Names(st.root, gone, st.inodes[at].sector)
    case Close(place) =>
      place < |st.inodes| && Sound(st.marks, st.inodes[place].sector, st.inodes[place].data)
  }

  ghost function Step(st: State, e: Event): State
    requires Enabled(st, e)
  {
    match e
    case Make(slot, name, s, f) => Created(st, slot, name, s, f)
    case Waste(marks) => st.(marks := marks)
    case OpenNew(sector) => Opened(st, sector)
    case OpenMore(k) => Reopened(st, k)
    case Drop(gone, at) => Unlinked(st, gone, at)
    case Close(place) => ClosedAt(st, place)
  }

  lemma StepKeeps(st: State, e: Event)
    requires Inv(st) && Enabled(st, e)
    ensures Inv(Step(st, e))
  {
    if e.Make? {
      CreatedKeeps(st, e.slot, e.name, e.s, e.f);
    } else if e.Waste? {
      MoreMarksKeep(st, e.marks);
    } else if e.OpenNew? {
      OpenedKeeps(st, e.sector);
    } else if e.OpenMore? {
      ReopenedKeeps(st, e.k);
    } else if e.Drop? {
      UnlinkedKeeps(st, e.gone, e.at);
    } else {
      ClosedAtKeeps(st, e.place);
    }
  }

  // ---------- formatting ----------

  /** free_map_init: only the two system sectors are marked. */
  ghost function FirstMarks(n: nat): (marks: seq<bool>)
    requires n >= 2
    ensures |marks| == n && forall x: nat | x < n :: marks[x] == System(x)
  {
    seq(n, x => x == FREE_MAP_SECTOR || x == ROOT_DIR_SECTOR)
  }

  /** Taking free sectors marks exactly those. */
  lemma TakenAt(marks: seq<bool>, f: Inode, x: nat)
    requires AllAre(marks, f.start, SectorCount(f.length), false) && x < |marks|
    ensures |Filled(marks, f.start, SectorCount(f.length), true)| == |marks|
    ensures Filled(marks, f.start, SectorCount(f.length), true)[x] ==
            (marks[x] || f.start <= x < f.start + SectorCount(f.length))
    ensures f.start <= x < f.start + SectorCount(f.length) ==> !marks[x]
  {
    FilledAt(marks, f.start, SectorCount(f.length), true, x);
  }

  /** Sectors taken for a system file from a map in which its header is marked. */
  lemma TakenIsSound(marks: seq<bool>, s: nat, f: Inode, marks': seq<bool>)
    requires s < |marks| && marks[s] && AllAre(marks, f.start, SectorCount(f.length), false)
    requires |marks'| == |marks|
    requires forall x: nat | x < |marks| && (marks[x] || f.start <= x < f.start + SectorCount(f.length)) :: marks'[x]
    ensures Sound(marks', s, f)
  {
  }

  /** The state that do_format and free_map_open leave: the sectors of the free map's file and of the root
      directory have been taken one after the other from the first map, and the free map's file is open. */
  lemma FormattedOk(n: nat, freeMap: Inode, rootDir: Inode)
    requires n >= 2 && AllAre(FirstMarks(n), freeMap.start, SectorCount(freeMap.length), false)
    requires AllAre(Filled(FirstMarks(n), freeMap.start, SectorCount(freeMap.length), true),
                    rootDir.start, SectorCount(rootDir.length), false)
    ensures Inv(FormattedState(n, freeMap, rootDir))
  {
    var m0 := FirstMarks(n);
    var m1 := Filled(m0, freeMap.start, SectorCount(freeMap.length), true);
    var m2 := Filled(m1, rootDir.start, SectorCount(rootDir.length), true);
    forall x: nat | x < n
      ensures |m1| == n && m1[x] == (m0[x] || freeMap.start <= x < freeMap.start + SectorCount(freeMap.length))
      ensures |m2| == n && m2[x] == (m1[x] || rootDir.start <= x < rootDir.start + SectorCount(rootDir.length))
      ensures freeMap.start <= x < freeMap.start + SectorCount(freeMap.length) ==> !m0[x]
      ensures rootDir.start <= x < rootDir.start + SectorCount(rootDir.length) ==> !m1[x]
    {
      TakenAt(m0, freeMap, x);
      TakenAt(m1, rootDir, x);
    }
    TakenIsSound(m0, FREE_MAP_SECTOR, freeMap, m2);
    TakenIsSound(m1, ROOT_DIR_SECTOR, rootDir, m2);
    SystemFilesOk(m2, freeMap, rootDir);
  }

  ghost function FormattedState(n: nat, freeMap: Inode, rootDir: Inode): State
    requires n >= 2 && freeMap.start + SectorCount(freeMap.length) <= n &&
             rootDir.start + SectorCount(rootDir.length) <= n
  {
    var m1 := Filled(FirstMarks(n), freeMap.start, SectorCount(freeMap.length), true);
    TwoFiles(Filled(m1, rootDir.start, SectorCount(rootDir.length), true), freeMap, rootDir)
  }

  /** The slots of a new directory. */
  ghost function NoEntries(dir: Inode): Table { seq(dir.length / Directory.ENTRY, _ => Directory.Free) }

  /** Two system files and no others, the free map's own file open. */
  ghost function TwoFiles(marks: seq<bool>, freeMap: Inode, rootDir: Inode): State {
    var files := map[FREE_MAP_SECTOR := freeMap, ROOT_DIR_SECTOR := rootDir];
    State(marks, NoEntries(rootDir), [OpenInode(FREE_MAP_SECTOR, 1, false, freeMap)], multiset{FREE_MAP_SECTOR}, files,
          {})
  }

  lemma SystemFilesOk(marks: seq<bool>, freeMap: Inode, rootDir: Inode)
    requires Sound(marks, FREE_MAP_SECTOR, freeMap) && Sound(marks, ROOT_DIR_SECTOR, rootDir)
    requires forall x: nat :: !(Owns(FREE_MAP_SECTOR, freeMap, x) && Owns(ROOT_DIR_SECTOR, rootDir, x))
    ensures Inv(TwoFiles(marks, freeMap, rootDir))
  {
    var st := TwoFiles(marks, freeMap, rootDir);
    assert st.inodes[0].sector == FREE_MAP_SECTOR;
    assert IsOpen(st, FREE_MAP_SECTOR);
  }

  // ---------- failed creations ----------

  /** The free map can give a header sector and then `cnt` data sectors. */
  ghost predicate TakesBoth(marks: seq<bool>, cnt: nat) {
    exists s: nat :: IsFirstRun(marks, 0, 1, false, s) && !NoRun(Filled(marks, s, 1, true), 0, cnt, false)
  }

  /** The free map when a creation has taken header sector `s` and `cnt` data sectors, and gives `s` back. */
  ghost function AfterFailure(marks: seq<bool>, s: nat, start: nat, cnt: nat): seq<bool>
    requires s < |marks| && start + cnt <= |marks|
  {
    Filled(Filled(Filled(marks, s, 1, true), start, cnt, true), s, 1, false)
  }

  /** What is left marked are exactly the data sectors, so the map is as before only if there are none. */
  lemma FailureLeaks(marks: seq<bool>, s: nat, start: nat, cnt: nat)
    requires s < |marks| && !marks[s] && AllAre(Filled(marks, s, 1, true), start, cnt, false)
    ensures AllAre(marks, start, cnt, false)
    ensures AfterFailure(marks, s, start, cnt) == Filled(marks, start, cnt, true)
    ensures AfterFailure(marks, s, start, cnt) == marks <==> cnt == 0
  {
    var one := Filled(marks, s, 1, true);
    var two := Filled(one, start, cnt, true);
    forall x: nat | x < |marks|
      ensures |one| == |two| == |marks|
      ensures AfterFailure(marks, s, start, cnt)[x] == Filled(marks, start, cnt, true)[x]
      ensures start <= x < start + cnt ==> !marks[x] && Filled(marks, start, cnt, true)[x]
    {
      FilledAt(marks, s, 1, true, x);
      FilledAt(one, start, cnt, true, x);
      FilledAt(two, s, 1, false, x);
      FilledAt(marks, start, cnt, true, x);
      assert start <= x < start + cnt ==> one[x] == false;
    }
    if cnt > 0 {
      FilledAt(marks, start, cnt, true, start);
    }
  }

  // ---------- whole runs ----------

  /** A live inode ends at one kind of step only: the last close, after its name was removed; that step clears exactly
      its sectors. */
  lemma EndsAtLastClose(st: State, e: Event, s: nat)
    requires Inv(st) && Enabled(st, e) && s in st.live && s !in Step(st, e).live
    ensures e.Close? && st.inodes[e.place].sector == s && st.handles[s] == 1 && Doomed(st, s)
    ensures IsReleased(st.marks, Step(st, e).marks, s, st.live[s])
  {
    if e.Close? {
      ClosedAtReleases(st, e.place);
    }
  }

  ghost predicate Run(st: State, r: seq<Event>, st': State)
    decreases r
  {
    if r == [] then st == st' else Enabled(st, r[0]) && Run(Step(st, r[0]), r[1..], st')
  }

  /** Over every run: sectors of live inodes are marked and disjoint, there is one in-memory inode for each open
      sector, and its count is the number of outstanding opens. */
  lemma {:induction false} RunKeeps(st: State, r: seq<Event>, st': State)
    requires Inv(st) && Run(st, r, st')
    ensures Inv(st')
    decreases r
  {
    if r != [] {
      StepKeeps(st, r[0]);
      RunKeeps(Step(st, r[0]), r[1..], st');
    }
  }

  /** A step loses a file exactly if it is a creation that writes a slot in use. */
  lemma StepLoses(st: State, e: Event)
    requires Inv(st) && Enabled(st, e)
    ensures st.lost <= Step(st, e).lost
    ensures Step(st, e).lost == st.lost <==> (e.Make? ==> st.root[e.slot].Free?)
  {
    if e.Make? && st.root[e.slot].Used? {
      assert Names(st.root, e.slot, st.root[e.slot].sector);
    }
  }

  /** Every creation of the run wrote a free slot. */
  ghost predicate WroteFree(st: State, r: seq<Event>)
    decreases r
  {
    r == [] || (Enabled(st, r[0]) && (r[0].Make? ==> st.root[r[0].slot].Free?) && WroteFree(Step(st, r[0]), r[1..]))
  }

  /** A run loses no file exactly if every creation in it wrote a free slot. */
  lemma {:induction false} RunLoses(st: State, r: seq<Event>, st': State)
    requires Inv(st) && Run(st, r, st')
    ensures st.lost <= st'.lost
    ensures st'.lost == st.lost <==> WroteFree(st, r)
    decreases r
  {
    if r != [] {
      StepKeeps(st, r[0]);
      StepLoses(st, r[0]);
      RunLoses(Step(st, r[0]), r[1..], st');
    }
  }

  /** What is lost stays lost: no run releases its sectors. */
  lemma LostForever(st: State, r: seq<Event>, st': State, s: nat)
    requires Inv(st) && Run(st, r, st') && s in st.lost
    ensures s in st'.lost && s in st'.live && !Named(st'.root, s) && Sound(st'.marks, s, st'.live[s])
  {
    RunKeeps(st, r, st');
    RunLoses(st, r, st');
  }

  // ---------- unique names ----------

  ghost predicate Distinct(root: Table) {
    forall i: nat, j: nat, n | Directory.Holds(root, i, n) && Directory.Holds(root, j, n) :: i == j
  }

  /** Names stay unique at a step exactly if it does not enter a name that another slot holds. */
  lemma StepDistinct(st: State, e: Event)
    requires Distinct(st.root) && Enabled(st, e)
    ensures Distinct(Step(st, e).root) <==>
            (e.Make? ==> forall j: nat | j != e.slot :: !Directory.Holds(st.root, j, e.name))
  {
    if e.Make? {
      var root' := Step(st, e).root;
      forall i: nat, n
        ensures Directory.Holds(root', i, n) <==> if i == e.slot then n == e.name else Directory.Holds(st.root, i, n)
      {
        Directory.HoldsPut(st.root, e.slot, e.name, e.s, i, n);
      }
      assert Directory.Holds(root', e.slot, e.name);
    } else if e.Drop? {
      var root' := Step(st, e).root;
      assert forall i: nat, n | Directory.Holds(root', i, n) :: Directory.Holds(st.root, i, n);
    }
  }
}
