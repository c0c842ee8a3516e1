/**
 The life of files in filesys/filesys.c, directory.c, inode.c and free-map.c: which sectors
 belong to which inode while files are created, opened, removed and closed.

 The root directory is its sequence of entries.  Allocations of kernel memory and writes
 of the free map's file may fail at any time: `Luck` says which of them succeed.
 */
module FileSys {
  import opened Base
  import opened Bitmaps

  const FREE_MAP_SECTOR := 0
  const ROOT_DIR_SECTOR := 1
  const NAME_MAX := 14
  const ENTRY_SIZE := 20

  /** `struct inode_disk` */
  datatype DiskInode = DiskInode(start: nat, length: nat)

  /** `struct dir_entry` */
  datatype Entry = Entry(inUse: bool, name: string, sector: nat)

  /** `struct inode`, an inode in memory. */
  datatype OpenInode = OpenInode(sector: nat, openCnt: nat, removed: bool, data: DiskInode)

  /** The free map, the inodes on disk by header sector, the root directory, and the list of
      open inodes. */
  datatype Fs = Fs(free: seq<bool>, disk: map<nat, DiskInode>, entries: seq<Entry>, open: seq<OpenInode>)

  datatype Luck =
    Luck(dirOk: bool, headerWrite: bool, callocOk: bool, dataWrite: bool, inodeOk: bool, fileOk: bool)

  /** `bytes_to_sectors` */
  function Sectors(length: nat): nat {
    (length + SECTOR_SIZE - 1) / SECTOR_SIZE
  }

  predicate Owns(d: DiskInode, s: nat) {
    d.start <= s < d.start + Sectors(d.length)
  }

  // ---------- invariant ----------

  ghost predicate Listed(fs: Fs, h: nat) {
    exists i :: 0 <= i < |fs.entries| && fs.entries[i].inUse && fs.entries[i].sector == h
  }

  ghost predicate Opened(fs: Fs, h: nat) {
    exists k :: 0 <= k < |fs.open| && fs.open[k].sector == h
  }

  /** The inode with header `h` is in the directory, is open, or is one of the two that the
      file system keeps for itself. */
  ghost predicate Live(fs: Fs, h: nat) {
    h == FREE_MAP_SECTOR || h == ROOT_DIR_SECTOR || Listed(fs, h) || Opened(fs, h)
  }

  /** Header and data of inode `d` at `h` are marked in the free map and are apart. */
  ghost predicate Marked(free: seq<bool>, h: nat, d: DiskInode) {
    && h < |free| && free[h] && !Owns(d, h) && d.start + Sectors(d.length) <= |free|
    && forall s: nat {:trigger free[s]} :: Owns(d, s) ==> free[s]
  }

  /** Two inodes have no sector in common. */
  ghost predicate Apart(g: nat, d: DiskInode, h: nat, e: DiskInode) {
    && g != h && !Owns(d, h) && !Owns(e, g)
    && forall s: nat {:trigger Owns(d, s), Owns(e, s)} :: !(Owns(d, s) && Owns(e, s))
  }

  ghost predicate HeaderOk(fs: Fs, h: nat) {
    h in fs.disk && Marked(fs.free, h, fs.disk[h])
  }

  ghost predicate PairOk(fs: Fs, g: nat, h: nat) {
    g in fs.disk && h in fs.disk && Apart(g, fs.disk[g], h, fs.disk[h])
  }

  ghost predicate OpenOk(fs: Fs, k: nat)
    requires k < |fs.open|
  {
    var o := fs.open[k];
    && o.openCnt > 0 && o.sector in fs.disk && o.data == fs.disk[o.sector]
    && (o.removed ==> !Listed(fs, o.sector) && o.sector != FREE_MAP_SECTOR && o.sector != ROOT_DIR_SECTOR)
  }

  predicate OpenApart(fs: Fs, k: nat, l: nat)
    requires k < |fs.open| && l < |fs.open|
  {
    fs.open[k].sector != fs.open[l].sector
  }

  predicate EntryOk(e: Entry) {
    e.inUse ==> e.sector != FREE_MAP_SECTOR && e.sector != ROOT_DIR_SECTOR && 0 < |e.name| <= NAME_MAX
  }

  predicate EntriesApart(d: Entry, e: Entry) {
    d.inUse && e.inUse ==> d.sector != e.sector && d.name != e.name
  }

  /** Live inodes are marked in the free map and have no sector in common. */
  ghost predicate Headers(fs: Fs) {
    && (forall h {:trigger HeaderOk(fs, h)} :: Live(fs, h) ==> HeaderOk(fs, h))
    && (forall g, h {:trigger PairOk(fs, g, h)} :: Live(fs, g) && Live(fs, h) && g != h ==> PairOk(fs, g, h))
  }

  /** There is one inode in memory per open sector. */
  ghost predicate OpenList(fs: Fs) {
    && (forall k {:trigger OpenOk(fs, k)} :: 0 <= k < |fs.open| ==> OpenOk(fs, k))
    && (forall k, l {:trigger OpenApart(fs, k, l)} :: 0 <= k < l < |fs.open| ==> OpenApart(fs, k, l))
  }

  /** Names and inodes of directory entries are their own. */
  ghost predicate Directory(entries: seq<Entry>) {
    && (forall i :: 0 <= i < |entries| ==> EntryOk(entries[i]))
    && (forall i, j :: 0 <= i < j < |entries| ==> EntriesApart(entries[i], entries[j]))
  }

  ghost predicate Inv(fs: Fs) {
    Headers(fs) && OpenList(fs) && Directory(fs.entries)
  }

  /** With no inode more, and with the live ones as they were, headers stay in order. */
  lemma HeadersSub(fs: Fs, fs': Fs)
    requires Headers(fs)
    requires forall h {:trigger Live(fs', h)} :: Live(fs', h) ==>
               && Live(fs, h) && h in fs'.disk && h in fs.disk
               && fs'.disk[h] == fs.disk[h] && Marked(fs'.free, h, fs.disk[h])
    ensures Headers(fs')
  {
    forall h | Live(fs', h) ensures HeaderOk(fs', h) {}
    forall g, h | Live(fs', g) && Live(fs', h) && g != h ensures PairOk(fs', g, h) { assert PairOk(fs, g, h); }
  }

  /** Sectors for one more inode have been found. */
  ghost predicate Reserved(fs: Fs, h: nat, d: DiskInode) {
    && !Live(fs, h) && Marked(fs.free, h, d)
    && forall g {:trigger Live(fs, g)} :: Live(fs, g) && g in fs.disk ==> Apart(h, d, g, fs.disk[g])
  }

  lemma HeadersAdd(fs: Fs, fs': Fs, h: nat)
    requires Headers(fs) && fs'.free == fs.free && h in fs'.disk && Reserved(fs, h, fs'.disk[h])
    requires forall g {:trigger Live(fs', g)} :: Live(fs', g) && g != h ==> Live(fs, g)
    requires forall g {:trigger fs.disk[g]} :: g in fs.disk && g != h ==> g in fs'.disk && fs'.disk[g] == fs.disk[g]
    ensures Headers(fs')
  {
    forall g | Live(fs', g) ensures HeaderOk(fs', g) { if g != h { assert HeaderOk(fs, g); } }
    forall f, g | Live(fs', f) && Live(fs', g) && f != g ensures PairOk(fs', f, g) {
      if f != h && g != h {
        assert PairOk(fs, f, g);
      } else if f == h {
        assert HeaderOk(fs, g);
      } else {
        assert HeaderOk(fs, f);
      }
    }
  }

  // ---------- free map ----------

  /** `free_map_allocate`: with the map's file unwritten, the bits are cleared again. */
  ghost function Allocate(free: seq<bool>, cnt: nat, written: bool): (r: (seq<bool>, Option<nat>))
    ensures |r.0| == |free| && (r.1.Some? ==> r.1.value + cnt <= |free|)
  {
    match FirstFit(free, 0, cnt, false)
    case None => (free, None)
    case Some(s) =>
      if written then (Filled(free, s, cnt, true), Some(s))
      else (Filled(Filled(free, s, cnt, true), s, cnt, false), None)
  }

  /** A failed allocation leaves the free map as it was. */
  lemma AllocateFails(free: seq<bool>, cnt: nat, written: bool)
    requires Allocate(free, cnt, written).1 == None
    ensures Allocate(free, cnt, written).0 == free
  {
    var at := FirstFit(free, 0, cnt, false);
    if at.Some? {
      assert AllBits(free, at.value, cnt, false);
      assert Filled(Filled(free, at.value, cnt, true), at.value, cnt, false) == free;
    }
  }

  /** Sectors allocated were free: no live inode owns one, and the inodes stay marked. */
  lemma AllocateFresh(fs: Fs, cnt: nat, at: nat)
    requires Inv(fs) && Allocate(fs.free, cnt, true).1 == Some(at)
    ensures var fs' := fs.(free := Allocate(fs.free, cnt, true).0);
            && Inv(fs') && at + cnt <= |fs.free| && |fs'.free| == |fs.free|
            && (forall s :: at <= s < at + cnt ==> fs'.free[s] && !fs.free[s])
            && (forall s :: 0 <= s < |fs.free| && fs.free[s] ==> fs'.free[s])
  {
    var fs' := fs.(free := Allocate(fs.free, cnt, true).0);
    assert AllBits(fs.free, at, cnt, false);
    SameBut(fs, fs');
  }

  /** Nothing but the free map changed, and that only by more marks. */
  lemma SameBut(fs: Fs, fs': Fs)
    requires Inv(fs) && fs' == fs.(free := fs'.free) && |fs'.free| == |fs.free|
    requires forall s :: 0 <= s < |fs.free| && fs.free[s] ==> fs'.free[s]
    ensures Inv(fs')
  {
    forall h | Live(fs', h) ensures Live(fs, h) && HeaderOk(fs, h) && Marked(fs'.free, h, fs.disk[h]) {
      LiveSame(fs, fs', h);
      assert HeaderOk(fs, h);
    }
    HeadersSub(fs, fs');
    forall k | 0 <= k < |fs.open| ensures OpenOk(fs', k) {
      assert OpenOk(fs, k);
      ListedSame(fs, fs', fs.open[k].sector);
    }
    forall k, l | 0 <= k < l < |fs.open| ensures OpenApart(fs', k, l) { assert OpenApart(fs, k, l); }
  }

  lemma ListedSame(fs: Fs, fs': Fs, h: nat)
    requires fs'.entries == fs.entries
    ensures Listed(fs', h) <==> Listed(fs, h)
  {
  }

  lemma LiveSame(fs: Fs, fs': Fs, h: nat)
    requires fs'.entries == fs.entries && fs'.open == fs.open
    ensures Live(fs', h) <==> Live(fs, h)
  {
  }

  // ---------- inodes ----------

  /** The open inode with header `h`, by its place in the list. */
  function FindOpen(open: seq<OpenInode>, h: nat): (r: Option<nat>)
    ensures r.Some? ==> r.value < |open| && open[r.value].sector == h
    ensures r.None? ==> forall k :: 0 <= k < |open| ==> open[k].sector != h
  {
    if open == [] then None
    else if open[0].sector == h then Some(0)
    else match FindOpen(open[1..], h)
         case None => None
         case Some(k) => Some(k + 1)
  }

  /** `inode_open` */
  function InodeOpen(fs: Fs, h: nat, inodeOk: bool): (r: (Fs, bool))
    requires h in fs.disk
  {
    match FindOpen(fs.open, h)
    case Some(k) => (fs.(open := fs.open[k := fs.open[k].(openCnt := fs.open[k].openCnt + 1)]), true)
    case None => if inodeOk then (fs.(open := [OpenInode(h, 1, false, fs.disk[h])] + fs.open), true) else (fs, false)
  }

  /** `inode_remove` of an open inode. */
  function InodeRemove(fs: Fs, h: nat): Fs {
    match FindOpen(fs.open, h)
    case None => fs
    case Some(k) => fs.(open := fs.open[k := fs.open[k].(removed := true)])
  }

  /** The free map after `inode_close` has given back a removed inode. */
  function Released(free: seq<bool>, h: nat, d: DiskInode): seq<bool>
    requires h < |free| && d.start + Sectors(d.length) <= |free|
  {
    Filled(Filled(free, h, 1, false), d.start, Sectors(d.length), false)
  }

  /** `inode_close` of an open inode; a removed one gives its sectors back with its last
      opener. */
  function InodeClose(fs: Fs, k: nat): Fs
    requires k < |fs.open| && fs.open[k].openCnt > 0
    requires var o := fs.open[k]; o.sector < |fs.free| && o.data.start + Sectors(o.data.length) <= |fs.free|
  {
    var o := fs.open[k];
    if o.openCnt > 1 then fs.(open := fs.open[k := o.(openCnt := o.openCnt - 1)])
    else fs.(open := fs.open[..k] + fs.open[k + 1..],
             free := if o.removed then Released(fs.free, o.sector, o.data) else fs.free)
  }

  lemma InodeOpenInv(fs: Fs, h: nat, inodeOk: bool)
    requires Inv(fs) && Live(fs, h)
    ensures h in fs.disk && Inv(InodeOpen(fs, h, inodeOk).0)
    ensures InodeOpen(fs, h, inodeOk).1 ==> Opened(InodeOpen(fs, h, inodeOk).0, h)
  {
    assert HeaderOk(fs, h);
    var fs' := InodeOpen(fs, h, inodeOk).0;
    var found := FindOpen(fs.open, h);
    if found.Some? { assert fs'.open[found.value].sector == h; } else if inodeOk { assert fs'.open[0].sector == h; }
    forall g | Live(fs', g) ensures Live(fs, g) && HeaderOk(fs, g) {
      if Opened(fs', g) {
        var k :| 0 <= k < |fs'.open| && fs'.open[k].sector == g;
        if found.Some? || !inodeOk {
          assert fs.open[k].sector == g;
        } else if g != h {
          assert fs.open[k - 1].sector == g;
        }
      }
      ListedSame(fs, fs', g);
      assert HeaderOk(fs, g);
    }
    HeadersSub(fs, fs');
    OpenListAfterOpen(fs, h, inodeOk);
  }

  lemma OpenListAfterOpen(fs: Fs, h: nat, inodeOk: bool)
    requires OpenList(fs) && h in fs.disk
    ensures OpenList(InodeOpen(fs, h, inodeOk).0)
  {
    var fs' := InodeOpen(fs, h, inodeOk).0;
    var found := FindOpen(fs.open, h);
    if found.Some? {
      forall k | 0 <= k < |fs'.open| ensures OpenOk(fs', k) {
        assert OpenOk(fs, k);
        ListedSame(fs, fs', fs.open[k].sector);
      }
      forall k, l | 0 <= k < l < |fs'.open| ensures OpenApart(fs', k, l) { assert OpenApart(fs, k, l); }
    } else if inodeOk {
      forall k | 0 <= k < |fs'.open| ensures OpenOk(fs', k) {
        if k > 0 { assert OpenOk(fs, k - 1); ListedSame(fs, fs', fs.open[k - 1].sector); }
      }
      forall k, l | 0 <= k < l < |fs'.open| ensures OpenApart(fs', k, l) {
        if k > 0 { assert OpenApart(fs, k - 1, l - 1); }
      }
    }
  }

  /** The open inode at `k` can be closed: its sectors are marked, as `free_map_release`
      asserts. */
  lemma CanClose(fs: Fs, k: nat)
    requires Inv(fs) && k < |fs.open|
    ensures var o := fs.open[k];
            && o.openCnt > 0 && Live(fs, o.sector) && o.sector in fs.disk
            && fs.disk[o.sector] == o.data && Marked(fs.free, o.sector, o.data)
  {
    assert OpenOk(fs, k);
    assert Opened(fs, fs.open[k].sector);
    assert HeaderOk(fs, fs.open[k].sector);
  }

  /** Giving back one inode's sectors clears no mark of an inode apart from it. */
  lemma ReleasedApart(free: seq<bool>, h: nat, d: DiskInode, g: nat, e: DiskInode)
    requires Marked(free, h, d) && Marked(free, g, e) && Apart(h, d, g, e)
    ensures Marked(Released(free, h, d), g, e)
  {
    forall s: nat | Owns(e, s) ensures Released(free, h, d)[s] { assert free[s] && !Owns(d, s); }
  }

  lemma InodeCloseInv(fs: Fs, k: nat)
    requires Inv(fs) && k < |fs.open|
    ensures var o := fs.open[k];
            o.openCnt > 0 && o.sector < |fs.free| && o.data.start + Sectors(o.data.length) <= |fs.free|
    ensures Inv(InodeClose(fs, k))
  {
    CanClose(fs, k);
    var o, fs' := fs.open[k], InodeClose(fs, k);
    forall g | Live(fs', g) ensures Live(fs, g) && HeaderOk(fs, g) && Marked(fs'.free, g, fs.disk[g]) {
      CloseLive(fs, k, g);
      assert HeaderOk(fs, g);
      if o.openCnt == 1 && o.removed {
        assert PairOk(fs, o.sector, g);
        ReleasedApart(fs.free, o.sector, o.data, g, fs.disk[g]);
      }
    }
    HeadersSub(fs, fs');
    OpenListAfterClose(fs, k);
  }

  /** What is live after a close was live before; the inode closed for good is not. */
  lemma CloseLive(fs: Fs, k: nat, g: nat)
    requires Inv(fs) && k < |fs.open| && fs.open[k].openCnt > 0
    requires var o := fs.open[k]; o.sector < |fs.free| && o.data.start + Sectors(o.data.length) <= |fs.free|
    requires Live(InodeClose(fs, k), g)
    ensures Live(fs, g) && (fs.open[k].openCnt == 1 && fs.open[k].removed ==> g != fs.open[k].sector)
  {
    var o, fs' := fs.open[k], InodeClose(fs, k);
    ListedSame(fs, fs', g);
    assert OpenOk(fs, k);
    if Opened(fs', g) {
      var l :| 0 <= l < |fs'.open| && fs'.open[l].sector == g;
      if o.openCnt > 1 || l < k {
        assert fs.open[l].sector == g;
        assert o.openCnt == 1 ==> OpenApart(fs, l, k);
      } else {
        assert fs.open[l + 1].sector == g;
        assert OpenApart(fs, k, l + 1);
      }
    }
  }

  lemma OpenListAfterClose(fs: Fs, k: nat)
    requires OpenList(fs) && k < |fs.open| && fs.open[k].openCnt > 0
    requires var o := fs.open[k]; o.sector < |fs.free| && o.data.start + Sectors(o.data.length) <= |fs.free|
    ensures OpenList(InodeClose(fs, k))
  {
    var o, fs' := fs.open[k], InodeClose(fs, k);
    forall l | 0 <= l < |fs'.open| ensures OpenOk(fs', l) {
      var was := if o.openCnt > 1 || l < k then l else l + 1;
      assert OpenOk(fs, was);
      ListedSame(fs, fs', fs.open[was].sector);
    }
    forall l, m | 0 <= l < m < |fs'.open| ensures OpenApart(fs', l, m) {
      assert OpenApart(fs, if o.openCnt > 1 || l < k then l else l + 1, if o.openCnt > 1 || m < k then m else m + 1);
    }
  }

  /** `inode_create`: room for the data is found and the inode written to its header. */
  ghost function InodeCreate(fs: Fs, h: nat, length: nat, luck: Luck): (r: (Fs, bool))
    ensures |r.0.free| == |fs.free|
  {
    if !luck.callocOk then (fs, false)
    else match Allocate(fs.free, Sectors(length), luck.dataWrite)
         case (free, None) => (fs.(free := free), false)
         case (free, Some(start)) => (fs.(free := free, disk := fs.disk[h := DiskInode(start, length)]), true)
  }

  /** A header that is set aside for an inode: marked, and no live inode's. */
  ghost predicate SetAside(fs: Fs, h: nat) {
    && h < |fs.free| && fs.free[h] && !Live(fs, h)
    && forall g {:trigger Live(fs, g)} :: Live(fs, g) && g in fs.disk ==> !Owns(fs.disk[g], h)
  }

  /** An inode on disk that nothing refers to does not matter. */
  lemma DiskOther(fs: Fs, h: nat, d: DiskInode)
    requires Inv(fs) && !Live(fs, h)
    ensures Inv(fs.(disk := fs.disk[h := d]))
  {
    var fs' := fs.(disk := fs.disk[h := d]);
    forall g | Live(fs', g) ensures Live(fs, g) && g != h && HeaderOk(fs, g) {
      LiveSame(fs, fs', g);
      assert HeaderOk(fs, g);
    }
    HeadersSub(fs, fs');
    forall k | 0 <= k < |fs.open| ensures OpenOk(fs', k) {
      assert OpenOk(fs, k) && Opened(fs, fs.open[k].sector);
      ListedSame(fs, fs', fs.open[k].sector);
    }
    forall k, l | 0 <= k < l < |fs.open| ensures OpenApart(fs', k, l) { assert OpenApart(fs, k, l); }
  }

  lemma FreeNotOwned(free: seq<bool>, g: nat, d: DiskInode, h: nat)
    requires Marked(free, g, d) && h < |free| && !free[h]
    ensures !Owns(d, h)
  {
  }

  lemma HeaderFresh(fs: Fs, h: nat)
    requires Inv(fs) && Allocate(fs.free, 1, true).1 == Some(h)
    ensures Inv(fs.(free := Allocate(fs.free, 1, true).0)) && SetAside(fs.(free := Allocate(fs.free, 1, true).0), h)
    ensures h != FREE_MAP_SECTOR && h != ROOT_DIR_SECTOR
  {
    AllocateFresh(fs, 1, h);
    var fs' := fs.(free := Allocate(fs.free, 1, true).0);
    assert HeaderOk(fs, FREE_MAP_SECTOR) && HeaderOk(fs, ROOT_DIR_SECTOR);
    LiveSame(fs, fs', h);
    assert Live(fs, h) ==> HeaderOk(fs, h);
    forall g | Live(fs', g) && g in fs'.disk ensures !Owns(fs'.disk[g], h) {
      LiveSame(fs, fs', g);
      assert HeaderOk(fs, g);
      FreeNotOwned(fs.free, g, fs.disk[g], h);
    }
  }

  lemma InodeCreateInv(fs: Fs, h: nat, length: nat, luck: Luck)
    requires Inv(fs) && SetAside(fs, h)
    ensures var (fs', ok) := InodeCreate(fs, h, length, luck);
            && Inv(fs') && SetAside(fs', h)
            && fs'.entries == fs.entries && fs'.open == fs.open && |fs'.free| == |fs.free|
            && (ok ==> h in fs'.disk && fs'.disk[h].length == length && Reserved(fs', h, fs'.disk[h]))
  {
    var at := Allocate(fs.free, Sectors(length), luck.dataWrite);
    if luck.callocOk && at.1 == None {
      AllocateFails(fs.free, Sectors(length), luck.dataWrite);
    } else if luck.callocOk {
      var d := DiskInode(at.1.value, length);
      AllocateFresh(fs, Sectors(length), at.1.value);
      var fs1 := fs.(free := at.0);
      LiveSame(fs, fs1, h);
      DiskOther(fs1, h, d);
      var fs' := fs1.(disk := fs.disk[h := d]);
      LiveSame(fs, fs', h);
      forall g | Live(fs', g) && g in fs'.disk ensures Apart(h, d, g, fs'.disk[g]) && !Owns(fs'.disk[g], h) {
        LiveSame(fs, fs', g);
        NewDataApart(fs, h, d, g);
      }
    }
  }

  /** Sectors that were free belong to no live inode. */
  lemma NewDataApart(fs: Fs, h: nat, d: DiskInode, g: nat)
    requires Inv(fs) && SetAside(fs, h) && Live(fs, g) && d.start + Sectors(d.length) <= |fs.free|
    requires forall s: nat :: Owns(d, s) ==> !fs.free[s]
    ensures g in fs.disk && Apart(h, d, g, fs.disk[g])
  {
    assert HeaderOk(fs, g);
    forall s: nat ensures !(Owns(d, s) && Owns(fs.disk[g], s)) { assert Owns(fs.disk[g], s) ==> fs.free[s]; }
  }

  /** `free_map_release` of a header set aside. */
  lemma ReleaseHeader(fs: Fs, h: nat)
    requires Inv(fs) && SetAside(fs, h)
    ensures Inv(fs.(free := Filled(fs.free, h, 1, false)))
  {
    var fs' := fs.(free := Filled(fs.free, h, 1, false));
    forall g | Live(fs', g) ensures Live(fs, g) && HeaderOk(fs, g) && Marked(fs'.free, g, fs.disk[g]) {
      LiveSame(fs, fs', g);
      assert HeaderOk(fs, g);
    }
    HeadersSub(fs, fs');
    forall k | 0 <= k < |fs.open| ensures OpenOk(fs', k) {
      assert OpenOk(fs, k);
      ListedSame(fs, fs', fs.open[k].sector);
    }
    forall k, l | 0 <= k < l < |fs.open| ensures OpenApart(fs', k, l) { assert OpenApart(fs, k, l); }
  }

  // ---------- directory ----------

  /** `lookup` */
  function Lookup(entries: seq<Entry>, name: string): (r: Option<nat>)
    ensures r.Some? ==> r.value < |entries| && entries[r.value].inUse && entries[r.value].name == name
    ensures r.None? ==> forall i :: 0 <= i < |entries| && entries[i].inUse ==> entries[i].name != name
  {
    if entries == [] then None
    else if entries[0].inUse && entries[0].name == name then Some(0)
    else match Lookup(entries[1..], name)
         case None => None
         case Some(i) => Some(i + 1)
  }

  /** The first entry that is not in use. */
  function FreeSlot(entries: seq<Entry>): (r: Option<nat>)
    ensures r.Some? ==> r.value < |entries| && !entries[r.value].inUse
    ensures r.None? ==> forall i :: 0 <= i < |entries| ==> entries[i].inUse
  {
    if entries == [] then None
    else if !entries[0].inUse then Some(0)
    else match FreeSlot(entries[1..])
         case None => None
         case Some(i) => Some(i + 1)
  }

  /** `dir_add`; a full directory does not grow. */
  function DirAdd(fs: Fs, name: string, h: nat): (r: (Fs, bool)) {
    if name == "" || |name| > NAME_MAX || Lookup(fs.entries, name).Some? then (fs, false)
    else match FreeSlot(fs.entries)
         case None => (fs, false)
         case Some(i) => (fs.(entries := fs.entries[i := Entry(true, name, h)]), true)
  }

  lemma ListedAfterAdd(fs: Fs, name: string, h: nat, g: nat)
    requires g != h
    ensures Listed(DirAdd(fs, name, h).0, g) ==> Listed(fs, g)
  {
    var fs' := DirAdd(fs, name, h).0;
    if Listed(fs', g) {
      var j :| 0 <= j < |fs'.entries| && fs'.entries[j].inUse && fs'.entries[j].sector == g;
      assert fs.entries[j].inUse && fs.entries[j].sector == g;
    }
  }

  lemma DirAddInv(fs: Fs, name: string, h: nat)
    requires Inv(fs) && SetAside(fs, h) && h in fs.disk && Reserved(fs, h, fs.disk[h])
    ensures Inv(DirAdd(fs, name, h).0)
  {
    var (fs', ok) := DirAdd(fs, name, h);
    if ok {
      var i := FreeSlot(fs.entries).value;
      forall g | Live(fs', g) && g != h ensures Live(fs, g) {
        ListedAfterAdd(fs, name, h, g);
      }
      HeadersAdd(fs, fs', h);
      forall k | 0 <= k < |fs'.open| ensures OpenOk(fs', k) { OpenAfterAdd(fs, name, h, k); }
      forall k, l | 0 <= k < l < |fs'.open| ensures OpenApart(fs', k, l) { assert OpenApart(fs, k, l); }
      forall j | 0 <= j < |fs.entries| && fs.entries[j].inUse ensures fs.entries[j].sector != h {
        assert Listed(fs, fs.entries[j].sector);
      }
    }
  }

  lemma OpenAfterAdd(fs: Fs, name: string, h: nat, k: nat)
    requires Inv(fs) && !Live(fs, h) && k < |fs.open|
    ensures OpenOk(DirAdd(fs, name, h).0, k)
  {
    var fs' := DirAdd(fs, name, h).0;
    assert OpenOk(fs, k);
    var o := fs.open[k];
    assert Opened(fs, o.sector);
    ListedAfterAdd(fs, name, h, o.sector);
  }

  /** `dir_remove` after the inode has been opened: the entry goes, and the inode is marked
      to be deleted with its last opener. */
  function Unlink(fs: Fs, i: nat): Fs
    requires i < |fs.entries|
  {
    InodeRemove(fs.(entries := fs.entries[i := fs.entries[i].(inUse := false)]), fs.entries[i].sector)
  }

  lemma UnlinkInv(fs: Fs, i: nat)
    requires Inv(fs) && i < |fs.entries| && fs.entries[i].inUse && Opened(fs, fs.entries[i].sector)
    ensures Inv(Unlink(fs, i))
    ensures FindOpen(Unlink(fs, i).open, fs.entries[i].sector) == FindOpen(fs.open, fs.entries[i].sector)
  {
    var h, fs' := fs.entries[i].sector, Unlink(fs, i);
    var k := FindOpen(fs.open, h).value;
    SameSectors(fs.open, fs'.open, h);
    forall g | Live(fs', g) ensures Live(fs, g) && HeaderOk(fs, g) {
      if Listed(fs', g) {
        var j :| 0 <= j < |fs'.entries| && fs'.entries[j].inUse && fs'.entries[j].sector == g;
        assert fs.entries[j].inUse && fs.entries[j].sector == g;
      }
      if Opened(fs', g) {
        var l :| 0 <= l < |fs'.open| && fs'.open[l].sector == g;
        assert fs.open[l].sector == g;
      }
      assert HeaderOk(fs, g);
    }
    HeadersSub(fs, fs');
    forall l | 0 <= l < |fs'.open| ensures OpenOk(fs', l) {
      assert OpenOk(fs, l);
      UnlinkedGone(fs, i, fs.open[l].sector);
      if l < k { assert OpenApart(fs, l, k); } else if k < l { assert OpenApart(fs, k, l); }
    }
    forall l, m | 0 <= l < m < |fs'.open| ensures OpenApart(fs', l, m) { assert OpenApart(fs, l, m); }
  }

  /** An unlinked inode is in the directory no more. */
  lemma UnlinkedGone(fs: Fs, i: nat, g: nat)
    requires Directory(fs.entries) && i < |fs.entries| && fs.entries[i].inUse
    ensures Listed(Unlink(fs, i), g) ==> Listed(fs, g) && g != fs.entries[i].sector
  {
    var fs' := Unlink(fs, i);
    if Listed(fs', g) {
      var j :| 0 <= j < |fs'.entries| && fs'.entries[j].inUse && fs'.entries[j].sector == g;
      assert fs.entries[j].inUse && fs.entries[j].sector == g && j != i;
      assert EntriesApart(fs.entries[Min(i, j)], fs.entries[Max(i, j)]);
    }
  }

  lemma {:induction false} SameSectors(a: seq<OpenInode>, b: seq<OpenInode>, h: nat)
    requires |a| == |b| && forall k :: 0 <= k < |a| ==> a[k].sector == b[k].sector
    ensures FindOpen(a, h) == FindOpen(b, h)
  {
    if a == [] {
    } else {
      SameSectors(a[1..], b[1..], h);
    }
  }

  // ---------- files ----------

  /** `filesys_create`; on failure only the header is given back. */
  ghost function Create(fs: Fs, name: string, size: nat, luck: Luck): (Fs, bool) {
    if !luck.dirOk then (fs, false)
    else match Allocate(fs.free, 1, luck.headerWrite)
         case (free, None) => (fs.(free := free), false)
         case (free, Some(h)) =>
           var (fs1, made) := InodeCreate(fs.(free := free), h, size, luck);
           var (fs2, added) := if made then DirAdd(fs1, name, h) else (fs1, false);
           if added then (fs2, true)
           else (fs2.(free := Filled(fs2.free, h, 1, false)), false)
  }

  /** `file_close`, by `inode_close`. */
  ghost function Close(fs: Fs, k: nat): Fs
    requires Inv(fs) && k < |fs.open|
  {
    InodeCloseInv(fs, k);
    InodeClose(fs, k)
  }

  /** `filesys_open`: the header of the inode opened.  When there is no memory for the file,
      `file_open` closes the inode again. */
  ghost function Open(fs: Fs, name: string, luck: Luck): (Fs, Option<nat>)
    requires Inv(fs)
  {
    if !luck.dirOk then (fs, None)
    else match Lookup(fs.entries, name)
         case None => (fs, None)
         case Some(i) =>
           var h := fs.entries[i].sector;
           assert Listed(fs, h);
           InodeOpenInv(fs, h, luck.inodeOk);
           var (fs', ok) := InodeOpen(fs, h, luck.inodeOk);
           if !ok then (fs', None)
           else if luck.fileOk then (fs', Some(h))
           else match FindOpen(fs'.open, h)
                case None => (fs', None)
                case Some(k) => (Close(fs', k), None)
  }

  /** `filesys_remove` */
  ghost function Remove(fs: Fs, name: string, luck: Luck): (Fs, bool)
    requires Inv(fs)
  {
    if !luck.dirOk then (fs, false)
    else match Lookup(fs.entries, name)
         case None => (fs, false)
         case Some(i) =>
           var h := fs.entries[i].sector;
           assert Listed(fs, h);
           InodeOpenInv(fs, h, luck.inodeOk);
           var (fs1, ok) := InodeOpen(fs, h, luck.inodeOk);
           if !ok then (fs1, false)
           else
             UnlinkInv(fs1, i);
             var fs2 := Unlink(fs1, i);
             match FindOpen(fs2.open, h)
             case None => (fs2, true)
             case Some(k) => (Close(fs2, k), true)
  }

  lemma CreateInv(fs: Fs, name: string, size: nat, luck: Luck)
    requires Inv(fs)
    ensures Inv(Create(fs, name, size, luck).0)
  {
    var at := Allocate(fs.free, 1, luck.headerWrite);
    if luck.dirOk && at.1 == None {
      AllocateFails(fs.free, 1, luck.headerWrite);
    } else if luck.dirOk {
      var h := at.1.value;
      HeaderFresh(fs, h);
      var fs0 := fs.(free := at.0);
      InodeCreateInv(fs0, h, size, luck);
      var (fs1, made) := InodeCreate(fs0, h, size, luck);
      if made { DirAddInv(fs1, name, h); }
      if !made || !DirAdd(fs1, name, h).1 { ReleaseHeader(fs1, h); }
    }
  }

  /** A file just created is found under its name, with its length; no other entry changes. */
  lemma CreateFound(fs: Fs, name: string, size: nat, luck: Luck)
    requires Inv(fs) && Create(fs, name, size, luck).1
    ensures var fs' := Create(fs, name, size, luck).0;
            && Lookup(fs.entries, name) == None && Lookup(fs'.entries, name).Some?
            && var i := Lookup(fs'.entries, name).value;
            && fs'.entries == fs.entries[i := fs'.entries[i]] && !fs.entries[i].inUse
            && fs'.entries[i].sector in fs'.disk && fs'.disk[fs'.entries[i].sector].length == size
            && Allocate(fs.free, 1, luck.headerWrite).1 == Some(fs'.entries[i].sector)
  {
    CreateInv(fs, name, size, luck);
    var h := Allocate(fs.free, 1, luck.headerWrite).1.value;
    var fs0 := fs.(free := Allocate(fs.free, 1, luck.headerWrite).0);
    HeaderFresh(fs, h);
    InodeCreateInv(fs0, h, size, luck);
    var fs' := Create(fs, name, size, luck).0;
    var i := FreeSlot(fs.entries).value;
    assert fs'.entries == fs.entries[i := Entry(true, name, h)];
    assert fs'.entries[i].inUse && fs'.entries[i].name == name;
    var j := Lookup(fs'.entries, name).value;
    assert j == i;
  }

  /** `filesys_create` gets a header and then data of at least one sector, before it turns to
      the directory. */
  ghost predicate TakesData(free: seq<bool>, size: nat, luck: Luck) {
    && size > 0 && luck.dirOk && luck.headerWrite && luck.callocOk && luck.dataWrite
    && FirstFit(free, 0, 1, false).Some? && FirstFit(Allocate(free, 1, true).0, 0, Sectors(size), false).Some?
  }

  /** Sectors that are marked and that no live inode owns. */
  ghost predicate Ownerless(fs: Fs, start: nat, cnt: nat) {
    && start + cnt <= |fs.free| && AllBits(fs.free, start, cnt, true)
    && forall h {:trigger Live(fs, h)} :: Live(fs, h) ==> h in fs.disk && Outside(h, fs.disk[h], start, cnt)
  }

  /** No sector of the inode is among the `cnt` from `start` on. */
  ghost predicate Outside(h: nat, d: DiskInode, start: nat, cnt: nat) {
    !(start <= h < start + cnt) && forall s: nat {:trigger Owns(d, s)} :: start <= s < start + cnt ==> !Owns(d, s)
  }

  /** Data taken after a header stays marked when the header is given back. */
  lemma DataStays(free: seq<bool>, h: nat, start: nat, n: nat)
    requires h < |free| && !free[h] && start + n <= |free| && AllBits(Filled(free, h, 1, true), start, n, false)
    ensures AllBits(free, start, n, false)
    ensures Filled(Filled(Filled(free, h, 1, true), start, n, true), h, 1, false) == Filled(free, start, n, true)
  {
    assert Filled(free, h, 1, true)[h];
  }

  lemma DataOwnerless(fs: Fs, fs': Fs, h: nat, d: DiskInode, start: nat, n: nat)
    requires Inv(fs) && fs'.entries == fs.entries && fs'.open == fs.open && fs'.disk == fs.disk[h := d]
    requires !Live(fs, h) && start + n <= |fs.free| && AllBits(fs.free, start, n, false)
    requires fs'.free == Filled(fs.free, start, n, true)
    ensures Ownerless(fs', start, n)
  {
    forall g | Live(fs', g) ensures g in fs'.disk && Outside(g, fs'.disk[g], start, n) {
      LiveSame(fs, fs', g);
      assert HeaderOk(fs, g);
      forall s: nat | start <= s < start + n ensures !Owns(fs.disk[g], s) { FreeNotOwned(fs.free, g, fs.disk[g], s); }
    }
  }

  lemma CreateLeaves(fs: Fs, name: string, size: nat, luck: Luck)
    requires Inv(fs) && !Create(fs, name, size, luck).1 && TakesData(fs.free, size, luck)
    ensures var fs' := Create(fs, name, size, luck).0;
            var start := FirstFit(Allocate(fs.free, 1, true).0, 0, Sectors(size), false).value;
            && fs'.free == Filled(fs.free, start, Sectors(size), true) && fs'.free != fs.free
            && Ownerless(fs', start, Sectors(size))
  {
    var h, n := FirstFit(fs.free, 0, 1, false).value, Sectors(size);
    var start := FirstFit(Allocate(fs.free, 1, true).0, 0, n, false).value;
    var fs' := Create(fs, name, size, luck).0;
    assert AllBits(fs.free, h, 1, false);
    DataStays(fs.free, h, start, n);
    assert fs'.free[start] && !fs.free[start];
    HeaderFresh(fs, h);
    LiveSame(fs, fs.(free := Allocate(fs.free, 1, true).0), h);
    DataOwnerless(fs, fs', h, DiskInode(start, size), start, n);
  }

  lemma CreateGivesBack(fs: Fs, name: string, size: nat, luck: Luck)
    requires Inv(fs) && !Create(fs, name, size, luck).1 && luck.dirOk && !TakesData(fs.free, size, luck)
    requires Allocate(fs.free, 1, luck.headerWrite).1.Some?
    ensures Create(fs, name, size, luck).0.free == fs.free
  {
    var (free1, h) := (Allocate(fs.free, 1, true).0, Allocate(fs.free, 1, true).1.value);
    assert AllBits(fs.free, h, 1, false);
    var at := Allocate(free1, Sectors(size), luck.dataWrite);
    if at.1 == None { AllocateFails(free1, Sectors(size), luck.dataWrite); }
    assert luck.callocOk && at.1.Some? ==> Sectors(size) == 0 && at.0 == free1;
    assert Filled(free1, h, 1, false) == fs.free;
  }

  /** Creating that fails leaves the free map as it was, if and only if it got no data: data
      once taken stays marked, and is no live inode's. */
  lemma CreateFails(fs: Fs, name: string, size: nat, luck: Luck)
    requires Inv(fs) && !Create(fs, name, size, luck).1
    ensures var fs' := Create(fs, name, size, luck).0;
            && fs'.entries == fs.entries && fs'.open == fs.open && Inv(fs')
            && (fs'.free == fs.free <==> !TakesData(fs.free, size, luck))
            && (TakesData(fs.free, size, luck) ==>
                  var start := FirstFit(Allocate(fs.free, 1, true).0, 0, Sectors(size), false).value;
                  fs'.free == Filled(fs.free, start, Sectors(size), true) && Ownerless(fs', start, Sectors(size)))
  {
    CreateInv(fs, name, size, luck);
    if Allocate(fs.free, 1, luck.headerWrite).1 == None { AllocateFails(fs.free, 1, luck.headerWrite); }
    if TakesData(fs.free, size, luck) {
      CreateLeaves(fs, name, size, luck);
    } else if luck.dirOk && Allocate(fs.free, 1, luck.headerWrite).1.Some? {
      CreateGivesBack(fs, name, size, luck);
    }
  }

  /** Creating fails, and leaves the directory alone, when the name is taken; whether it gives
      back all it took depends on the size. */
  lemma CreateTaken(fs: Fs, name: string, size: nat, luck: Luck)
    requires Inv(fs) && Lookup(fs.entries, name).Some?
    ensures var (fs', ok) := Create(fs, name, size, luck);
            !ok && fs'.entries == fs.entries && (fs'.free == fs.free <==> !TakesData(fs.free, size, luck))
  {
    var at := Allocate(fs.free, 1, luck.headerWrite);
    if luck.dirOk && at.1 != None { HeaderFresh(fs, at.1.value); }
    CreateFails(fs, name, size, luck);
  }

  /** Opening that fails, for whatever reason, leaves everything as it was. */
  lemma OpenFails(fs: Fs, name: string, luck: Luck)
    requires Inv(fs) && Open(fs, name, luck).1 == None
    ensures Open(fs, name, luck).0 == fs
  {
    var found := Lookup(fs.entries, name);
    if luck.dirOk && found.Some? { CloseUndoesOpen(fs, found.value, luck.inodeOk); }
  }

  /** `inode_close` undoes `inode_open` of an inode in the directory. */
  lemma CloseUndoesOpen(fs: Fs, i: nat, inodeOk: bool)
    requires Inv(fs) && i < |fs.entries| && fs.entries[i].inUse
    ensures var h := fs.entries[i].sector;
            && h in fs.disk && var (fs', ok) := InodeOpen(fs, h, inodeOk);
            && (!ok ==> fs' == fs) && Inv(fs')
            && (ok ==> FindOpen(fs'.open, h).Some? && Close(fs', FindOpen(fs'.open, h).value) == fs)
  {
    var h := fs.entries[i].sector;
    assert Listed(fs, h);
    InodeOpenInv(fs, h, inodeOk);
    var (fs', ok) := InodeOpen(fs, h, inodeOk);
    var was := FindOpen(fs.open, h);
    if ok && was.Some? {
      assert OpenOk(fs, was.value);
      SameSectors(fs.open, fs'.open, h);
      assert Close(fs', was.value).open == fs.open;
    } else if ok {
      assert FindOpen(fs'.open, h) == Some(0);
      assert Close(fs', 0).open == fs.open;
    }
  }

  lemma OpenInv(fs: Fs, name: string, luck: Luck)
    requires Inv(fs)
    ensures Inv(Open(fs, name, luck).0)
  {
    if Open(fs, name, luck).1 == None {
      OpenFails(fs, name, luck);
    } else {
      var h := fs.entries[Lookup(fs.entries, name).value].sector;
      assert Listed(fs, h);
      InodeOpenInv(fs, h, luck.inodeOk);
    }
  }

  lemma RemoveInv(fs: Fs, name: string, luck: Luck)
    requires Inv(fs)
    ensures var (fs', ok) := Remove(fs, name, luck);
            && Inv(fs') && (ok ==> Lookup(fs'.entries, name) == None)
  {
    var found := Lookup(fs.entries, name);
    if luck.dirOk && found.Some? {
      var i := found.value;
      var h := fs.entries[i].sector;
      assert Listed(fs, h);
      InodeOpenInv(fs, h, luck.inodeOk);
      var (fs1, ok) := InodeOpen(fs, h, luck.inodeOk);
      if ok {
        UnlinkInv(fs1, i);
        var fs2 := Unlink(fs1, i);
        if FindOpen(fs2.open, h).Some? { InodeCloseInv(fs2, FindOpen(fs2.open, h).value); }
        NameGone(fs.entries, i, name);
      }
    }
  }

  lemma NameGone(entries: seq<Entry>, i: nat, name: string)
    requires Directory(entries) && i < |entries| && entries[i].inUse && entries[i].name == name
    ensures Lookup(entries[i := entries[i].(inUse := false)], name) == None
  {
    var entries' := entries[i := entries[i].(inUse := false)];
    assert forall j :: 0 <= j < |entries| && j != i ==> EntriesApart(entries[Min(i, j)], entries[Max(i, j)]);
    assert forall j :: 0 <= j < |entries| && entries'[j].inUse ==> entries'[j].name != name;
  }

  /** The last close of a removed file gives back its header and its data, and nothing else. */
  lemma LastClose(fs: Fs, k: nat, s: nat)
    requires Inv(fs) && k < |fs.open| && fs.open[k].openCnt == 1 && fs.open[k].removed && s < |fs.free|
    ensures var o, fs' := fs.open[k], Close(fs, k);
            && |fs'.free| == |fs.free| && !Live(fs', o.sector)
            && fs'.free[s] == (fs.free[s] && s != o.sector && !Owns(o.data, s))
  {
    InodeCloseInv(fs, k);
    if Live(Close(fs, k), fs.open[k].sector) { CloseLive(fs, k, fs.open[k].sector); }
  }

  /** Any other close leaves the free map alone. */
  lemma OtherClose(fs: Fs, k: nat)
    requires Inv(fs) && k < |fs.open| && (fs.open[k].openCnt > 1 || !fs.open[k].removed)
    ensures Close(fs, k).free == fs.free
  {
  }

  // ---------- what each call does ----------

  /** The inode in memory with header `h`. */
  function InMemory(open: seq<OpenInode>, h: nat): Option<OpenInode> {
    match FindOpen(open, h) case None => None case Some(k) => Some(open[k])
  }

  function Openers(fs: Fs, h: nat): nat {
    match InMemory(fs.open, h) case None => 0 case Some(o) => o.openCnt
  }

  lemma {:induction false} UpdateMemory(open: seq<OpenInode>, k: nat, o: OpenInode, g: nat)
    requires k < |open| && o.sector == open[k].sector && FindOpen(open, o.sector) == Some(k)
    ensures InMemory(open[k := o], g) == if g == o.sector then Some(o) else InMemory(open, g)
  {
    SameSectors(open, open[k := o], g);
  }

  lemma PushMemory(open: seq<OpenInode>, o: OpenInode, g: nat)
    ensures InMemory([o] + open, g) == if g == o.sector then Some(o) else InMemory(open, g)
  {
    assert ([o] + open)[1..] == open;
  }

  lemma {:induction false} DropMemory(open: seq<OpenInode>, k: nat, g: nat)
    requires k < |open| && forall j :: 0 <= j < |open| && j != k ==> open[j].sector != open[k].sector
    ensures InMemory(open[..k] + open[k + 1..], g) == if g == open[k].sector then None else InMemory(open, g)
  {
    var rest := open[..k] + open[k + 1..];
    if k == 0 {
      assert rest == open[1..];
    } else {
      assert rest[0] == open[0] && rest[1..] == open[1..][..k - 1] + open[1..][k..];
      DropMemory(open[1..], k - 1, g);
    }
  }

  /** The place that `inode_open` finds is the only one. */
  lemma OnlyPlace(fs: Fs, k: nat)
    requires Inv(fs) && k < |fs.open|
    ensures FindOpen(fs.open, fs.open[k].sector) == Some(k)
    ensures forall j :: 0 <= j < |fs.open| && j != k ==> fs.open[j].sector != fs.open[k].sector
  {
    forall j | 0 <= j < |fs.open| && j != k ensures fs.open[j].sector != fs.open[k].sector {
      if j < k { assert OpenApart(fs, j, k); } else { assert OpenApart(fs, k, j); }
    }
  }

  /** The entry in use with the name; by the invariant there is one at most. */
  predicate Names(e: Entry, name: string) {
    e.inUse && e.name == name
  }

  ghost predicate Named(fs: Fs, name: string, h: nat) {
    exists i :: 0 <= i < |fs.entries| && Names(fs.entries[i], name) && fs.entries[i].sector == h
  }

  lemma SameName(entries: seq<Entry>, i: nat, j: nat)
    requires Directory(entries) && i < |entries| && j < |entries|
    requires entries[i].inUse && entries[j].inUse && entries[i].name == entries[j].name
    ensures i == j
  {
    assert i != j ==> EntriesApart(entries[Min(i, j)], entries[Max(i, j)]);
  }

  lemma LookupNames(fs: Fs, name: string, h: nat)
    requires Inv(fs)
    ensures Named(fs, name, h) <==>
            Lookup(fs.entries, name).Some? && fs.entries[Lookup(fs.entries, name).value].sector == h
  {
    var found := Lookup(fs.entries, name);
    if Named(fs, name, h) {
      var i :| 0 <= i < |fs.entries| && Names(fs.entries[i], name) && fs.entries[i].sector == h;
      SameName(fs.entries, i, found.value);
    } else if found.Some? {
      assert Names(fs.entries[found.value], name);
    }
  }

  /** What opening inode `h` once more makes of the inodes in memory. */
  lemma InodeOpenLaw(fs: Fs, h: nat, inodeOk: bool, g: nat)
    requires Inv(fs) && Live(fs, h)
    ensures h in fs.disk && var (fs', ok) := InodeOpen(fs, h, inodeOk);
            && (ok <==> Opened(fs, h) || inodeOk) && fs' == fs.(open := fs'.open)
            && (ok ==> Openers(fs', h) == Openers(fs, h) + 1)
            && (g != h ==> InMemory(fs'.open, g) == InMemory(fs.open, g))
  {
    assert HeaderOk(fs, h);
    var found := FindOpen(fs.open, h);
    if found.Some? {
      var k := found.value;
      var o := fs.open[k].(openCnt := fs.open[k].openCnt + 1);
      UpdateMemory(fs.open, k, o, g);
      UpdateMemory(fs.open, k, o, h);
    } else {
      PushMemory(fs.open, OpenInode(h, 1, false, fs.disk[h]), g);
      PushMemory(fs.open, OpenInode(h, 1, false, fs.disk[h]), h);
    }
  }

  /** `filesys_open` returns an inode if and only if an entry in use has the name and the memory
      asked for was there.  It is the inode of that entry, it has one opener more, and every
      other inode in memory is as before. */
  lemma OpenLaw(fs: Fs, name: string, luck: Luck, g: nat)
    requires Inv(fs)
    ensures var (fs', h) := Open(fs, name, luck);
            && fs' == fs.(open := fs'.open)
            && (h.Some? ==> && Named(fs, name, h.value) && Openers(fs', h.value) == Openers(fs, h.value) + 1
                            && (g != h.value ==> InMemory(fs'.open, g) == InMemory(fs.open, g)))
            && (h.Some? <==> && luck.dirOk && luck.fileOk
                             && exists x :: Named(fs, name, x) && (Opened(fs, x) || luck.inodeOk))
  {
    var found := Lookup(fs.entries, name);
    if found.Some? {
      var x := fs.entries[found.value].sector;
      assert Listed(fs, x);
      LookupNames(fs, name, x);
      InodeOpenLaw(fs, x, luck.inodeOk, g);
      forall y | Named(fs, name, y) ensures y == x { LookupNames(fs, name, y); }
    } else {
      forall y ensures !Named(fs, name, y) { LookupNames(fs, name, y); }
    }
    if Open(fs, name, luck).1 == None { OpenFails(fs, name, luck); }
  }

  /** `inode_close` takes one opener away, and the inode out of memory with the last; every other
      inode in memory is as before. */
  lemma CloseLaw(fs: Fs, k: nat, g: nat)
    requires Inv(fs) && k < |fs.open|
    ensures var fs', o := Close(fs, k), fs.open[k];
            && fs'.entries == fs.entries && fs'.disk == fs.disk
            && InMemory(fs'.open, o.sector) == (if o.openCnt > 1 then Some(o.(openCnt := o.openCnt - 1)) else None)
            && (g != o.sector ==> InMemory(fs'.open, g) == InMemory(fs.open, g))
  {
    var o := fs.open[k];
    OnlyPlace(fs, k);
    CanClose(fs, k);
    if o.openCnt > 1 {
      UpdateMemory(fs.open, k, o.(openCnt := o.openCnt - 1), g);
      UpdateMemory(fs.open, k, o.(openCnt := o.openCnt - 1), o.sector);
    } else {
      DropMemory(fs.open, k, g);
      DropMemory(fs.open, k, o.sector);
    }
  }

  /** The directory without the entry of a name. */
  ghost predicate Erased(entries: seq<Entry>, name: string, entries': seq<Entry>) {
    && |entries'| == |entries|
    && forall i :: 0 <= i < |entries| ==>
         entries'[i] == if Names(entries[i], name) then entries[i].(inUse := false) else entries[i]
  }

  lemma EraseOne(entries: seq<Entry>, i: nat, name: string)
    requires Directory(entries) && i < |entries| && Names(entries[i], name)
    ensures Erased(entries, name, entries[i := entries[i].(inUse := false)])
  {
    forall j | 0 <= j < |entries| && j != i ensures !Names(entries[j], name) {
      assert EntriesApart(entries[Min(i, j)], entries[Max(i, j)]);
    }
  }

  /** `filesys_remove` succeeds if and only if an entry in use has the name and the inode could be
      opened.  Exactly that entry goes.  If nobody has the file open, its header and data are free
      afterwards and no other sector changes; otherwise the sectors stay, and the inode in memory
      is marked.  Every other inode in memory is as before, and failing changes nothing. */
  lemma RemoveLaw(fs: Fs, name: string, luck: Luck, h: nat, g: nat)
    requires Inv(fs) && Named(fs, name, h)
    ensures h in fs.disk && Marked(fs.free, h, fs.disk[h])
    ensures var (fs', ok) := Remove(fs, name, luck);
            && (ok <==> luck.dirOk && (Opened(fs, h) || luck.inodeOk)) && (!ok ==> fs' == fs)
            && (ok ==> && Erased(fs.entries, name, fs'.entries) && fs'.disk == fs.disk
                       && (g != h ==> InMemory(fs'.open, g) == InMemory(fs.open, g))
                       && match InMemory(fs.open, h)
                          case None => InMemory(fs'.open, h) == None && fs'.free == Released(fs.free, h, fs.disk[h])
                          case Some(o) => InMemory(fs'.open, h) == Some(o.(removed := true)) && fs'.free == fs.free)
  {
    LookupNames(fs, name, h);
    var i := Lookup(fs.entries, name).value;
    assert Listed(fs, h);
    assert HeaderOk(fs, h);
    InodeOpenLaw(fs, h, luck.inodeOk, g);
    if luck.dirOk && InodeOpen(fs, h, luck.inodeOk).1 {
      EraseOne(fs.entries, i, name);
      UnlinkAndClose(fs, i, luck.inodeOk, g);
    }
  }

  lemma UnlinkAndClose(fs: Fs, i: nat, inodeOk: bool, g: nat)
    requires Inv(fs) && i < |fs.entries| && fs.entries[i].inUse
    requires var h := fs.entries[i].sector; h in fs.disk && InodeOpen(fs, h, inodeOk).1
    ensures var h := fs.entries[i].sector; var fs1 := InodeOpen(fs, h, inodeOk).0; var fs2 := Unlink(fs1, i);
            && Marked(fs.free, h, fs.disk[h]) && Inv(fs2) && FindOpen(fs2.open, h).Some?
            && var fs' := Close(fs2, FindOpen(fs2.open, h).value);
            && fs'.entries == fs.entries[i := fs.entries[i].(inUse := false)] && fs'.disk == fs.disk
            && (g != h ==> InMemory(fs'.open, g) == InMemory(fs.open, g))
            && match InMemory(fs.open, h)
               case None => InMemory(fs'.open, h) == None && fs'.free == Released(fs.free, h, fs.disk[h])
               case Some(o) => InMemory(fs'.open, h) == Some(o.(removed := true)) && fs'.free == fs.free
  {
    var h := fs.entries[i].sector;
    var fs1 := InodeOpen(fs, h, inodeOk).0;
    assert Listed(fs, h);
    assert HeaderOk(fs, h);
    InodeOpenInv(fs, h, inodeOk);
    InodeOpenLaw(fs, h, inodeOk, g);
    OpenedHas(fs, h, inodeOk);
    UnlinkInv(fs1, i);
    UnlinkMemory(fs1, i, g);
    CloseRemoved(Unlink(fs1, i), h, g);
    if FindOpen(fs.open, h).Some? { assert OpenOk(fs, FindOpen(fs.open, h).value); }
  }

  lemma UnlinkMemory(fs: Fs, i: nat, g: nat)
    requires i < |fs.entries| && FindOpen(fs.open, fs.entries[i].sector).Some?
    ensures var h, fs' := fs.entries[i].sector, Unlink(fs, i);
            && InMemory(fs'.open, h) == Some(InMemory(fs.open, h).value.(removed := true))
            && (g != h ==> InMemory(fs'.open, g) == InMemory(fs.open, g))
  {
    var h := fs.entries[i].sector;
    var k := FindOpen(fs.open, h).value;
    UpdateMemory(fs.open, k, fs.open[k].(removed := true), g);
    UpdateMemory(fs.open, k, fs.open[k].(removed := true), h);
  }

  /** Closing a removed inode. */
  lemma CloseRemoved(fs: Fs, h: nat, g: nat)
    requires Inv(fs) && FindOpen(fs.open, h).Some? && InMemory(fs.open, h).value.removed
    ensures var fs', o := Close(fs, FindOpen(fs.open, h).value), InMemory(fs.open, h).value;
            && fs'.entries == fs.entries && fs'.disk == fs.disk && Marked(fs.free, h, o.data)
            && (g != h ==> InMemory(fs'.open, g) == InMemory(fs.open, g))
            && if o.openCnt > 1 then InMemory(fs'.open, h) == Some(o.(openCnt := o.openCnt - 1)) && fs'.free == fs.free
               else InMemory(fs'.open, h) == None && fs'.free == Released(fs.free, h, o.data)
  {
    var k := FindOpen(fs.open, h).value;
    CanClose(fs, k);
    CloseLaw(fs, k, g);
  }

  /** The inode in memory after `inode_open`. */
  lemma OpenedHas(fs: Fs, h: nat, inodeOk: bool)
    requires Inv(fs) && h in fs.disk && InodeOpen(fs, h, inodeOk).1
    ensures InMemory(InodeOpen(fs, h, inodeOk).0.open, h)
         == Some(match InMemory(fs.open, h)
                 case None => OpenInode(h, 1, false, fs.disk[h])
                 case Some(o) => o.(openCnt := o.openCnt + 1))
  {
    var found := FindOpen(fs.open, h);
    if found.Some? {
      UpdateMemory(fs.open, found.value, fs.open[found.value].(openCnt := fs.open[found.value].openCnt + 1), h);
    } else {
      PushMemory(fs.open, OpenInode(h, 1, false, fs.disk[h]), h);
    }
  }

  /** Without the name, `filesys_remove` fails and changes nothing. */
  lemma RemoveMissing(fs: Fs, name: string, luck: Luck)
    requires Inv(fs) && forall h :: !Named(fs, name, h)
    ensures Remove(fs, name, luck) == (fs, false)
  {
    var found := Lookup(fs.entries, name);
    if found.Some? { LookupNames(fs, name, fs.entries[found.value].sector); }
  }

  /** `filesys_create` succeeds if and only if there was memory, a free sector for the header and
      then a run of free sectors for the data, the free map could be written, the name is valid and
      new, and an entry is not in use. */
  lemma CreateSucceeds(fs: Fs, name: string, size: nat, luck: Luck)
    requires Inv(fs)
    ensures Create(fs, name, size, luck).1 <==>
            && luck.dirOk && luck.headerWrite && luck.callocOk && luck.dataWrite
            && FirstFit(fs.free, 0, 1, false).Some?
            && FirstFit(Allocate(fs.free, 1, true).0, 0, Sectors(size), false).Some?
            && 0 < |name| <= NAME_MAX && (forall h :: !Named(fs, name, h))
            && (exists i :: 0 <= i < |fs.entries| && !fs.entries[i].inUse)
  {
    var found := Lookup(fs.entries, name);
    if found.Some? {
      LookupNames(fs, name, fs.entries[found.value].sector);
    } else {
      forall h ensures !Named(fs, name, h) { LookupNames(fs, name, h); }
    }
    var slot := FreeSlot(fs.entries);
    assert slot.Some? ==> !fs.entries[slot.value].inUse;
  }

  /** A create that succeeds marks its header and its data, and no other sector; no inode on disk or
      in memory changes but the new one. */
  lemma CreateMarks(fs: Fs, name: string, size: nat, luck: Luck, s: nat)
    requires Inv(fs) && Create(fs, name, size, luck).1 && s < |fs.free|
    ensures Allocate(fs.free, 1, true).1.Some?
    ensures var fs', h := Create(fs, name, size, luck).0, Allocate(fs.free, 1, true).1.value;
            && h in fs'.disk && fs'.disk == fs.disk[h := fs'.disk[h]] && fs'.disk[h].length == size
            && |fs'.free| == |fs.free| && fs'.open == fs.open
            && fs'.free[s] == (fs.free[s] || s == h || Owns(fs'.disk[h], s))
  {
  }

  // ---------- runs ----------

  datatype Op =
    | CreateOp(name: string, size: nat, luck: Luck)
    | OpenOp(name: string, luck: Luck)
    | RemoveOp(name: string, luck: Luck)
    | CloseOp(k: nat)

  ghost predicate Does(fs: Fs, op: Op, fs': Fs)
    requires Inv(fs)
  {
    match op
    case CreateOp(name, size, luck) => fs' == Create(fs, name, size, luck).0
    case OpenOp(name, luck) => fs' == Open(fs, name, luck).0
    case RemoveOp(name, luck) => fs' == Remove(fs, name, luck).0
    case CloseOp(k) => k < |fs.open| && fs' == Close(fs, k)
  }

  lemma DoesInv(fs: Fs, op: Op, fs': Fs)
    requires Inv(fs) && Does(fs, op, fs')
    ensures Inv(fs')
  {
    match op
    case CreateOp(name, size, luck) => CreateInv(fs, name, size, luck);
    case OpenOp(name, luck) => OpenInv(fs, name, luck);
    case RemoveOp(name, luck) => RemoveInv(fs, name, luck);
    case CloseOp(k) => InodeCloseInv(fs, k);
  }

  /** A formatted file system: the free map's inode, which stays open, and the root
      directory's, which has no files, with their sectors marked. */
  ghost predicate Init(fs: Fs) {
    && FREE_MAP_SECTOR in fs.disk && fs.open == [OpenInode(FREE_MAP_SECTOR, 1, false, fs.disk[FREE_MAP_SECTOR])]
    && ROOT_DIR_SECTOR in fs.disk && ENTRY_SIZE * |fs.entries| <= fs.disk[ROOT_DIR_SECTOR].length
    && (forall i :: 0 <= i < |fs.entries| ==> !fs.entries[i].inUse)
    && HeaderOk(fs, FREE_MAP_SECTOR) && HeaderOk(fs, ROOT_DIR_SECTOR)
    && PairOk(fs, FREE_MAP_SECTOR, ROOT_DIR_SECTOR) && PairOk(fs, ROOT_DIR_SECTOR, FREE_MAP_SECTOR)
  }

  ghost predicate StepAt(tr: seq<Fs>, ops: seq<Op>, i: nat)
    requires |tr| == |ops| + 1 && i < |ops|
  {
    Inv(tr[i]) ==> Does(tr[i], ops[i], tr[i + 1])
  }

  ghost predicate Run(tr: seq<Fs>, ops: seq<Op>) {
    && |tr| == |ops| + 1 && Init(tr[0])
    && forall i {:trigger StepAt(tr, ops, i)} :: 0 <= i < |ops| ==> StepAt(tr, ops, i)
  }

  lemma InitInv(fs: Fs)
    requires Init(fs)
    ensures Inv(fs)
  {
    forall h | Live(fs, h) ensures h == FREE_MAP_SECTOR || h == ROOT_DIR_SECTOR {}
    assert OpenOk(fs, 0);
  }

  lemma {:induction false} RunInv(tr: seq<Fs>, ops: seq<Op>, n: nat)
    requires Run(tr, ops) && n < |tr|
    ensures Inv(tr[n])
  {
    if n > 0 {
      RunInv(tr, ops, n - 1);
      assert StepAt(tr, ops, n - 1);
      DoesInv(tr[n - 1], ops[n - 1], tr[n]);
    } else {
      InitInv(tr[0]);
    }
  }

  /** In every run, files that are in the directory or open, removed or not, have their
      header and data marked in the free map, and two of them share no sector. */
  lemma RunApart(tr: seq<Fs>, ops: seq<Op>, n: nat, g: nat, h: nat)
    requires Run(tr, ops) && n < |tr| && Live(tr[n], g) && Live(tr[n], h)
    ensures var fs := tr[n];
            && g in fs.disk && Marked(fs.free, g, fs.disk[g])
            && (g != h ==> h in fs.disk && Apart(g, fs.disk[g], h, fs.disk[h]))
  {
    RunInv(tr, ops, n);
    assert HeaderOk(tr[n], g);
    if g != h { assert PairOk(tr[n], g, h); }
  }

  /** In every run, a sector has one inode in memory at most, which agrees with the disk; a
      removed one keeps its sectors marked while it is open. */
  lemma RunOpen(tr: seq<Fs>, ops: seq<Op>, n: nat, k: nat, l: nat)
    requires Run(tr, ops) && n < |tr| && k < |tr[n].open| && l < |tr[n].open|
    ensures var fs := tr[n]; var o := fs.open[k];
            && (fs.open[l].sector == o.sector ==> k == l)
            && o.openCnt > 0 && Marked(fs.free, o.sector, o.data) && o.sector in fs.disk && fs.disk[o.sector] == o.data
  {
    RunInv(tr, ops, n);
    CanClose(tr[n], k);
    if k < l { assert OpenApart(tr[n], k, l); } else if l < k { assert OpenApart(tr[n], l, k); }
  }

  lemma CreateKeepsInode(fs: Fs, name: string, size: nat, luck: Luck, h: nat)
    requires Inv(fs) && Live(fs, h) && h in fs.disk
    ensures var fs' := Create(fs, name, size, luck).0;
            |fs'.free| == |fs.free| && h in fs'.disk && fs'.disk[h] == fs.disk[h]
  {
    var at := Allocate(fs.free, 1, luck.headerWrite);
    if luck.dirOk && at.1.Some? {
      HeaderFresh(fs, at.1.value);
      LiveSame(fs, fs.(free := at.0), h);
    }
  }

  lemma RemoveKeepsDisk(fs: Fs, name: string, luck: Luck)
    requires Inv(fs)
    ensures |Remove(fs, name, luck).0.free| == |fs.free| && Remove(fs, name, luck).0.disk == fs.disk
  {
  }

  /** No operation writes the header of a live inode. */
  lemma DoesKeepsInode(fs: Fs, op: Op, fs': Fs, h: nat)
    requires Inv(fs) && Does(fs, op, fs') && Live(fs, h)
    ensures |fs'.free| == |fs.free| && h in fs.disk && h in fs'.disk && fs'.disk[h] == fs.disk[h]
  {
    assert HeaderOk(fs, h);
    match op
    case CreateOp(name, size, luck) => CreateKeepsInode(fs, name, size, luck, h);
    case OpenOp(name, luck) => if Open(fs, name, luck).1 == None { OpenFails(fs, name, luck); }
    case RemoveOp(name, luck) => RemoveKeepsDisk(fs, name, luck);
    case CloseOp(k) =>
  }

  // ---------- what a call adds ----------

  /** The header and the inode that `filesys_create` writes to the disk, before it turns to the
      directory. */
  ghost function Made(fs: Fs, op: Op): Option<(nat, DiskInode)> {
    match op
    case CreateOp(name, size, luck) =>
      if !luck.dirOk then None
      else (match Allocate(fs.free, 1, luck.headerWrite)
            case (free, None) => None
            case (free, Some(h)) =>
              if !luck.callocOk then None
              else match Allocate(free, Sectors(size), luck.dataWrite).1
                   case None => None
                   case Some(start) => Some((h, DiskInode(start, size))))
    case _ => None
  }

  /** Header and data of a new file were free, and are apart. */
  lemma MadeFresh(fs: Fs, op: Op, h: nat, d: DiskInode)
    requires Made(fs, op) == Some((h, d))
    ensures h < |fs.free| && !fs.free[h] && !Owns(d, h) && d.start + Sectors(d.length) <= |fs.free|
    ensures forall s: nat {:trigger Owns(d, s)} :: Owns(d, s) ==> !fs.free[s]
  {
    var free := Allocate(fs.free, 1, op.luck.headerWrite).0;
    assert AllBits(fs.free, h, 1, false) && free[h];
    assert AllBits(free, d.start, Sectors(d.length), false);
  }

  /** The new inode is the one on disk after the call. */
  lemma MadeOnDisk(fs: Fs, op: Op, fs': Fs, h: nat, d: DiskInode)
    requires Inv(fs) && Does(fs, op, fs') && Made(fs, op) == Some((h, d))
    ensures h in fs'.disk && fs'.disk[h] == d
  {
  }

  lemma InodeOpenLive(fs: Fs, h: nat, inodeOk: bool, g: nat)
    requires h in fs.disk && Live(InodeOpen(fs, h, inodeOk).0, g)
    ensures Live(fs, g) || g == h
  {
    var fs' := InodeOpen(fs, h, inodeOk).0;
    ListedSame(fs, fs', g);
    if Opened(fs', g) && g != h {
      var k :| 0 <= k < |fs'.open| && fs'.open[k].sector == g;
      assert fs.open[if FindOpen(fs.open, h).Some? || !inodeOk then k else k - 1].sector == g;
    }
  }

  lemma UnlinkLive(fs: Fs, i: nat, g: nat)
    requires i < |fs.entries| && Live(Unlink(fs, i), g)
    ensures Live(fs, g)
  {
    var fs' := Unlink(fs, i);
    if Listed(fs', g) {
      var j :| 0 <= j < |fs'.entries| && fs'.entries[j].inUse && fs'.entries[j].sector == g;
      assert fs.entries[j].inUse && fs.entries[j].sector == g;
    }
    if Opened(fs', g) {
      var l :| 0 <= l < |fs'.open| && fs'.open[l].sector == g;
      assert fs.open[l].sector == g;
    }
  }

  lemma CreateLive(fs: Fs, name: string, size: nat, luck: Luck, g: nat)
    requires Inv(fs) && Live(Create(fs, name, size, luck).0, g)
    ensures var made := Made(fs, CreateOp(name, size, luck)); Live(fs, g) || (made.Some? && made.value.0 == g)
  {
    var fs' := Create(fs, name, size, luck).0;
    if !Create(fs, name, size, luck).1 {
      CreateFails(fs, name, size, luck);
      LiveSame(fs, fs', g);
    } else {
      var h := Allocate(fs.free, 1, luck.headerWrite).1.value;
      var fs1 := InodeCreate(fs.(free := Allocate(fs.free, 1, luck.headerWrite).0), h, size, luck).0;
      if g != h { ListedAfterAdd(fs1, name, h, g); }
      LiveSame(fs, fs1, g);
    }
  }

  lemma RemoveLive(fs: Fs, name: string, luck: Luck, g: nat)
    requires Inv(fs) && Live(Remove(fs, name, luck).0, g)
    ensures Live(fs, g)
  {
    var found := Lookup(fs.entries, name);
    if luck.dirOk && found.Some? {
      var h := fs.entries[found.value].sector;
      assert Listed(fs, h);
      InodeOpenInv(fs, h, luck.inodeOk);
      var (fs1, ok) := InodeOpen(fs, h, luck.inodeOk);
      if ok {
        UnlinkInv(fs1, found.value);
        var fs2 := Unlink(fs1, found.value);
        var k := FindOpen(fs2.open, h);
        if k.Some? {
          InodeCloseInv(fs2, k.value);
          CloseLive(fs2, k.value, g);
        }
        UnlinkLive(fs1, found.value, g);
      }
      InodeOpenLive(fs, h, luck.inodeOk, g);
    }
  }

  /** What a call makes live is the file that it creates. */
  lemma DoesLive(fs: Fs, op: Op, fs': Fs, g: nat)
    requires Inv(fs) && Does(fs, op, fs') && Live(fs', g)
    ensures Live(fs, g) || (Made(fs, op).Some? && Made(fs, op).value.0 == g)
  {
    match op
    case CreateOp(name, size, luck) => CreateLive(fs, name, size, luck, g);
    case OpenOp(name, luck) =>
      if Open(fs, name, luck).1 == None {
        OpenFails(fs, name, luck);
      } else {
        var h := fs.entries[Lookup(fs.entries, name).value].sector;
        assert Listed(fs, h);
        InodeOpenInv(fs, h, luck.inodeOk);
        InodeOpenLive(fs, h, luck.inodeOk, g);
      }
    case RemoveOp(name, luck) => RemoveLive(fs, name, luck, g);
    case CloseOp(k) =>
      InodeCloseInv(fs, k);
      CloseLive(fs, k, g);
  }

  // ---------- a create that fails ----------

  function AllWell(): Luck {
    Luck(true, true, true, true, true, true)
  }

  /** A disk of seven sectors as formatting leaves it: one sector for the free map's four bytes
      and one for the root directory's sixteen entries. */
  function SmallDisk(): Fs {
    var d, root := DiskInode(2, 4), DiskInode(3, 320);
    Fs([true, true, true, true, false, false, false], map[FREE_MAP_SECTOR := d, ROOT_DIR_SECTOR := root],
       seq(16, _ => Entry(false, "", 0)), [OpenInode(FREE_MAP_SECTOR, 1, false, d)])
  }

  /** One free sector is found where it is. */
  lemma FirstFitIs(free: seq<bool>, at: nat)
    requires at < |free| && !free[at] && forall i :: 0 <= i < at ==> free[i]
    ensures FirstFit(free, 0, 1, false) == Some(at)
  {
    assert AllBits(free, at, 1, false);
    FirstFitLeast(free, 0, 1, false, at);
    assert !free[FirstFit(free, 0, 1, false).value];
  }

  lemma CreateMakes(fs: Fs, name: string, h: nat, i: nat)
    requires FirstFit(fs.free, 0, 1, false) == Some(h)
    requires 0 < |name| <= NAME_MAX && Lookup(fs.entries, name) == None && FreeSlot(fs.entries) == Some(i)
    ensures Create(fs, name, 0, AllWell()).1 && Create(fs, name, 0, AllWell()).0.free == Filled(fs.free, h, 1, true)
  {
    ScanZero(Filled(fs.free, h, 1, true), 0, false);
  }

  lemma SmallDiskInit()
    ensures Init(SmallDisk()) && FirstFit(SmallDisk().free, 0, 1, false) == Some(4)
    ensures Lookup(SmallDisk().entries, "a") == None && FreeSlot(SmallDisk().entries) == Some(0)
    ensures Filled(SmallDisk().free, 4, 1, true) == [true, true, true, true, true, false, false]
  {
    var fs := SmallDisk();
    assert Sectors(4) == 1 && Sectors(320) == 1;
    assert HeaderOk(fs, FREE_MAP_SECTOR) && HeaderOk(fs, ROOT_DIR_SECTOR);
    FirstFitIs(fs.free, 4);
  }

  /** A taken name and 512 bytes, with two sectors free. */
  lemma SecondCreate(fs: Fs)
    requires Inv(fs) && Lookup(fs.entries, "a").Some? && fs.free == [true, true, true, true, true, false, false]
    ensures var (fs', ok) := Create(fs, "a", 512, AllWell()); !ok && fs'.free != fs.free && Ownerless(fs', 6, 1)
  {
    assert Sectors(512) == 1;
    FirstFitIs(fs.free, 5);
    FirstFitIs(Filled(fs.free, 5, 1, true), 6);
    CreateTaken(fs, "a", 512, AllWell());
    CreateFails(fs, "a", 512, AllWell());
  }

  /** Creating an existing name with 512 bytes, on a disk just formatted and with one file: the
      call fails, and the sector that it took for the data is marked and belongs to nobody. */
  lemma TakenNameLeaks()
    ensures var (fs, made) := Create(SmallDisk(), "a", 0, AllWell());
            && Init(SmallDisk()) && made && Inv(fs)
            && var (fs', ok) := Create(fs, "a", 512, AllWell());
            && !ok && fs'.free != fs.free && Ownerless(fs', 6, 1)
  {
    SmallDiskInit();
    CreateMakes(SmallDisk(), "a", 4, 0);
    FromInit(SmallDisk(), "a");
  }

  lemma FromInit(fs: Fs, name: string)
    requires Init(fs) && Create(fs, name, 0, AllWell()).1
    requires Create(fs, name, 0, AllWell()).0.free == [true, true, true, true, true, false, false] && name == "a"
    ensures var fs1 := Create(fs, name, 0, AllWell()).0;
            && Inv(fs1) && var (fs', ok) := Create(fs1, name, 512, AllWell());
            && !ok && fs'.free != fs1.free && Ownerless(fs', 6, 1)
  {
    InitInv(fs);
    CreateInv(fs, name, 0, AllWell());
    CreateFound(fs, name, 0, AllWell());
    SecondCreate(Create(fs, name, 0, AllWell()).0);
  }
}
