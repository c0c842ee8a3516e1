/**
 filesys/filesys.c, directory.c, inode.c and free-map.c as they work: a bitmap, directory
 entries and a list of open inodes, changed in place, against the operations of FileSys.
 */
module Files {
  import opened Base
  import opened Bitmaps
  import F = FileSys

  class FileSystem {
    const freeMap: Bitmap
    var disk: map<nat, F.DiskInode>
    var entries: seq<F.Entry>
    var open: seq<F.OpenInode>

    ghost function View(): F.Fs
      requires freeMap.Valid()
      reads this, freeMap.bits
    {
      F.Fs(freeMap.Bits(), disk, entries, open)
    }

    ghost predicate Valid()
      reads this, freeMap.bits
    {
      freeMap.Valid() && F.Inv(View())
    }

    /** `free_map_init`, `do_format` and `free_map_open`: a file system of `size` sectors whose free map needs
        `mapBytes` bytes and whose root directory has room for `slots` entries. */
    constructor (size: nat, mapBytes: nat, slots: nat)
      requires 2 + F.Sectors(mapBytes) + F.Sectors(F.ENTRY_SIZE * slots) <= size
      ensures Valid() && |entries| == slots && F.Init(View())
    {
      freeMap := new Bitmap(size);
      var map_ := F.DiskInode(2, mapBytes);
      var root := F.DiskInode(2 + F.Sectors(mapBytes), F.ENTRY_SIZE * slots);
      disk := map[F.FREE_MAP_SECTOR := map_, F.ROOT_DIR_SECTOR := root];
      entries := seq(slots, _ => F.Entry(false, "", 0));
      open := [F.OpenInode(F.FREE_MAP_SECTOR, 1, false, map_)];
      new;
      freeMap.SetMultiple(0, 2 + F.Sectors(mapBytes) + F.Sectors(F.ENTRY_SIZE * slots), true);
      F.InitInv(View());
    }

    /** `free_map_allocate` */
    method Allocate(cnt: nat, written: bool) returns (at: Option<nat>)
      requires freeMap.Valid()
      modifies freeMap.bits
      ensures at == F.Allocate(old(freeMap.Bits()), cnt, written).1
      ensures freeMap.Bits() == F.Allocate(old(freeMap.Bits()), cnt, written).0
    {
      at := freeMap.ScanAndFlip(0, cnt, false);
      if at != None && !written {
        freeMap.SetMultiple(at.value, cnt, false);
        at := None;
      }
    }

    /** `lookup`, in the root directory. */
    method Lookup(name: string) returns (r: Option<nat>)
      ensures r == F.Lookup(entries, name)
    {
      for i := 0 to |entries|
        invariant Shift(F.Lookup(entries[i..], name), i) == F.Lookup(entries, name)
      {
        if entries[i].inUse && entries[i].name == name {
          return Some(i);
        }
        assert entries[i..][1..] == entries[i + 1..];
      }
      return None;
    }

    /** The first entry that is not in use: the loop of `dir_add`. */
    method FreeSlot() returns (r: Option<nat>)
      ensures r == F.FreeSlot(entries)
    {
      for i := 0 to |entries|
        invariant Shift(F.FreeSlot(entries[i..]), i) == F.FreeSlot(entries)
      {
        if !entries[i].inUse { return Some(i); }
        assert entries[i..][1..] == entries[i + 1..];
      }
      return None;
    }

    /** The search of `inode_open` among the open inodes. */
    method FindOpen(h: nat) returns (r: Option<nat>)
      ensures r == F.FindOpen(open, h)
    {
      for i := 0 to |open|
        invariant Shift(F.FindOpen(open[i..], h), i) == F.FindOpen(open, h)
      {
        if open[i].sector == h { return Some(i); }
        assert open[i..][1..] == open[i + 1..];
      }
      return None;
    }

    /** `inode_open` */
    method InodeOpen(h: nat, inodeOk: bool) returns (ok: bool)
      requires freeMap.Valid() && h in disk
      modifies this`open
      ensures View() == F.InodeOpen(old(View()), h, inodeOk).0 && ok == F.InodeOpen(old(View()), h, inodeOk).1
    {
      var k := FindOpen(h);
      if k != None {
        open := open[k.value := open[k.value].(openCnt := open[k.value].openCnt + 1)];
        return true;
      }
      if !inodeOk { return false; }
      open := [F.OpenInode(h, 1, false, disk[h])] + open;
      return true;
    }

    /** `inode_close`, with the assertion of `free_map_release` that the sectors are marked. */
    method InodeClose(k: nat)
      requires Valid() && k < |open|
      modifies this`open, freeMap.bits
      ensures Valid() && View() == F.Close(old(View()), k)
    {
      F.InodeCloseInv(View(), k);
      F.CanClose(View(), k);
      var o := open[k];
      if o.openCnt > 1 {
        open := open[k := o.(openCnt := o.openCnt - 1)];
      } else {
        open := open[..k] + open[k + 1..];
        if o.removed {
          assert AllBits(freeMap.Bits(), o.sector, 1, true);
          freeMap.SetMultiple(o.sector, 1, false);
          assert AllBits(freeMap.Bits(), o.data.start, F.Sectors(o.data.length), true);
          freeMap.SetMultiple(o.data.start, F.Sectors(o.data.length), false);
        }
      }
    }

    /** `inode_create` */
    method InodeCreate(h: nat, length: nat, luck: F.Luck) returns (ok: bool)
      requires freeMap.Valid()
      modifies this`disk, freeMap.bits
      ensures View() == F.InodeCreate(old(View()), h, length, luck).0
      ensures ok == F.InodeCreate(old(View()), h, length, luck).1
    {
      if !luck.callocOk { return false; }
      var start := Allocate(F.Sectors(length), luck.dataWrite);
      if start != None { disk := disk[h := F.DiskInode(start.value, length)]; }
      ok := start != None;
    }

    /** `dir_add` */
    method DirAdd(name: string, h: nat) returns (ok: bool)
      requires freeMap.Valid()
      modifies this`entries
      ensures View() == F.DirAdd(old(View()), name, h).0 && ok == F.DirAdd(old(View()), name, h).1
    {
      if name == "" || |name| > F.NAME_MAX { return false; }
      var found := Lookup(name);
      if found != None { return false; }
      var i := FreeSlot();
      if i != None { entries := entries[i.value := F.Entry(true, name, h)]; }
      ok := i != None;
    }

    /** `filesys_create` */
    method Create(name: string, size: nat, luck: F.Luck) returns (ok: bool)
      requires Valid()
      modifies this`disk, this`entries, freeMap.bits
      ensures Valid() && View() == F.Create(old(View()), name, size, luck).0
      ensures ok == F.Create(old(View()), name, size, luck).1
    {
      F.CreateInv(View(), name, size, luck);
      ok := false;
      if !luck.dirOk { return; }
      var h := Allocate(1, luck.headerWrite);
      if h == None { return; }
      ok := InodeCreate(h.value, size, luck);
      if ok { ok := DirAdd(name, h.value); }
      if !ok { freeMap.SetMultiple(h.value, 1, false); }
    }

    /** `filesys_open` with `file_open` */
    method Open(name: string, luck: F.Luck) returns (h: Option<nat>)
      requires Valid()
      modifies this`open, freeMap.bits
      ensures Valid() && View() == F.Open(old(View()), name, luck).0 && h == F.Open(old(View()), name, luck).1
    {
      F.OpenInv(View(), name, luck);
      if !luck.dirOk { return None; }
      var i := Lookup(name);
      if i == None { return None; }
      assert F.Listed(View(), entries[i.value].sector);
      F.InodeOpenInv(View(), entries[i.value].sector, luck.inodeOk);
      h := Some(entries[i.value].sector);
      var ok := InodeOpen(h.value, luck.inodeOk);
      if !ok { return None; }
      if !luck.fileOk {
        var k := FindOpen(h.value);
        InodeClose(k.value);
        return None;
      }
    }

    /** `filesys_remove` with `dir_remove` */
    method Remove(name: string, luck: F.Luck) returns (ok: bool)
      requires Valid()
      modifies this`entries, this`open, freeMap.bits
      ensures Valid() && View() == F.Remove(old(View()), name, luck).0 && ok == F.Remove(old(View()), name, luck).1
    {
      F.RemoveInv(View(), name, luck);
      if !luck.dirOk { return false; }
      var i := Lookup(name);
      if i == None { return false; }
      var h := entries[i.value].sector;
      assert F.Listed(View(), h);
      F.InodeOpenInv(View(), h, luck.inodeOk);
      ok := InodeOpen(h, luck.inodeOk);
      if !ok { return; }
      F.UnlinkInv(View(), i.value);
      entries := entries[i.value := entries[i.value].(inUse := false)];
      var k := FindOpen(h);
      open := open[k.value := open[k.value].(removed := true)];
      InodeClose(k.value);
    }
  }

  function Shift(r: Option<nat>, i: nat): Option<nat> {
    match r case None => None case Some(k) => Some(i + k)
  }
}
