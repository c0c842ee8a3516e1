/**
 The bytes of a file system: runs of the calls of FileSys, of writes through open inodes, and
 of denying and allowing them, over the sectors of the disk.
 */
module Stores {
  import opened Base
  import opened FileSys
  import opened Inodes

  /** A file system, the sectors of its disk, and `deny_write_cnt` of the open inodes. */
  datatype Store = Store(fs: Fs, sectors: seq<Sector>, deny: map<nat, nat>)

  /** A call on the file system; `inode_write_at` through an open inode, which moves `n` bytes;
      `inode_deny_write` and `inode_allow_write`. */
  datatype Act =
    | CallAct(op: Op)
    | WriteAct(h: nat, buffer: seq<Byte>, offset: nat, n: nat)
    | DenyAct(h: nat)
    | AllowAct(h: nat)

  function Denials(s: Store, h: nat): nat {
    if h in s.deny then s.deny[h] else 0
  }

  /** Data of the free map or of the root directory, which any call may write. */
  ghost predicate Meta(fs: Fs, i: nat) {
    || (FREE_MAP_SECTOR in fs.disk && Owns(fs.disk[FREE_MAP_SECTOR], i))
    || (ROOT_DIR_SECTOR in fs.disk && Owns(fs.disk[ROOT_DIR_SECTOR], i))
  }

  /** Any other sector after a call: a create that got sectors writes header and data of the
      new file, whether or not it finds room in the directory. */
  ghost function AfterCall(fs: Fs, op: Op, was: seq<Sector>, i: nat): Sector
    requires i < |was|
  {
    match Made(fs, op)
    case None => was[i]
    case Some(m) => AfterCreate(was, m.0, m.1, i)
  }

  ghost predicate CallWrites(fs: Fs, op: Op, was: seq<Sector>, now: seq<Sector>) {
    && |now| == |was|
    && forall i {:trigger now[i]} :: 0 <= i < |was| && !Meta(fs, i) ==> now[i] == AfterCall(fs, op, was, i)
  }

  /** An inode that stays open keeps its count, and one that is opened starts at zero. */
  ghost predicate DenialsKept(s: Store, s': Store) {
    forall h {:trigger Opened(s'.fs, h)} :: Opened(s'.fs, h) ==>
      Denials(s', h) == if Opened(s.fs, h) then Denials(s, h) else 0
  }

  ghost predicate Acts(s: Store, a: Act, s': Store)
    requires Inv(s.fs)
  {
    match a
    case CallAct(op) => Does(s.fs, op, s'.fs) && CallWrites(s.fs, op, s.sectors, s'.sectors) && DenialsKept(s, s')
    case WriteAct(h, buffer, offset, n) =>
      && s' == s.(sectors := s'.sectors) && Opened(s.fs, h) && h in s.fs.disk
      && n == (if Denials(s, h) > 0 then 0 else Moves(s.fs.disk[h].length, |buffer|, offset))
      && Progress(s.sectors, s'.sectors, s.fs.disk[h], buffer, offset, n)
    case DenyAct(h) => Opened(s.fs, h) && s' == s.(deny := s.deny[h := Denials(s, h) + 1])
    case AllowAct(h) => Opened(s.fs, h) && Denials(s, h) > 0 && s' == s.(deny := s.deny[h := Denials(s, h) - 1])
  }

  ghost predicate ActAt(tr: seq<Store>, acts: seq<Act>, i: nat)
    requires |tr| == |acts| + 1 && i < |acts|
  {
    Inv(tr[i].fs) ==> Acts(tr[i], acts[i], tr[i + 1])
  }

  /** A disk just formatted: the two headers are written. */
  ghost predicate StoreInit(s: Store) {
    && Init(s.fs) && |s.sectors| == |s.fs.free| && s.deny == map[]
    && HeaderOnDisk(s, FREE_MAP_SECTOR) && HeaderOnDisk(s, ROOT_DIR_SECTOR)
  }

  ghost predicate StoreRun(tr: seq<Store>, acts: seq<Act>) {
    && |tr| == |acts| + 1 && StoreInit(tr[0])
    && forall i {:trigger ActAt(tr, acts, i)} :: 0 <= i < |acts| ==> ActAt(tr, acts, i)
  }

  ghost predicate StoreOk(s: Store) {
    Inv(s.fs) && |s.sectors| == |s.fs.free|
  }

  lemma ActOk(s: Store, a: Act, s': Store)
    requires StoreOk(s) && Acts(s, a, s')
    ensures StoreOk(s')
  {
    if a.CallAct? {
      DoesInv(s.fs, a.op, s'.fs);
      DoesKeepsInode(s.fs, a.op, s'.fs, FREE_MAP_SECTOR);
    }
  }

  lemma {:induction false} RunOk(tr: seq<Store>, acts: seq<Act>, n: nat)
    requires StoreRun(tr, acts) && n < |tr|
    ensures StoreOk(tr[n])
  {
    if n == 0 {
      InitInv(tr[0].fs);
    } else {
      RunOk(tr, acts, n - 1);
      assert ActAt(tr, acts, n - 1);
      ActOk(tr[n - 1], acts[n - 1], tr[n]);
    }
  }

  // ---------- what calls leave alone ----------

  /** A call leaves every sector in use as it was, but for the data of the free map and of the
      root directory: what a create writes was free. */
  lemma CallFrame(fs: Fs, op: Op, was: seq<Sector>, now: seq<Sector>, i: nat)
    requires CallWrites(fs, op, was, now) && i < |was| == |fs.free| && fs.free[i] && !Meta(fs, i)
    ensures now[i] == was[i]
  {
    if Made(fs, op).Some? {
      var (h, d) := Made(fs, op).value;
      MadeFresh(fs, op, h, d);
      assert i != h && !Owns(d, i);
    }
  }

  /** Header and data of a live inode are not metadata; header sectors never are. */
  lemma NotMeta(fs: Fs, h: nat, i: nat)
    requires Inv(fs) && Live(fs, h) && h in fs.disk
    requires i == h || (Owns(fs.disk[h], i) && h != FREE_MAP_SECTOR && h != ROOT_DIR_SECTOR)
    ensures i < |fs.free| && fs.free[i] && !Meta(fs, i)
  {
    assert HeaderOk(fs, h) && HeaderOk(fs, FREE_MAP_SECTOR) && HeaderOk(fs, ROOT_DIR_SECTOR);
    if h != FREE_MAP_SECTOR { assert PairOk(fs, h, FREE_MAP_SECTOR); }
    if h != ROOT_DIR_SECTOR { assert PairOk(fs, h, ROOT_DIR_SECTOR); }
  }

  // ---------- headers ----------

  /** The inode that the file system takes for the one at `h` is what the sector holds. */
  ghost predicate HeaderOnDisk(s: Store, h: nat) {
    h in s.fs.disk && h < |s.sectors| && s.sectors[h] == HeaderBytes(s.fs.disk[h])
  }

  lemma HeaderStays(s: Store, a: Act, s': Store, h: nat)
    requires StoreOk(s) && Acts(s, a, s') && Live(s.fs, h) && HeaderOnDisk(s, h)
    ensures HeaderOnDisk(s', h) && s'.sectors[h] == s.sectors[h] && s'.fs.disk[h] == s.fs.disk[h]
  {
    if a.CallAct? {
      DoesKeepsInode(s.fs, a.op, s'.fs, h);
      NotMeta(s.fs, h, h);
      CallFrame(s.fs, a.op, s.sectors, s'.sectors, h);
    } else if a.WriteAct? {
      assert HeaderOk(s.fs, a.h) && HeaderOk(s.fs, h);
      if a.h != h { assert PairOk(s.fs, a.h, h); }
    }
  }

  lemma HeaderMade(s: Store, op: Op, s': Store, h: nat, d: DiskInode)
    requires StoreOk(s) && Acts(s, CallAct(op), s') && Made(s.fs, op) == Some((h, d))
    ensures HeaderOnDisk(s', h) && s'.fs.disk[h] == d
  {
    MadeFresh(s.fs, op, h, d);
    MadeOnDisk(s.fs, op, s'.fs, h, d);
    assert HeaderOk(s.fs, FREE_MAP_SECTOR) && HeaderOk(s.fs, ROOT_DIR_SECTOR);
    assert !Meta(s.fs, h);
    assert s'.sectors[h] == AfterCall(s.fs, op, s.sectors, h);
  }

  /** In every run, the sector of every inode in the directory or open holds that inode, so
      that `inode_open` reads what the model takes it to read. */
  lemma {:induction false} HeadersOnDisk(tr: seq<Store>, acts: seq<Act>, n: nat, h: nat)
    requires StoreRun(tr, acts) && n < |tr| && Live(tr[n].fs, h)
    ensures HeaderOnDisk(tr[n], h)
  {
    if n == 0 {
      InitLive(tr[0].fs, h);
    } else {
      var s, a := tr[n - 1], acts[n - 1];
      RunOk(tr, acts, n - 1);
      assert ActAt(tr, acts, n - 1);
      if a.CallAct? { DoesLive(s.fs, a.op, tr[n].fs, h); }
      if Live(s.fs, h) {
        HeadersOnDisk(tr, acts, n - 1, h);
        HeaderStays(s, a, tr[n], h);
      } else {
        HeaderMade(s, a.op, tr[n], h, Made(s.fs, a.op).value.1);
      }
    }
  }

  lemma InitLive(fs: Fs, h: nat)
    requires Init(fs) && Live(fs, h)
    ensures h == FREE_MAP_SECTOR || h == ROOT_DIR_SECTOR
  {
  }

  // ---------- data ----------

  /** The bytes of a file after the writes through its own inode `h`, and no others. */
  ghost function Replay(b: seq<Byte>, acts: seq<Act>, h: nat): (r: seq<Byte>)
    ensures |r| == |b|
  {
    if acts == [] then b
    else
      var was, a := Replay(b, acts[..|acts| - 1], h), acts[|acts| - 1];
      if a.WriteAct? && a.h == h && a.n <= |a.buffer| && (a.n > 0 ==> a.offset + a.n <= |b|)
      then Written(was, a.buffer, a.offset, a.n) else was
  }

  lemma ReplayOn(b: seq<Byte>, acts: seq<Act>, a: Act, h: nat)
    ensures Replay(b, acts + [a], h) == Replay(Replay(b, acts, h), [a], h)
  {
    assert (acts + [a])[..|acts|] == acts && [a][..0] == [];
  }

  /** A file: a live inode that is not one of the two the file system keeps for itself. */
  ghost predicate FileOf(s: Store, h: nat, d: DiskInode) {
    && StoreOk(s) && Live(s.fs, h) && h != FREE_MAP_SECTOR && h != ROOT_DIR_SECTOR
    && h in s.fs.disk && s.fs.disk[h] == d && Fits(s.sectors, d)
  }

  lemma LiveIsFile(s: Store, h: nat)
    requires StoreOk(s) && Live(s.fs, h) && h != FREE_MAP_SECTOR && h != ROOT_DIR_SECTOR
    ensures h in s.fs.disk && FileOf(s, h, s.fs.disk[h])
  {
    assert HeaderOk(s.fs, h);
  }

  lemma CallKeeps(s: Store, op: Op, s': Store, h: nat, d: DiskInode)
    requires FileOf(s, h, d) && Acts(s, CallAct(op), s')
    ensures h in s'.fs.disk && s'.fs.disk[h] == d && Fits(s'.sectors, d) && Data(s'.sectors, d) == Data(s.sectors, d)
  {
    DoesKeepsInode(s.fs, op, s'.fs, h);
    forall i | 0 <= i < d.length ensures s'.sectors[SectorOf(d, i)] == s.sectors[SectorOf(d, i)] {
      NotMeta(s.fs, h, SectorOf(d, i));
      CallFrame(s.fs, op, s.sectors, s'.sectors, SectorOf(d, i));
    }
  }

  /** A step changes the data of a file by a write through its own inode only. */
  lemma ActKeeps(s: Store, a: Act, s': Store, h: nat, d: DiskInode)
    requires FileOf(s, h, d) && Acts(s, a, s')
    ensures h in s'.fs.disk && s'.fs.disk[h] == d && Fits(s'.sectors, d)
    ensures Data(s'.sectors, d) == Replay(Data(s.sectors, d), [a], h)
  {
    assert [a][..0] == [];
    if a.CallAct? {
      CallKeeps(s, a.op, s', h, d);
    } else if a.WriteAct? && a.h != h {
      assert PairOk(s.fs, a.h, h);
      WriteElsewhere(s.sectors, s'.sectors, s.fs.disk[a.h], d);
    }
  }

  /** From one state to another, with `acts` between them, the file is what its own writes made
      of it. */
  ghost predicate Replayed(s: Store, acts: seq<Act>, s': Store, h: nat, d: DiskInode) {
    FileOf(s, h, d) && FileOf(s', h, d) && Data(s'.sectors, d) == Replay(Data(s.sectors, d), acts, h)
  }

  lemma ReplayedOn(s: Store, acts: seq<Act>, s1: Store, a: Act, s': Store, h: nat, d: DiskInode)
    requires Replayed(s, acts, s1, h, d) && Acts(s1, a, s') && StoreOk(s') && Live(s'.fs, h)
    ensures Replayed(s, acts + [a], s', h, d)
  {
    ActKeeps(s1, a, s', h, d);
    ReplayOn(Data(s.sectors, d), acts, a, h);
    LiveIsFile(s', h);
  }

  /** In every run, the bytes of a file, for as long as it is in the directory or open, are what
      the writes through its own inode have made of them: no write through another inode, no
      create, open, remove or close changes a byte. */
  lemma {:induction false} FileIsItsWrites(tr: seq<Store>, acts: seq<Act>, i: nat, n: nat, h: nat)
    requires StoreRun(tr, acts) && i <= n < |tr| && h != FREE_MAP_SECTOR && h != ROOT_DIR_SECTOR
    requires forall j {:trigger tr[j]} :: i <= j <= n ==> Live(tr[j].fs, h)
    ensures h in tr[i].fs.disk && Replayed(tr[i], acts[i..n], tr[n], h, tr[i].fs.disk[h])
  {
    RunOk(tr, acts, n);
    if n == i {
      LiveIsFile(tr[n], h);
      assert acts[i..n] == [];
    } else {
      FileIsItsWrites(tr, acts, i, n - 1, h);
      assert ActAt(tr, acts, n - 1);
      ReplayedOn(tr[i], acts[i..n - 1], tr[n - 1], acts[n - 1], tr[n], h, tr[i].fs.disk[h]);
      assert acts[i..n] == acts[i..n - 1] + [acts[n - 1]];
    }
  }

  function Zeros(n: nat): seq<Byte> {
    seq(n, _ => 0)
  }

  /** A new file is found under its name and is all zeros. */
  lemma CreatedBlank(s: Store, name: string, size: nat, luck: Luck, s': Store)
    requires StoreOk(s) && Acts(s, CallAct(CreateOp(name, size, luck)), s') && Create(s.fs, name, size, luck).1
    ensures var i := Lookup(s'.fs.entries, name);
            && i.Some? && Made(s.fs, CreateOp(name, size, luck)).Some?
            && var (h, d) := Made(s.fs, CreateOp(name, size, luck)).value;
            && s'.fs.entries[i.value].sector == h && d.length == size
            && FileOf(s', h, d) && Data(s'.sectors, d) == Zeros(size)
  {
    var op := CreateOp(name, size, luck);
    var (h, d) := Made(s.fs, op).value;
    CreateFound(s.fs, name, size, luck);
    var i := Lookup(s'.fs.entries, name).value;
    assert Listed(s'.fs, h);
    ActOk(s, CallAct(op), s');
    MadeFresh(s.fs, op, h, d);
    MadeOnDisk(s.fs, op, s'.fs, h, d);
    assert HeaderOk(s.fs, FREE_MAP_SECTOR) && HeaderOk(s.fs, ROOT_DIR_SECTOR);
    LiveIsFile(s', h);
    forall k | 0 <= k < size ensures s'.sectors[SectorOf(d, k)] == Blank() {
      assert Owns(d, SectorOf(d, k)) && !Meta(s.fs, SectorOf(d, k));
      assert s'.sectors[SectorOf(d, k)] == AfterCall(s.fs, op, s.sectors, SectorOf(d, k));
    }
    assert Data(s'.sectors, d) == Zeros(size);
  }

  /** In every run, a file that was created with `size` bytes holds, for as long as it is in the
      directory or open, zeros overwritten by the writes through its own inode. */
  lemma CreatedFile(tr: seq<Store>, acts: seq<Act>, i: nat, n: nat, name: string, size: nat, luck: Luck,
                    h: nat, d: DiskInode)
    requires StoreRun(tr, acts) && i < n < |tr| && acts[i] == CallAct(CreateOp(name, size, luck))
    requires Create(tr[i].fs, name, size, luck).1 && Made(tr[i].fs, acts[i].op) == Some((h, d))
    requires forall j {:trigger tr[j]} :: i < j <= n ==> Live(tr[j].fs, h)
    ensures var found := Lookup(tr[i + 1].fs.entries, name);
            found.Some? && tr[i + 1].fs.entries[found.value].sector == h
    ensures d.length == size && FileOf(tr[n], h, d)
    ensures Data(tr[n].sectors, d) == Replay(Zeros(size), acts[i + 1..n], h)
  {
    RunOk(tr, acts, i);
    assert ActAt(tr, acts, i);
    CreatedBlank(tr[i], name, size, luck, tr[i + 1]);
    FileIsItsWrites(tr, acts, i + 1, n, h);
  }

  /** In every run, a file that is denied writing keeps its bytes: an executable while it runs. */
  lemma {:induction false} DeniedFileStays(tr: seq<Store>, acts: seq<Act>, i: nat, n: nat, h: nat)
    requires StoreRun(tr, acts) && i <= n < |tr| && h != FREE_MAP_SECTOR && h != ROOT_DIR_SECTOR
    requires forall j {:trigger tr[j]} :: i <= j <= n ==> Live(tr[j].fs, h) && Denials(tr[j], h) > 0
    ensures h in tr[i].fs.disk && var d := tr[i].fs.disk[h];
            FileOf(tr[i], h, d) && FileOf(tr[n], h, d) && Data(tr[n].sectors, d) == Data(tr[i].sectors, d)
  {
    RunOk(tr, acts, n);
    LiveIsFile(tr[n], h);
    if n == i {
    } else {
      DeniedFileStays(tr, acts, i, n - 1, h);
      assert ActAt(tr, acts, n - 1);
      ActKeeps(tr[n - 1], acts[n - 1], tr[n], h, tr[i].fs.disk[h]);
      assert [acts[n - 1]][..0] == [];
    }
  }
}
