/**
 The buffer cache of filesys/cache.c as a step system.

 Any number of threads run cached reads, cached writes, asynchronous fetches and
 write-backs.  Every lock operation, every assigned field, every look at one block and
 every device transfer is a step of its own, and steps of different threads interleave
 freely.  A look may read two fields of the block: `LooksAreAtomic` shows that they do
 not change in between.  Locks are the atomic lock that the rw_lock refines.

 `plain` and `log` record what the completed transfers amount to: no step reads them.
 */
module BufferCache {
  import opened Base
  import opened AtomicLock

  type Sector = nat
  type Block = seq<Byte>

  datatype BlockState = UNOCCUPIED | IN_IO | CLEAN | DIRTY

  /** `struct cached_block` without its lock and its accessed flag. */
  datatype CachedBlock = CachedBlock(sector: Sector, state: BlockState, data: Block)

  /** A transfer between a caller's buffer and the cache. */
  datatype Event =
    | Wrote(sector: Sector, ofs: nat, bytes: seq<Byte>)
    | Returned(sector: Sector, ofs: nat, bytes: seq<Byte>)

  /** The device, the cached blocks, and the record of what callers have done. */
  datatype Data = Data(disk: map<Sector, Block>, blocks: seq<CachedBlock>,
                       plain: map<Sector, Block>, log: seq<Event>)

  /** The clock of `get_free_block`: the arm and the accessed flags. */
  datatype Clock = Clock(arm: nat, accessed: seq<bool>)

  /** sector_lock, fs_evict_lock, and the lock of each block. */
  datatype LockName = SectorLock | EvictLock | BlockLock(b: nat)
  type Locks = map<LockName, Holders>

  /** An operation on one lock, for writing when `w` holds. */
  datatype LockOp = Nothing | Take(name: LockName, w: bool) | Drop(name: LockName, w: bool)

  /** What a thread is asked to do. */
  datatype Job =
    | Read(sector: Sector, ofs: nat, end: nat)
    | Write(sector: Sector, ofs: nat, bytes: seq<Byte>)
    | Fetch(sector: Sector)
    | Flush
  {
    predicate Access() { Read? || Write? }
  }

  /** The next thing a thread does.  `b` is the block in hand; `w` says that its
      lock is held for writing. */
  datatype Pc =
    | Idle | Start
    // find_cached_sector, the hit
    | Scan(i: nat) | Found(b: nat) | LockBlock(b: nat) | Check(b: nat)
    | Copy(b: nat, w: bool) | SetDirty(b: nat) | SetAccessed(b: nat, w: bool)
    | Unlock(b: nat, w: bool, retry: bool)
    // get_free_block
    | EvictAcquire | Tick | TryBlock(b: nat) | Inspect(b: nat) | Pass(b: nat) | PassUnlock(b: nat)
    | EvictRelease(b: nat, free: bool)
    // write_back
    | WriteBack(b: nat) | DeviceWrite(b: nat) | Written(b: nat) | Vacate(b: nat)
    // the miss
    | DropSector(b: nat) | TakeSector(b: nat) | Rescan(b: nat, i: nat) | Lost(b: nat)
    | SetSector(b: nat) | SetInIo(b: nat) | Publish(b: nat) | Fill(b: nat)
    | FetchClear(b: nat) | Filled(b: nat)
    // write_back_all
    | FlushTry(b: nat)

  datatype Thread = Thread(job: Job, pc: Pc)

  // ---------- contents ----------

  /** Block `b` counts as a copy of sector `x`: what `find_cached_sector` looks for. */
  predicate Names(d: Data, b: nat, x: Sector)
    requires b < |d.blocks|
  {
    d.blocks[b].sector == x && d.blocks[b].state != UNOCCUPIED
  }

  predicate NoneNames(d: Data, x: Sector, n: nat)
    requires n <= |d.blocks|
  {
    forall j :: 0 <= j < n ==> !Names(d, j, x)
  }

  function SetState(d: Data, b: nat, st: BlockState): Data
    requires b < |d.blocks|
  {
    d.(blocks := d.blocks[b := d.blocks[b].(state := st)])
  }

  predicate ValidJob(d: Data, job: Job) {
    match job
    case Read(x, ofs, end) => x in d.disk && ofs < end <= SECTOR_SIZE
    case Write(x, ofs, bytes) => x in d.disk && 0 < |bytes| && ofs + |bytes| <= SECTOR_SIZE
    case Fetch(x) => x in d.disk
    case Flush => true
  }

  // ---------- actions ----------

  /** After a block has been freed for `job`: a fetch still holds the sector lock. */
  function Freed(job: Job, b: nat): Pc {
    if job.Fetch? then SetSector(b) else DropSector(b)
  }

  /** The lock operation that stands at a program counter.  A try may fail, also
      because of a thread that only waits for the lock. */
  predicate LockMove(th: Thread, n: nat, op: LockOp, pc': Pc) {
    match th.pc
    case Start =>
      if th.job.Flush? then op == Nothing && pc'.FlushTry? && pc'.b < n
      else op == Take(SectorLock, th.job.Fetch?) && pc' == Scan(0)
    case Found(b) =>
      op == Drop(SectorLock, th.job.Fetch?) && pc' == if th.job.Fetch? then Idle else LockBlock(b)
    case LockBlock(b) => op == Take(BlockLock(b), th.job.Write?) && pc' == Check(b)
    case Unlock(b, w, retry) => op == Drop(BlockLock(b), w) && pc' == if retry then Start else Idle
    case EvictAcquire => op == Take(EvictLock, true) && pc' == Tick
    case TryBlock(b) => (op == Nothing && pc' == Tick) || (op == Take(BlockLock(b), true) && pc' == Inspect(b))
    case PassUnlock(b) => op == Drop(BlockLock(b), true) && pc' == Tick
    case EvictRelease(b, free) => op == Drop(EvictLock, true) && pc' == if free then Freed(th.job, b) else WriteBack(b)
    case DropSector(b) => op == Drop(SectorLock, false) && pc' == TakeSector(b)
    case TakeSector(b) => op == Take(SectorLock, true) && pc' == Rescan(b, 0)
    case Lost(b) => op == Drop(SectorLock, true) && pc' == Unlock(b, true, true)
    case Publish(b) => op == Drop(SectorLock, true) && pc' == Fill(b)
    case FlushTry(b) => (op == Nothing && pc' == Idle) || (op == Take(BlockLock(b), true) && pc' == WriteBack(b))
    case _ => false
  }

  /** The operation itself: taking a lock waits until it is free. */
  predicate LockEffect(l: Locks, t: Tid, op: LockOp, l': Locks) {
    match op
    case Nothing => l' == l
    case Take(n, w) =>
      && n in l && (if w then l[n].CanWrite() else l[n].CanRead())
      && l' == l[n := if w then l[n].TakeWrite(t) else l[n].TakeRead(t)]
    case Drop(n, w) =>
      n in l && l' == l[n := if w then l[n].DropWrite(t) else l[n].DropRead(t)]
  }

  ghost predicate LockAct(l: Locks, t: Tid, th: Thread, n: nat, l': Locks, pc': Pc) {
    exists op :: LockMove(th, n, op, pc') && LockEffect(l, t, op, l')
  }

  /** Actions that only look at the cached blocks, or move the clock. */
  predicate LookAct(d: Data, c: Clock, th: Thread, c': Clock, pc': Pc)
    requires |c.accessed| == |d.blocks|
  {
    match th.pc
    case Scan(i) =>
      && c' == c && !th.job.Flush?
      && pc' == if i >= |d.blocks| then EvictAcquire else if Names(d, i, th.job.sector) then Found(i) else Scan(i + 1)
    case Check(b) =>
      && c' == c && b < |d.blocks| && th.job.Access()
      && pc' == if d.blocks[b].sector == th.job.sector && (d.blocks[b].state == CLEAN || d.blocks[b].state == DIRTY)
                then Copy(b, th.job.Write?) else Unlock(b, th.job.Write?, true)
    case SetAccessed(b, w) =>
      b < |d.blocks| && c' == c.(accessed := c.accessed[b := true]) && pc' == Unlock(b, w, false)
    case Tick =>
      c.arm < |d.blocks| && c' == c.(arm := (c.arm + 1) % |d.blocks|) && pc' == TryBlock(c.arm)
    case Inspect(b) =>
      && c' == c && b < |d.blocks|
      && pc' == if d.blocks[b].state == UNOCCUPIED then EvictRelease(b, true)
                else if !c.accessed[b] then EvictRelease(b, false) else Pass(b)
    case Pass(b) =>
      b < |d.blocks| && c' == c.(accessed := c.accessed[b := false]) && pc' == PassUnlock(b)
    case FetchClear(b) =>
      b < |d.blocks| && c' == c.(accessed := c.accessed[b := false]) && pc' == Filled(b)
    case Rescan(b, i) =>
      && c' == c && !th.job.Flush?
      && pc' == if i >= |d.blocks| then SetSector(b)
                else if Names(d, i, th.job.sector) then Lost(b) else Rescan(b, i + 1)
    case _ => false
  }

  /** What a thread at `th.pc` does to the cached blocks, the device and the record. */
  predicate DataEffect(d: Data, th: Thread, d': Data)
    requires ValidJob(d, th.job)
  {
    match th.pc
    case Copy(b, w) =>
      && b < |d.blocks| && |d.blocks[b].data| == SECTOR_SIZE
      && (match th.job
          case Write(x, ofs, bytes) =>
            && x in d.plain && |d.plain[x]| == SECTOR_SIZE
            && d' == d.(blocks := d.blocks[b := d.blocks[b].(data := Splice(d.blocks[b].data, ofs, bytes))],
                        plain := d.plain[x := Splice(d.plain[x], ofs, bytes)],
                        log := d.log + [Wrote(x, ofs, bytes)])
          case Read(x, ofs, end) =>
            d' == d.(log := d.log + [Returned(x, ofs, d.blocks[b].data[ofs..end])])
          case _ => false)
    case SetDirty(b) => b < |d.blocks| && d' == SetState(d, b, DIRTY)
    case WriteBack(b) => b < |d.blocks| && d' == if d.blocks[b].state == DIRTY then SetState(d, b, IN_IO) else d
    case DeviceWrite(b) => b < |d.blocks| && d' == d.(disk := d.disk[d.blocks[b].sector := d.blocks[b].data])
    case Written(b) => b < |d.blocks| && d' == SetState(d, b, CLEAN)
    case Vacate(b) => b < |d.blocks| && d' == SetState(d, b, UNOCCUPIED)
    case SetSector(b) =>
      && b < |d.blocks| && !th.job.Flush?
      && d' == d.(blocks := d.blocks[b := d.blocks[b].(sector := th.job.sector)])
    case SetInIo(b) => b < |d.blocks| && d' == SetState(d, b, IN_IO)
    case Fill(b) =>
      && b < |d.blocks| && d.blocks[b].sector in d.disk
      && d' == d.(blocks := d.blocks[b := d.blocks[b].(data := d.disk[d.blocks[b].sector])])
    case Filled(b) => b < |d.blocks| && d' == SetState(d, b, CLEAN)
    case _ => false
  }

  /** Where the thread goes next; `dirty` tells whether the block in hand was dirty. */
  predicate DataMove(th: Thread, dirty: bool, pc': Pc) {
    match th.pc
    case Copy(b, w) => pc' == if th.job.Write? then SetDirty(b) else SetAccessed(b, w)
    case SetDirty(b) => pc' == SetAccessed(b, true)
    case WriteBack(b) => pc' == if dirty then DeviceWrite(b) else AfterWriteBack(th.job, b)
    case DeviceWrite(b) => pc' == Written(b)
    case Written(b) => pc' == AfterWriteBack(th.job, b)
    case Vacate(b) => pc' == Freed(th.job, b)
    case SetSector(b) => pc' == SetInIo(b)
    case SetInIo(b) => pc' == Publish(b)
    case Fill(b) => pc' == if th.job.Fetch? then FetchClear(b) else Filled(b)
    case Filled(b) => pc' == if th.job.Fetch? then Unlock(b, true, false) else Copy(b, true)
    case _ => false
  }

  /** `write_back` returns to the flusher or to `get_free_block`. */
  function AfterWriteBack(job: Job, b: nat): Pc {
    if job.Flush? then Unlock(b, true, false) else Vacate(b)
  }

  predicate DataAct(d: Data, th: Thread, d': Data, pc': Pc)
    requires ValidJob(d, th.job)
  {
    && DataEffect(d, th, d')
    && DataMove(th, Hand(th.pc) < |d.blocks| && d.blocks[Hand(th.pc)].state == DIRTY, pc')
  }

  /** The block in hand. */
  function Hand(pc: Pc): nat {
    match pc
    case Idle => 0
    case Start => 0
    case Scan(_) => 0
    case EvictAcquire => 0
    case Tick => 0
    case _ => pc.b
  }

  // ---------- ownership ----------

  /** Inside `get_free_block`, or done with it while still holding the sector lock. */
  predicate Freeing(pc: Pc) {
    || pc.EvictAcquire? || pc.Tick? || pc.TryBlock? || pc.Inspect? || pc.Pass? || pc.PassUnlock?
    || pc.EvictRelease? || pc.WriteBack? || pc.DeviceWrite? || pc.Written? || pc.Vacate?
  }

  predicate SectorRead(th: Thread) {
    th.job.Access() && (th.pc.Scan? || th.pc.Found? || Freeing(th.pc) || th.pc.DropSector?)
  }

  predicate SectorWrite(th: Thread) {
    || th.pc.Rescan? || th.pc.Lost? || th.pc.SetSector? || th.pc.SetInIo? || th.pc.Publish?
    || (th.job.Fetch? && (th.pc.Scan? || th.pc.Found? || Freeing(th.pc)))
  }

  predicate EvictOwned(pc: Pc) {
    pc.Tick? || pc.TryBlock? || pc.Inspect? || pc.Pass? || pc.PassUnlock? || pc.EvictRelease?
  }

  predicate BlockWrite(th: Thread, b: nat) {
    match th.pc
    case Check(c) => c == b && th.job.Write?
    case Copy(c, w) => c == b && w
    case SetAccessed(c, w) => c == b && w
    case Unlock(c, w, _) => c == b && w
    case SetDirty(c) => c == b
    case Inspect(c) => c == b
    case Pass(c) => c == b
    case PassUnlock(c) => c == b
    case EvictRelease(c, _) => c == b
    case WriteBack(c) => c == b
    case DeviceWrite(c) => c == b
    case Written(c) => c == b
    case Vacate(c) => c == b
    case DropSector(c) => c == b
    case TakeSector(c) => c == b
    case Rescan(c, _) => c == b
    case Lost(c) => c == b
    case SetSector(c) => c == b
    case SetInIo(c) => c == b
    case Publish(c) => c == b
    case Fill(c) => c == b
    case FetchClear(c) => c == b
    case Filled(c) => c == b
    case _ => false
  }

  predicate Owns(th: Thread, n: LockName, w: bool) {
    match n
    case SectorLock => if w then SectorWrite(th) else SectorRead(th)
    case EvictLock => w && EvictOwned(th.pc)
    case BlockLock(b) => if w then BlockWrite(th, b) else BlockRead(th, b)
  }

  predicate BlockRead(th: Thread, b: nat) {
    match th.pc
    case Check(c) => c == b && !th.job.Write?
    case Copy(c, w) => c == b && !w
    case SetAccessed(c, w) => c == b && !w
    case Unlock(c, w, _) => c == b && !w
    case _ => false
  }

  // ---------- the system ----------

  datatype State = State(d: Data, c: Clock, l: Locks, threads: map<Tid, Thread>)

  ghost predicate AllLocks(l: Locks, n: nat) {
    forall name :: name in l <==> (name.BlockLock? ==> name.b < n)
  }

  /** `init_fs_cache` over the device `disk`: every block unoccupied, nobody active. */
  ghost predicate Init(s: State, disk: map<Sector, Block>) {
    && (forall x :: x in disk ==> |disk[x]| == SECTOR_SIZE)
    && s.d.disk == s.d.plain == disk && s.d.log == []
    && 0 < |s.d.blocks| == |s.c.accessed| && s.c.arm == 0
    && (forall b :: 0 <= b < |s.d.blocks| ==> s.d.blocks[b].state == UNOCCUPIED && |s.d.blocks[b].data| == SECTOR_SIZE)
    && AllLocks(s.l, |s.d.blocks|) && (forall n :: n in s.l ==> s.l[n] == Unheld)
    && (forall t :: t in s.threads ==> s.threads[t] == Thread(Flush, Idle))
  }

  /** Thread `t` takes a new job, or does the next thing of its job. */
  ghost predicate Step(s: State, s': State, t: Tid) {
    && t in s.threads && t in s'.threads && s'.threads == s.threads[t := s'.threads[t]]
    && |s.c.accessed| == |s.d.blocks| && ValidJob(s.d, s.threads[t].job)
    && var th, th' := s.threads[t], s'.threads[t];
       || (th.pc == Idle && th'.pc == Start && ValidJob(s.d, th'.job) && s'.d == s.d && s'.c == s.c && s'.l == s.l)
       || (th'.job == th.job && LockAct(s.l, t, th, |s.d.blocks|, s'.l, th'.pc) && s'.d == s.d && s'.c == s.c)
       || (th'.job == th.job && LookAct(s.d, s.c, th, s'.c, th'.pc) && s'.d == s.d && s'.l == s.l)
       || (th'.job == th.job && DataAct(s.d, th, s'.d, th'.pc) && s'.c == s.c && s'.l == s.l)
  }

  // ---------- invariants: locks ----------

  predicate Holds(h: Holders, t: Tid, w: bool) {
    if w then t in h.writers else t in h.readers
  }

  /** Thread `t` holds the locks that its program counter says. */
  ghost predicate OwnBooks(l: Locks, t: Tid, th: Thread) {
    forall n, w :: n in l ==> (Holds(l[n], t, w) <==> Owns(th, n, w))
  }

  /** The block in hand is one of the `n` blocks, and the job fits the place. */
  predicate PcOk(th: Thread, n: nat) {
    match th.pc
    case Idle => true
    case Start => true
    case Scan(i) => i <= n && !th.job.Flush?
    case Found(b) => b < n && !th.job.Flush?
    case LockBlock(b) => b < n && th.job.Access()
    case Check(b) => b < n && th.job.Access()
    case Copy(b, w) => b < n && th.job.Access() && (th.job.Write? ==> w)
    case SetDirty(b) => b < n && th.job.Write?
    case SetAccessed(b, w) => b < n && th.job.Access()
    case Unlock(b, _, retry) => b < n && (retry ==> th.job.Access())
    case EvictAcquire => !th.job.Flush?
    case Tick => !th.job.Flush?
    case DropSector(b) => b < n && th.job.Access()
    case TakeSector(b) => b < n && th.job.Access()
    case Rescan(b, i) => b < n && i <= n && th.job.Access()
    case Lost(b) => b < n && th.job.Access()
    case WriteBack(b) => b < n
    case DeviceWrite(b) => b < n
    case Written(b) => b < n
    case FlushTry(b) => b < n && th.job.Flush?
    case FetchClear(b) => b < n && th.job.Fetch?
    case _ => th.pc.b < n && !th.job.Flush?
  }

  /** What a thread owns changes by exactly the lock operation it does. */
  lemma MoveOwns(th: Thread, blocks: nat, op: LockOp, pc': Pc, n: LockName, w: bool)
    requires PcOk(th, blocks) && LockMove(th, blocks, op, pc')
    ensures Owns(Thread(th.job, pc'), n, w) <==> (op == Take(n, w) || (Owns(th, n, w) && op != Drop(n, w)))
    ensures PcOk(Thread(th.job, pc'), blocks)
  {
  }

  lemma LookOwns(d: Data, c: Clock, th: Thread, c': Clock, pc': Pc, n: LockName, w: bool)
    requires |c.accessed| == |d.blocks| && PcOk(th, |d.blocks|) && LookAct(d, c, th, c', pc')
    ensures Owns(Thread(th.job, pc'), n, w) <==> Owns(th, n, w)
    ensures PcOk(Thread(th.job, pc'), |d.blocks|)
  {
  }

  lemma DataOwns(th: Thread, blocks: nat, dirty: bool, pc': Pc, n: LockName, w: bool)
    requires PcOk(th, blocks) && DataMove(th, dirty, pc')
    ensures Owns(Thread(th.job, pc'), n, w) <==> Owns(th, n, w)
    ensures PcOk(Thread(th.job, pc'), blocks)
  {
  }

  // ---------- invariants: contents ----------

  /** What a thread knows about the block in its hand. */
  datatype Phase = Unknown | Resting | Hit | Copied | Saving | Saved | Droppable | Free | Claimed | Filling | Loaded

  function PhaseOf(th: Thread): Phase {
    match th.pc
    case Check(_) => Resting
    case Copy(_, _) => Hit
    case SetDirty(_) => Copied
    case SetAccessed(_, _) => Hit
    case Unlock(_, _, retry) => if th.job.Flush? then Droppable else if retry then Resting else Hit
    case Inspect(_) => Resting
    case Pass(_) => Resting
    case PassUnlock(_) => Resting
    case EvictRelease(_, free) => if free then Free else Resting
    case WriteBack(_) => Resting
    case DeviceWrite(_) => Saving
    case Written(_) => Saved
    case Vacate(_) => Droppable
    case DropSector(_) => Free
    case TakeSector(_) => Free
    case Rescan(_, _) => Free
    case Lost(_) => Free
    case SetSector(_) => Free
    case SetInIo(_) => Claimed
    case Publish(_) => Filling
    case Fill(_) => Filling
    case FetchClear(_) => Loaded
    case Filled(_) => Loaded
    case _ => Unknown
  }

  /** The block's data are the bytes its sector should read. */
  predicate Current(d: Data, b: nat)
    requires b < |d.blocks|
  {
    d.blocks[b].sector in d.plain && d.blocks[b].data == d.plain[d.blocks[b].sector]
  }

  /** The device holds the bytes the block's sector should read. */
  predicate Stored(d: Data, b: nat)
    requires b < |d.blocks|
  {
    var x := d.blocks[b].sector;
    x in d.plain && x in d.disk && d.disk[x] == d.plain[x]
  }

  /** A block that no writer holds: not in IO, and a copy if it is occupied. */
  predicate Rest(d: Data, b: nat)
    requires b < |d.blocks|
  {
    match d.blocks[b].state
    case UNOCCUPIED => true
    case IN_IO => false
    case CLEAN => Current(d, b) && Stored(d, b)
    case DIRTY => Current(d, b)
  }

  predicate InPhase(d: Data, b: nat, job: Job, ph: Phase)
    requires b < |d.blocks|
  {
    var blk := d.blocks[b];
    match ph
    case Unknown => true
    case Resting => Rest(d, b)
    case Hit => Rest(d, b) && blk.state != UNOCCUPIED && !job.Flush? && blk.sector == job.sector
    case Copied =>
      (blk.state == CLEAN || blk.state == DIRTY) && Current(d, b) && !job.Flush? && blk.sector == job.sector
    case Saving => blk.state == IN_IO && Current(d, b)
    case Saved => blk.state == IN_IO && Current(d, b) && Stored(d, b)
    case Droppable => Rest(d, b) && blk.state != DIRTY
    case Free => blk.state == UNOCCUPIED
    case Claimed => blk.state == UNOCCUPIED && !job.Flush? && blk.sector == job.sector
    case Filling => blk.state == IN_IO && Stored(d, b) && !job.Flush? && blk.sector == job.sector
    case Loaded => blk.state == IN_IO && Current(d, b) && Stored(d, b) && !job.Flush? && blk.sector == job.sector
  }

  /** In these phases the block could be left alone. */
  predicate AtRest(ph: Phase) {
    ph == Resting || ph == Hit || ph == Droppable
  }

  /** How many leading blocks the thread knows not to name its sector. */
  function Cleared(th: Thread, n: nat): nat {
    match th.pc
    case Scan(i) => i
    case Rescan(_, i) => i
    case SetSector(_) => n
    case SetInIo(_) => n
    case _ => if th.job.Fetch? && Freeing(th.pc) then n else 0
  }

  ghost predicate ThreadOk(d: Data, th: Thread) {
    && ValidJob(d, th.job) && PcOk(th, |d.blocks|)
    && (PhaseOf(th) != Unknown ==> InPhase(d, Hand(th.pc), th.job, PhaseOf(th)))
    && (!th.job.Flush? ==> NoneNames(d, th.job.sector, Cleared(th, |d.blocks|)))
  }

  /** At most one occupied block names any sector. */
  predicate Unique(d: Data) {
    forall b, c :: 0 <= b < c < |d.blocks| && d.blocks[b].state != UNOCCUPIED && d.blocks[c].state != UNOCCUPIED
                   ==> d.blocks[b].sector != d.blocks[c].sector
  }

  /** A sector that is not in the cache is up to date on the device. */
  predicate AbsentStored(d: Data) {
    forall x :: x in d.disk && x in d.plain && NoneNames(d, x, |d.blocks|) ==> d.disk[x] == d.plain[x]
  }

  predicate Shape(d: Data) {
    && d.plain.Keys == d.disk.Keys
    && (forall x :: x in d.disk ==> |d.disk[x]| == SECTOR_SIZE && |d.plain[x]| == SECTOR_SIZE)
    && (forall b :: 0 <= b < |d.blocks| ==> |d.blocks[b].data| == SECTOR_SIZE)
    && (forall b :: 0 <= b < |d.blocks| && d.blocks[b].state != UNOCCUPIED ==> d.blocks[b].sector in d.disk)
  }

  ghost predicate DataOk(d: Data) {
    0 < |d.blocks| && Shape(d) && Unique(d) && AbsentStored(d)
  }

  ghost predicate LocksOk(s: State) {
    && AllLocks(s.l, |s.d.blocks|)
    && (forall n :: n in s.l ==> s.l[n].Exclusive() && s.l[n].writers <= s.threads.Keys)
    && (forall t :: t in s.threads ==> OwnBooks(s.l, t, s.threads[t]))
  }

  ghost predicate Inv(s: State) {
    && |s.c.accessed| == |s.d.blocks| && s.c.arm < |s.d.blocks|
    && LocksOk(s) && DataOk(s.d)
    && (forall t :: t in s.threads ==> ThreadOk(s.d, s.threads[t]))
    && (forall b :: 0 <= b < |s.d.blocks| && s.l[BlockLock(b)].writers == {} ==> Rest(s.d, b))
  }

  // ---------- actions that leave the contents alone ----------

  /** A lock operation moves a thread to a phase it may claim: a block just locked
      rests, and otherwise the phase in hand is kept. */
  lemma MovePhase(th: Thread, n: nat, op: LockOp, pc': Pc)
    requires PcOk(th, n) && LockMove(th, n, op, pc')
    ensures var ph' := PhaseOf(Thread(th.job, pc'));
            || ph' == Unknown
            || (Hand(pc') == Hand(th.pc) && ph' == PhaseOf(th))
            || (Hand(pc') == Hand(th.pc) && ph' == Resting && PhaseOf(th) == Free)
            || (ph' == Resting && op.Take? && op.name == BlockLock(Hand(pc')))
    ensures op.Drop? && op.name.BlockLock? ==> AtRest(PhaseOf(th)) && op.name.b == Hand(th.pc)
    ensures Cleared(Thread(th.job, pc'), n) <= Cleared(th, n)
  {
  }

  /** Looking at the blocks and moving the clock keeps what the thread knows true. */
  lemma LookOk(d: Data, c: Clock, th: Thread, c': Clock, pc': Pc)
    requires |c.accessed| == |d.blocks| && c.arm < |d.blocks| && ThreadOk(d, th) && LookAct(d, c, th, c', pc')
    ensures ThreadOk(d, Thread(th.job, pc'))
    ensures |c'.accessed| == |d.blocks| && c'.arm < |d.blocks|
  {
    LookOwns(d, c, th, c', pc', SectorLock, true);
  }

  /** A lock operation changes the standing of the acting thread only. */
  lemma LockEffectBooks(l: Locks, t: Tid, op: LockOp, l': Locks, n: LockName, u: Tid, w: bool)
    requires LockEffect(l, t, op, l') && n in l
    ensures l'.Keys == l.Keys
    ensures Holds(l'[n], u, w) <==> if u == t then op == Take(n, w) || (Holds(l[n], t, w) && op != Drop(n, w))
                                    else Holds(l[n], u, w)
  {
  }

  lemma LockEffectExclusive(l: Locks, t: Tid, op: LockOp, l': Locks, n: LockName)
    requires LockEffect(l, t, op, l') && n in l && l[n].Exclusive()
    ensures n in l' && l'[n].Exclusive() && l'[n].writers <= l[n].writers + {t}
  {
  }

  lemma LocksStep(s: State, s': State, t: Tid, op: LockOp)
    requires LocksOk(s) && t in s.threads && ThreadOk(s.d, s.threads[t])
    requires s'.d == s.d && t in s'.threads && s'.threads == s.threads[t := s'.threads[t]]
    requires s'.threads[t].job == s.threads[t].job
    requires LockMove(s.threads[t], |s.d.blocks|, op, s'.threads[t].pc) && LockEffect(s.l, t, op, s'.l)
    ensures LocksOk(s')
  {
    forall n | n in s.l ensures n in s'.l && s'.l[n].Exclusive() && s'.l[n].writers <= s'.threads.Keys {
      LockEffectExclusive(s.l, t, op, s'.l, n);
    }
    assert s'.l.Keys == s.l.Keys;
    forall u, n, w | u in s'.threads && n in s'.l ensures Holds(s'.l[n], u, w) <==> Owns(s'.threads[u], n, w) {
      LockEffectBooks(s.l, t, op, s'.l, n, u, w);
      MoveOwns(s.threads[t], |s.d.blocks|, op, s'.threads[t].pc, n, w);
      assert OwnBooks(s.l, u, s.threads[u]);
    }
  }

  lemma LockThreadOk(s: State, s': State, t: Tid, op: LockOp)
    requires Inv(s) && t in s.threads
    requires s'.d == s.d && t in s'.threads && s'.threads[t].job == s.threads[t].job
    requires LockMove(s.threads[t], |s.d.blocks|, op, s'.threads[t].pc) && LockEffect(s.l, t, op, s'.l)
    ensures ThreadOk(s'.d, s'.threads[t])
  {
    var th, th', n := s.threads[t], s'.threads[t], |s.d.blocks|;
    assert ThreadOk(s.d, th);
    MoveOwns(th, n, op, th'.pc, SectorLock, true);
    MovePhase(th, n, op, th'.pc);
    if PhaseOf(th') == Resting && op.Take? && op.name == BlockLock(Hand(th'.pc)) {
      assert s.l[BlockLock(Hand(th'.pc))].writers == {};
    }
  }

  /** A block whose last writer has just left is at rest. */
  lemma LockRest(s: State, s': State, t: Tid, op: LockOp, b: nat)
    requires Inv(s) && t in s.threads && b < |s.d.blocks|
    requires s'.d == s.d && t in s'.threads && s'.threads[t].job == s.threads[t].job
    requires LockMove(s.threads[t], |s.d.blocks|, op, s'.threads[t].pc) && LockEffect(s.l, t, op, s'.l)
    requires BlockLock(b) in s'.l && s'.l[BlockLock(b)].writers == {}
    ensures Rest(s'.d, b)
  {
    assert ThreadOk(s.d, s.threads[t]);
    MovePhase(s.threads[t], |s.d.blocks|, op, s'.threads[t].pc);
    if s.l[BlockLock(b)].writers != {} {
      assert op.Drop? && op.name == BlockLock(b);
    }
  }

  lemma LockStepInv(s: State, s': State, t: Tid, op: LockOp)
    requires Inv(s) && t in s.threads
    requires s'.d == s.d && s'.c == s.c && t in s'.threads && s'.threads == s.threads[t := s'.threads[t]]
    requires s'.threads[t].job == s.threads[t].job
    requires LockMove(s.threads[t], |s.d.blocks|, op, s'.threads[t].pc) && LockEffect(s.l, t, op, s'.l)
    ensures Inv(s')
  {
    assert ThreadOk(s.d, s.threads[t]);
    LocksStep(s, s', t, op);
    LockThreadOk(s, s', t, op);
    forall b | 0 <= b < |s'.d.blocks| && s'.l[BlockLock(b)].writers == {} ensures Rest(s'.d, b) {
      LockRest(s, s', t, op, b);
    }
  }

  lemma LookStepInv(s: State, s': State, t: Tid)
    requires Inv(s) && t in s.threads
    requires s'.d == s.d && s'.l == s.l && t in s'.threads && s'.threads == s.threads[t := s'.threads[t]]
    requires s'.threads[t].job == s.threads[t].job
    requires LookAct(s.d, s.c, s.threads[t], s'.c, s'.threads[t].pc)
    ensures Inv(s')
  {
    var th, th' := s.threads[t], s'.threads[t];
    assert ThreadOk(s.d, th);
    LookOk(s.d, s.c, th, s'.c, th'.pc);
    assert OwnBooks(s.l, t, th);
    forall n, w | n in s.l ensures Holds(s.l[n], t, w) <==> Owns(th', n, w) {
      LookOwns(s.d, s.c, th, s'.c, th'.pc, n, w);
    }
  }

  lemma IdleStepInv(s: State, s': State, t: Tid)
    requires Inv(s) && t in s.threads && s.threads[t].pc == Idle
    requires s'.d == s.d && s'.c == s.c && s'.l == s.l && t in s'.threads && s'.threads == s.threads[t := s'.threads[t]]
    requires s'.threads[t].pc == Start && ValidJob(s.d, s'.threads[t].job)
    ensures Inv(s')
  {
    var th, th' := s.threads[t], s'.threads[t];
    assert OwnBooks(s.l, t, th);
    forall n, w ensures Owns(th, n, w) <==> Owns(th', n, w) {}
    assert OwnBooks(s'.l, t, th');
    assert ThreadOk(s'.d, th');
  }

  // ---------- actions that change the contents ----------

  /** Only block `b` changed, and only the bytes of the sector it stood for. */
  predicate Frame(d: Data, d': Data, b: nat) {
    && b < |d.blocks| == |d'.blocks|
    && d'.disk.Keys == d.disk.Keys && d'.plain.Keys == d.plain.Keys
    && (forall c :: 0 <= c < |d.blocks| && c != b ==> d'.blocks[c] == d.blocks[c])
    && (forall x :: x in d.disk && (d.blocks[b].state == UNOCCUPIED || x != d.blocks[b].sector) ==>
          d'.disk[x] == d.disk[x])
    && (forall x :: x in d.plain && (d.blocks[b].state == UNOCCUPIED || x != d.blocks[b].sector) ==>
          d'.plain[x] == d.plain[x])
  }

  lemma FramePhase(d: Data, d': Data, b: nat, c: nat, job: Job, ph: Phase)
    requires Unique(d) && Frame(d, d', b) && c < |d.blocks| && c != b && InPhase(d, c, job, ph)
    ensures InPhase(d', c, job, ph)
  {
    assert d'.blocks[c] == d.blocks[c];
    if d.blocks[c].state != UNOCCUPIED && d.blocks[b].state != UNOCCUPIED {
      assert d.blocks[c].sector != d.blocks[b].sector;
    }
  }

  lemma FrameAct(d: Data, th: Thread, d': Data)
    requires DataOk(d) && ThreadOk(d, th) && DataEffect(d, th, d')
    ensures Frame(d, d', Hand(th.pc))
    ensures th.pc.Copy? && th.job.Read? ==> d' == d.(log := d'.log)
  {
  }

  lemma CopyPhase(d: Data, th: Thread, d': Data, pc': Pc)
    requires DataOk(d) && ThreadOk(d, th) && DataAct(d, th, d', pc') && th.pc.Copy?
    ensures Hand(pc') == Hand(th.pc) < |d'.blocks|
    ensures InPhase(d', Hand(pc'), th.job, PhaseOf(Thread(th.job, pc')))
  {
  }

  lemma WriteBackPhase(d: Data, th: Thread, d': Data, pc': Pc)
    requires DataOk(d) && ThreadOk(d, th) && DataAct(d, th, d', pc')
    requires th.pc.WriteBack? || th.pc.DeviceWrite? || th.pc.Written?
    ensures Hand(pc') == Hand(th.pc) < |d'.blocks|
    ensures InPhase(d', Hand(pc'), th.job, PhaseOf(Thread(th.job, pc')))
  {
  }

  lemma MarkPhase(d: Data, th: Thread, d': Data, pc': Pc)
    requires DataOk(d) && ThreadOk(d, th) && DataAct(d, th, d', pc')
    requires th.pc.SetDirty? || th.pc.Vacate? || th.pc.SetSector?
    ensures Hand(pc') == Hand(th.pc) < |d'.blocks|
    ensures InPhase(d', Hand(pc'), th.job, PhaseOf(Thread(th.job, pc')))
  {
  }

  lemma FillPhase(d: Data, th: Thread, d': Data, pc': Pc)
    requires DataOk(d) && ThreadOk(d, th) && DataAct(d, th, d', pc')
    requires th.pc.SetInIo? || th.pc.Fill?
    ensures Hand(pc') == Hand(th.pc) < |d'.blocks|
    ensures InPhase(d', Hand(pc'), th.job, PhaseOf(Thread(th.job, pc')))
  {
  }

  lemma FilledPhase(d: Data, th: Thread, d': Data, pc': Pc)
    requires DataOk(d) && ThreadOk(d, th) && DataAct(d, th, d', pc') && th.pc.Filled?
    ensures Hand(pc') == Hand(th.pc) < |d'.blocks|
    ensures InPhase(d', Hand(pc'), th.job, PhaseOf(Thread(th.job, pc')))
  {
  }

  /** The block in hand moves to the phase that the next program counter claims. */
  lemma HandPhase(d: Data, th: Thread, d': Data, pc': Pc)
    requires DataOk(d) && ThreadOk(d, th) && DataAct(d, th, d', pc')
    ensures Hand(pc') == Hand(th.pc) < |d'.blocks|
    ensures InPhase(d', Hand(pc'), th.job, PhaseOf(Thread(th.job, pc')))
  {
    if th.pc.Copy? {
      CopyPhase(d, th, d', pc');
    } else if th.pc.WriteBack? || th.pc.DeviceWrite? || th.pc.Written? {
      WriteBackPhase(d, th, d', pc');
    } else if th.pc.SetDirty? || th.pc.Vacate? || th.pc.SetSector? {
      MarkPhase(d, th, d', pc');
    } else if th.pc.Filled? {
      FilledPhase(d, th, d', pc');
    } else {
      FillPhase(d, th, d', pc');
    }
  }

  /** Only `SetInIo` makes a block name a sector, and only its own. */
  lemma NamesAct(d: Data, th: Thread, d': Data, c: nat, x: Sector)
    requires DataOk(d) && ThreadOk(d, th) && DataEffect(d, th, d') && c < |d.blocks| == |d'.blocks|
    requires Names(d', c, x) && !Names(d, c, x)
    ensures th.pc.SetInIo? && c == Hand(th.pc) && !th.job.Flush? && x == th.job.sector
  {
  }

  /** Only `Vacate` makes a block stop naming a sector. */
  lemma UnnamesAct(d: Data, th: Thread, d': Data, c: nat, x: Sector)
    requires DataOk(d) && ThreadOk(d, th) && DataEffect(d, th, d') && c < |d.blocks| == |d'.blocks|
    requires Names(d, c, x) && !Names(d', c, x)
    ensures th.pc.Vacate? && c == Hand(th.pc) && Stored(d, c)
    ensures d'.disk == d.disk && d'.plain == d.plain
  {
  }

  lemma UniqueAct(d: Data, th: Thread, d': Data)
    requires DataOk(d) && ThreadOk(d, th) && DataEffect(d, th, d')
    ensures Unique(d')
  {
    FrameAct(d, th, d');
    forall b, c | 0 <= b < c < |d'.blocks| && d'.blocks[b].state != UNOCCUPIED && d'.blocks[c].state != UNOCCUPIED
      ensures d'.blocks[b].sector != d'.blocks[c].sector
    {
      var x := d'.blocks[b].sector;
      if x == d'.blocks[c].sector {
        assert Names(d', b, x) && Names(d', c, x);
        if !Names(d, b, x) {
          NamesAct(d, th, d', b, x);
          assert Names(d, c, x);
        } else if !Names(d, c, x) {
          NamesAct(d, th, d', c, x);
        }
      }
    }
  }

  lemma AbsentAct(d: Data, th: Thread, d': Data)
    requires DataOk(d) && ThreadOk(d, th) && DataEffect(d, th, d')
    ensures AbsentStored(d')
  {
    FrameAct(d, th, d');
    var h := Hand(th.pc);
    forall x | x in d'.disk && x in d'.plain && NoneNames(d', x, |d'.blocks|) ensures d'.disk[x] == d'.plain[x] {
      if NoneNames(d, x, |d.blocks|) {
        assert !Names(d, h, x);
      } else {
        var c :| 0 <= c < |d.blocks| && Names(d, c, x);
        UnnamesAct(d, th, d', c, x);
      }
    }
  }

  lemma ShapeAct(d: Data, th: Thread, d': Data)
    requires DataOk(d) && ThreadOk(d, th) && DataEffect(d, th, d')
    ensures Shape(d')
  {
    FrameAct(d, th, d');
  }

  lemma ActThreadOk(d: Data, th: Thread, d': Data, pc': Pc)
    requires DataOk(d) && ThreadOk(d, th) && DataAct(d, th, d', pc')
    ensures ThreadOk(d', Thread(th.job, pc'))
  {
    FrameAct(d, th, d');
    HandPhase(d, th, d', pc');
    var th', n, h := Thread(th.job, pc'), |d.blocks|, Hand(th.pc);
    DataOwns(th, n, d.blocks[h].state == DIRTY, pc', SectorLock, true);
    DataCleared(th, n, d.blocks[h].state == DIRTY, pc');
    if !th.job.Flush? {
      forall j | 0 <= j < Cleared(th', n) ensures !Names(d', j, th.job.sector) {
        assert !Names(d, j, th.job.sector);
        if Names(d', j, th.job.sector) { NamesAct(d, th, d', j, th.job.sector); }
      }
    }
  }

  lemma DataCleared(th: Thread, n: nat, dirty: bool, pc': Pc)
    requires PcOk(th, n) && DataMove(th, dirty, pc')
    ensures Cleared(Thread(th.job, pc'), n) <= Cleared(th, n)
    ensures th.pc.SetInIo? ==> Cleared(Thread(th.job, pc'), n) == 0
  {
  }

  /** A thread that knows anything from a scan still holds the sector lock. */
  lemma ClearedOwns(th: Thread, n: nat)
    requires PcOk(th, n) && Cleared(th, n) > 0
    ensures Owns(th, SectorLock, true) || Owns(th, SectorLock, false)
  {
  }

  /** A thread that knows anything about a block holds its lock. */
  lemma PhaseOwns(th: Thread, n: nat)
    requires PcOk(th, n) && PhaseOf(th) != Unknown
    ensures Hand(th.pc) < n && (Owns(th, BlockLock(Hand(th.pc)), true) || Owns(th, BlockLock(Hand(th.pc)), false))
  {
  }

  /** A thread that changes the contents holds the block for writing, and a thread
      that publishes a sector holds the sector lock for writing. */
  lemma ActOwns(d: Data, th: Thread, d': Data)
    requires ThreadOk(d, th) && DataEffect(d, th, d')
    ensures (th.pc.Copy? && th.job.Read?) || Owns(th, BlockLock(Hand(th.pc)), true)
    ensures th.pc.SetInIo? ==> Owns(th, SectorLock, true)
  {
  }

  lemma OtherThreadOk(d: Data, th: Thread, d': Data, o: Thread)
    requires DataOk(d) && ThreadOk(d, th) && DataEffect(d, th, d') && ThreadOk(d, o)
    requires (th.pc.Copy? && th.job.Read?) || !(Owns(o, BlockLock(Hand(th.pc)), true)
                                                || Owns(o, BlockLock(Hand(th.pc)), false))
    requires th.pc.SetInIo? ==> !Owns(o, SectorLock, true) && !Owns(o, SectorLock, false)
    ensures ThreadOk(d', o)
  {
    FrameAct(d, th, d');
    var n := |d.blocks|;
    if PhaseOf(o) != Unknown {
      PhaseOwns(o, n);
      if !(th.pc.Copy? && th.job.Read?) {
        FramePhase(d, d', Hand(th.pc), Hand(o.pc), o.job, PhaseOf(o));
      }
    }
    if !o.job.Flush? {
      forall j | 0 <= j < Cleared(o, n) ensures !Names(d', j, o.job.sector) {
        assert !Names(d, j, o.job.sector);
        if Names(d', j, o.job.sector) { NamesAct(d, th, d', j, o.job.sector); ClearedOwns(o, n); }
      }
    }
  }

  /** A thread that acts alone on a block has no company at its lock. */
  lemma Alone(s: State, t: Tid, u: Tid, n: LockName)
    requires LocksOk(s) && t in s.threads && u in s.threads && t != u && n in s.l && Owns(s.threads[t], n, true)
    ensures !Owns(s.threads[u], n, true) && !Owns(s.threads[u], n, false)
    ensures s.l[n].writers != {}
  {
    assert OwnBooks(s.l, t, s.threads[t]) && OwnBooks(s.l, u, s.threads[u]);
    assert Holds(s.l[n], t, true) && s.l[n].Exclusive();
    assert !Holds(s.l[n], u, true) && !Holds(s.l[n], u, false);
  }

  lemma DataOthers(s: State, s': State, t: Tid, u: Tid)
    requires Inv(s) && t in s.threads && u in s.threads && u != t
    requires ThreadOk(s.d, s.threads[t]) && DataEffect(s.d, s.threads[t], s'.d)
    ensures ThreadOk(s'.d, s.threads[u])
  {
    var th := s.threads[t];
    ActOwns(s.d, th, s'.d);
    if !(th.pc.Copy? && th.job.Read?) { Alone(s, t, u, BlockLock(Hand(th.pc))); }
    if th.pc.SetInIo? { Alone(s, t, u, SectorLock); }
    OtherThreadOk(s.d, th, s'.d, s.threads[u]);
  }

  lemma DataRest(s: State, s': State, t: Tid, b: nat)
    requires Inv(s) && t in s.threads && b < |s.d.blocks| == |s'.d.blocks|
    requires ThreadOk(s.d, s.threads[t]) && DataEffect(s.d, s.threads[t], s'.d)
    requires s.l[BlockLock(b)].writers == {}
    ensures Rest(s'.d, b)
  {
    var th := s.threads[t];
    ActOwns(s.d, th, s'.d);
    FrameAct(s.d, th, s'.d);
    assert OwnBooks(s.l, t, th);
    if !(th.pc.Copy? && th.job.Read?) {
      assert !Holds(s.l[BlockLock(b)], t, true);
      FramePhase(s.d, s'.d, Hand(th.pc), b, th.job, Resting);
    }
  }

  lemma DataBooks(l: Locks, t: Tid, th: Thread, blocks: nat, dirty: bool, pc': Pc)
    requires PcOk(th, blocks) && DataMove(th, dirty, pc') && OwnBooks(l, t, th)
    ensures OwnBooks(l, t, Thread(th.job, pc'))
  {
    forall n, w | n in l ensures Holds(l[n], t, w) <==> Owns(Thread(th.job, pc'), n, w) {
      DataOwns(th, blocks, dirty, pc', n, w);
    }
  }

  lemma DataStepInv(s: State, s': State, t: Tid)
    requires Inv(s) && t in s.threads && ThreadOk(s.d, s.threads[t])
    requires s'.c == s.c && s'.l == s.l && t in s'.threads && s'.threads == s.threads[t := s'.threads[t]]
    requires s'.threads[t].job == s.threads[t].job
    requires DataAct(s.d, s.threads[t], s'.d, s'.threads[t].pc)
    ensures Inv(s')
  {
    var th, th' := s.threads[t], s'.threads[t];
    FrameAct(s.d, th, s'.d);
    assert DataOk(s'.d) by {
      UniqueAct(s.d, th, s'.d);
      AbsentAct(s.d, th, s'.d);
      ShapeAct(s.d, th, s'.d);
    }
    ActThreadOk(s.d, th, s'.d, th'.pc);
    forall u | u in s'.threads && u != t ensures ThreadOk(s'.d, s'.threads[u]) { DataOthers(s, s', t, u); }
    DataBooks(s.l, t, th, |s.d.blocks|, s.d.blocks[Hand(th.pc)].state == DIRTY, th'.pc);
    forall b | 0 <= b < |s'.d.blocks| && s'.l[BlockLock(b)].writers == {} ensures Rest(s'.d, b) {
      DataRest(s, s', t, b);
    }
  }

  /** Every step of every thread keeps the invariant. */
  lemma StepInv(s: State, s': State, t: Tid)
    requires Inv(s) && Step(s, s', t)
    ensures Inv(s')
  {
    var th, th' := s.threads[t], s'.threads[t];
    assert ThreadOk(s.d, th);
    if th.pc == Idle && th'.pc == Start && s'.d == s.d && s'.c == s.c && s'.l == s.l && ValidJob(s.d, th'.job) {
      IdleStepInv(s, s', t);
    } else if LockAct(s.l, t, th, |s.d.blocks|, s'.l, th'.pc) && s'.d == s.d && s'.c == s.c {
      var op :| LockMove(th, |s.d.blocks|, op, th'.pc) && LockEffect(s.l, t, op, s'.l);
      LockStepInv(s, s', t, op);
    } else if LookAct(s.d, s.c, th, s'.c, th'.pc) && s'.d == s.d && s'.l == s.l {
      LookStepInv(s, s', t);
    } else {
      DataStepInv(s, s', t);
    }
  }

  lemma InitInv(s: State, disk: map<Sector, Block>)
    requires Init(s, disk)
    ensures Inv(s)
  {
    forall t | t in s.threads ensures OwnBooks(s.l, t, s.threads[t]) && ThreadOk(s.d, s.threads[t]) {
      forall n, w ensures !Owns(s.threads[t], n, w) {}
    }
  }

  // ---------- what the invariant says ----------

  /** The block is in IO only while a thread that is doing the IO holds its lock for writing. */
  lemma InIoLocked(s: State, b: nat) returns (t: Tid)
    requires Inv(s) && b < |s.d.blocks| && s.d.blocks[b].state == IN_IO
    ensures t in s.threads && s.l[BlockLock(b)].writers == {t}
    ensures s.threads[t].pc in {DeviceWrite(b), Written(b), Publish(b), Fill(b), FetchClear(b), Filled(b)}
  {
    var h := s.l[BlockLock(b)];
    t :| t in h.writers;
    assert h.writers == {t};
    var th := s.threads[t];
    assert OwnBooks(s.l, t, th) && Holds(h, t, true) && ThreadOk(s.d, th);
    assert Owns(th, BlockLock(b), true);
    WriterKnows(th, |s.d.blocks|, b);
  }

  /** A writer of a block has it in hand and knows its phase. */
  lemma WriterKnows(th: Thread, n: nat, b: nat)
    requires PcOk(th, n) && BlockWrite(th, b)
    ensures Hand(th.pc) == b && PhaseOf(th) != Unknown
  {
  }

  /** The assertions on IN_IO in `write_back` and `get_free_block` never fire. */
  lemma AssertionsHold(s: State, t: Tid, b: nat)
    requires Inv(s) && t in s.threads
    requires s.threads[t].pc == WriteBack(b) || s.threads[t].pc == Inspect(b)
    ensures b < |s.d.blocks| && s.d.blocks[b].state != IN_IO
  {
    assert ThreadOk(s.d, s.threads[t]);
  }

  /** A data step changes the block in hand alone, and a sector only at `SetSector`. */
  lemma EffectInHand(d: Data, th: Thread, d': Data, b: nat)
    requires ValidJob(d, th.job) && DataEffect(d, th, d') && b < |d.blocks|
    ensures |d'.blocks| == |d.blocks| && (d'.blocks[b] != d.blocks[b] ==> b == Hand(th.pc))
    ensures th.pc.Copy? && th.job.Read? ==> d'.blocks == d.blocks
    ensures !th.pc.SetSector? ==> d'.blocks[b].sector == d.blocks[b].sector
  {
  }

  /** While a thread looks at a block, no step of another changes what it looks at: during a
      lookup no sector changes, and what is looked at under a block's lock stays.  So a look
      that reads two fields, one after the other, sees what it would have seen at once. */
  lemma LooksAreAtomic(s: State, s': State, t: Tid, u: Tid, b: nat)
    requires Inv(s) && Step(s, s', t) && u in s.threads && u != t && b < |s.d.blocks|
    ensures |s'.d.blocks| == |s.d.blocks| && |s'.c.accessed| == |s.c.accessed|
    ensures s.threads[u].pc.Scan? || s.threads[u].pc.Rescan? ==> s'.d.blocks[b].sector == s.d.blocks[b].sector
    ensures s.threads[u].pc == Check(b) || s.threads[u].pc == Inspect(b) ==> s'.d.blocks[b] == s.d.blocks[b]
    ensures s.threads[u].pc == Inspect(b) ==> s'.c.accessed[b] == s.c.accessed[b]
  {
    var th, o := s.threads[t], s.threads[u];
    assert ThreadOk(s.d, th) && ThreadOk(s.d, o);
    if s'.d != s.d {
      EffectInHand(s.d, th, s'.d, b);
      ActOwns(s.d, th, s'.d);
      if th.pc.SetSector? { Alone(s, t, u, SectorLock); }
      if !(th.pc.Copy? && th.job.Read?) { Alone(s, t, u, BlockLock(Hand(th.pc))); }
    }
    if o.pc == Inspect(b) { Alone(s, u, t, BlockLock(b)); }
  }

  /** Block `b` may be ahead of the device: dirty, just written into, or being written back. */
  ghost predicate Ahead(s: State, b: nat)
    requires b < |s.d.blocks|
  {
    s.d.blocks[b].state == DIRTY || exists t :: t in s.threads && s.threads[t].pc in {SetDirty(b), DeviceWrite(b)}
  }

  /** A sector without such a block is up to date on the device. */
  lemma OnlyAheadDiffers(s: State, x: Sector)
    requires Inv(s) && x in s.d.disk && x in s.d.plain && s.d.disk[x] != s.d.plain[x]
    ensures exists b :: 0 <= b < |s.d.blocks| && Names(s.d, b, x) && Ahead(s, b)
  {
    var b :| 0 <= b < |s.d.blocks| && Names(s.d, b, x);
    var h := s.l[BlockLock(b)];
    if h.writers != {} {
      var t :| t in h.writers;
      var th := s.threads[t];
      assert OwnBooks(s.l, t, th) && Holds(h, t, true) && ThreadOk(s.d, th);
      assert Owns(th, BlockLock(b), true);
      WriterKnows(th, |s.d.blocks|, b);
    }
  }

  // ---------- refinement of the plain disk ----------

  /** What an event does to a plain disk. */
  function Apply(disk: map<Sector, Block>, e: Event): map<Sector, Block> {
    if e.Wrote? && e.sector in disk && e.ofs + |e.bytes| <= |disk[e.sector]|
    then disk[e.sector := Splice(disk[e.sector], e.ofs, e.bytes)]
    else disk
  }

  /** A plain disk after a history of writes. */
  function Replay(disk: map<Sector, Block>, log: seq<Event>): map<Sector, Block> {
    if log == [] then disk else Apply(Replay(disk, log[..|log| - 1]), log[|log| - 1])
  }

  /** The event is what a plain disk with these contents would do. */
  predicate Honest(disk: map<Sector, Block>, e: Event) {
    && e.sector in disk && e.ofs + |e.bytes| <= |disk[e.sector]|
    && (e.Returned? ==> e.bytes == disk[e.sector][e.ofs..e.ofs + |e.bytes|])
  }

  /** Each step leaves the plain disk alone, or completes one honest transfer on it. */
  lemma StepRefines(s: State, s': State, t: Tid)
    requires Inv(s) && Step(s, s', t)
    ensures || (s'.d.plain == s.d.plain && s'.d.log == s.d.log)
            || (|s'.d.log| == |s.d.log| + 1 && s'.d.log[..|s.d.log|] == s.d.log
                && Honest(s.d.plain, s'.d.log[|s.d.log|]) && s'.d.plain == Apply(s.d.plain, s'.d.log[|s.d.log|]))
  {
    var th := s.threads[t];
    assert ThreadOk(s.d, th);
    if s'.d != s.d && th.pc.Copy? {
      CopyHonest(s.d, th, s'.d);
    }
  }

  lemma CopyHonest(d: Data, th: Thread, d': Data)
    requires DataOk(d) && ThreadOk(d, th) && th.pc.Copy? && DataEffect(d, th, d')
    ensures |d'.log| == |d.log| + 1 && d'.log[..|d.log|] == d.log
    ensures Honest(d.plain, d'.log[|d.log|]) && d'.plain == Apply(d.plain, d'.log[|d.log|])
  {
  }

  ghost predicate Next(s: State, s': State) {
    exists t :: Step(s, s', t)
  }

  ghost predicate Run(tr: seq<State>, disk: map<Sector, Block>) {
    && |tr| > 0 && Init(tr[0], disk)
    && forall i :: 0 <= i < |tr| - 1 ==> Next(tr[i], tr[i + 1])
  }

  /** The log is a history that a plain disk would produce, and `plain` is where it ends. */
  ghost predicate Faithful(disk: map<Sector, Block>, d: Data) {
    && d.plain == Replay(disk, d.log)
    && forall i :: 0 <= i < |d.log| ==> Honest(Replay(disk, d.log[..i]), d.log[i])
  }

  lemma FaithfulExtends(disk: map<Sector, Block>, d: Data, d': Data)
    requires Faithful(disk, d)
    requires |d'.log| == |d.log| + 1 && d'.log[..|d.log|] == d.log
    requires Honest(d.plain, d'.log[|d.log|]) && d'.plain == Apply(d.plain, d'.log[|d.log|])
    ensures Faithful(disk, d')
  {
    forall i | 0 <= i < |d'.log| ensures Honest(Replay(disk, d'.log[..i]), d'.log[i]) {
      if i < |d.log| { assert d'.log[..i] == d.log[..i] && d'.log[i] == d.log[i]; }
    }
  }

  /** In every interleaving the cache behaves as a plain disk: each read returns the
      bytes left by the writes before it, and the invariant holds throughout. */
  lemma {:induction false} CacheRefinesDisk(tr: seq<State>, disk: map<Sector, Block>, n: nat)
    requires Run(tr, disk) && n < |tr|
    ensures Inv(tr[n]) && Faithful(disk, tr[n].d)
  {
    if n == 0 {
      InitInv(tr[0], disk);
    } else {
      CacheRefinesDisk(tr, disk, n - 1);
      assert Next(tr[n - 1], tr[n - 1 + 1]);
      var t :| Step(tr[n - 1], tr[n], t);
      StepInv(tr[n - 1], tr[n], t);
      StepRefines(tr[n - 1], tr[n], t);
      if tr[n].d.log != tr[n - 1].d.log {
        FaithfulExtends(disk, tr[n - 1].d, tr[n].d);
      }
    }
  }

  // ---------- one transfer for each job ----------

  /** The transfer that a job asks for. */
  predicate Answers(job: Job, e: Event) {
    match job
    case Read(x, ofs, end) => e.Returned? && e.sector == x && e.ofs == ofs && ofs + |e.bytes| == end
    case Write(x, ofs, bytes) => e == Wrote(x, ofs, bytes)
    case _ => false
  }

  /** The thread has done its transfer and has to finish. */
  predicate Done(pc: Pc) {
    pc.SetDirty? || pc.SetAccessed? || (pc.Unlock? && !pc.retry)
  }

  /** The thread is in the middle of the job. */
  predicate Busy(s: State, t: Tid, job: Job) {
    t in s.threads && s.threads[t].job == job && s.threads[t].pc != Idle
  }

  /** A step logs an event just when it copies, and then the one that its job asks for. */
  lemma LogStep(s: State, s': State, t: Tid)
    requires Inv(s) && Step(s, s', t)
    ensures var th := s.threads[t];
            if th.pc.Copy?
            then && |s'.d.log| == |s.d.log| + 1 && s'.d.log[..|s.d.log|] == s.d.log
                 && Answers(th.job, s'.d.log[|s.d.log|])
            else s'.d.log == s.d.log
  {
    assert ThreadOk(s.d, s.threads[t]);
  }

  /** A read or a write copies once, and only then goes to its end. */
  predicate Moves(pc: Pc, pc': Pc) {
    && (pc.Copy? ==> Done(pc'))
    && (Done(pc) ==> Done(pc') || pc' == Idle)
    && (!pc.Copy? && !Done(pc) ==> !Done(pc') && pc' != Idle)
  }

  lemma LockJob(th: Thread, n: nat, op: LockOp, pc': Pc)
    requires PcOk(th, n) && th.job.Access() && LockMove(th, n, op, pc')
    ensures Moves(th.pc, pc')
  {
  }

  lemma LookJob(d: Data, c: Clock, th: Thread, c': Clock, pc': Pc)
    requires |c.accessed| == |d.blocks| && PcOk(th, |d.blocks|) && th.job.Access() && LookAct(d, c, th, c', pc')
    ensures Moves(th.pc, pc')
  {
  }

  lemma DataJob(th: Thread, n: nat, dirty: bool, pc': Pc)
    requires PcOk(th, n) && th.job.Access() && DataMove(th, dirty, pc')
    ensures Moves(th.pc, pc')
  {
  }

  lemma JobStep(s: State, s': State, t: Tid, job: Job)
    requires Inv(s) && Step(s, s', t) && Busy(s, t, job) && job.Access()
    ensures s'.threads[t].job == job && Moves(s.threads[t].pc, s'.threads[t].pc)
  {
    var th, th', n := s.threads[t], s'.threads[t], |s.d.blocks|;
    assert ThreadOk(s.d, th);
    if LockAct(s.l, t, th, n, s'.l, th'.pc) {
      var op :| LockMove(th, n, op, th'.pc) && LockEffect(s.l, t, op, s'.l);
      LockJob(th, n, op, th'.pc);
    } else if LookAct(s.d, s.c, th, s'.c, th'.pc) {
      LookJob(s.d, s.c, th, s'.c, th'.pc);
    } else {
      DataJob(th, n, Hand(th.pc) < n && s.d.blocks[Hand(th.pc)].state == DIRTY, th'.pc);
    }
  }

  /** The thread is in the middle of the job, past its transfer or not. */
  predicate BusyAt(s: State, t: Tid, job: Job, done: bool) {
    Busy(s, t, job) && Done(s.threads[t].pc) == done
  }

  predicate Copies(s: State, t: Tid, w: Tid) {
    w == t && t in s.threads && s.threads[t].pc.Copy?
  }

  /** What a step of any thread `w` does to the job of thread `t`. */
  lemma JobOn(s: State, s': State, w: Tid, t: Tid, job: Job, done: bool)
    requires Inv(s) && Step(s, s', w) && BusyAt(s, t, job, done) && job.Access()
    ensures done ==> !Copies(s, t, w) && t in s'.threads && (s'.threads[t].pc != Idle ==> BusyAt(s', t, job, true))
    ensures !done && !Copies(s, t, w) ==> BusyAt(s', t, job, false)
    ensures Copies(s, t, w) ==> BusyAt(s', t, job, true)
    ensures w == t && !Copies(s, t, w) ==> s'.d.log == s.d.log
    ensures Copies(s, t, w) ==>
              && |s'.d.log| == |s.d.log| + 1 && s'.d.log[..|s.d.log|] == s.d.log
              && Answers(job, s'.d.log[|s.d.log|])
  {
    if w == t {
      LogStep(s, s', t);
      JobStep(s, s', t, job);
    } else {
      assert s'.threads[t] == s.threads[t];
    }
  }

  ghost predicate StepBy(tr: seq<State>, who: seq<Tid>, i: nat)
    requires |tr| == |who| + 1 && i < |who|
  {
    Step(tr[i], tr[i + 1], who[i])
  }

  /** A run with the thread that takes each step. */
  ghost predicate Scheduled(tr: seq<State>, disk: map<Sector, Block>, who: seq<Tid>) {
    && Run(tr, disk) && |tr| == |who| + 1
    && forall i {:trigger StepBy(tr, who, i)} :: 0 <= i < |who| ==> StepBy(tr, who, i)
  }

  /** Every run has a schedule. */
  lemma HasSchedule(tr: seq<State>, disk: map<Sector, Block>) returns (who: seq<Tid>)
    requires Run(tr, disk)
    ensures Scheduled(tr, disk, who)
  {
    who := [];
    for j := 0 to |tr| - 1
      invariant |who| == j && forall i :: 0 <= i < j ==> Step(tr[i], tr[i + 1], who[i])
    {
      assert Next(tr[j], tr[j + 1]);
      var t :| Step(tr[j], tr[j + 1], t);
      who := who + [t];
    }
  }

  /** Thread `t` logs nothing from `i` to `n`. */
  ghost predicate Quiet(tr: seq<State>, who: seq<Tid>, i: nat, n: nat, t: Tid)
    requires |tr| == |who| + 1 && n < |tr|
  {
    forall j {:trigger who[j]} :: i <= j < n && who[j] == t ==> tr[j + 1].d.log == tr[j].d.log
  }

  /** Step `k` logs the transfer of the job. */
  ghost predicate LogsAt(tr: seq<State>, who: seq<Tid>, k: nat, t: Tid, job: Job)
    requires |tr| == |who| + 1 && k < |who|
  {
    && who[k] == t && |tr[k + 1].d.log| == |tr[k].d.log| + 1 && tr[k + 1].d.log[..|tr[k].d.log|] == tr[k].d.log
    && Answers(job, tr[k + 1].d.log[|tr[k].d.log|])
  }

  lemma {:induction false} QuietToEnd(tr: seq<State>, disk: map<Sector, Block>, who: seq<Tid>, m: nat, n: nat,
                                      t: Tid, job: Job)
    requires Scheduled(tr, disk, who) && m <= n < |tr| && job.Access()
    requires forall j {:trigger tr[j]} :: m <= j < n ==> Busy(tr[j], t, job)
    requires m < n ==> BusyAt(tr[m], t, job, true)
    ensures Quiet(tr, who, m, n, t)
    decreases n - m
  {
    if m == n {
    } else {
      CacheRefinesDisk(tr, disk, m);
      assert StepBy(tr, who, m);
      JobOn(tr[m], tr[m + 1], who[m], t, job, true);
      assert m + 1 < n ==> Busy(tr[m + 1], t, job);
      QuietToEnd(tr, disk, who, m + 1, n, t, job);
    }
  }

  lemma {:induction false} LogsFrom(tr: seq<State>, disk: map<Sector, Block>, who: seq<Tid>, m: nat, n: nat,
                                    t: Tid, job: Job) returns (k: nat)
    requires Scheduled(tr, disk, who) && m < n < |tr| && job.Access()
    requires forall j {:trigger tr[j]} :: m <= j < n ==> Busy(tr[j], t, job)
    requires BusyAt(tr[m], t, job, false) && t in tr[n].threads && tr[n].threads[t].pc == Idle
    ensures m <= k < n && LogsAt(tr, who, k, t, job) && Quiet(tr, who, m, k, t) && Quiet(tr, who, k + 1, n, t)
    decreases n - m
  {
    CacheRefinesDisk(tr, disk, m);
    assert StepBy(tr, who, m);
    JobOn(tr[m], tr[m + 1], who[m], t, job, false);
    if Copies(tr[m], t, who[m]) {
      k := m;
      QuietToEnd(tr, disk, who, m + 1, n, t, job);
    } else {
      k := LogsFrom(tr, disk, who, m + 1, n, t, job);
    }
  }

  /** In every run, a read or a write that starts at `i` and is over at `n` logs one event of its
      own in between, the transfer that was asked for, and no other.  With CacheRefinesDisk:
      each takes effect at one instant between its start and its end. */
  lemma JobLogsOnce(tr: seq<State>, disk: map<Sector, Block>, who: seq<Tid>, i: nat, n: nat, t: Tid, job: Job)
    returns (k: nat)
    requires Scheduled(tr, disk, who) && i < n < |tr| && job.Access()
    requires t in tr[i].threads && tr[i].threads[t] == Thread(job, Start)
    requires forall j {:trigger tr[j]} :: i <= j < n ==> Busy(tr[j], t, job)
    requires t in tr[n].threads && tr[n].threads[t].pc == Idle
    ensures i <= k < n && LogsAt(tr, who, k, t, job)
    ensures forall j {:trigger who[j]} :: i <= j < n && who[j] == t && j != k ==> tr[j + 1].d.log == tr[j].d.log
  {
    k := LogsFrom(tr, disk, who, i, n, t, job);
  }

  // ---------- what flushes and fetches achieve ----------

  /** A flush works on the block whose lock it tried, and on no other. */
  lemma FlushStays(s: State, s': State, t: Tid)
    requires Inv(s) && Step(s, s', t) && s.threads[t].job.Flush? && s.threads[t].pc != Idle && s.threads[t].pc != Start
    ensures s'.threads[t].pc == Idle || Hand(s'.threads[t].pc) == Hand(s.threads[t].pc)
    ensures s.threads[t].pc.FlushTry? ==>
              || s'.threads[t].pc == Idle
              || (s'.threads[t].pc.WriteBack? && s'.l[BlockLock(Hand(s.threads[t].pc))].writers == {t})
  {
    StepInv(s, s', t);
    assert ThreadOk(s.d, s.threads[t]);
    if s'.threads[t].pc.WriteBack? { OwnerAlone(s', t, Hand(s'.threads[t].pc)); }
  }

  /** A thread that writes a block holds its lock alone. */
  lemma OwnerAlone(s: State, t: Tid, b: nat)
    requires Inv(s) && t in s.threads && b < |s.d.blocks| && BlockWrite(s.threads[t], b)
    ensures s.l[BlockLock(b)].writers == {t}
  {
    assert OwnBooks(s.l, t, s.threads[t]);
    assert Owns(s.threads[t], BlockLock(b), true) && Holds(s.l[BlockLock(b)], t, true);
  }

  /** A flush that is over either did not get the lock, or leaves the block not dirty and its sector
      up to date on the device. */
  lemma FlushEnds(s: State, s': State, t: Tid)
    requires Inv(s) && Step(s, s', t) && s.threads[t].job.Flush?
    requires s.threads[t].pc != Idle && s'.threads[t].pc == Idle
    ensures s'.d == s.d
    ensures s.threads[t].pc.FlushTry? ||
              (&& s.threads[t].pc.Unlock? && var b := s.threads[t].pc.b;
               && b < |s.d.blocks| && (s.d.blocks[b].state == CLEAN || s.d.blocks[b].state == UNOCCUPIED)
               && (s.d.blocks[b].state == CLEAN ==> Stored(s.d, b)))
  {
    assert ThreadOk(s.d, s.threads[t]);
  }

  /** A fetch that is over has found the sector in the cache, or leaves a block with its bytes. */
  lemma FetchEnds(s: State, s': State, t: Tid)
    requires Inv(s) && Step(s, s', t) && s.threads[t].job.Fetch?
    requires s.threads[t].pc != Idle && s'.threads[t].pc == Idle
    ensures s'.d == s.d
    ensures s.threads[t].pc.Found? ||
              (&& s.threads[t].pc.Unlock? && var b := s.threads[t].pc.b;
               && b < |s.d.blocks| && Names(s.d, b, s.threads[t].job.sector) && Current(s.d, b))
  {
    assert ThreadOk(s.d, s.threads[t]);
  }

  /** What a thread sees decides where it goes: a lookup stops at a block just when it names the
      sector; a block found is used just when it still does; a victim is taken just when it is
      unoccupied or was not accessed; and a new block is filled just when no other names the
      sector. */
  lemma LooksDecide(s: State, s': State, t: Tid)
    requires Inv(s) && Step(s, s', t)
    ensures var pc, pc', x := s.threads[t].pc, s'.threads[t].pc, s.threads[t].job;
            && (pc.Scan? && pc.i < |s.d.blocks| ==> (pc' == Found(pc.i) <==> Names(s.d, pc.i, x.sector)))
            && (pc.Check? ==> (pc'.Copy? <==> Names(s.d, pc.b, x.sector)))
            && (pc.Inspect? ==> (pc'.EvictRelease? <==> s.d.blocks[pc.b].state == UNOCCUPIED || !s.c.accessed[pc.b]))
            && (pc.Rescan? && pc.i < |s.d.blocks| ==> (pc' == Lost(pc.b) <==> Names(s.d, pc.i, x.sector)))
            && (pc'.SetSector? && pc.Rescan? ==> NoneNames(s.d, x.sector, |s.d.blocks|))
  {
    assert ThreadOk(s.d, s.threads[t]);
  }

  // ---------- progress ----------

  /** The thread stands before a lock that it has to wait for. */
  predicate Waits(l: Locks, th: Thread) {
    match th.pc
    case Start =>
      && !th.job.Flush? && SectorLock in l
      && !(if th.job.Fetch? then l[SectorLock].CanWrite() else l[SectorLock].CanRead())
    case LockBlock(b) =>
      BlockLock(b) in l && !(if th.job.Write? then l[BlockLock(b)].CanWrite() else l[BlockLock(b)].CanRead())
    case EvictAcquire => EvictLock in l && !l[EvictLock].CanWrite()
    case TakeSector(b) => SectorLock in l && !l[SectorLock].CanWrite()
    case _ => false
  }

  predicate AtLock(pc: Pc) {
    || pc.Start? || pc.Found? || pc.LockBlock? || pc.Unlock? || pc.EvictAcquire? || pc.TryBlock? || pc.PassUnlock?
    || pc.EvictRelease? || pc.DropSector? || pc.TakeSector? || pc.Lost? || pc.Publish? || pc.FlushTry?
  }

  predicate AtLook(pc: Pc) {
    pc.Scan? || pc.Check? || pc.SetAccessed? || pc.Tick? || pc.Inspect? || pc.Pass? || pc.FetchClear? || pc.Rescan?
  }

  /** A thread at a lock operation that need not wait can do it; a try may fail. */
  lemma LockEnabled(l: Locks, t: Tid, th: Thread, n: nat) returns (l': Locks, pc': Pc)
    requires AllLocks(l, n) && n > 0 && PcOk(th, n) && AtLock(th.pc) && !Waits(l, th)
    ensures LockAct(l, t, th, n, l', pc')
  {
    var op := Nothing;
    match th.pc {
      case Start =>
        if th.job.Flush? {
          pc' := FlushTry(0);
        } else {
          op, pc' := Take(SectorLock, th.job.Fetch?), Scan(0);
        }
      case Found(b) => op, pc' := Drop(SectorLock, th.job.Fetch?), if th.job.Fetch? then Idle else LockBlock(b);
      case LockBlock(b) => op, pc' := Take(BlockLock(b), th.job.Write?), Check(b);
      case Unlock(b, w, retry) => op, pc' := Drop(BlockLock(b), w), if retry then Start else Idle;
      case EvictAcquire => op, pc' := Take(EvictLock, true), Tick;
      case PassUnlock(b) => op, pc' := Drop(BlockLock(b), true), Tick;
      case EvictRelease(b, free) => op, pc' := Drop(EvictLock, true), if free then Freed(th.job, b) else WriteBack(b);
      case DropSector(b) => op, pc' := Drop(SectorLock, false), TakeSector(b);
      case TakeSector(b) => op, pc' := Take(SectorLock, true), Rescan(b, 0);
      case Lost(b) => op, pc' := Drop(SectorLock, true), Unlock(b, true, true);
      case Publish(b) => op, pc' := Drop(SectorLock, true), Fill(b);
      case _ => pc' := if th.pc.TryBlock? then Tick else Idle;
    }
    l' := LockResult(l, t, op);
    assert LockMove(th, n, op, pc') && LockEffect(l, t, op, l');
  }

  function LockResult(l: Locks, t: Tid, op: LockOp): Locks {
    match op
    case Nothing => l
    case Take(n, w) => if n !in l then l else l[n := if w then l[n].TakeWrite(t) else l[n].TakeRead(t)]
    case Drop(n, w) => if n !in l then l else l[n := if w then l[n].DropWrite(t) else l[n].DropRead(t)]
  }

  lemma LookEnabled(d: Data, c: Clock, th: Thread) returns (c': Clock, pc': Pc)
    requires |c.accessed| == |d.blocks| && c.arm < |d.blocks| && PcOk(th, |d.blocks|) && AtLook(th.pc)
    ensures LookAct(d, c, th, c', pc')
  {
    c' := c;
    match th.pc {
      case Scan(i) =>
        pc' := if i >= |d.blocks| then EvictAcquire
               else if Names(d, i, th.job.sector) then Found(i) else Scan(i + 1);
      case Check(b) =>
        pc' := if d.blocks[b].sector == th.job.sector && (d.blocks[b].state == CLEAN || d.blocks[b].state == DIRTY)
               then Copy(b, th.job.Write?) else Unlock(b, th.job.Write?, true);
      case SetAccessed(b, w) => c', pc' := c.(accessed := c.accessed[b := true]), Unlock(b, w, false);
      case Tick => c', pc' := c.(arm := (c.arm + 1) % |d.blocks|), TryBlock(c.arm);
      case Inspect(b) =>
        pc' := if d.blocks[b].state == UNOCCUPIED then EvictRelease(b, true)
               else if !c.accessed[b] then EvictRelease(b, false) else Pass(b);
      case Pass(b) => c', pc' := c.(accessed := c.accessed[b := false]), PassUnlock(b);
      case FetchClear(b) => c', pc' := c.(accessed := c.accessed[b := false]), Filled(b);
      case Rescan(b, i) =>
        pc' := if i >= |d.blocks| then SetSector(b)
               else if Names(d, i, th.job.sector) then Lost(b) else Rescan(b, i + 1);
    }
  }

  /** What a thread knows about the block in its hand is enough for what it does next. */
  lemma DataEnabled(d: Data, th: Thread) returns (d': Data, pc': Pc)
    requires DataOk(d) && ThreadOk(d, th) && th.pc != Idle && !AtLock(th.pc) && !AtLook(th.pc)
    ensures DataAct(d, th, d', pc')
  {
    var b := Hand(th.pc);
    var blk := d.blocks[b];
    d' := d;
    match th.pc {
      case Copy(_, w) =>
        pc' := if th.job.Write? then SetDirty(b) else SetAccessed(b, w);
        match th.job {
          case Write(x, ofs, bytes) =>
            d' := d.(blocks := d.blocks[b := blk.(data := Splice(blk.data, ofs, bytes))],
                     plain := d.plain[x := Splice(d.plain[x], ofs, bytes)], log := d.log + [Wrote(x, ofs, bytes)]);
          case Read(x, ofs, end) => d' := d.(log := d.log + [Returned(x, ofs, blk.data[ofs..end])]);
        }
      case SetDirty(_) => d', pc' := SetState(d, b, DIRTY), SetAccessed(b, true);
      case WriteBack(_) =>
        if blk.state == DIRTY {
          d', pc' := SetState(d, b, IN_IO), DeviceWrite(b);
        } else {
          pc' := AfterWriteBack(th.job, b);
        }
      case DeviceWrite(_) => d', pc' := d.(disk := d.disk[blk.sector := blk.data]), Written(b);
      case Written(_) => d', pc' := SetState(d, b, CLEAN), AfterWriteBack(th.job, b);
      case Vacate(_) => d', pc' := SetState(d, b, UNOCCUPIED), Freed(th.job, b);
      case SetSector(_) => d', pc' := d.(blocks := d.blocks[b := blk.(sector := th.job.sector)]), SetInIo(b);
      case SetInIo(_) => d', pc' := SetState(d, b, IN_IO), Publish(b);
      case Fill(_) =>
        d' := d.(blocks := d.blocks[b := blk.(data := d.disk[blk.sector])]);
        pc' := if th.job.Fetch? then FetchClear(b) else Filled(b);
      case Filled(_) =>
        d', pc' := SetState(d, b, CLEAN), if th.job.Fetch? then Unlock(b, true, false) else Copy(b, true);
    }
  }

  /** No thread is ever stuck: in the middle of a job it can take its next step, or it stands
      before a lock that is held. */
  lemma NeverStuck(s: State, t: Tid) returns (s': State)
    requires Inv(s) && t in s.threads && s.threads[t].pc != Idle && !Waits(s.l, s.threads[t])
    ensures Step(s, s', t)
  {
    var th := s.threads[t];
    assert ThreadOk(s.d, th);
    if AtLock(th.pc) {
      var l', pc' := LockEnabled(s.l, t, th, |s.d.blocks|);
      s' := s.(l := l', threads := s.threads[t := Thread(th.job, pc')]);
    } else if AtLook(th.pc) {
      var c', pc' := LookEnabled(s.d, s.c, th);
      s' := s.(c := c', threads := s.threads[t := Thread(th.job, pc')]);
    } else {
      var d', pc' := DataEnabled(s.d, th);
      s' := s.(d := d', threads := s.threads[t := Thread(th.job, pc')]);
    }
  }
}
