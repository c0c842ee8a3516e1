/**
 Short runs of Paging in which a store is lost, a page changes without a store, or a swap
 slot is lost: each can happen on every machine that has a frame and a file, or a slot.
 */
module PagingCases {
  import opened Base
  import opened Swap
  import opened Paging

  /** One empty frame, one free slot, and a file of one byte. */
  function Machine(): Vm {
    Vm(map[], map[], map[], map[0 := Zeros()], map[0 := [7]], {}, View([0], [Zeros()]), map[], {})
  }

  /** A mapping of that file. */
  function Mapping(): Spte {
    Spte(MMAPED_PAGE, true, None, 0, 0, 1, 0)
  }

  /** It is a machine as the runs below ask for. */
  lemma MachineWorks()
    ensures Init(Machine()) && EmptyFrame(Machine(), 0) && Machine().swap.free != [] && ValidSpte(Machine(), Mapping())
    ensures Image(Machine().files, Mapping())[0] == 7 && Image(Machine().files, Mapping())[1] == 0
  {
  }

  lemma RunStart(v: Vm)
    requires Init(v)
    ensures Run([v], []) && Inv(v)
  {
    RunInv([v], [], 0);
  }

  lemma RunOn(tr: seq<Vm>, ops: seq<Op>, op: Op, v': Vm)
    requires Run(tr, ops) && Does(tr[|ops|], op, v')
    ensures Run(tr + [v'], ops + [op]) && Inv(v')
  {
    var tr', ops' := tr + [v'], ops + [op];
    forall i | 0 <= i < |ops'| ensures StepAt(tr', ops', i) {
      if i < |ops| {
        assert StepAt(tr, ops, i);
        assert tr'[i] == tr[i] && tr'[i + 1] == tr[i + 1] && ops'[i] == ops[i];
      } else {
        assert tr'[i] == tr[i] && tr'[i + 1] == v' && ops'[i] == op;
      }
    }
    RunInv(tr', ops', |ops'|);
  }

  // ---------- single steps ----------

  ghost function Mapped(v: Vm, p: PageId, e: Spte): Vm
    requires ValidSpte(v, e) && e.location != SWAP_PAGE
  {
    v.(sptes := v.sptes[p := e], memory := v.memory[p := Image(v.files, e)], exposed := ExposedBy(v, p, e))
  }

  function Loaded(v: Vm, p: PageId, e: Spte, f: FrameId): Vm
    requires ValidSpte(v, e) && e.location != SWAP_PAGE
  {
    Install(v, p, e, f, Image(v.files, e))
  }

  function After(v: Vm, p: PageId, f: FrameId, ofs: nat, b: Byte): Vm
    requires p in v.ptes && p in v.memory && f in v.mem && ofs < PAGE_SIZE
  {
    v.(mem := v.mem[f := Splice(v.mem[f], ofs, [b])], ptes := v.ptes[p := v.ptes[p].(dirty := true)],
       memory := v.memory[p := Splice(v.memory[p], ofs, [b])])
  }

  /** The page in frame `f` is dirty. */
  ghost predicate DirtyIn(v: Vm, p: PageId, e: Spte, f: FrameId, content: Page) {
    && Inv(v) && p in v.sptes && v.sptes[p] == e.(frame := Some(f)) && e.location == MMAPED_PAGE && ValidSpte(v, e)
    && p in v.ptes && v.ptes[p].dirty && f in v.mem && v.mem[f] == content
  }

  /** Load page `p` into frame `f` and store one byte. */
  lemma LoadAndStore(tr: seq<Vm>, ops: seq<Op>, v: Vm, p: PageId, e: Spte, f: FrameId, ofs: nat, b: Byte)
    returns (tr': seq<Vm>, v': Vm)
    requires Run(tr, ops) && tr[|ops|] == v && p in v.sptes && v.sptes[p] == e && e.frame == None && EmptyFrame(v, f)
    requires e.location == MMAPED_PAGE && e.writable && ofs < PAGE_SIZE
    ensures ValidSpte(v, e) && DirtyIn(v', p, e, f, Splice(Image(v.files, e), ofs, [b]))
    ensures v'.files == v.files && v'.denied == v.denied && v'.swap == v.swap
    ensures forall q :: q in v.sptes && q != p ==> q in v'.sptes && v'.sptes[q] == v.sptes[q]
    ensures forall q :: q in v.memory && q != p ==> q in v'.memory && v'.memory[q] == v.memory[q]
    ensures |tr'| == 2 && tr'[1] == v' && Run(tr + tr', ops + [FaultOp(p, f), StoreOp(p, ofs, [b])])
  {
    RunInv(tr, ops, |ops|);
    assert PageOk(v, p);
    var v1 := Loaded(v, p, e, f);
    assert Fault(v, v1, p, f);
    RunOn(tr, ops, FaultOp(p, f), v1);
    assert PageOk(v1, p);
    v' := After(v1, p, f, ofs, b);
    assert Store(v1, v', p, ofs, [b]);
    RunOn(tr + [v1], ops + [FaultOp(p, f)], StoreOp(p, ofs, [b]), v');
    tr' := [v1, v'];
    assert tr + [v1] + [v'] == tr + tr';
    assert ops + [FaultOp(p, f)] + [StoreOp(p, ofs, [b])] == ops + [FaultOp(p, f), StoreOp(p, ofs, [b])];
  }

  /** Evict page `p` and load page `q`, the same or another, into its frame. */
  lemma EvictAndLoad(tr: seq<Vm>, ops: seq<Op>, v: Vm, p: PageId, e: Spte, f: FrameId, content: Page, q: PageId)
    returns (v1: Vm, v2: Vm)
    requires Run(tr, ops) && tr[|ops|] == v && DirtyIn(v, p, e, f, content) && q in v.sptes
    requires q != p ==> v.sptes[q].frame == None
    ensures Evict(v, v1, p, f) && Fault(v1, v2, q, f)
    ensures Run(tr + [v1, v2], ops + [EvictOp(p, f), FaultOp(q, f)])
  {
    v1 := EvictEnabled(v, p, f);
    RunOn(tr, ops, EvictOp(p, f), v1);
    assert q in v1.sptes && v1.sptes[q].frame == None && EmptyFrame(v1, f);
    v2 := FaultEnabled(v1, q, f);
    RunOn(tr + [v1], ops + [EvictOp(p, f)], FaultOp(q, f), v2);
    assert tr + [v1] + [v2] == tr + [v1, v2];
    assert ops + [EvictOp(p, f)] + [FaultOp(q, f)] == ops + [EvictOp(p, f), FaultOp(q, f)];
  }

  // ---------- lost stores ----------

  lemma ByteBack(v: Vm, v1: Vm, v2: Vm, e: Spte, f: FrameId, content: Page, ofs: nat, b: Byte)
    requires DirtyIn(v, 0, e, f, content) && Evict(v, v1, 0, f) && Fault(v1, v2, 0, f) && ofs < PAGE_SIZE
    requires content == Splice(Image(v.files, e), ofs, [b])
    ensures f in v2.mem
    ensures v2.mem[f][ofs] == b <==> b == Image(v.files, e)[ofs] || (ofs < e.read && e.file !in v.denied)
  {
    EvictAndReload(v, v1, v2, 0, f, f);
    assert Image(v.files, v.sptes[0]) == Image(v.files, e);
  }

  /** Map, load, store one byte, evict and load again, on any machine with an empty frame:
      the byte comes back just when it was in the file before, or lies within the mapping of
      a file open to writing. */
  lemma StoreComesBack(v: Vm, e: Spte, f: FrameId, ofs: nat, b: Byte) returns (tr: seq<Vm>, ops: seq<Op>)
    requires Init(v) && EmptyFrame(v, f) && ValidSpte(v, e) && ofs < PAGE_SIZE
    requires e.location == MMAPED_PAGE && e.writable && e.frame == None
    ensures ops == [MapOp(0, e), FaultOp(0, f), StoreOp(0, ofs, [b]), EvictOp(0, f), FaultOp(0, f)]
    ensures Run(tr, ops) && tr[0] == v && f in tr[3].mem && f in tr[5].mem && tr[3].mem[f][ofs] == b
    ensures tr[5].mem[f][ofs] == b <==> b == Image(v.files, e)[ofs] || (ofs < e.read && e.file !in v.denied)
  {
    RunStart(v);
    var v1 := Mapped(v, 0, e);
    RunOn([v], [], MapOp(0, e), v1);
    var front, v3 := LoadAndStore([v] + [v1], [] + [MapOp(0, e)], v1, 0, e, f, ofs, b);
    var content: Page := Splice(Image(v.files, e), ofs, [b]);
    var tr3, ops3 := [v] + [v1] + front, [] + [MapOp(0, e)] + [FaultOp(0, f), StoreOp(0, ofs, [b])];
    var v4, v5 := EvictAndLoad(tr3, ops3, v3, 0, e, f, content, 0);
    tr, ops := tr3 + [v4, v5], ops3 + [EvictOp(0, f), FaultOp(0, f)];
    ByteBack(v3, v4, v5, e, f, content, ofs, b);
  }

  /** A store behind the end of a mapped file is lost, and so is a store to a mapped file that
      is closed to writing. */
  lemma StoresLost() returns (tr: seq<Vm>, tr': seq<Vm>, ops: seq<Op>, ops': seq<Op>)
    ensures Run(tr, ops) && |ops| == 5 && ops[2] == StoreOp(0, 1, [5]) && 0 in tr[5].mem && tr[5].mem[0][1] != 5
    ensures Run(tr', ops') && |ops'| == 5 && ops'[2] == StoreOp(0, 0, [5]) && 0 in tr'[5].mem && tr'[5].mem[0][0] != 5
  {
    MachineWorks();
    tr, ops := StoreComesBack(Machine(), Mapping(), 0, 1, 5);
    tr', ops' := StoreComesBack(Machine().(denied := {0}), Mapping(), 0, 0, 5);
  }

  // ---------- shared bytes ----------

  lemma ByteSeen(v: Vm, v1: Vm, v2: Vm, e: Spte, f: FrameId, content: Page, ofs: nat, b: Byte)
    requires DirtyIn(v, 0, e, f, content) && Evict(v, v1, 0, f) && Fault(v1, v2, 1, f) && ofs < e.read
    requires content == Splice(Image(v.files, e), ofs, [b]) && 1 in v.sptes && v.sptes[1] == e && e.file !in v.denied
    ensures f in v2.mem && v2.mem[f][ofs] == b && v2.memory == v.memory
  {
    SharedBytesChange(v, v1, v2, 0, 1, f, f);
    assert v.files[e.file][e.ofs + ofs] == Image(v.files, e)[ofs];
  }

  lemma MapTwice(v: Vm, e: Spte) returns (tr: seq<Vm>, ops: seq<Op>)
    requires Init(v) && ValidSpte(v, e) && e.location == MMAPED_PAGE && e.frame == None
    ensures ops == [MapOp(0, e), MapOp(1, e)] && Run(tr, ops) && tr[0] == v
    ensures var v2 := tr[2];
            && v2 == v.(sptes := map[0 := e, 1 := e], memory := v2.memory, exposed := v2.exposed)
            && 1 in v2.memory && v2.memory[1] == Image(v.files, e)
  {
    RunStart(v);
    var v1 := Mapped(v, 0, e);
    RunOn([v], [], MapOp(0, e), v1);
    var v2 := Mapped(v1, 1, e);
    RunOn([v] + [v1], [] + [MapOp(0, e)], MapOp(1, e), v2);
    tr, ops := [v] + [v1] + [v2], [] + [MapOp(0, e)] + [MapOp(1, e)];
  }

  /** Two mappings of the same byte: a page to which nothing is stored changes. */
  lemma SharedStoreSeen(v: Vm, e: Spte, f: FrameId, ofs: nat, b: Byte) returns (tr: seq<Vm>, ops: seq<Op>)
    requires Init(v) && EmptyFrame(v, f) && ValidSpte(v, e) && ofs < e.read && e.file !in v.denied
    requires e.location == MMAPED_PAGE && e.writable && e.frame == None
    ensures ops == [MapOp(0, e), MapOp(1, e), FaultOp(0, f), StoreOp(0, ofs, [b]), EvictOp(0, f), FaultOp(1, f)]
    ensures Run(tr, ops) && tr[0] == v && f in tr[6].mem && 1 in tr[6].memory
    ensures tr[6].mem[f][ofs] == b && tr[6].memory[1] == Image(v.files, e)
  {
    var tr2, ops2 := MapTwice(v, e);
    var v2 := tr2[2];
    var front, v4 := LoadAndStore(tr2, ops2, v2, 0, e, f, ofs, b);
    var content: Page := Splice(Image(v.files, e), ofs, [b]);
    var tr4, ops4 := tr2 + front, ops2 + [FaultOp(0, f), StoreOp(0, ofs, [b])];
    var v5, v6 := EvictAndLoad(tr4, ops4, v4, 0, e, f, content, 1);
    tr, ops := tr4 + [v5, v6], ops4 + [EvictOp(0, f), FaultOp(1, f)];
    ByteSeen(v4, v5, v6, e, f, content, ofs, b);
  }

  // ---------- lost slots ----------

  /** Grow the stack, evict the page and exit, on any machine with an empty frame and a free
      slot: the slot is lost. */
  lemma SlotLost(v: Vm, f: FrameId) returns (tr: seq<Vm>, ops: seq<Op>)
    requires Init(v) && EmptyFrame(v, f) && v.swap.free != []
    ensures ops == [GrowOp(0, f), EvictOp(0, f), ForgetOp(0)] && Run(tr, ops) && tr[0] == v
    ensures var slot := v.swap.free[|v.swap.free| - 1]; !Lost(v, slot) && Lost(tr[3], slot)
  {
    RunStart(v);
    var e := Spte(SWAP_PAGE, true, None, 0, 0, 0, 0);
    var v1 := Install(v, 0, e, f, Zeros()).(memory := v.memory[0 := Zeros()], exposed := v.exposed - {0});
    RunOn([v], [], GrowOp(0, f), v1);
    var v2 := EvictEnabled(v1, 0, f);
    RunOn([v] + [v1], [] + [GrowOp(0, f)], EvictOp(0, f), v2);
    var v3 := v2.(sptes := v2.sptes - {0}, memory := v2.memory - {0});
    RunOn([v] + [v1] + [v2], [] + [GrowOp(0, f)] + [EvictOp(0, f)], ForgetOp(0), v3);
    tr, ops := [v] + [v1] + [v2] + [v3], [] + [GrowOp(0, f)] + [EvictOp(0, f)] + [ForgetOp(0)];
    assert PageOk(v2, 0);
  }
}
