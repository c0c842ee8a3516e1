/**
 Paging of vm/page.c, vm/frame.c and userprog/pagedir.c as a step system.

 A step is one fault, eviction, store, mapping or unmapping; the page and frame locks make
 each of them atomic.  Steps of any processes come in any order.  `memory` is the plain
 memory that user programs should see: only mapping, growing and storing change it.
 */
module Paging {
  import opened Base
  import opened Swap

  type PageId = nat
  type FrameId = nat
  type FileId = nat

  datatype Location = SWAP_PAGE | FILE_PAGE | MMAPED_PAGE

  /** `struct spte`; the rest of a file page after `read` bytes is zeros. */
  datatype Spte = Spte(location: Location, writable: bool, frame: Option<FrameId>,
                       file: FileId, ofs: nat, read: nat, slot: nat)

  /** The flags and the frame of a page table entry. */
  datatype Pte = Pte(present: bool, frame: FrameId, writable: bool, dirty: bool)

  datatype Vm = Vm(sptes: map<PageId, Spte>, ptes: map<PageId, Pte>, resident: map<FrameId, PageId>,
                   mem: map<FrameId, Page>, files: map<FileId, seq<Byte>>, denied: set<FileId>, swap: View,
                   memory: map<PageId, Page>, exposed: set<PageId>)

  function Zeros(): (z: Page)
    ensures forall i :: 0 <= i < PAGE_SIZE ==> z[i] == 0
  {
    seq(PAGE_SIZE, i => 0)
  }

  /** A file page as its file has it: what `load_file_page` puts into the frame. */
  function Image(files: map<FileId, seq<Byte>>, e: Spte): (p: Page)
    requires e.read <= PAGE_SIZE && e.file in files && e.ofs + e.read <= |files[e.file]|
    ensures p[..e.read] == files[e.file][e.ofs..e.ofs + e.read]
  {
    files[e.file][e.ofs..e.ofs + e.read] + Zeros()[e.read..]
  }

  /** How many of the page's bytes are kept: a memory-mapped page is written back to its
      file, which ends where the mapping does. */
  function Kept(e: Spte): nat {
    if e.location == MMAPED_PAGE then e.read else PAGE_SIZE
  }

  predicate Agree(e: Spte, a: Page, b: Page)
    requires e.read <= PAGE_SIZE
  {
    a[..Kept(e)] == b[..Kept(e)]
  }

  /** Two pages share bytes of a file that one of them may write back. */
  predicate Overlap(d: Spte, e: Spte) {
    && d.location != SWAP_PAGE && e.location != SWAP_PAGE && d.file == e.file
    && (d.location == MMAPED_PAGE || e.location == MMAPED_PAGE)
    && d.ofs < e.ofs + e.read && e.ofs < d.ofs + d.read
  }

  // ---------- steps ----------

  predicate ValidSpte(v: Vm, e: Spte) {
    && e.read <= PAGE_SIZE
    && (e.location != SWAP_PAGE ==> e.file in v.files && e.ofs + e.read <= |v.files[e.file]|)
  }

  ghost function Sharers(v: Vm, e: Spte): set<PageId> {
    set q | q in v.sptes && Overlap(v.sptes[q], e)
  }

  ghost function MappersOf(v: Vm, file: FileId): set<PageId> {
    set p | p in v.sptes && v.sptes[p].location == MMAPED_PAGE && v.sptes[p].file == file
  }

  /** The pages of a file that share bytes of it with another page. */
  ghost function SharersOf(v: Vm, file: FileId): set<PageId> {
    set p | p in v.sptes && v.sptes[p].file == file && Shares(v, p)
  }

  ghost predicate Shares(v: Vm, p: PageId)
    requires p in v.sptes
  {
    exists q :: q in v.sptes && q != p && Overlap(v.sptes[p], v.sptes[q])
  }

  ghost function ExposedBy(v: Vm, p: PageId, e: Spte): set<PageId> {
    if e.file in v.denied then (if e.location == MMAPED_PAGE then v.exposed + {p} else v.exposed - {p})
    else if Sharers(v, e) != {} then v.exposed + Sharers(v, e) + {p} else v.exposed - {p}
  }

  /** `create_spte_and_add_to_table` for a lazily loaded page.  A mapping that shares bytes
      of a file open to writing with another page exposes both: they may change without a
      store to them.  A mapping of a file closed to writing is exposed, because stores to it
      may be lost; pages of an executable, which is closed to writing while it runs, are not. */
  ghost predicate MapPage(v: Vm, v': Vm, p: PageId, e: Spte) {
    && p !in v.sptes && e.frame == None && e.location != SWAP_PAGE && ValidSpte(v, e)
    && v' == v.(sptes := v.sptes[p := e], memory := v.memory[p := Image(v.files, e)], exposed := ExposedBy(v, p, e))
  }

  /** `frame_handler_palloc` with `install_page`: the page goes into an empty frame and
      gets a fresh page table entry. */
  function Install(v: Vm, p: PageId, e: Spte, f: FrameId, content: Page): Vm {
    v.(sptes := v.sptes[p := e.(frame := Some(f))], ptes := v.ptes[p := Pte(true, f, e.writable, false)],
       resident := v.resident[f := p], mem := v.mem[f := content])
  }

  ghost predicate EmptyFrame(v: Vm, f: FrameId) {
    f in v.mem && f !in v.resident
  }

  /** `grow_stack`: a fresh zero page that has never been in swap. */
  ghost predicate GrowStack(v: Vm, v': Vm, p: PageId, f: FrameId) {
    && p !in v.sptes && EmptyFrame(v, f)
    && v' == Install(v, p, Spte(SWAP_PAGE, true, None, 0, 0, 0, 0), f, Zeros())
             .(memory := v.memory[p := Zeros()], exposed := v.exposed - {p})
  }

  /** A fault on a page that is not in memory: `load_swap_page` frees the slot,
      `load_file_page` reads the file. */
  ghost predicate Fault(v: Vm, v': Vm, p: PageId, f: FrameId) {
    && p in v.sptes && v.sptes[p].frame == None && EmptyFrame(v, f) && ValidSpte(v, v.sptes[p])
    && var e := v.sptes[p];
       if e.location == SWAP_PAGE
       then e.slot < |v.swap.pages| && v' == Install(v, p, e, f, v.swap.pages[e.slot]).(swap := v.swap.In(e.slot))
       else v' == Install(v, p, e, f, Image(v.files, e))
  }

  /** The processor stores bytes through a present, writable entry and marks it dirty. */
  ghost predicate Store(v: Vm, v': Vm, p: PageId, ofs: nat, bytes: seq<Byte>) {
    && p in v.sptes && p in v.ptes && v.ptes[p].present && v.ptes[p].writable && ofs + |bytes| <= PAGE_SIZE
    && p in v.memory && v.ptes[p].frame in v.mem
    && v' == v.(mem := v.mem[v.ptes[p].frame := Splice(v.mem[v.ptes[p].frame], ofs, bytes)],
                ptes := v.ptes[p := v.ptes[p].(dirty := true)],
                memory := v.memory[p := Splice(v.memory[p], ofs, bytes)])
  }

  /** `file_write_at` of the kept bytes; a file closed to writing is left as it is. */
  function WrittenBack(v: Vm, e: Spte, content: Page): map<FileId, seq<Byte>>
    requires ValidSpte(v, e) && e.location == MMAPED_PAGE
  {
    if e.file in v.denied then v.files
    else v.files[e.file := Splice(v.files[e.file], e.ofs, content[..e.read])]
  }

  /** The page leaves its frame: the present bit goes, the dirty bit stays. */
  function Leave(v: Vm, p: PageId, e: Spte, f: FrameId): Vm
    requires p in v.ptes
  {
    v.(sptes := v.sptes[p := e.(frame := None)], ptes := v.ptes[p := v.ptes[p].(present := false)],
       resident := v.resident - {f})
  }

  /** `evict_page_from_physical_memory`: to swap if the page belongs there or is a dirty
      file page, back to the file if it is a dirty mapped page, and nowhere otherwise.
      With no free slot the kernel panics, which is no step. */
  ghost predicate Evict(v: Vm, v': Vm, p: PageId, f: FrameId) {
    && p in v.sptes && v.sptes[p].frame == Some(f) && f in v.mem && p in v.ptes && ValidSpte(v, v.sptes[p])
    && var e, dirty := v.sptes[p], v.ptes[p].dirty;
       if e.location == SWAP_PAGE || (e.location == FILE_PAGE && dirty) then
         && v.swap.free != [] && v.swap.free[|v.swap.free| - 1] < |v.swap.pages|
         && v' == Leave(v, p, e.(location := SWAP_PAGE, slot := v.swap.free[|v.swap.free| - 1]), f)
                  .(swap := v.swap.Out(v.mem[f]))
       else if e.location == MMAPED_PAGE && dirty then
         v' == Leave(v, p, e, f).(files := WrittenBack(v, e, v.mem[f]),
                                  ptes := v.ptes[p := v.ptes[p].(present := false, dirty := false)])
       else v' == Leave(v, p, e, f)
  }

  /** `munmap_state` and `free_hash_entry` drop a page that is not in memory.  The slot of
      a swapped page is not given back. */
  ghost predicate Forget(v: Vm, v': Vm, p: PageId) {
    p in v.sptes && v.sptes[p].frame == None && v' == v.(sptes := v.sptes - {p}, memory := v.memory - {p})
  }

  /** `free_hash_entry` of a page in memory: its frame is given back as it is. */
  ghost predicate Discard(v: Vm, v': Vm, p: PageId, f: FrameId) {
    && p in v.sptes && v.sptes[p].frame == Some(f) && p in v.ptes
    && v' == v.(sptes := v.sptes - {p}, ptes := v.ptes[p := v.ptes[p].(present := false)],
                resident := v.resident - {f}, memory := v.memory - {p})
  }

  /** A file is closed to writing while it is being executed, by one process or more. */
  ghost predicate DenyWrite(v: Vm, v': Vm, file: FileId) {
    v' == v.(denied := v.denied + {file},
             exposed := v.exposed + MappersOf(v, file))
  }

  /** The file is open to writing again: pages that share its bytes are exposed. */
  ghost predicate AllowWrite(v: Vm, v': Vm, file: FileId) {
    v' == v.(denied := v.denied - {file}, exposed := v.exposed + SharersOf(v, file))
  }

  /** The pages that read some of `length` bytes of a file from `ofs` on. */
  ghost function ReadersOf(v: Vm, file: FileId, ofs: nat, length: nat): set<PageId> {
    set p | p in v.sptes && Reads(v.sptes[p], file, ofs, length)
  }

  predicate Reads(e: Spte, file: FileId, ofs: nat, length: nat) {
    e.location != SWAP_PAGE && e.file == file && ofs < e.ofs + e.read && e.ofs < ofs + length
  }

  /** An ordinary write to a file, by `file_write`.  Pages that read the written bytes are
      exposed. */
  ghost predicate WriteFile(v: Vm, v': Vm, file: FileId, ofs: nat, bytes: seq<Byte>) {
    && file in v.files && file !in v.denied && ofs + |bytes| <= |v.files[file]|
    && v' == v.(files := v.files[file := Splice(v.files[file], ofs, bytes)],
                exposed := v.exposed + ReadersOf(v, file, ofs, |bytes|))
  }

  // ---------- invariant ----------

  /** Page `p` in frame `f`. */
  predicate LoadedOk(v: Vm, p: PageId, e: Spte, f: FrameId)
    requires ValidSpte(v, e) && p in v.memory
  {
    && f in v.mem && f in v.resident && v.resident[f] == p
    && p in v.ptes && v.ptes[p].present && v.ptes[p].frame == f && v.ptes[p].writable == e.writable
    && (p !in v.exposed ==> Agree(e, v.mem[f], v.memory[p]))
    && (p !in v.exposed && e.location != SWAP_PAGE && !v.ptes[p].dirty ==> Agree(e, Image(v.files, e), v.memory[p]))
  }

  /** Page `p` on its backing store. */
  predicate StoredOk(v: Vm, p: PageId, e: Spte)
    requires ValidSpte(v, e) && p in v.memory
  {
    && (p in v.ptes ==> !v.ptes[p].present)
    && (if e.location == SWAP_PAGE
        then && e.slot < |v.swap.pages| && e.slot !in v.swap.free
             && (p !in v.exposed ==> v.swap.pages[e.slot] == v.memory[p])
        else p !in v.exposed ==> Agree(e, Image(v.files, e), v.memory[p]))
  }

  predicate PageOk(v: Vm, p: PageId)
    requires p in v.sptes
  {
    && p in v.memory && ValidSpte(v, v.sptes[p])
    && (v.sptes[p].location == MMAPED_PAGE && v.sptes[p].file in v.denied ==> p in v.exposed)
    && match v.sptes[p].frame
       case Some(f) => LoadedOk(v, p, v.sptes[p], f)
       case None => StoredOk(v, p, v.sptes[p])
  }

  /** Swapped pages have slots of their own, and sharers of a file open to writing are exposed. */
  predicate PairOk(v: Vm, p: PageId, q: PageId)
    requires p in v.sptes && q in v.sptes
  {
    var d, e := v.sptes[p], v.sptes[q];
    && (d.location == SWAP_PAGE && e.location == SWAP_PAGE && d.frame == None && e.frame == None ==> d.slot != e.slot)
    && (Overlap(d, e) && d.file !in v.denied ==> p in v.exposed && q in v.exposed)
  }

  /** Frames and present entries lead back to the page that has them. */
  ghost predicate Bijection(v: Vm) {
    && (forall f {:trigger v.resident[f]} :: f in v.resident ==>
          v.resident[f] in v.sptes && v.sptes[v.resident[f]].frame == Some(f))
    && (forall p {:trigger v.ptes[p]} :: p in v.ptes && v.ptes[p].present ==>
          p in v.sptes && v.sptes[p].frame == Some(v.ptes[p].frame))
  }

  ghost predicate Inv(v: Vm) {
    && v.swap.Valid() && Bijection(v)
    && (forall p {:trigger PageOk(v, p)} :: p in v.sptes ==> PageOk(v, p))
    && (forall p, q {:trigger PairOk(v, p, q)} :: p in v.sptes && q in v.sptes && p != q ==> PairOk(v, p, q))
  }

  /** A step left everything about page `q` as it was. */
  predicate Undisturbed(v: Vm, v': Vm, q: PageId) {
    && q in v.sptes && ValidSpte(v, v.sptes[q])
    && var e := v.sptes[q];
    && q in v'.sptes && v'.sptes[q] == e && ValidSpte(v', e)
    && (q in v'.ptes <==> q in v.ptes) && (q in v.ptes ==> v'.ptes[q] == v.ptes[q])
    && q in v.memory && q in v'.memory && v'.memory[q] == v.memory[q]
    && (q in v.exposed ==> q in v'.exposed)
    && (e.location == MMAPED_PAGE && e.file in v'.denied ==> q in v'.exposed)
    && (e.frame.Some? ==> var f := e.frame.value;
          f in v.mem && f in v'.mem && v'.mem[f] == v.mem[f] && f in v'.resident && v'.resident[f] == q)
    && (e.frame.None? && e.location == SWAP_PAGE ==>
          && e.slot < |v.swap.pages| && e.slot < |v'.swap.pages|
          && v'.swap.pages[e.slot] == v.swap.pages[e.slot] && e.slot !in v'.swap.free)
    && (e.location != SWAP_PAGE && q !in v'.exposed ==> Image(v'.files, e) == Image(v.files, e))
  }

  lemma StaysOk(v: Vm, v': Vm, q: PageId)
    requires Undisturbed(v, v', q) && PageOk(v, q)
    ensures PageOk(v', q)
  {
  }

  /** A step on page `p` keeps the invariant if it does so for `p` and leaves the other pages alone. */
  lemma OnePage(v: Vm, v': Vm, p: PageId)
    requires Inv(v) && v'.swap.Valid() && Bijection(v') && v'.denied == v.denied
    requires forall q {:trigger Undisturbed(v, v', q)} :: q in v'.sptes && q != p ==> Undisturbed(v, v', q)
    requires p in v'.sptes ==> PageOk(v', p)
    requires forall q {:trigger PairOk(v', p, q)} :: p in v'.sptes && q in v'.sptes && q != p ==> PairOk(v', p, q)
    ensures Inv(v')
  {
    forall q | q in v'.sptes ensures PageOk(v', q) {
      if q != p {
        assert Undisturbed(v, v', q);
        assert PageOk(v, q);
        StaysOk(v, v', q);
      }
    }
    forall q, r | q in v'.sptes && r in v'.sptes && q != r ensures PairOk(v', q, r) {
      if q == p {
      } else if r == p {
        assert PairOk(v', p, q);
      } else {
        assert Undisturbed(v, v', q) && Undisturbed(v, v', r);
        assert PairOk(v, q, r);
      }
    }
  }

  lemma FaultOwn(v: Vm, v': Vm, p: PageId, f: FrameId)
    requires Inv(v) && Fault(v, v', p, f)
    ensures PageOk(v', p) && v'.swap.Valid() && Bijection(v')
  {
    assert PageOk(v, p);
    if v.sptes[p].location == SWAP_PAGE { InConserves(v.swap, v.sptes[p].slot); }
  }

  lemma FaultOther(v: Vm, v': Vm, p: PageId, f: FrameId, q: PageId)
    requires Inv(v) && Fault(v, v', p, f) && q in v'.sptes && q != p
    ensures Undisturbed(v, v', q) && PairOk(v', p, q)
  {
    assert PageOk(v, p) && PageOk(v, q) && PairOk(v, p, q);
    if v.sptes[p].location == SWAP_PAGE { InConserves(v.swap, v.sptes[p].slot); }
  }

  lemma FaultInv(v: Vm, v': Vm, p: PageId, f: FrameId)
    requires Inv(v) && Fault(v, v', p, f)
    ensures Inv(v')
  {
    FaultOwn(v, v', p, f);
    forall q | q in v'.sptes && q != p ensures Undisturbed(v, v', q) && PairOk(v', p, q) { FaultOther(v, v', p, f, q); }
    OnePage(v, v', p);
  }

  lemma GrowInv(v: Vm, v': Vm, p: PageId, f: FrameId)
    requires Inv(v) && GrowStack(v, v', p, f)
    ensures Inv(v')
  {
    forall q | q in v'.sptes && q != p ensures Undisturbed(v, v', q) && PairOk(v', p, q) { assert PageOk(v, q); }
    OnePage(v, v', p);
  }

  lemma MapInv(v: Vm, v': Vm, p: PageId, e: Spte)
    requires Inv(v) && MapPage(v, v', p, e)
    ensures Inv(v')
  {
    assert p in v.ptes ==> !v.ptes[p].present;
    forall q | q in v'.sptes && q != p ensures Undisturbed(v, v', q) && PairOk(v', p, q) {
      assert PageOk(v, q);
      assert Overlap(e, v.sptes[q]) ==> q in Sharers(v, e);
    }
    OnePage(v, v', p);
  }

  lemma SpliceAgrees(e: Spte, a: Page, b: Page, ofs: nat, bytes: seq<Byte>)
    requires e.read <= PAGE_SIZE && Agree(e, a, b) && ofs + |bytes| <= PAGE_SIZE
    ensures Agree(e, Splice(a, ofs, bytes), Splice(b, ofs, bytes))
  {
    forall i | 0 <= i < Kept(e) ensures Splice(a, ofs, bytes)[i] == Splice(b, ofs, bytes)[i] {
      assert a[i] == a[..Kept(e)][i] == b[..Kept(e)][i] == b[i];
    }
  }

  lemma StoreInv(v: Vm, v': Vm, p: PageId, ofs: nat, bytes: seq<Byte>)
    requires Inv(v) && Store(v, v', p, ofs, bytes)
    ensures Inv(v')
  {
    assert PageOk(v, p);
    var e := v.sptes[p];
    if p !in v.exposed { SpliceAgrees(e, v.mem[e.frame.value], v.memory[p], ofs, bytes); }
    forall q | q in v'.sptes && q != p ensures Undisturbed(v, v', q) && PairOk(v', p, q) {
      assert PageOk(v, q) && PairOk(v, p, q);
    }
    OnePage(v, v', p);
  }

  /** A write-back is seen by no page that does not share the written bytes. */
  lemma WriteBackApart(v: Vm, e: Spte, content: Page, d: Spte)
    requires ValidSpte(v, e) && e.location == MMAPED_PAGE && ValidSpte(v, d) && d.location != SWAP_PAGE
    ensures ValidSpte(v.(files := WrittenBack(v, e, content)), d)
    ensures !Overlap(e, d) || e.file in v.denied ==> Image(WrittenBack(v, e, content), d) == Image(v.files, d)
  {
    var files := WrittenBack(v, e, content);
    assert |files[d.file]| == |v.files[d.file]|;
    if !Overlap(e, d) && e.file !in v.denied {
      forall i | d.ofs <= i < d.ofs + d.read ensures files[d.file][i] == v.files[d.file][i] {}
      assert files[d.file][d.ofs..d.ofs + d.read] == v.files[d.file][d.ofs..d.ofs + d.read];
    }
  }

  /** The written bytes are what the page reads from its file afterwards. */
  lemma WriteBackOwn(v: Vm, e: Spte, content: Page)
    requires ValidSpte(v, e) && e.location == MMAPED_PAGE && e.file !in v.denied
    ensures ValidSpte(v.(files := WrittenBack(v, e, content)), e)
    ensures Image(WrittenBack(v, e, content), e) == content[..e.read] + Zeros()[e.read..]
  {
    var files := WrittenBack(v, e, content);
    assert files[e.file][e.ofs..e.ofs + e.read] == content[..e.read];
  }

  lemma EvictOwn(v: Vm, v': Vm, p: PageId, f: FrameId)
    requires Inv(v) && Evict(v, v', p, f)
    ensures PageOk(v', p) && v'.swap.Valid()
  {
    assert PageOk(v, p);
    var e := v.sptes[p];
    if e.location == SWAP_PAGE || (e.location == FILE_PAGE && v.ptes[p].dirty) {
      OutConserves(v.swap, v.mem[f]);
      assert v.swap.free[|v.swap.free| - 1] !in v'.swap.free;
    } else if e.location == MMAPED_PAGE && v.ptes[p].dirty && e.file !in v.denied {
      WriteBackOwn(v, e, v.mem[f]);
    }
  }

  lemma EvictOther(v: Vm, v': Vm, p: PageId, f: FrameId, q: PageId)
    requires Inv(v) && Evict(v, v', p, f) && q in v'.sptes && q != p
    ensures Undisturbed(v, v', q)
  {
    assert PageOk(v, p) && PageOk(v, q) && PairOk(v, p, q);
    var e, d := v.sptes[p], v.sptes[q];
    if e.location == SWAP_PAGE || (e.location == FILE_PAGE && v.ptes[p].dirty) {
      OutConserves(v.swap, v.mem[f]);
    } else if e.location == MMAPED_PAGE && v.ptes[p].dirty && d.location != SWAP_PAGE {
      WriteBackApart(v, e, v.mem[f], d);
    }
  }

  lemma EvictPair(v: Vm, v': Vm, p: PageId, f: FrameId, q: PageId)
    requires Inv(v) && Evict(v, v', p, f) && q in v'.sptes && q != p
    ensures PairOk(v', p, q)
  {
    assert PageOk(v, q) && PairOk(v, p, q);
  }

  lemma EvictInv(v: Vm, v': Vm, p: PageId, f: FrameId)
    requires Inv(v) && Evict(v, v', p, f)
    ensures Inv(v')
  {
    EvictOwn(v, v', p, f);
    assert Bijection(v') by { assert PageOk(v, p); }
    forall q | q in v'.sptes && q != p ensures Undisturbed(v, v', q) && PairOk(v', p, q) {
      EvictOther(v, v', p, f, q);
      EvictPair(v, v', p, f, q);
    }
    OnePage(v, v', p);
  }

  lemma DropInv(v: Vm, v': Vm, p: PageId, f: FrameId)
    requires Inv(v) && (Forget(v, v', p) || Discard(v, v', p, f))
    ensures Inv(v')
  {
    assert PageOk(v, p);
    forall q | q in v'.sptes && q != p ensures Undisturbed(v, v', q) { assert PageOk(v, q); }
    OnePage(v, v', p);
  }

  lemma AccessInv(v: Vm, v': Vm, file: FileId)
    requires Inv(v) && (DenyWrite(v, v', file) || AllowWrite(v, v', file))
    ensures Inv(v')
  {
    forall q | q in v'.sptes ensures PageOk(v', q) {
      assert PageOk(v, q);
      assert v.sptes[q].location == MMAPED_PAGE && v.sptes[q].file == file ==> q in MappersOf(v, file);
    }
    forall q, r | q in v'.sptes && r in v'.sptes && q != r ensures PairOk(v', q, r) {
      assert PairOk(v, q, r);
      if Overlap(v.sptes[q], v.sptes[r]) {
        assert Overlap(v.sptes[r], v.sptes[q]);
        assert Shares(v, q) && Shares(v, r);
      }
    }
  }

  /** An ordinary write is seen by no page that does not read the written bytes. */
  lemma WriteFileApart(v: Vm, v': Vm, file: FileId, ofs: nat, bytes: seq<Byte>, e: Spte)
    requires WriteFile(v, v', file, ofs, bytes) && ValidSpte(v, e) && e.location != SWAP_PAGE
    ensures ValidSpte(v', e) && (!Reads(e, file, ofs, |bytes|) ==> Image(v'.files, e) == Image(v.files, e))
  {
    if e.file == file && !Reads(e, file, ofs, |bytes|) {
      assert v'.files[file][e.ofs..e.ofs + e.read] == v.files[file][e.ofs..e.ofs + e.read];
    }
  }

  lemma WriteFileInv(v: Vm, v': Vm, file: FileId, ofs: nat, bytes: seq<Byte>)
    requires Inv(v) && WriteFile(v, v', file, ofs, bytes)
    ensures Inv(v')
  {
    forall q | q in v'.sptes ensures PageOk(v', q) {
      assert PageOk(v, q);
      var e := v.sptes[q];
      if e.location != SWAP_PAGE { WriteFileApart(v, v', file, ofs, bytes, e); }
      assert Reads(e, file, ofs, |bytes|) ==> q in ReadersOf(v, file, ofs, |bytes|);
    }
    forall q, r | q in v'.sptes && r in v'.sptes && q != r ensures PairOk(v', q, r) { assert PairOk(v, q, r); }
  }

  // ---------- runs ----------

  datatype Op =
    | MapOp(page: PageId, spte: Spte)
    | GrowOp(page: PageId, frame: FrameId)
    | FaultOp(page: PageId, frame: FrameId)
    | StoreOp(page: PageId, ofs: nat, bytes: seq<Byte>)
    | EvictOp(page: PageId, frame: FrameId)
    | ForgetOp(page: PageId)
    | DiscardOp(page: PageId, frame: FrameId)
    | DenyOp(file: FileId)
    | AllowOp(file: FileId)
    | WriteOp(file: FileId, ofs: nat, bytes: seq<Byte>)

  ghost predicate Does(v: Vm, op: Op, v': Vm) {
    match op
    case MapOp(p, e) => MapPage(v, v', p, e)
    case GrowOp(p, f) => GrowStack(v, v', p, f)
    case FaultOp(p, f) => Fault(v, v', p, f)
    case StoreOp(p, ofs, bytes) => Store(v, v', p, ofs, bytes)
    case EvictOp(p, f) => Evict(v, v', p, f)
    case ForgetOp(p) => Forget(v, v', p)
    case DiscardOp(p, f) => Discard(v, v', p, f)
    case DenyOp(file) => DenyWrite(v, v', file)
    case AllowOp(file) => AllowWrite(v, v', file)
    case WriteOp(file, ofs, bytes) => WriteFile(v, v', file, ofs, bytes)
  }

  /** No page mapped, every frame empty; the swap table may have any number of slots. */
  ghost predicate Init(v: Vm) {
    v.sptes == map[] && v.ptes == map[] && v.resident == map[] && v.memory == map[] && v.swap.Valid()
  }

  ghost predicate StepAt(tr: seq<Vm>, ops: seq<Op>, i: nat)
    requires |tr| == |ops| + 1 && i < |ops|
  {
    Does(tr[i], ops[i], tr[i + 1])
  }

  ghost predicate Run(tr: seq<Vm>, ops: seq<Op>) {
    && |tr| == |ops| + 1 && Init(tr[0])
    && forall i {:trigger StepAt(tr, ops, i)} :: 0 <= i < |ops| ==> StepAt(tr, ops, i)
  }

  lemma DoesInv(v: Vm, op: Op, v': Vm)
    requires Inv(v) && Does(v, op, v')
    ensures Inv(v')
  {
    match op
    case MapOp(p, e) => MapInv(v, v', p, e);
    case GrowOp(p, f) => GrowInv(v, v', p, f);
    case FaultOp(p, f) => FaultInv(v, v', p, f);
    case StoreOp(p, ofs, bytes) => StoreInv(v, v', p, ofs, bytes);
    case EvictOp(p, f) => EvictInv(v, v', p, f);
    case ForgetOp(p) => DropInv(v, v', p, 0);
    case DiscardOp(p, f) => DropInv(v, v', p, f);
    case DenyOp(file) => AccessInv(v, v', file);
    case AllowOp(file) => AccessInv(v, v', file);
    case WriteOp(file, ofs, bytes) => WriteFileInv(v, v', file, ofs, bytes);
  }

  lemma {:induction false} RunInv(tr: seq<Vm>, ops: seq<Op>, n: nat)
    requires Run(tr, ops) && n < |tr|
    ensures Inv(tr[n])
  {
    if n == 0 {
    } else {
      RunInv(tr, ops, n - 1);
      assert StepAt(tr, ops, n - 1);
      DoesInv(tr[n - 1], ops[n - 1], tr[n]);
    }
  }

  // ---------- what user programs see ----------

  /** The operation maps page `p` afresh or unmaps it. */
  predicate Remaps(op: Op, p: PageId) {
    (op.MapOp? || op.GrowOp? || op.ForgetOp? || op.DiscardOp?) && op.page == p
  }

  function StoreTo(was: Page, op: Op, p: PageId): Page {
    if op.StoreOp? && op.page == p && op.ofs + |op.bytes| <= PAGE_SIZE then Splice(was, op.ofs, op.bytes) else was
  }

  /** A page under the stores made to it; faults and evictions do not appear. */
  function Stored(start: Page, ops: seq<Op>, p: PageId): Page {
    if ops == [] then start else StoreTo(Stored(start, ops[..|ops| - 1], p), ops[|ops| - 1], p)
  }

  lemma MemoryStep(v: Vm, op: Op, v': Vm, p: PageId)
    requires Does(v, op, v') && p in v.sptes && p in v.memory && !Remaps(op, p)
    ensures p in v'.sptes && p in v'.memory && v'.memory[p] == StoreTo(v.memory[p], op, p)
  {
  }

  lemma {:induction false} MemoryIsStored(tr: seq<Vm>, ops: seq<Op>, p: PageId, i: nat, n: nat)
    requires Run(tr, ops) && i <= n < |tr| && p in tr[i].sptes && p in tr[i].memory
    requires forall k {:trigger Remaps(ops[k], p)} :: i <= k < n ==> !Remaps(ops[k], p)
    ensures p in tr[n].sptes && p in tr[n].memory
    ensures tr[n].memory[p] == Stored(tr[i].memory[p], ops[i..n], p)
  {
    if n == i {
    } else {
      MemoryIsStored(tr, ops, p, i, n - 1);
      assert ops[i..n][..n - i - 1] == ops[i..n - 1];
      assert StepAt(tr, ops, n - 1);
      MemoryStep(tr[n - 1], ops[n - 1], tr[n], p);
    }
  }

  /** The first contents of a page: its part of the file, or zeros on the stack. */
  ghost predicate StartsAs(v: Vm, op: Op, p: PageId, start: Page) {
    match op
    case MapOp(q, e) => q == p && ValidSpte(v, e) && e.location != SWAP_PAGE && start == Image(v.files, e)
    case GrowOp(q, f) => q == p && start == Zeros()
    case _ => false
  }

  /** Paging is invisible.  However often a page is evicted and brought back, by whatever
      order of faults and evictions of any pages, a page that is in memory reads as its
      first contents under the stores made to it since it was mapped. */
  lemma PagingInvisible(tr: seq<Vm>, ops: seq<Op>, p: PageId, i: nat, n: nat, start: Page)
    requires Run(tr, ops) && i < n < |tr| && StartsAs(tr[i], ops[i], p, start)
    requires forall k {:trigger Remaps(ops[k], p)} :: i < k < n ==> !Remaps(ops[k], p)
    requires p in tr[n].ptes && tr[n].ptes[p].present && p !in tr[n].exposed
    ensures var v := tr[n]; var f := v.ptes[p].frame;
            && p in v.sptes && v.sptes[p].read <= PAGE_SIZE && f in v.mem
            && Agree(v.sptes[p], v.mem[f], Stored(start, ops[i + 1..n], p))
  {
    assert StepAt(tr, ops, i);
    StartMemory(tr[i], ops[i], tr[i + 1], p, start);
    MemoryIsStored(tr, ops, p, i + 1, n);
    RunInv(tr, ops, n);
    assert PageOk(tr[n], p);
  }

  /** The page is first seen in the state after the step that maps it. */
  lemma StartMemory(v: Vm, op: Op, v': Vm, p: PageId, start: Page)
    requires Does(v, op, v') && StartsAs(v, op, p, start)
    ensures p in v'.sptes && p in v'.memory && v'.memory[p] == start
  {
  }

  /** A page of an executable: read from a file that is closed to writing, or in swap since it
      was stored to. */
  predicate ProgramPage(v: Vm, p: PageId, file: FileId) {
    && p in v.sptes && v.sptes[p].file == file && v.sptes[p].location != MMAPED_PAGE
    && file in v.denied && p !in v.exposed
  }

  lemma ProgramStep(v: Vm, op: Op, v': Vm, p: PageId, file: FileId)
    requires Does(v, op, v') && ProgramPage(v, p, file) && !Remaps(op, p) && file in v'.denied
    ensures ProgramPage(v', p, file)
  {
    match op
    case MapOp(q, e) => assert e.file !in v.denied ==> p !in Sharers(v, e);
    case _ =>
  }

  lemma {:induction false} ProgramHidden(tr: seq<Vm>, ops: seq<Op>, p: PageId, i: nat, n: nat, e: Spte)
    requires Run(tr, ops) && i < n < |tr| && ops[i] == MapOp(p, e) && e.location == FILE_PAGE
    requires forall k {:trigger Remaps(ops[k], p)} :: i < k < n ==> !Remaps(ops[k], p)
    requires forall k {:trigger tr[k]} :: i <= k <= n ==> e.file in tr[k].denied
    ensures ProgramPage(tr[n], p, e.file)
  {
    assert StepAt(tr, ops, n - 1) && e.file in tr[n - 1].denied && e.file in tr[n].denied;
    if n == i + 1 {
    } else {
      ProgramHidden(tr, ops, p, i, n - 1, e);
      assert !Remaps(ops[n - 1], p);
      ProgramStep(tr[n - 1], ops[n - 1], tr[n], p, e.file);
    }
  }

  /** In every run, a page of an executable that is closed to writing since before the page was
      mapped reads, whenever it is in memory, as its part of the file under the stores made to
      it since, whatever is mapped or written elsewhere. */
  lemma ProgramRuns(tr: seq<Vm>, ops: seq<Op>, p: PageId, i: nat, n: nat, e: Spte)
    requires Run(tr, ops) && i < n < |tr| && ops[i] == MapOp(p, e) && e.location == FILE_PAGE
    requires forall k {:trigger Remaps(ops[k], p)} :: i < k < n ==> !Remaps(ops[k], p)
    requires forall k {:trigger tr[k]} :: i <= k <= n ==> e.file in tr[k].denied
    requires p in tr[n].ptes && tr[n].ptes[p].present
    ensures ValidSpte(tr[i], e) && tr[n].ptes[p].frame in tr[n].mem
    ensures tr[n].mem[tr[n].ptes[p].frame] == Stored(Image(tr[i].files, e), ops[i + 1..n], p)
  {
    assert StepAt(tr, ops, i);
    ProgramHidden(tr, ops, p, i, n, e);
    PagingInvisible(tr, ops, p, i, n, Image(tr[i].files, e));
    var v := tr[n];
    var a, b := v.mem[v.ptes[p].frame], Stored(Image(tr[i].files, e), ops[i + 1..n], p);
    assert a == a[..PAGE_SIZE] && b == b[..PAGE_SIZE];
  }

  /** Two present entries never lead to one frame, and a present entry leads to the frame
      that the frame table lists for its page. */
  lemma FramesApart(tr: seq<Vm>, ops: seq<Op>, n: nat, p: PageId, q: PageId)
    requires Run(tr, ops) && n < |tr|
    requires p in tr[n].ptes && tr[n].ptes[p].present && q in tr[n].ptes && tr[n].ptes[q].present
    ensures tr[n].ptes[p].frame in tr[n].resident && tr[n].resident[tr[n].ptes[p].frame] == p
    ensures p != q ==> tr[n].ptes[p].frame != tr[n].ptes[q].frame
  {
    RunInv(tr, ops, n);
    assert PageOk(tr[n], p) && PageOk(tr[n], q);
  }

  /** A frame that the frame table lists is the frame of a present entry of the page listed. */
  lemma FramesListed(tr: seq<Vm>, ops: seq<Op>, n: nat, f: FrameId)
    requires Run(tr, ops) && n < |tr| && f in tr[n].resident
    ensures var p := tr[n].resident[f]; p in tr[n].ptes && tr[n].ptes[p].present && tr[n].ptes[p].frame == f
  {
    RunInv(tr, ops, n);
    assert PageOk(tr[n], tr[n].resident[f]);
  }

  /** Two swapped pages never share a slot, and neither slot is free. */
  lemma SlotsApart(tr: seq<Vm>, ops: seq<Op>, n: nat, p: PageId, q: PageId)
    requires Run(tr, ops) && n < |tr| && p != q
    requires p in tr[n].sptes && tr[n].sptes[p].frame == None && tr[n].sptes[p].location == SWAP_PAGE
    requires q in tr[n].sptes && tr[n].sptes[q].frame == None && tr[n].sptes[q].location == SWAP_PAGE
    ensures tr[n].sptes[p].slot != tr[n].sptes[q].slot && tr[n].sptes[p].slot in tr[n].swap.InUse()
  {
    RunInv(tr, ops, n);
    assert PageOk(tr[n], p) && PairOk(tr[n], p, q);
  }

  /** Unmapping a page that is in memory leaves the stored bytes in the file and changes no
      other byte of any file. */
  lemma UnmapWritesFile(v: Vm, v1: Vm, v2: Vm, p: PageId, f: FrameId)
    requires Inv(v) && p in v.sptes && v.sptes[p].location == MMAPED_PAGE && p !in v.exposed
    requires Evict(v, v1, p, f) && Forget(v1, v2, p)
    ensures var e := v.sptes[p];
            && p in v.memory && v2.files.Keys == v.files.Keys
            && v2.files[e.file] == Splice(v.files[e.file], e.ofs, v.memory[p][..e.read])
            && forall g :: g in v.files && g != e.file ==> v2.files[g] == v.files[g]
  {
    assert PageOk(v, p);
    var e := v.sptes[p];
    var was, stored := v.files[e.file], v.memory[p][..e.read];
    if v.ptes[p].dirty {
      assert v.mem[f][..e.read] == stored;
    } else {
      assert was[e.ofs..e.ofs + e.read] == Image(v.files, e)[..e.read] == stored;
      assert Splice(was, e.ofs, was[e.ofs..e.ofs + e.read]) == was;
    }
  }

  lemma SpteStep(v: Vm, op: Op, v': Vm, p: PageId, e: Spte)
    requires Does(v, op, v') && !Remaps(op, p) && p in v.sptes && e.location == MMAPED_PAGE
    requires v.sptes[p] == e.(frame := v.sptes[p].frame)
    ensures p in v'.sptes && v'.sptes[p] == e.(frame := v'.sptes[p].frame)
  {
  }

  /** A mapping stays the same until it is undone. */
  lemma {:induction false} MappingStays(tr: seq<Vm>, ops: seq<Op>, p: PageId, i: nat, n: nat, e: Spte)
    requires Run(tr, ops) && i < n < |tr| && ops[i] == MapOp(p, e) && e.location == MMAPED_PAGE
    requires forall k {:trigger Remaps(ops[k], p)} :: i < k < n ==> !Remaps(ops[k], p)
    ensures p in tr[n].sptes && tr[n].sptes[p] == e.(frame := tr[n].sptes[p].frame)
  {
    assert StepAt(tr, ops, n - 1);
    if n == i + 1 {
    } else {
      MappingStays(tr, ops, p, i, n - 1, e);
      assert !Remaps(ops[n - 1], p);
      SpteStep(tr[n - 1], ops[n - 1], tr[n], p, e);
    }
  }

  /** In every run, when a page of a mapping is unmapped, whether it was evicted just then or
      long before, the file holds what the mapping showed at first under the stores made to it
      since. */
  lemma UnmapKeepsStores(tr: seq<Vm>, ops: seq<Op>, p: PageId, i: nat, n: nat, e: Spte)
    requires Run(tr, ops) && i < n < |ops| && ops[i] == MapOp(p, e) && e.location == MMAPED_PAGE
    requires forall k {:trigger Remaps(ops[k], p)} :: i < k < n ==> !Remaps(ops[k], p)
    requires ops[n] == ForgetOp(p) && p !in tr[n].exposed
    ensures ValidSpte(tr[i], e) && ValidSpte(tr[n + 1], e) && p !in tr[n + 1].sptes
    ensures tr[n + 1].files[e.file][e.ofs..e.ofs + e.read]
         == Stored(Image(tr[i].files, e), ops[i + 1..n], p)[..e.read]
  {
    assert StepAt(tr, ops, i) && StepAt(tr, ops, n);
    StartMemory(tr[i], ops[i], tr[i + 1], p, Image(tr[i].files, e));
    MemoryIsStored(tr, ops, p, i + 1, n);
    MappingStays(tr, ops, p, i, n, e);
    RunInv(tr, ops, n);
    assert PageOk(tr[n], p);
    var d := tr[n].sptes[p];
    assert Image(tr[n].files, d)[..d.read] == tr[n].files[e.file][e.ofs..e.ofs + e.read];
  }

  /** What one eviction and one fault make of any page, exposed or not: swap brings all of
      it back, a mapped file only the bytes the mapping covers, and a clean page or a page
      of a file closed to writing is read from the file again. */
  lemma EvictAndReload(v: Vm, v1: Vm, v2: Vm, p: PageId, f: FrameId, g: FrameId)
    requires v.swap.Valid() && Evict(v, v1, p, f) && Fault(v1, v2, p, g)
    ensures v2.sptes[p].frame == Some(g) && v2.resident == (v.resident - {f})[g := p]
    ensures var e, dirty := v.sptes[p], v.ptes[p].dirty;
            v2.mem[g] == if e.location == SWAP_PAGE || (e.location == FILE_PAGE && dirty) then v.mem[f]
                         else if e.location == MMAPED_PAGE && dirty && e.file !in v.denied
                         then v.mem[f][..e.read] + Zeros()[e.read..]
                         else Image(v.files, e)
  {
    var e := v.sptes[p];
    if e.location == MMAPED_PAGE && v.ptes[p].dirty && e.file !in v.denied { WriteBackOwn(v, e, v.mem[f]); }
  }

  /** A dirty mapped page comes back whole just when the bytes past the mapping are zero:
      stores to the tail of the last page of a mapping are lost. */
  lemma TailLost(v: Vm, v1: Vm, v2: Vm, p: PageId, f: FrameId, g: FrameId)
    requires v.swap.Valid() && Evict(v, v1, p, f) && Fault(v1, v2, p, g)
    requires v.sptes[p].location == MMAPED_PAGE && v.ptes[p].dirty && v.sptes[p].file !in v.denied
    ensures v2.mem[g] == v.mem[f] <==> forall i :: v.sptes[p].read <= i < PAGE_SIZE ==> v.mem[f][i] == 0
  {
    EvictAndReload(v, v1, v2, p, f, g);
    var r := v.sptes[p].read;
    var back := v.mem[f][..r] + Zeros()[r..];
    assert forall i :: r <= i < PAGE_SIZE ==> back[i] == 0;
    assert forall i :: 0 <= i < r ==> back[i] == v.mem[f][i];
  }

  /** A dirty mapped page of a file closed to writing comes back as it was just when it was as
      the file has it: stores to it are lost. */
  lemma DeniedLost(v: Vm, v1: Vm, v2: Vm, p: PageId, f: FrameId, g: FrameId)
    requires v.swap.Valid() && Evict(v, v1, p, f) && Fault(v1, v2, p, g)
    requires v.sptes[p].location == MMAPED_PAGE && v.ptes[p].dirty && v.sptes[p].file in v.denied
    ensures v2.mem[g] == v.mem[f] <==> v.mem[f] == Image(v.files, v.sptes[p])
    ensures v1.files == v.files
  {
    EvictAndReload(v, v1, v2, p, f, g);
  }

  /** The image of a page is its bytes of the file and nothing else. */
  lemma SameImage(files: map<FileId, seq<Byte>>, files': map<FileId, seq<Byte>>, d: Spte)
    requires d.read <= PAGE_SIZE && d.file in files && d.ofs + d.read <= |files[d.file]|
    requires d.file in files' && d.ofs + d.read <= |files'[d.file]|
    ensures (forall i :: d.ofs <= i < d.ofs + d.read ==> files'[d.file][i] == files[d.file][i]) ==>
              Image(files', d) == Image(files, d)
  {
    if forall i :: d.ofs <= i < d.ofs + d.read ==> files'[d.file][i] == files[d.file][i] {
      assert files'[d.file][d.ofs..d.ofs + d.read] == files[d.file][d.ofs..d.ofs + d.read];
    }
  }

  /** The page `got` of mapping `d` has the bytes of page `content` where mapping `e` covers
      them, and the file's elsewhere. */
  predicate SeesStores(was: seq<Byte>, e: Spte, content: Page, d: Spte, got: Page)
    requires e.read <= PAGE_SIZE && d.read <= PAGE_SIZE && d.ofs + d.read <= |was|
  {
    forall i {:trigger was[i]} :: d.ofs <= i < d.ofs + d.read ==>
      got[i - d.ofs] == if e.ofs <= i < e.ofs + e.read then content[i - e.ofs] else was[i]
  }

  /** Where both mappings cover the file, the page `content` of `e` is as the file. */
  predicate StoresNothing(was: seq<Byte>, e: Spte, content: Page, d: Spte)
    requires e.read <= PAGE_SIZE && d.ofs + d.read <= |was|
  {
    forall i {:trigger was[i]} :: d.ofs <= i < d.ofs + d.read && e.ofs <= i < e.ofs + e.read ==>
      content[i - e.ofs] == was[i]
  }

  lemma ReloadOther(v: Vm, v1: Vm, v2: Vm, p: PageId, q: PageId, f: FrameId, g: FrameId)
    requires Evict(v, v1, p, f) && Fault(v1, v2, q, g) && p != q && q in v.sptes
    requires v.sptes[p].location == MMAPED_PAGE && v.ptes[p].dirty && v.sptes[q].location != SWAP_PAGE
    ensures v1.files == WrittenBack(v, v.sptes[p], v.mem[f]) && ValidSpte(v1, v.sptes[q])
    ensures v2.mem[g] == Image(v1.files, v.sptes[q]) && v2.memory == v.memory
  {
  }

  /** What a page reads after another one has been written back to its file. */
  lemma SharedImage(v: Vm, e: Spte, content: Page, d: Spte)
    requires ValidSpte(v, e) && e.location == MMAPED_PAGE && e.file !in v.denied
    requires ValidSpte(v, d) && d.location != SWAP_PAGE && d.file == e.file
    ensures ValidSpte(v.(files := WrittenBack(v, e, content)), d)
    ensures var was, got := v.files[e.file], Image(WrittenBack(v, e, content), d);
            && SeesStores(was, e, content, d, got)
            && (got == Image(v.files, d) <==> StoresNothing(was, e, content, d))
  {
    var files := WrittenBack(v, e, content);
    var was, now := v.files[e.file], files[e.file];
    var got := Image(files, d);
    forall i | d.ofs <= i < d.ofs + d.read ensures got[i - d.ofs] == now[i] && Image(v.files, d)[i - d.ofs] == was[i] {}
    SameImage(v.files, files, d);
  }

  /** A page that reads bytes of a file which another page maps: out of memory while the other
      one is written back, it comes back with the bytes stored through that one, though
      nothing was stored to it.  It is as the file was, just when the mapped bytes are. */
  lemma SharedBytesChange(v: Vm, v1: Vm, v2: Vm, p: PageId, q: PageId, f: FrameId, g: FrameId)
    requires Evict(v, v1, p, f) && Fault(v1, v2, q, g) && p != q && q in v.sptes && ValidSpte(v, v.sptes[q])
    requires v.sptes[p].location == MMAPED_PAGE && v.ptes[p].dirty && v.sptes[p].file !in v.denied
    requires v.sptes[q].location != SWAP_PAGE && v.sptes[q].file == v.sptes[p].file
    ensures v2.memory == v.memory
    ensures var d, e := v.sptes[q], v.sptes[p]; var was := v.files[e.file];
            && SeesStores(was, e, v.mem[f], d, v2.mem[g])
            && (v2.mem[g] == Image(v.files, d) <==> StoresNothing(was, e, v.mem[f], d))
  {
    SharedImage(v, v.sptes[p], v.mem[f], v.sptes[q]);
    ReloadOther(v, v1, v2, p, q, f, g);
  }

  // ---------- progress ----------

  /** A page out of memory can always be brought back, given an empty frame. */
  lemma FaultEnabled(v: Vm, p: PageId, f: FrameId) returns (v': Vm)
    requires Inv(v) && p in v.sptes && v.sptes[p].frame == None && EmptyFrame(v, f)
    ensures Fault(v, v', p, f)
  {
    assert PageOk(v, p);
    var e := v.sptes[p];
    v' := if e.location == SWAP_PAGE then Install(v, p, e, f, v.swap.pages[e.slot]).(swap := v.swap.In(e.slot))
          else Install(v, p, e, f, Image(v.files, e));
  }

  /** The page is one that an eviction writes to swap. */
  predicate GoesToSwap(v: Vm, p: PageId)
    requires p in v.sptes
  {
    v.sptes[p].location == SWAP_PAGE || (v.sptes[p].location == FILE_PAGE && p in v.ptes && v.ptes[p].dirty)
  }

  /** A page in memory can always be evicted, unless it has to go to swap and swap is full. */
  lemma EvictEnabled(v: Vm, p: PageId, f: FrameId) returns (v': Vm)
    requires Inv(v) && p in v.sptes && v.sptes[p].frame == Some(f)
    requires GoesToSwap(v, p) ==> v.swap.free != []
    ensures Evict(v, v', p, f)
  {
    assert PageOk(v, p);
    var e, dirty := v.sptes[p], v.ptes[p].dirty;
    if e.location == SWAP_PAGE || (e.location == FILE_PAGE && dirty) {
      v' := Leave(v, p, e.(location := SWAP_PAGE, slot := v.swap.free[|v.swap.free| - 1]), f)
            .(swap := v.swap.Out(v.mem[f]));
    } else if e.location == MMAPED_PAGE && dirty {
      v' := Leave(v, p, e, f).(files := WrittenBack(v, e, v.mem[f]),
                               ptes := v.ptes[p := v.ptes[p].(present := false, dirty := false)]);
    } else {
      v' := Leave(v, p, e, f);
    }
  }

  /** A page not yet mapped can be mapped to bytes of a file, or grown on the stack into an empty
      frame; one in memory takes a store if it is writable, and can be discarded; one out of memory
      can be dropped; and a file open to writing takes a write. */
  lemma OthersEnabled(v: Vm, p: PageId, f: FrameId, e: Spte, ofs: nat, bytes: seq<Byte>)
    requires Inv(v)
    ensures p !in v.sptes && e.frame == None && e.location != SWAP_PAGE && ValidSpte(v, e) ==>
              exists v' :: MapPage(v, v', p, e)
    ensures p !in v.sptes && EmptyFrame(v, f) ==> exists v' :: GrowStack(v, v', p, f)
    ensures p in v.sptes && v.sptes[p].frame.Some? && v.sptes[p].writable && ofs + |bytes| <= PAGE_SIZE ==>
              exists v' :: Store(v, v', p, ofs, bytes)
    ensures p in v.sptes && v.sptes[p].frame == Some(f) ==> exists v' :: Discard(v, v', p, f)
    ensures p in v.sptes && v.sptes[p].frame == None ==> exists v' :: Forget(v, v', p)
    ensures e.file in v.files && e.file !in v.denied && ofs + |bytes| <= |v.files[e.file]| ==>
              exists v' :: WriteFile(v, v', e.file, ofs, bytes)
  {
    if p in v.sptes {
      assert PageOk(v, p);
      StoreEnabled(v, p, f, ofs, bytes);
    } else {
      MapEnabled(v, p, f, e);
    }
    if e.file in v.files && e.file !in v.denied && ofs + |bytes| <= |v.files[e.file]| {
      assert WriteFile(v, v.(files := v.files[e.file := Splice(v.files[e.file], ofs, bytes)],
                             exposed := v.exposed + ReadersOf(v, e.file, ofs, |bytes|)), e.file, ofs, bytes);
    }
  }

  lemma MapEnabled(v: Vm, p: PageId, f: FrameId, e: Spte)
    requires p !in v.sptes
    ensures e.frame == None && e.location != SWAP_PAGE && ValidSpte(v, e) ==> exists v' :: MapPage(v, v', p, e)
    ensures EmptyFrame(v, f) ==> exists v' :: GrowStack(v, v', p, f)
  {
    if e.frame == None && e.location != SWAP_PAGE && ValidSpte(v, e) {
      assert MapPage(v, v.(sptes := v.sptes[p := e], memory := v.memory[p := Image(v.files, e)],
                           exposed := ExposedBy(v, p, e)), p, e);
    }
    if EmptyFrame(v, f) {
      assert GrowStack(v, Install(v, p, Spte(SWAP_PAGE, true, None, 0, 0, 0, 0), f, Zeros())
                          .(memory := v.memory[p := Zeros()], exposed := v.exposed - {p}), p, f);
    }
  }

  lemma StoreEnabled(v: Vm, p: PageId, f: FrameId, ofs: nat, bytes: seq<Byte>)
    requires p in v.sptes && PageOk(v, p)
    ensures v.sptes[p].frame.Some? && v.sptes[p].writable && ofs + |bytes| <= PAGE_SIZE ==>
              exists v' :: Store(v, v', p, ofs, bytes)
    ensures v.sptes[p].frame == Some(f) ==> exists v' :: Discard(v, v', p, f)
    ensures v.sptes[p].frame == None ==> exists v' :: Forget(v, v', p)
  {
    var e := v.sptes[p];
    if e.frame == None {
      assert Forget(v, v.(sptes := v.sptes - {p}, memory := v.memory - {p}), p);
    } else {
      var g := e.frame.value;
      assert Discard(v, v.(sptes := v.sptes - {p}, ptes := v.ptes[p := v.ptes[p].(present := false)],
                           resident := v.resident - {g}, memory := v.memory - {p}), p, g);
      if e.writable && ofs + |bytes| <= PAGE_SIZE {
        assert Store(v, v.(mem := v.mem[g := Splice(v.mem[g], ofs, bytes)],
                           ptes := v.ptes[p := v.ptes[p].(dirty := true)],
                           memory := v.memory[p := Splice(v.memory[p], ofs, bytes)]), p, ofs, bytes);
      }
    }
  }

  /** A page just grown is in memory, all zeros and writable; one just loaded is in memory with the
      permission of its mapping; one evicted or dropped is in no frame. */
  lemma WherePagesGo(v: Vm, op: Op, v': Vm)
    requires Inv(v) && Does(v, op, v')
    ensures op.GrowOp? ==> InFrame(v', op.page, op.frame, true) && v'.mem[op.frame] == Zeros()
    ensures op.FaultOp? ==> InFrame(v', op.page, op.frame, v.sptes[op.page].writable)
    ensures op.EvictOp? || op.DiscardOp? ==> EmptyFrame(v', op.frame)
    ensures op.EvictOp? ==> op.page in v'.sptes && v'.sptes[op.page].frame == None
    ensures op.ForgetOp? || op.DiscardOp? ==> op.page !in v'.sptes
  {
    if op.EvictOp? || op.DiscardOp? { assert PageOk(v, op.page); }
  }

  predicate InFrame(v: Vm, p: PageId, f: FrameId, writable: bool) {
    && f in v.mem && f in v.resident && v.resident[f] == p
    && p in v.ptes && v.ptes[p].present && v.ptes[p].frame == f && v.ptes[p].writable == writable
  }

  // ---------- swap slots of pages that are gone ----------

  /** A slot that is not free and that no page has. */
  ghost predicate Lost(v: Vm, slot: nat) {
    && slot < |v.swap.pages| && slot !in v.swap.free
    && forall p {:trigger v.sptes[p]} :: p in v.sptes ==> !Holds(v.sptes[p], slot)
  }

  predicate Holds(e: Spte, slot: nat) {
    e.location == SWAP_PAGE && e.frame == None && e.slot == slot
  }

  /** Dropping a page that is out of memory loses a slot, if and only if the page is in swap. */
  lemma ForgetLoses(v: Vm, v': Vm, p: PageId)
    requires Inv(v) && Forget(v, v', p)
    ensures (exists slot: nat :: Lost(v', slot) && !Lost(v, slot)) <==> v.sptes[p].location == SWAP_PAGE
  {
    assert PageOk(v, p);
    if v.sptes[p].location == SWAP_PAGE {
      var slot := v.sptes[p].slot;
      forall q | q in v'.sptes ensures !Holds(v'.sptes[q], slot) { assert PairOk(v, p, q); }
      assert Holds(v.sptes[p], slot);
      assert Lost(v', slot) && !Lost(v, slot);
    } else {
      forall slot: nat | Lost(v', slot) ensures Lost(v, slot) {
        forall q | q in v.sptes ensures !Holds(v.sptes[q], slot) { if q != p { assert v'.sptes[q] == v.sptes[q]; } }
      }
    }
  }

  /** No other step loses a slot: a fault from swap gives the slot back, and an eviction to swap
      uses the one that it takes. */
  lemma OnlyForgetLoses(v: Vm, op: Op, v': Vm, slot: nat)
    requires Inv(v) && Does(v, op, v') && Lost(v', slot) && !Lost(v, slot)
    ensures op.ForgetOp? && v.sptes[op.page].location == SWAP_PAGE && v.sptes[op.page].slot == slot
  {
    if slot !in v.swap.free {
      var p :| p in v.sptes && Holds(v.sptes[p], slot);
      SlotKept(v, op, v', p, slot);
    } else {
      SlotTaken(v, op, v', slot);
    }
  }

  /** A free slot stays free, or an eviction gives it to a page. */
  lemma SlotTaken(v: Vm, op: Op, v': Vm, slot: nat)
    requires Inv(v) && Does(v, op, v') && slot in v.swap.free
    ensures slot in v'.swap.free || (op.EvictOp? && op.page in v'.sptes && Holds(v'.sptes[op.page], slot))
  {
    var i :| 0 <= i < |v.swap.free| && v.swap.free[i] == slot;
    if op.EvictOp? && i < |v.swap.free| - 1 && v'.swap != v.swap {
      assert v'.swap.free[i] == slot;
    } else if op.FaultOp? && v'.swap != v.swap {
      assert v'.swap.free[i] == slot;
    }
  }

  /** A slot that a page has stays the page's, becomes free, or the page is dropped. */
  lemma SlotKept(v: Vm, op: Op, v': Vm, p: PageId, slot: nat)
    requires Inv(v) && Does(v, op, v') && p in v.sptes && Holds(v.sptes[p], slot)
    ensures (op.ForgetOp? && op.page == p) || slot in v'.swap.free || (p in v'.sptes && Holds(v'.sptes[p], slot))
  {
    if op.FaultOp? && op.page == p { assert v'.swap.free[|v.swap.free|] == slot; }
  }

  /** A step loses a slot if and only if it drops a page that is in swap. */
  lemma LosesSlot(v: Vm, op: Op, v': Vm)
    requires Inv(v) && Does(v, op, v')
    ensures (exists slot: nat :: Lost(v', slot) && !Lost(v, slot)) <==>
            op.ForgetOp? && op.page in v.sptes && v.sptes[op.page].location == SWAP_PAGE
  {
    if slot: nat :| Lost(v', slot) && !Lost(v, slot) { OnlyForgetLoses(v, op, v', slot); }
    if op.ForgetOp? { ForgetLoses(v, v', op.page); }
  }

  /** A lost slot stays lost, whatever happens. */
  lemma LostStays(v: Vm, op: Op, v': Vm, slot: nat)
    requires Inv(v) && Does(v, op, v') && Lost(v, slot)
    ensures Lost(v', slot)
  {
    forall q | q in v'.sptes ensures !Holds(v'.sptes[q], slot) {
      if op.EvictOp? && q == op.page {
        assert v.swap.free != [] ==> v.swap.free[|v.swap.free| - 1] != slot;
      } else if q in v.sptes && v'.sptes[q] == v.sptes[q] {
      }
    }
    if op.FaultOp? { assert PageOk(v, op.page); assert !Holds(v.sptes[op.page], slot); }
  }

  /** In every run, a slot once lost is never used again. */
  lemma {:induction false} LostForGood(tr: seq<Vm>, ops: seq<Op>, i: nat, n: nat, slot: nat)
    requires Run(tr, ops) && i <= n < |tr| && Lost(tr[i], slot)
    ensures Lost(tr[n], slot)
  {
    if n == i {
    } else {
      LostForGood(tr, ops, i, n - 1, slot);
      RunInv(tr, ops, n - 1);
      assert StepAt(tr, ops, n - 1);
      LostStays(tr[n - 1], ops[n - 1], tr[n], slot);
    }
  }
}
