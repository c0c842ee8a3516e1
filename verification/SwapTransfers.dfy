/**
 Page-outs and page-ins of vm/swap.c by any number of threads at once.  Only taking a slot
 off the free stack and putting it back are under the swap lock; the eight sectors of a page
 are transferred outside it, one step per sector, in any interleaving.
 */
module SwapTransfers {
  import opened Base
  import opened Swap

  type Tid = nat

  /** Where a thread is in `write_to_swap` or `read_from_swap`: `done` sectors are
      transferred.  For a page-in, `page` remembers what was last written to the slot. */
  datatype Transfer =
    | Idle
    | Out(page: Page, slot: nat, done: nat)
    | In(page: Page, slot: nat, done: nat, buffer: seq<Byte>)

  /** What a slot is used for: nothing, a transfer, or a page that somebody will read. */
  datatype Use = Free | Busy(thread: Tid) | Full(page: Page)

  datatype State = State(free: seq<nat>, device: seq<Sector>, threads: map<Tid, Transfer>, uses: seq<Use>)

  function Chunk(p: Page, i: nat): Sector
    requires i < SECTORS_PER_PAGE
  {
    p[SECTOR_SIZE * i..SECTOR_SIZE * i + SECTOR_SIZE]
  }

  /** The first `n` sectors of the slot hold the start of the page. */
  ghost predicate Holds(device: seq<Sector>, slot: nat, p: Page, n: nat)
    requires n <= SECTORS_PER_PAGE && SECTORS_PER_PAGE * slot + SECTORS_PER_PAGE <= |device|
  {
    forall i {:trigger Chunk(p, i)} :: 0 <= i < n ==> device[SECTORS_PER_PAGE * slot + i] == Chunk(p, i)
  }

  predicate IdleAt(s: State, t: Tid) {
    t in s.threads && s.threads[t] == Idle
  }

  // ---------- steps ----------

  ghost predicate BeginOut(s: State, s': State, t: Tid, page: Page) {
    && IdleAt(s, t) && s.free != [] && s.free[|s.free| - 1] < |s.uses|
    && var slot := s.free[|s.free| - 1];
       s' == s.(free := s.free[..|s.free| - 1], threads := s.threads[t := Out(page, slot, 0)],
                uses := s.uses[slot := Busy(t)])
  }

  ghost predicate WriteSector(s: State, s': State, t: Tid) {
    && t in s.threads && s.threads[t].Out? && s.threads[t].done < SECTORS_PER_PAGE
    && var x := s.threads[t]; var k := SECTORS_PER_PAGE * x.slot + x.done;
       && k < |s.device|
       && s' == s.(device := s.device[k := Chunk(x.page, x.done)],
                   threads := s.threads[t := Out(x.page, x.slot, x.done + 1)])
  }

  /** `write_to_swap` returns the slot, which now belongs to the page. */
  ghost predicate EndOut(s: State, s': State, t: Tid) {
    && t in s.threads && s.threads[t].Out? && s.threads[t].done == SECTORS_PER_PAGE && s.threads[t].slot < |s.uses|
    && s' == s.(threads := s.threads[t := Idle], uses := s.uses[s.threads[t].slot := Full(s.threads[t].page)])
  }

  /** The owner of the page in a slot begins to read it. */
  ghost predicate BeginIn(s: State, s': State, t: Tid, slot: nat) {
    && IdleAt(s, t) && slot < |s.uses| && s.uses[slot].Full?
    && s' == s.(threads := s.threads[t := In(s.uses[slot].page, slot, 0, [])], uses := s.uses[slot := Busy(t)])
  }

  ghost predicate ReadSector(s: State, s': State, t: Tid) {
    && t in s.threads && s.threads[t].In? && s.threads[t].done < SECTORS_PER_PAGE
    && var x := s.threads[t]; var k := SECTORS_PER_PAGE * x.slot + x.done;
       k < |s.device| && s' == s.(threads := s.threads[t := In(x.page, x.slot, x.done + 1, x.buffer + s.device[k])])
  }

  /** `free_slot` */
  ghost predicate EndIn(s: State, s': State, t: Tid) {
    && t in s.threads && s.threads[t].In? && s.threads[t].done == SECTORS_PER_PAGE && s.threads[t].slot < |s.uses|
    && s' == s.(free := s.free + [s.threads[t].slot], threads := s.threads[t := Idle],
                uses := s.uses[s.threads[t].slot := Free])
  }

  datatype Op =
    | BeginOutOp(thread: Tid, page: Page)
    | WriteOp(thread: Tid)
    | EndOutOp(thread: Tid)
    | BeginInOp(thread: Tid, slot: nat)
    | ReadOp(thread: Tid)
    | EndInOp(thread: Tid)

  ghost predicate Does(s: State, op: Op, s': State) {
    match op
    case BeginOutOp(t, page) => BeginOut(s, s', t, page)
    case WriteOp(t) => WriteSector(s, s', t)
    case EndOutOp(t) => EndOut(s, s', t)
    case BeginInOp(t, slot) => BeginIn(s, s', t, slot)
    case ReadOp(t) => ReadSector(s, s', t)
    case EndInOp(t) => EndIn(s, s', t)
  }

  // ---------- invariant ----------

  ghost predicate SlotOk(s: State, slot: nat)
    requires slot < |s.uses| && SECTORS_PER_PAGE * |s.uses| <= |s.device|
  {
    && (slot in s.free <==> s.uses[slot] == Free)
    && match s.uses[slot]
       case Free => true
       case Full(p) => Holds(s.device, slot, p, SECTORS_PER_PAGE)
       case Busy(t) => t in s.threads && s.threads[t] != Idle && s.threads[t].slot == slot
  }

  ghost predicate ThreadOk(s: State, t: Tid)
    requires t in s.threads && SECTORS_PER_PAGE * |s.uses| <= |s.device|
  {
    match s.threads[t]
    case Idle => true
    case Out(p, slot, n) =>
      slot < |s.uses| && s.uses[slot] == Busy(t) && n <= SECTORS_PER_PAGE && Holds(s.device, slot, p, n)
    case In(p, slot, n, buffer) =>
      && slot < |s.uses| && s.uses[slot] == Busy(t) && n <= SECTORS_PER_PAGE
      && Holds(s.device, slot, p, SECTORS_PER_PAGE) && buffer == p[..SECTOR_SIZE * n]
  }

  ghost predicate Distinct(free: seq<nat>) {
    forall i, j :: 0 <= i < j < |free| ==> free[i] != free[j]
  }

  ghost predicate Inv(s: State) {
    && SECTORS_PER_PAGE * |s.uses| <= |s.device| && Distinct(s.free)
    && (forall i :: 0 <= i < |s.free| ==> s.free[i] < |s.uses|)
    && (forall slot {:trigger SlotOk(s, slot)} :: 0 <= slot < |s.uses| ==> SlotOk(s, slot))
    && (forall t {:trigger ThreadOk(s, t)} :: t in s.threads ==> ThreadOk(s, t))
  }

  /** `init_swap_table`: all slots are free and nothing is under way. */
  ghost predicate Init(s: State) {
    && SECTORS_PER_PAGE * |s.uses| <= |s.device| && (forall i :: 0 <= i < |s.uses| ==> s.uses[i] == Free)
    && |s.free| == |s.uses| && (forall i :: 0 <= i < |s.free| ==> s.free[i] == i)
    && forall t :: t in s.threads ==> s.threads[t] == Idle
  }

  lemma InitInv(s: State)
    requires Init(s)
    ensures Inv(s)
  {
    forall slot | 0 <= slot < |s.uses| ensures SlotOk(s, slot) { assert s.free[slot] == slot; }
  }

  lemma BeginOutInv(s: State, s': State, t: Tid, page: Page)
    requires Inv(s) && BeginOut(s, s', t, page)
    ensures Inv(s')
  {
    var n := |s.free| - 1;
    var slot := s.free[n];
    assert s.free == s'.free + [slot];
    assert slot !in s'.free;
    forall x | 0 <= x < |s'.uses| ensures SlotOk(s', x) { assert SlotOk(s, x); }
    forall u | u in s'.threads ensures ThreadOk(s', u) { assert ThreadOk(s, u) && SlotOk(s, slot); }
  }

  /** A write to one slot's sectors is not seen in another slot. */
  lemma HoldsElsewhere(device: seq<Sector>, k: nat, x: Sector, slot: nat, p: Page, n: nat)
    requires n <= SECTORS_PER_PAGE && SECTORS_PER_PAGE * slot + SECTORS_PER_PAGE <= |device| && k < |device|
    requires Holds(device, slot, p, n) && !(SECTORS_PER_PAGE * slot <= k < SECTORS_PER_PAGE * slot + n)
    ensures Holds(device[k := x], slot, p, n)
  {
  }

  lemma WriteInv(s: State, s': State, t: Tid)
    requires Inv(s) && WriteSector(s, s', t)
    ensures Inv(s')
  {
    var x := s.threads[t];
    var k := SECTORS_PER_PAGE * x.slot + x.done;
    assert ThreadOk(s, t);
    forall y | 0 <= y < |s'.uses| ensures SlotOk(s', y) {
      assert SlotOk(s, y);
      if s.uses[y].Full? { HoldsElsewhere(s.device, k, Chunk(x.page, x.done), y, s.uses[y].page, SECTORS_PER_PAGE); }
    }
    forall u | u in s'.threads ensures ThreadOk(s', u) {
      assert ThreadOk(s, u);
      if s.threads[u].Out? {
        HoldsElsewhere(s.device, k, Chunk(x.page, x.done), s.threads[u].slot, s.threads[u].page, s.threads[u].done);
      } else if s.threads[u].In? {
        HoldsElsewhere(s.device, k, Chunk(x.page, x.done), s.threads[u].slot, s.threads[u].page, SECTORS_PER_PAGE);
      }
    }
  }

  lemma EndOutInv(s: State, s': State, t: Tid)
    requires Inv(s) && EndOut(s, s', t)
    ensures Inv(s')
  {
    assert ThreadOk(s, t);
    forall y | 0 <= y < |s'.uses| ensures SlotOk(s', y) { assert SlotOk(s, y); }
    forall u | u in s'.threads ensures ThreadOk(s', u) { assert ThreadOk(s, u); }
  }

  lemma BeginInInv(s: State, s': State, t: Tid, slot: nat)
    requires Inv(s) && BeginIn(s, s', t, slot)
    ensures Inv(s')
  {
    assert SlotOk(s, slot);
    forall y | 0 <= y < |s'.uses| ensures SlotOk(s', y) { assert SlotOk(s, y); }
    forall u | u in s'.threads ensures ThreadOk(s', u) { assert ThreadOk(s, u); }
  }

  lemma ReadInv(s: State, s': State, t: Tid)
    requires Inv(s) && ReadSector(s, s', t)
    ensures Inv(s')
  {
    assert ThreadOk(s, t);
    var x := s.threads[t];
    assert s.device[SECTORS_PER_PAGE * x.slot + x.done] == Chunk(x.page, x.done);
    assert x.page[..SECTOR_SIZE * x.done] + Chunk(x.page, x.done) == x.page[..SECTOR_SIZE * (x.done + 1)];
    forall y | 0 <= y < |s'.uses| ensures SlotOk(s', y) { assert SlotOk(s, y); }
    forall u | u in s'.threads ensures ThreadOk(s', u) { assert ThreadOk(s, u); }
  }

  lemma EndInInv(s: State, s': State, t: Tid)
    requires Inv(s) && EndIn(s, s', t)
    ensures Inv(s') && |s.free| < |s.uses|
  {
    assert ThreadOk(s, t);
    var slot := s.threads[t].slot;
    assert SlotOk(s, slot);
    forall y | 0 <= y < |s'.uses| ensures SlotOk(s', y) { assert SlotOk(s, y); }
    forall u | u in s'.threads ensures ThreadOk(s', u) { assert ThreadOk(s, u); }
    DistinctBound(s'.free, |s.uses|);
  }

  lemma DoesInv(s: State, op: Op, s': State)
    requires Inv(s) && Does(s, op, s')
    ensures Inv(s')
  {
    match op
    case BeginOutOp(t, page) => BeginOutInv(s, s', t, page);
    case WriteOp(t) => WriteInv(s, s', t);
    case EndOutOp(t) => EndOutInv(s, s', t);
    case BeginInOp(t, slot) => BeginInInv(s, s', t, slot);
    case ReadOp(t) => ReadInv(s, s', t);
    case EndInOp(t) => EndInInv(s, s', t);
  }

  // ---------- runs ----------

  ghost predicate StepAt(tr: seq<State>, ops: seq<Op>, i: nat)
    requires |tr| == |ops| + 1 && i < |ops|
  {
    Does(tr[i], ops[i], tr[i + 1])
  }

  ghost predicate Run(tr: seq<State>, ops: seq<Op>) {
    && |tr| == |ops| + 1 && Init(tr[0])
    && forall i {:trigger StepAt(tr, ops, i)} :: 0 <= i < |ops| ==> StepAt(tr, ops, i)
  }

  lemma {:induction false} RunInv(tr: seq<State>, ops: seq<Op>, n: nat)
    requires Run(tr, ops) && n < |tr|
    ensures Inv(tr[n])
  {
    if n > 0 {
      RunInv(tr, ops, n - 1);
      assert StepAt(tr, ops, n - 1);
      DoesInv(tr[n - 1], ops[n - 1], tr[n]);
    } else {
      InitInv(tr[0]);
    }
  }

  predicate Reads(op: Op, slot: nat) {
    op.BeginInOp? && op.slot == slot
  }

  /** A page stays in its slot until somebody begins to read it. */
  lemma StaysFull(s: State, op: Op, s': State, slot: nat)
    requires Inv(s) && Does(s, op, s') && slot < |s.uses| && s.uses[slot].Full? && !Reads(op, slot)
    ensures slot < |s'.uses| && s'.uses[slot] == s.uses[slot]
  {
    assert SlotOk(s, slot);
    if op.thread in s.threads { assert ThreadOk(s, op.thread); }
  }

  lemma {:induction false} FullUntilRead(tr: seq<State>, ops: seq<Op>, i: nat, n: nat, slot: nat)
    requires Run(tr, ops) && i <= n < |tr| && slot < |tr[i].uses| && tr[i].uses[slot].Full?
    requires forall k {:trigger Reads(ops[k], slot)} :: i <= k < n ==> !Reads(ops[k], slot)
    ensures slot < |tr[n].uses| && tr[n].uses[slot] == tr[i].uses[slot]
  {
    if n == i {
    } else {
      FullUntilRead(tr, ops, i, n - 1, slot);
      RunInv(tr, ops, n - 1);
      assert StepAt(tr, ops, n - 1);
      StaysFull(tr[n - 1], ops[n - 1], tr[n], slot);
    }
  }

  predicate Ends(op: Op, t: Tid) {
    op.EndInOp? && op.thread == t
  }

  /** A thread in the middle of a page-in goes on with the same page and slot. */
  lemma {:induction false} ReadsOn(tr: seq<State>, ops: seq<Op>, i: nat, n: nat, t: Tid)
    requires Run(tr, ops) && i <= n < |tr| && t in tr[i].threads && tr[i].threads[t].In?
    requires forall k {:trigger Ends(ops[k], t)} :: i <= k < n ==> !Ends(ops[k], t)
    ensures t in tr[n].threads && tr[n].threads[t].In? && tr[n].threads[t].page == tr[i].threads[t].page
    ensures tr[n].threads[t].slot == tr[i].threads[t].slot
  {
    if n == i {
    } else {
      ReadsOn(tr, ops, i, n - 1, t);
      assert StepAt(tr, ops, n - 1) && !Ends(ops[n - 1], t);
    }
  }

  /** However the sectors of any transfers interleave, a page-in ends with the page, byte for
      byte, that the last page-out to its slot was given. */
  lemma PageComesBack(tr: seq<State>, ops: seq<Op>, i: nat, j: nat, n: nat, t: Tid, u: Tid, slot: nat)
    requires Run(tr, ops) && i < j < n < |ops|
    requires ops[i] == EndOutOp(t) && t in tr[i].threads && tr[i].threads[t].Out? && tr[i].threads[t].slot == slot
    requires ops[j] == BeginInOp(u, slot)
    requires forall k {:trigger Reads(ops[k], slot)} :: i < k < j ==> !Reads(ops[k], slot)
    requires ops[n] == EndInOp(u) && forall k {:trigger Ends(ops[k], u)} :: j < k < n ==> !Ends(ops[k], u)
    ensures u in tr[n].threads && tr[n].threads[u].In? && tr[n].threads[u].buffer == tr[i].threads[t].page
  {
    assert StepAt(tr, ops, i) && StepAt(tr, ops, j) && StepAt(tr, ops, n);
    FullUntilRead(tr, ops, i + 1, j, slot);
    ReadsOn(tr, ops, j + 1, n, u);
    RunInv(tr, ops, n);
    assert ThreadOk(tr[n], u);
    var p := tr[n].threads[u].page;
    assert p[..PAGE_SIZE] == p;
  }

  /** In every run, a slot is on the free stack once, or is in the transfer of one thread, or
      is full with its page on the device; and the free slots are slots of the device. */
  lemma SlotsConserved(tr: seq<State>, ops: seq<Op>, n: nat, slot: nat)
    requires Run(tr, ops) && n < |tr| && slot < |tr[n].uses|
    ensures var s := tr[n];
            && Distinct(s.free) && (forall i :: 0 <= i < |s.free| ==> s.free[i] < |s.uses|)
            && (slot in s.free <==> s.uses[slot] == Free)
            && match s.uses[slot]
               case Free => true
               case Busy(t) => t in s.threads && s.threads[t] != Idle && s.threads[t].slot == slot
               case Full(p) => SECTORS_PER_PAGE * (slot + 1) <= |s.device| && Holds(s.device, slot, p, SECTORS_PER_PAGE)
  {
    RunInv(tr, ops, n);
    assert SlotOk(tr[n], slot);
  }

  /** In every run, a transfer has a slot of its own. */
  lemma TransfersApart(tr: seq<State>, ops: seq<Op>, n: nat, t: Tid, u: Tid)
    requires Run(tr, ops) && n < |tr| && t in tr[n].threads && tr[n].threads[t] != Idle
    requires u in tr[n].threads && tr[n].threads[u] != Idle
    ensures var s := tr[n];
            && s.threads[t].slot < |s.uses| && s.uses[s.threads[t].slot] == Busy(t)
            && (s.threads[t].slot == s.threads[u].slot ==> t == u)
  {
    RunInv(tr, ops, n);
    assert ThreadOk(tr[n], t) && ThreadOk(tr[n], u);
  }

  /** A thread in the middle of a transfer can always take the next step of its own. */
  lemma NeverStuck(s: State, t: Tid) returns (op: Op, s': State)
    requires Inv(s) && t in s.threads && s.threads[t] != Idle
    ensures Does(s, op, s') && op.thread == t && (op.WriteOp? || op.EndOutOp? || op.ReadOp? || op.EndInOp?)
  {
    assert ThreadOk(s, t);
    match s.threads[t]
    case Out(p, slot, n) =>
      if n < SECTORS_PER_PAGE {
        op := WriteOp(t);
        s' := s.(device := s.device[SECTORS_PER_PAGE * slot + n := Chunk(p, n)],
                 threads := s.threads[t := Out(p, slot, n + 1)]);
      } else {
        op := EndOutOp(t);
        s' := s.(threads := s.threads[t := Idle], uses := s.uses[slot := Full(p)]);
      }
    case In(p, slot, n, buffer) =>
      if n < SECTORS_PER_PAGE {
        op := ReadOp(t);
        s' := s.(threads := s.threads[t := In(p, slot, n + 1, buffer + s.device[SECTORS_PER_PAGE * slot + n])]);
      } else {
        op := EndInOp(t);
        s' := s.(free := s.free + [slot], threads := s.threads[t := Idle], uses := s.uses[slot := Free]);
      }
  }

  /** An idle thread can begin a page-out whenever a slot is free, and a page-in of any full slot. */
  lemma CanBegin(s: State, t: Tid, page: Page, slot: nat)
    requires Inv(s) && IdleAt(s, t)
    ensures s.free != [] ==> exists s' :: Does(s, BeginOutOp(t, page), s')
    ensures slot < |s.uses| && s.uses[slot].Full? ==> exists s' :: Does(s, BeginInOp(t, slot), s')
  {
    if s.free != [] {
      var top := s.free[|s.free| - 1];
      assert Does(s, BeginOutOp(t, page),
                  s.(free := s.free[..|s.free| - 1], threads := s.threads[t := Out(page, top, 0)],
                     uses := s.uses[top := Busy(t)]));
    }
    if slot < |s.uses| && s.uses[slot].Full? {
      assert Does(s, BeginInOp(t, slot),
                  s.(threads := s.threads[t := In(s.uses[slot].page, slot, 0, [])], uses := s.uses[slot := Busy(t)]));
    }
  }

  /** A page-out takes a free slot and leaves it full of the page; a page-in leaves its slot free. */
  lemma TransferEnds(s: State, op: Op, s': State)
    requires Inv(s) && Does(s, op, s')
    ensures op.BeginOutOp? ==>
              var slot := s'.threads[op.thread].slot;
              slot in s.free && slot !in s'.free && s'.uses[slot] == Busy(op.thread)
    ensures op.EndOutOp? ==> s'.uses[s.threads[op.thread].slot] == Full(s.threads[op.thread].page)
    ensures op.EndInOp? ==>
              var slot := s.threads[op.thread].slot; slot in s'.free && s'.uses[slot] == Free && slot !in s.free
  {
    if op.BeginOutOp? {
      assert s.free == s'.free + [s.free[|s.free| - 1]];
    } else if op.EndInOp? {
      assert ThreadOk(s, op.thread) && SlotOk(s, s.threads[op.thread].slot);
      assert s'.free[|s.free|] == s.threads[op.thread].slot;
    }
  }
}
