/**
 The exit/wait protocol of userprog/process.c: process_wait, process_exit and
 notify_children_parent_is_finished over the vital_info record that a child shares with
 its parent.

 Processes form a tree of any size and shape.  Every lock operation and every access to
 a shared record is a step of its own, and processes interleave freely.
 */
module ExitWait {
  import opened Base

  type Tid = nat

  datatype Side = Parent | Child

  /** `struct vital_info`.  `frees` counts the calls of free on it; `parentLeft` and
      `childLeft` record that a side will not touch it again. */
  datatype Info = Info(status: int, waited: bool, childFinished: bool, parentFinished: bool,
                       holder: Option<Side>, frees: nat, parentLeft: bool, childLeft: bool)

  /** The record of one child, the semaphore `wait_on_me` of its thread, the last status the
      child stored, and the results that completed waits for it have returned. */
  datatype Link = Link(info: Info, sema: nat, stored: int, returned: seq<int>)

  const Fresh := Link(Info(0, false, false, false, None, 0, false, false), 0, 0, [])

  /** What the parent does next with the record: in `process_wait`, then in
      `notify_children_parent_is_finished`. */
  datatype ParentPos =
    | Listed | Gone
    | Check | Mark | Lock | Look | Unlock(finished: bool) | Sleep | ReadStatus | Unlist(status: int) | Free(status: int)
    | NLock | NLook | NMark | NUnlock | NUnlockFree | NFree

  /** What the child does next with its own record, in `process_exit`. */
  datatype ChildPos = Alive | CLock | CLook | CMark | CUnlock | CUp | CUnlockFree | CFree | Left

  predicate InWait(p: ParentPos) {
    p.Check? || p.Mark? || p.Lock? || p.Look? || p.Unlock? || p.Sleep? || p.ReadStatus? || p.Unlist? || p.Free?
  }

  predicate InNotify(p: ParentPos) {
    p.NLock? || p.NLook? || p.NMark? || p.NUnlock? || p.NUnlockFree? || p.NFree?
  }

  /** One step of the parent on the record of one child. */
  predicate ParentAct(l: Link, p: ParentPos, l': Link, p': ParentPos) {
    var i := l.info;
    match p
    case Check => l' == l && p' == if i.waited then Listed else Mark
    case Mark => l' == l.(info := i.(waited := true)) && p' == Lock
    case Lock => i.holder.None? && l' == l.(info := i.(holder := Some(Parent))) && p' == Look
    case Look => l' == l && p' == Unlock(i.childFinished)
    case Unlock(fin) => l' == l.(info := i.(holder := None)) && p' == if fin then ReadStatus else Sleep
    case Sleep => l.sema > 0 && l' == l.(sema := l.sema - 1) && p' == ReadStatus
    case ReadStatus => l' == l && p' == Unlist(i.status)
    case Unlist(st) => l' == l && p' == Free(st)
    case Free(st) =>
      && l' == l.(info := i.(frees := i.frees + 1, parentLeft := true), returned := l.returned + [st])
      && p' == Gone
    case NLock => i.holder.None? && l' == l.(info := i.(holder := Some(Parent))) && p' == NLook
    case NLook => l' == l && p' == if i.childFinished then NUnlockFree else NMark
    case NMark => l' == l.(info := i.(parentFinished := true)) && p' == NUnlock
    case NUnlock => l' == l.(info := i.(holder := None, parentLeft := true)) && p' == Gone
    case NUnlockFree => l' == l.(info := i.(holder := None)) && p' == NFree
    case NFree => l' == l.(info := i.(frees := i.frees + 1, parentLeft := true)) && p' == Gone
    case _ => false
  }

  /** One step of the child on its own record, or on the semaphore of its thread. */
  predicate ChildAct(l: Link, c: ChildPos, l': Link, c': ChildPos) {
    var i := l.info;
    match c
    case Alive =>
      || (l' == l && c' == CLock)
      || (c' == Alive && l' == l.(info := i.(status := l'.stored), stored := l'.stored))
    case CLock => i.holder.None? && l' == l.(info := i.(holder := Some(Child))) && c' == CLook
    case CLook => l' == l && c' == if i.parentFinished then CUnlockFree else CMark
    case CMark => l' == l.(info := i.(childFinished := true)) && c' == CUnlock
    case CUnlock => l' == l.(info := i.(holder := None, childLeft := true)) && c' == CUp
    case CUp => l' == l.(sema := l.sema + 1) && c' == Left
    case CUnlockFree => l' == l.(info := i.(holder := None)) && c' == CFree
    case CFree => l' == l.(info := i.(frees := i.frees + 1, childLeft := true)) && c' == Left
    case Left => false
  }

  /** The parent's next step reads, writes, locks or frees the record. */
  predicate ParentTouches(p: ParentPos) { InWait(p) || InNotify(p) }

  predicate ChildTouches(c: ChildPos) { c != CUp && c != Left }

  // ---------- one record ----------

  predicate ParentLocked(p: ParentPos) {
    p.Look? || p.Unlock? || p.NLook? || p.NMark? || p.NUnlock? || p.NUnlockFree?
  }

  predicate ChildLocked(c: ChildPos) {
    c.CLook? || c.CMark? || c.CUnlock? || c.CUnlockFree?
  }

  /** The parent has seen that the child is through with the record. */
  predicate ParentSure(p: ParentPos) {
    p == Unlock(true) || p.ReadStatus? || p.Unlist? || p.Free? || p.NUnlockFree? || p.NFree?
  }

  /** The parent has not yet been woken, or seen that it need not sleep, by the child's exit. */
  predicate BeforeWake(p: ParentPos) {
    p.Listed? || p.Check? || p.Mark? || p.Lock? || p.Look? || p.Unlock? || p.Sleep?
  }

  predicate LinkInv(l: Link, p: ParentPos, c: ChildPos) {
    var i := l.info;
    // the lock
    && (i.holder == Some(Parent) <==> ParentLocked(p))
    && (i.holder == Some(Child) <==> ChildLocked(c))
    // who is still there
    && (i.parentLeft <==> p == Gone)
    && (i.childLeft <==> c == CUp || c == Left)
    && i.frees == (if i.parentLeft && i.childLeft then 1 else 0)
    // the flags
    && (i.childFinished ==> c == CUnlock || i.childLeft)
    && (c == CUnlock || c == CUp ==> i.childFinished)
    && (i.childLeft && !i.parentLeft ==> i.childFinished)
    && (i.parentFinished ==> p == NUnlock || i.parentLeft)
    && (p == NUnlock || (i.parentLeft && !i.childLeft) ==> i.parentFinished)
    && (p == NMark || p == NUnlock ==> !i.childFinished)
    && (c == CMark || c == CUnlock ==> !i.parentFinished)
    && (c == CUnlockFree || c == CFree ==> i.parentLeft)
    && (ParentSure(p) ==> i.childLeft)
    && (l.sema > 0 ==> c == Left && i.childFinished)
    // the result
    && (!i.childLeft || !i.parentLeft ==> i.status == l.stored)
    && (p.Unlist? || p.Free? ==> p.status == l.stored)
    && (i.waited ==> (InWait(p) && !p.Check? && !p.Mark?) || (p == Gone && l.returned != []))
    && (c == Left && !i.parentLeft && BeforeWake(p) ==> l.sema > 0)
    && (!i.parentLeft ==> l.returned == [])
    && (l.returned == [] || (l.returned == [l.stored] && i.childLeft))
  }

  lemma ParentKeeps(l: Link, p: ParentPos, c: ChildPos, l': Link, p': ParentPos)
    requires LinkInv(l, p, c) && ParentAct(l, p, l', p')
    ensures LinkInv(l', p', c)
  {
  }

  lemma ChildKeeps(l: Link, p: ParentPos, c: ChildPos, l': Link, c': ChildPos)
    requires LinkInv(l, p, c) && ChildAct(l, c, l', c')
    ensures LinkInv(l', p, c')
  {
  }

  /** Nobody touches a record that has been freed, so it is freed at most once. */
  lemma NoUseAfterFree(l: Link, p: ParentPos, c: ChildPos)
    requires LinkInv(l, p, c)
    ensures ParentTouches(p) || ChildTouches(c) ==> l.info.frees == 0
  {
  }

  /** A wait that ends has returned, once, what the child stored, and the child is through. */
  lemma WaitEnds(l: Link, p: ParentPos, c: ChildPos, l': Link, p': ParentPos)
    requires LinkInv(l, p, c) && ParentAct(l, p, l', p') && InWait(p) && !InWait(p')
    ensures p' == Gone && l'.returned == [l'.stored] && l'.info.childLeft && l.returned == []
  {
  }

  /** The parent can always take its next step on the record, unless the child is in the middle
      of one of its own, or has not exited while the parent waits for it. */
  lemma ParentGoesOn(l: Link, p: ParentPos, c: ChildPos) returns (l': Link, p': ParentPos)
    requires LinkInv(l, p, c) && (InWait(p) || InNotify(p))
    requires p == Lock || p == NLock ==> !ChildLocked(c)
    requires p == Sleep ==> c == Left
    ensures ParentAct(l, p, l', p')
  {
    var i := l.info;
    assert i.holder.Some? ==> i.holder.value.Parent? || i.holder.value.Child?;
    match p
    case Check => l', p' := l, if i.waited then Listed else Mark;
    case Mark => l', p' := l.(info := i.(waited := true)), Lock;
    case Lock => l', p' := l.(info := i.(holder := Some(Parent))), Look;
    case Look => l', p' := l, Unlock(i.childFinished);
    case Unlock(fin) => l', p' := l.(info := i.(holder := None)), if fin then ReadStatus else Sleep;
    case Sleep => l', p' := l.(sema := l.sema - 1), ReadStatus;
    case ReadStatus => l', p' := l, Unlist(i.status);
    case Unlist(st) => l', p' := l, Free(st);
    case Free(st) =>
      l', p' := l.(info := i.(frees := i.frees + 1, parentLeft := true), returned := l.returned + [st]), Gone;
    case NLock => l', p' := l.(info := i.(holder := Some(Parent))), NLook;
    case NLook => l', p' := l, if i.childFinished then NUnlockFree else NMark;
    case NMark => l', p' := l.(info := i.(parentFinished := true)), NUnlock;
    case NUnlock => l', p' := l.(info := i.(holder := None, parentLeft := true)), Gone;
    case NUnlockFree => l', p' := l.(info := i.(holder := None)), NFree;
    case NFree => l', p' := l.(info := i.(frees := i.frees + 1, parentLeft := true)), Gone;
  }

  /** The child can always go on with its exit, unless the parent has the lock. */
  lemma ChildGoesOn(l: Link, p: ParentPos, c: ChildPos) returns (l': Link, c': ChildPos)
    requires LinkInv(l, p, c) && c != Left && (c == CLock ==> !ParentLocked(p))
    ensures ChildAct(l, c, l', c') && c' != c
  {
    var i := l.info;
    assert i.holder.Some? ==> i.holder.value.Parent? || i.holder.value.Child?;
    match c
    case Alive => l', c' := l, CLock;
    case CLock => l', c' := l.(info := i.(holder := Some(Child))), CLook;
    case CLook => l', c' := l, if i.parentFinished then CUnlockFree else CMark;
    case CMark => l', c' := l.(info := i.(childFinished := true)), CUnlock;
    case CUnlock => l', c' := l.(info := i.(holder := None, childLeft := true)), CUp;
    case CUp => l', c' := l.(sema := l.sema + 1), Left;
    case CUnlockFree => l', c' := l.(info := i.(holder := None)), CFree;
    case CFree => l', c' := l.(info := i.(frees := i.frees + 1, childLeft := true)), Left;
  }

  // ---------- the process tree ----------

  datatype Pc = Running | AsParent(child: Tid, pos: ParentPos) | Exiting(own: ChildPos) | Notifying | Dead

  /** A process; `listed` says that its record is on its parent's list of children. */
  datatype Proc = Proc(parent: Tid, pc: Pc, listed: bool)

  datatype State = State(procs: map<Tid, Proc>, links: map<Tid, Link>)

  /** Where process `q` stands with its own record. */
  function ChildPosOf(q: Proc): ChildPos {
    match q.pc
    case Running => Alive
    case AsParent(_, pos) => if InWait(pos) then Alive else Left
    case Exiting(own) => own
    case Notifying => Left
    case Dead => Left
  }

  /** Where the parent stands with the record of `c`: in the middle of something, or not. */
  function PosOf(s: State, c: Tid): ParentPos
    requires c in s.procs
  {
    var p := s.procs[c].parent;
    if p in s.procs && s.procs[p].pc.AsParent? && s.procs[p].pc.child == c then s.procs[p].pc.pos
    else if s.procs[c].listed then Listed else Gone
  }

  predicate ChildOf(s: State, c: Tid, q: Tid) {
    c in s.procs && s.procs[c].parent == q && c != q && s.procs[c].listed
  }

  function SetPc(s: State, q: Tid, pc: Pc): State
    requires q in s.procs
  {
    s.(procs := s.procs[q := s.procs[q].(pc := pc)])
  }

  function Unlisted(s: State, c: Tid): State
    requires c in s.procs
  {
    s.(procs := s.procs[c := s.procs[c].(listed := false)])
  }

  /** After a step on a child's record: back to the caller of `process_wait`, or on to
      the next child. */
  function AfterParent(c: Tid, p: ParentPos, p': ParentPos): Pc {
    if InWait(p') || InNotify(p') then AsParent(c, p') else if InWait(p) then Running else Notifying
  }

  function AfterChild(c': ChildPos): Pc {
    if c' == Alive then Running else if c' == Left then Notifying else Exiting(c')
  }

  /** A process calls `process_wait` on one of its children. */
  predicate CallWait(s: State, s': State, q: Tid, c: Tid) {
    q in s.procs && s.procs[q].pc == Running && ChildOf(s, c, q) && s' == SetPc(s, q, AsParent(c, Check))
  }

  /** `thread_create`: a new child with a new record on its parent's list. */
  predicate Spawn(s: State, s': State, q: Tid, c: Tid) {
    && q in s.procs && s.procs[q].pc == Running && c !in s.procs && c !in s.links
    && s' == State(s.procs[c := Proc(q, Running, true)], s.links[c := Fresh])
  }

  predicate StepAsParent(s: State, s': State, q: Tid, c: Tid, p': ParentPos, l': Link) {
    && q in s.procs && s.procs[q].pc.AsParent? && s.procs[q].pc.child == c && c in s.links && c in s.procs
    && ParentAct(s.links[c], s.procs[q].pc.pos, l', p')
    && var s1 := SetPc(s, q, AfterParent(c, s.procs[q].pc.pos, p'));
       s' == (if s.procs[q].pc.pos.Unlist? then Unlisted(s1, c) else s1).(links := s.links[c := l'])
  }

  predicate StepAsChild(s: State, s': State, q: Tid, c': ChildPos, l': Link) {
    && q in s.procs && q in s.links && (s.procs[q].pc == Running || s.procs[q].pc.Exiting?)
    && ChildAct(s.links[q], ChildPosOf(s.procs[q]), l', c')
    && s' == SetPc(s, q, AfterChild(c')).(links := s.links[q := l'])
  }

  /** The loop of `notify_children_parent_is_finished` takes the next child off the list. */
  predicate PopChild(s: State, s': State, q: Tid, c: Tid) {
    q in s.procs && s.procs[q].pc == Notifying && ChildOf(s, c, q) && s' == Unlisted(SetPc(s, q, AsParent(c, NLock)), c)
  }

  predicate Die(s: State, s': State, q: Tid) {
    && q in s.procs && s.procs[q].pc == Notifying && (forall c :: c in s.procs ==> !ChildOf(s, c, q))
    && s' == SetPc(s, q, Dead)
  }

  ghost predicate Step(s: State, s': State) {
    || (exists q, c :: CallWait(s, s', q, c))
    || (exists q, c :: Spawn(s, s', q, c))
    || (exists q, c, p', l' :: StepAsParent(s, s', q, c, p', l'))
    || (exists q, c', l' :: StepAsChild(s, s', q, c', l'))
    || (exists q, c :: PopChild(s, s', q, c))
    || (exists q :: Die(s, s', q))
  }

  /** The program counter of `q` speaks only of its own children. */
  predicate ProcOk(s: State, q: Tid)
    requires q in s.procs
  {
    match s.procs[q].pc
    case AsParent(c, pos) =>
      && (InWait(pos) || InNotify(pos))
      && c in s.procs && s.procs[c].parent == q && c != q
      && (s.procs[c].listed <==> InWait(pos) && !pos.Free?)
    case Exiting(own) => own != Alive && own != Left
    case _ => true
  }

  predicate Tree(s: State) {
    && s.procs.Keys == s.links.Keys
    && forall q {:trigger ProcOk(s, q)} :: q in s.procs ==> ProcOk(s, q)
  }

  ghost predicate Inv(s: State) {
    && Tree(s)
    && forall c {:trigger PosOf(s, c)} :: c in s.procs ==> LinkInv(s.links[c], PosOf(s, c), ChildPosOf(s.procs[c]))
  }

  /** `init_vital_info` of the initial thread, whose record no parent will ever touch. */
  ghost predicate Init(s: State) {
    exists q :: s == State(map[q := Proc(q, Running, true)], map[q := Fresh])
  }

  lemma InitInv(s: State)
    requires Init(s)
    ensures Inv(s)
  {
  }

  /** Every record but that of `x` is as it was, and so are both sides' positions on it. */
  ghost predicate SameBut(s: State, s': State, x: Tid)
    requires s.procs.Keys <= s.links.Keys && s'.procs.Keys <= s'.links.Keys
  {
    forall o {:trigger PosOf(s', o)} :: o in s'.procs && o != x ==>
      && o in s.procs && s'.links[o] == s.links[o]
      && PosOf(s', o) == PosOf(s, o) && ChildPosOf(s'.procs[o]) == ChildPosOf(s.procs[o])
  }

  lemma Frame(s: State, s': State, x: Tid)
    requires Inv(s) && Tree(s') && SameBut(s, s', x)
    requires x in s'.procs ==> LinkInv(s'.links[x], PosOf(s', x), ChildPosOf(s'.procs[x]))
    ensures Inv(s')
  {
  }

  lemma SpawnTree(s: State, s': State, q: Tid, c: Tid)
    requires Tree(s) && Spawn(s, s', q, c)
    ensures Tree(s') && SameBut(s, s', c)
    ensures c in s'.procs && PosOf(s', c) == Listed && ChildPosOf(s'.procs[c]) == Alive && s'.links[c] == Fresh
  {
    assert ProcOk(s, q);
    forall o | o in s'.procs ensures ProcOk(s', o) { if o != c { assert ProcOk(s, o); } }
  }

  lemma ParentMoves(l: Link, p: ParentPos, l': Link, p': ParentPos)
    requires ParentAct(l, p, l', p')
    ensures InWait(p) || InNotify(p)
    ensures InWait(p) ==> p' == Listed || p' == Gone || InWait(p')
    ensures InNotify(p) ==> p' == Gone || InNotify(p')
    ensures p' == Listed ==> p == Check
    ensures (p' == Gone && InWait(p) <==> p.Free?) && (p'.Free? <==> p.Unlist?)
  {
  }

  /** Positions of everybody else when `q`'s program counter turns to, or away from, the
      record of its child `c`. */
  lemma OtherPositions(s: State, s': State, q: Tid, c: Tid, pc: Pc, listed: bool)
    requires q in s.procs && c in s.procs && s.procs[c].parent == q && q != c
    requires s'.procs == s.procs[q := s.procs[q].(pc := pc)][c := s.procs[c].(listed := listed)]
    requires (pc.AsParent? ==> pc.child == c) && (s.procs[q].pc.AsParent? ==> s.procs[q].pc.child == c)
    requires ChildPosOf(s.procs[q].(pc := pc)) == ChildPosOf(s.procs[q])
    ensures forall o {:trigger PosOf(s', o)} :: o in s'.procs && o != c ==>
              PosOf(s', o) == PosOf(s, o) && ChildPosOf(s'.procs[o]) == ChildPosOf(s.procs[o])
  {
    forall o | o in s'.procs && o != c ensures PosOf(s', o) == PosOf(s, o) {
      var p := s.procs[o].parent;
      assert s'.procs[o].parent == p && s'.procs[o].listed == s.procs[o].listed;
      if p in s.procs && p != q { assert s'.procs[p].pc == s.procs[p].pc; }
    }
  }

  lemma CallWaitTree(s: State, s': State, q: Tid, c: Tid)
    requires Tree(s) && CallWait(s, s', q, c)
    ensures Tree(s') && SameBut(s, s', c)
    ensures c in s'.procs && PosOf(s, c) == Listed && PosOf(s', c) == Check && s'.procs[c] == s.procs[c]
  {
    assert ProcOk(s, q);
    assert s'.procs == s.procs[q := s.procs[q].(pc := AsParent(c, Check))][c := s.procs[c].(listed := true)];
    OtherPositions(s, s', q, c, AsParent(c, Check), true);
    forall o | o in s'.procs ensures ProcOk(s', o) { assert ProcOk(s, o); }
  }

  lemma ParentOk(s: State, s': State, q: Tid, c: Tid, p': ParentPos, l': Link)
    requires Tree(s) && StepAsParent(s, s', q, c, p', l')
    ensures c in s.procs && c in s'.procs && s.procs[c].parent == q && c != q
    ensures PosOf(s, c) == s.procs[q].pc.pos && PosOf(s', c) == p' && ProcOk(s', q)
  {
    assert ProcOk(s, q);
    ParentMoves(s.links[c], s.procs[q].pc.pos, l', p');
  }

  lemma ParentOthers(s: State, s': State, q: Tid, c: Tid, p': ParentPos, l': Link, o: Tid)
    requires Tree(s) && StepAsParent(s, s', q, c, p', l') && o in s'.procs && o != q
    ensures ProcOk(s', o)
  {
    assert ProcOk(s, q) && ProcOk(s, o);
  }

  lemma ParentTree(s: State, s': State, q: Tid, c: Tid, p': ParentPos, l': Link)
    requires Tree(s) && StepAsParent(s, s', q, c, p', l')
    ensures Tree(s') && SameBut(s, s', c)
    ensures c in s.procs && c in s'.procs && ChildPosOf(s'.procs[c]) == ChildPosOf(s.procs[c])
    ensures PosOf(s, c) == s.procs[q].pc.pos && PosOf(s', c) == p'
  {
    ParentOk(s, s', q, c, p', l');
    forall o | o in s'.procs ensures ProcOk(s', o) { if o != q { ParentOthers(s, s', q, c, p', l', o); } }
    ParentMoves(s.links[c], s.procs[q].pc.pos, l', p');
    var pc := AfterParent(c, s.procs[q].pc.pos, p');
    assert s'.procs == s.procs[q := s.procs[q].(pc := pc)][c := s.procs[c].(listed := s'.procs[c].listed)];
    OtherPositions(s, s', q, c, pc, s'.procs[c].listed);
  }

  lemma ChildTree(s: State, s': State, q: Tid, c': ChildPos, l': Link)
    requires Tree(s) && StepAsChild(s, s', q, c', l')
    ensures Tree(s') && SameBut(s, s', q)
    ensures q in s'.procs && PosOf(s', q) == PosOf(s, q) && ChildPosOf(s'.procs[q]) == c'
  {
    assert ProcOk(s, q);
    forall o | o in s'.procs ensures ProcOk(s', o) { assert ProcOk(s, o); }
  }

  lemma PopTree(s: State, s': State, q: Tid, c: Tid)
    requires Tree(s) && PopChild(s, s', q, c)
    ensures Tree(s') && SameBut(s, s', c)
    ensures c in s'.procs && PosOf(s, c) == Listed && PosOf(s', c) == NLock
    ensures ChildPosOf(s'.procs[c]) == ChildPosOf(s.procs[c])
  {
    assert ProcOk(s, q);
    assert s'.procs == s.procs[q := s.procs[q].(pc := AsParent(c, NLock))][c := s.procs[c].(listed := false)];
    OtherPositions(s, s', q, c, AsParent(c, NLock), false);
    forall o | o in s'.procs ensures ProcOk(s', o) { assert ProcOk(s, o); }
  }

  lemma DieTree(s: State, s': State, q: Tid)
    requires Tree(s) && Die(s, s', q)
    ensures Tree(s') && SameBut(s, s', q)
    ensures q in s'.procs && PosOf(s', q) == PosOf(s, q) && ChildPosOf(s'.procs[q]) == ChildPosOf(s.procs[q])
  {
    assert ProcOk(s, q);
    forall o | o in s'.procs ensures ProcOk(s', o) { assert ProcOk(s, o); }
  }

  /** A parent that turns to a listed record changes nothing that the record promises. */
  lemma TurnsTo(l: Link, p': ParentPos, c: ChildPos)
    requires LinkInv(l, Listed, c) && (p' == Check || p' == NLock)
    ensures LinkInv(l, p', c)
  {
  }

  lemma ParentInv(s: State, s': State, q: Tid, c: Tid, p': ParentPos, l': Link)
    requires Inv(s) && StepAsParent(s, s', q, c, p', l')
    ensures Inv(s')
  {
    ParentTree(s, s', q, c, p', l');
    ParentKeeps(s.links[c], PosOf(s, c), ChildPosOf(s.procs[c]), l', p');
    Frame(s, s', c);
  }

  lemma ChildInv(s: State, s': State, q: Tid, c': ChildPos, l': Link)
    requires Inv(s) && StepAsChild(s, s', q, c', l')
    ensures Inv(s')
  {
    ChildTree(s, s', q, c', l');
    ChildKeeps(s.links[q], PosOf(s, q), ChildPosOf(s.procs[q]), l', c');
    Frame(s, s', q);
  }

  lemma StepInv(s: State, s': State)
    requires Inv(s) && Step(s, s')
    ensures Inv(s')
  {
    if q, c :| CallWait(s, s', q, c) {
      CallWaitTree(s, s', q, c);
      TurnsTo(s.links[c], Check, ChildPosOf(s.procs[c]));
      Frame(s, s', c);
    } else if q, c :| Spawn(s, s', q, c) {
      SpawnTree(s, s', q, c);
      Frame(s, s', c);
    } else if q, c, p', l' :| StepAsParent(s, s', q, c, p', l') {
      ParentInv(s, s', q, c, p', l');
    } else if q, c', l' :| StepAsChild(s, s', q, c', l') {
      ChildInv(s, s', q, c', l');
    } else if q, c :| PopChild(s, s', q, c) {
      PopTree(s, s', q, c);
      TurnsTo(s.links[c], NLock, ChildPosOf(s.procs[c]));
      Frame(s, s', c);
    } else {
      var q :| Die(s, s', q);
      DieTree(s, s', q);
      Frame(s, s', q);
    }
  }

  ghost predicate Run(tr: seq<State>) {
    |tr| > 0 && Init(tr[0]) && forall i :: 0 <= i < |tr| - 1 ==> Step(tr[i], tr[i + 1])
  }

  lemma {:induction false} RunInv(tr: seq<State>, n: nat)
    requires Run(tr) && n < |tr|
    ensures Inv(tr[n])
  {
    if n == 0 {
      InitInv(tr[0]);
    } else {
      RunInv(tr, n - 1);
      assert Step(tr[n - 1], tr[n - 1 + 1]);
      StepInv(tr[n - 1], tr[n]);
    }
  }

  /** The dead have no child on their list. */
  ghost predicate Reaped(s: State) {
    forall c, q {:trigger ChildOf(s, c, q)} :: q in s.procs && s.procs[q].pc == Dead ==> !ChildOf(s, c, q)
  }

  lemma StepReaped(s: State, s': State)
    requires Tree(s) && Reaped(s) && Step(s, s')
    ensures Reaped(s')
  {
    forall c, q | q in s'.procs && s'.procs[q].pc == Dead ensures !ChildOf(s', c, q) {
      if q in s.procs && s.procs[q].pc == Dead { assert !ChildOf(s, c, q); }
    }
  }

  lemma {:induction false} RunReaped(tr: seq<State>, n: nat)
    requires Run(tr) && n < |tr|
    ensures Reaped(tr[n])
  {
    if n == 0 {
    } else {
      RunReaped(tr, n - 1);
      RunInv(tr, n - 1);
      assert Step(tr[n - 1], tr[n - 1 + 1]);
      StepReaped(tr[n - 1], tr[n]);
    }
  }

  /** In every reachable state, for every child with a parent: the record is freed at
      most once, and exactly when both sides are through with it; no step about to be
      taken touches a freed record; at most one wait has returned, with the status the
      child stored; and the record of a dead family is gone. */
  lemma RecordSafe(tr: seq<State>, n: nat, c: Tid)
    requires Run(tr) && n < |tr| && c in tr[n].procs
    ensures c in tr[n].links
    ensures var l, p, q := tr[n].links[c], PosOf(tr[n], c), ChildPosOf(tr[n].procs[c]);
            && l.info.frees == (if l.info.parentLeft && l.info.childLeft then 1 else 0)
            && (ParentTouches(p) || ChildTouches(q) ==> l.info.frees == 0)
            && (l.returned == [] || l.returned == [l.stored])
            && (l.returned != [] ==> l.info.childLeft)
    ensures var par := tr[n].procs[c].parent;
            par in tr[n].procs && par != c && tr[n].procs[par].pc == Dead && tr[n].procs[c].pc == Dead
            ==> tr[n].links[c].info.frees == 1
  {
    RunInv(tr, n);
    RunReaped(tr, n);
    assert tr[n].procs[c].parent in tr[n].procs && tr[n].procs[tr[n].procs[c].parent].pc == Dead ==>
      !ChildOf(tr[n], c, tr[n].procs[c].parent);
    NoUseAfterFree(tr[n].links[c], PosOf(tr[n], c), ChildPosOf(tr[n].procs[c]));
  }

  /** Process `q` is inside `process_wait` for `c`. */
  predicate Waiting(s: State, q: Tid, c: Tid) {
    q in s.procs && s.procs[q].pc.AsParent? && s.procs[q].pc.child == c && InWait(s.procs[q].pc.pos)
  }

  /** A step leaves a waiting process in its wait, or ends the wait with the child's status. */
  lemma WaitStep(s: State, s': State, q: Tid, c: Tid)
    requires Inv(s) && Step(s, s') && Waiting(s, q, c)
    ensures q in s'.procs
    ensures Waiting(s', q, c) || (s'.procs[q].pc == Running && Answered(s', c))
  {
    assert ProcOk(s, q);
    if p', l' :| StepAsParent(s, s', q, c, p', l') {
      ParentMoves(s.links[c], s.procs[q].pc.pos, l', p');
      ParentTree(s, s', q, c, p', l');
      if !InWait(p') { WaitEnds(s.links[c], PosOf(s, c), ChildPosOf(s.procs[c]), l', p'); }
    } else {
      OtherStep(s, s', q, c);
    }
  }

  /** The wait for `c` has returned what it stored, and it is on nobody's list. */
  predicate Answered(s: State, c: Tid) {
    c in s.links && c in s.procs && s.links[c].returned == [s.links[c].stored] && !s.procs[c].listed
  }

  lemma OtherStep(s: State, s': State, q: Tid, c: Tid)
    requires Inv(s) && Step(s, s') && Waiting(s, q, c)
    requires forall p', l' :: !StepAsParent(s, s', q, c, p', l')
    ensures q in s'.procs && s'.procs[q].pc == s.procs[q].pc
  {
    if r, d, p', l' :| StepAsParent(s, s', r, d, p', l') { assert r != q; }
  }

  lemma {:induction false} StaysWaiting(tr: seq<State>, i: nat, n: nat, q: Tid, c: Tid)
    requires Run(tr) && i < n < |tr| && CallWait(tr[i], tr[i + 1], q, c)
    requires forall j {:trigger tr[j]} :: i < j <= n ==> q in tr[j].procs && tr[j].procs[q].pc != Running
    ensures Waiting(tr[n], q, c)
  {
    if n == i + 1 {
    } else {
      StaysWaiting(tr, i, n - 1, q, c);
      RunWaitStep(tr, n, q, c);
    }
  }

  lemma RunWaitStep(tr: seq<State>, n: nat, q: Tid, c: Tid)
    requires Run(tr) && 0 < n < |tr| && Waiting(tr[n - 1], q, c)
    ensures q in tr[n].procs
    ensures Waiting(tr[n], q, c) || (tr[n].procs[q].pc == Running && Answered(tr[n], c))
  {
    RunInv(tr, n - 1);
    assert Step(tr[n - 1], tr[n - 1 + 1]);
    WaitStep(tr[n - 1], tr[n], q, c);
  }

  lemma WaitBegins(s: State, s': State, q: Tid, c: Tid)
    requires Inv(s) && CallWait(s, s', q, c)
    ensures c in s.links && s.links[c].returned == []
  {
    assert ProcOk(s, q);
    assert PosOf(s, c) == Listed;
  }

  /** In every run, a call of `process_wait` for a child on the caller's list that is over has
      returned the status which the child stored last, and takes the child off the list. */
  lemma WaitReturns(tr: seq<State>, i: nat, n: nat, q: Tid, c: Tid)
    requires Run(tr) && i + 1 < n < |tr| && CallWait(tr[i], tr[i + 1], q, c)
    requires forall j {:trigger tr[j]} :: i < j < n ==> q in tr[j].procs && tr[j].procs[q].pc != Running
    requires q in tr[n].procs && tr[n].procs[q].pc == Running
    ensures c in tr[i].links && tr[i].links[c].returned == [] && Answered(tr[n], c)
  {
    StaysWaiting(tr, i, n - 1, q, c);
    RunWaitStep(tr, n, q, c);
    RunInv(tr, i);
    WaitBegins(tr[i], tr[i + 1], q, c);
  }

  // ---------- progress of a process ----------

  /** The process has to wait: for the lock of a record that the other side holds, or for a child
      that has not exited. */
  predicate Blocked(s: State, q: Tid)
    requires Tree(s) && q in s.procs
  {
    match s.procs[q].pc
    case AsParent(c, pos) =>
      && c in s.procs
      && (((pos == Lock || pos == NLock) && ChildLocked(ChildPosOf(s.procs[c])))
          || (pos == Sleep && ChildPosOf(s.procs[c]) != Left))
    case Exiting(own) => own == CLock && ParentLocked(PosOf(s, q))
    case _ => false
  }

  /** A process that is not dead and does not have to wait can always go on; a running one can
      exit. */
  lemma ProcessGoesOn(s: State, q: Tid) returns (s': State)
    requires Inv(s) && q in s.procs && s.procs[q].pc != Dead && !Blocked(s, q)
    ensures Step(s, s') && q in s'.procs && s'.procs[q].pc != s.procs[q].pc
  {
    assert ProcOk(s, q);
    var pc := s.procs[q].pc;
    if pc == Notifying {
      if c :| ChildOf(s, c, q) {
        s' := Unlisted(SetPc(s, q, AsParent(c, NLock)), c);
        assert PopChild(s, s', q, c);
      } else {
        s' := SetPc(s, q, Dead);
        assert Die(s, s', q);
      }
    } else if pc.AsParent? {
      s' := ParentProcessGoesOn(s, q, pc.child, pc.pos);
    } else {
      var l', c' := ChildGoesOn(s.links[q], PosOf(s, q), ChildPosOf(s.procs[q]));
      s' := SetPc(s, q, AfterChild(c')).(links := s.links[q := l']);
      assert StepAsChild(s, s', q, c', l');
    }
  }

  lemma ParentProcessGoesOn(s: State, q: Tid, c: Tid, pos: ParentPos) returns (s': State)
    requires Inv(s) && q in s.procs && s.procs[q].pc == AsParent(c, pos) && !Blocked(s, q)
    ensures Step(s, s') && q in s'.procs && s'.procs[q].pc != s.procs[q].pc
  {
    assert ProcOk(s, q);
    assert PosOf(s, c) == pos;
    var l', p' := ParentGoesOn(s.links[c], pos, ChildPosOf(s.procs[c]));
    ParentMoves(s.links[c], pos, l', p');
    var s1 := SetPc(s, q, AfterParent(c, pos, p'));
    s' := (if pos.Unlist? then Unlisted(s1, c) else s1).(links := s.links[c := l']);
    assert StepAsParent(s, s', q, c, p', l');
    MovesOn(s.links[c], pos, l', p');
  }

  lemma MovesOn(l: Link, p: ParentPos, l': Link, p': ParentPos)
    requires ParentAct(l, p, l', p')
    ensures p' != p
  {
  }

  /** A running process can wait for any child on its list, and have a new one. */
  lemma CanCall(s: State, q: Tid, c: Tid)
    requires q in s.procs && s.procs[q].pc == Running
    ensures ChildOf(s, c, q) ==> exists s' :: CallWait(s, s', q, c)
    ensures c !in s.procs && c !in s.links ==> exists s' :: Spawn(s, s', q, c)
  {
    if ChildOf(s, c, q) {
      assert CallWait(s, SetPc(s, q, AsParent(c, Check)), q, c);
    } else if c !in s.procs && c !in s.links {
      assert Spawn(s, State(s.procs[c := Proc(q, Running, true)], s.links[c := Fresh]), q, c);
    }
  }
}
