/**
 The read/write lock of threads/synch.c: three binary semaphores and a counter.

 Every semaphore operation and every load or store of the counter is one step of
 one thread, any number of threads take part, and steps interleave freely.  The
 lock is shown to refine the atomic lock `Holders` that callers reason with.
 */
module RwLock {
  import opened AtomicLock
  import opened Counting

  /** Where a thread stands in `writer_*` and `reader_*`: the next thing it does. */
  datatype Pc =
    | Outside
    // writer_acquire
    | WDownWaiting | WDownAccessing | WUpWaiting | Writing
    // writer_try_acquire
    | TDownWaiting | TDownAccessing | TGiveUp
    // reader_acquire
    | RDownWaiting | RDownLock | RLoad | RStore(seen: int) | RUpLock(first: bool)
    | RDownAccessing(first: bool) | RUpWaiting | Reading
    // reader_release
    | QDownLock | QLoad | QStore(seen: int) | QUpLock(last: bool) | QUpAccessing(last: bool)

  /** `struct rw_lock`: the values of its three semaphores, and `readers`. */
  datatype Vars = Vars(noWaiting: nat, noAccessing: nat, readersLock: nat, readers: int)

  datatype State = State(v: Vars, pcs: map<Tid, Pc>)

  /** `rw_lock_init`, with every thread outside the lock. */
  predicate Init(s: State) {
    && s.v == Vars(1, 1, 1, 0)
    && forall t :: t in s.pcs ==> s.pcs[t] == Outside
  }

  /** What a thread does at `pc`; `sema_down` waits for a positive value. */
  predicate Act(v: Vars, pc: Pc, v': Vars, pc': Pc) {
    match pc
    case Outside =>
      v' == v && (pc' == WDownWaiting || pc' == TDownWaiting || pc' == RDownWaiting)
    case WDownWaiting =>
      v.noWaiting > 0 && v' == v.(noWaiting := v.noWaiting - 1) && pc' == WDownAccessing
    case WDownAccessing =>
      v.noAccessing > 0 && v' == v.(noAccessing := v.noAccessing - 1) && pc' == WUpWaiting
    case WUpWaiting =>
      v' == v.(noWaiting := v.noWaiting + 1) && pc' == Writing
    case Writing =>
      v' == v.(noAccessing := v.noAccessing + 1) && pc' == Outside
    case TDownWaiting =>
      if v.noWaiting > 0 then v' == v.(noWaiting := v.noWaiting - 1) && pc' == TDownAccessing
      else v' == v && pc' == Outside
    case TDownAccessing =>
      if v.noAccessing > 0 then v' == v.(noAccessing := v.noAccessing - 1) && pc' == WUpWaiting
      else v' == v && pc' == TGiveUp
    case TGiveUp =>
      v' == v.(noWaiting := v.noWaiting + 1) && pc' == Outside
    case RDownWaiting =>
      v.noWaiting > 0 && v' == v.(noWaiting := v.noWaiting - 1) && pc' == RDownLock
    case RDownLock =>
      v.readersLock > 0 && v' == v.(readersLock := v.readersLock - 1) && pc' == RLoad
    case RLoad =>
      v' == v && pc' == RStore(v.readers)
    case RStore(seen) =>
      v' == v.(readers := seen + 1) && pc' == RUpLock(seen == 0)
    case RUpLock(first) =>
      v' == v.(readersLock := v.readersLock + 1) && pc' == RDownAccessing(first)
    case RDownAccessing(first) =>
      && pc' == RUpWaiting
      && (if first then v.noAccessing > 0 && v' == v.(noAccessing := v.noAccessing - 1) else v' == v)
    case RUpWaiting =>
      v' == v.(noWaiting := v.noWaiting + 1) && pc' == Reading
    case Reading =>
      v' == v && pc' == QDownLock
    case QDownLock =>
      v.readersLock > 0 && v' == v.(readersLock := v.readersLock - 1) && pc' == QLoad
    case QLoad =>
      v' == v && pc' == QStore(v.readers)
    case QStore(seen) =>
      v' == v.(readers := seen - 1) && pc' == QUpLock(seen - 1 == 0)
    case QUpLock(last) =>
      v' == v.(readersLock := v.readersLock + 1) && pc' == QUpAccessing(last)
    case QUpAccessing(last) =>
      && pc' == Outside
      && (if last then v' == v.(noAccessing := v.noAccessing + 1) else v' == v)
  }

  /** Thread `t` acts; the other threads stand still. */
  ghost predicate Step(s: State, s': State, t: Tid) {
    && t in s.pcs && t in s'.pcs
    && s'.pcs == s.pcs[t := s'.pcs[t]]
    && Act(s.v, s.pcs[t], s'.v, s'.pcs[t])
  }

  // ---------- who holds which semaphore ----------

  predicate OwnsWaiting(pc: Pc) {
    || pc.WDownAccessing? || pc.WUpWaiting? || pc.TDownAccessing? || pc.TGiveUp?
    || pc.RDownLock? || pc.RLoad? || pc.RStore? || pc.RUpLock? || pc.RDownAccessing? || pc.RUpWaiting?
  }

  predicate OwnsReadersLock(pc: Pc) {
    pc.RLoad? || pc.RStore? || pc.RUpLock? || pc.QLoad? || pc.QStore? || pc.QUpLock?
  }

  /** Counted in `readers`: after the increment, before the decrement. */
  predicate Counted(pc: Pc) {
    || pc.RUpLock? || pc.RDownAccessing? || pc.RUpWaiting? || pc.Reading?
    || pc.QDownLock? || pc.QLoad? || pc.QStore?
  }

  /** Owns the `no_accessing` token alone: a writer, or a last reader that has
      decremented the counter and has not yet released the token. */
  predicate OwnsAccessing(pc: Pc) {
    || pc.WUpWaiting? || pc.Writing?
    || pc == QUpLock(true) || pc == QUpAccessing(true)
  }

  /** A first reader that is counted and still has to take the token. */
  predicate Pending(pc: Pc) {
    pc == RUpLock(true) || pc == RDownAccessing(true)
  }

  predicate MayWrite(pc: Pc) { pc.WUpWaiting? || pc.Writing? }

  predicate MayRead(pc: Pc) {
    pc.RUpWaiting? || pc.Reading? || pc.QDownLock? || pc.QLoad? || pc.QStore?
  }

  /** The readers as a group own the token once the first of them has taken it. */
  ghost predicate GroupOwns(s: State) {
    s.v.readers > 0 && Count(s.pcs, Pending) == 0
  }

  ghost predicate Tokens(s: State) {
    && s.v.noWaiting + Count(s.pcs, OwnsWaiting) == 1
    && s.v.readersLock + Count(s.pcs, OwnsReadersLock) == 1
    && s.v.noAccessing + Count(s.pcs, OwnsAccessing) + Indicator(GroupOwns(s)) == 1
  }

  ghost predicate Counts(s: State) {
    && Tokens(s)
    && s.v.readers == Count(s.pcs, Counted)
    && (Count(s.pcs, Pending) > 0 ==> s.v.readers == 1)
  }

  /** A loaded value of the counter is still its value when it is stored back. */
  predicate Fresh(readers: int, pc: Pc) {
    pc.RStore? || pc.QStore? ==> pc.seen == readers
  }

  ghost predicate Inv(s: State) {
    && Counts(s)
    && forall t :: t in s.pcs ==> Fresh(s.v.readers, s.pcs[t])
  }

  lemma InitInv(s: State)
    requires Init(s)
    ensures Inv(s)
  {
    assert At(s.pcs, OwnsWaiting) == {};
    assert At(s.pcs, OwnsReadersLock) == {};
    assert At(s.pcs, OwnsAccessing) == {};
    assert At(s.pcs, Counted) == {};
    assert At(s.pcs, Pending) == {};
  }

  /** All five counts after one thread moves to `pc`. */
  lemma CountsStep(s: State, t: Tid, pc: Pc)
    requires t in s.pcs
    ensures var m, x := s.pcs[t := pc], s.pcs[t];
            && Count(m, OwnsWaiting)
            == Count(s.pcs, OwnsWaiting) - Indicator(OwnsWaiting(x)) + Indicator(OwnsWaiting(pc))
            && Count(m, OwnsReadersLock)
            == Count(s.pcs, OwnsReadersLock) - Indicator(OwnsReadersLock(x)) + Indicator(OwnsReadersLock(pc))
            && Count(m, OwnsAccessing)
            == Count(s.pcs, OwnsAccessing) - Indicator(OwnsAccessing(x)) + Indicator(OwnsAccessing(pc))
            && Count(m, Counted) == Count(s.pcs, Counted) - Indicator(Counted(x)) + Indicator(Counted(pc))
            && Count(m, Pending) == Count(s.pcs, Pending) - Indicator(Pending(x)) + Indicator(Pending(pc))
  {
    CountStep(s.pcs, t, pc, OwnsWaiting);
    CountStep(s.pcs, t, pc, OwnsReadersLock);
    CountStep(s.pcs, t, pc, OwnsAccessing);
    CountStep(s.pcs, t, pc, Counted);
    CountStep(s.pcs, t, pc, Pending);
  }

  /** A pending first reader is the only counted thread and holds `no_waiting`. */
  lemma PendingAlone(s: State, t: Tid)
    requires Inv(s) && t in s.pcs
    requires Count(s.pcs, Pending) > 0
    ensures !Pending(s.pcs[t]) ==> !OwnsWaiting(s.pcs[t]) && !Counted(s.pcs[t])
  {
    var u := CountPositive(s.pcs, Pending);
    CountWitness(s.pcs, u, OwnsWaiting);
    CountWitness(s.pcs, u, Counted);
  }

  /** `readers_lock` is a mutex: the counter cannot move under another thread's load. */
  lemma ReadersLockAlone(s: State, t: Tid)
    requires Inv(s) && t in s.pcs && OwnsReadersLock(s.pcs[t])
    ensures forall u :: u in s.pcs && u != t ==> !OwnsReadersLock(s.pcs[u])
  {
    CountWitness(s.pcs, t, OwnsReadersLock);
  }

  /** The effect of one action on the books: each semaphore and the counter move by
      exactly what the acting thread gains or gives up. */
  lemma ActBooks(v: Vars, pc: Pc, v': Vars, pc': Pc)
    requires Act(v, pc, v', pc') && Fresh(v.readers, pc)
    ensures v'.noWaiting + Indicator(OwnsWaiting(pc')) == v.noWaiting + Indicator(OwnsWaiting(pc))
    ensures v'.readersLock + Indicator(OwnsReadersLock(pc')) == v.readersLock + Indicator(OwnsReadersLock(pc))
    ensures v'.readers - Indicator(Counted(pc')) == v.readers - Indicator(Counted(pc))
    ensures v'.noAccessing + Indicator(OwnsAccessing(pc')) + Indicator(pc == RDownAccessing(true))
            == v.noAccessing + Indicator(OwnsAccessing(pc)) + Indicator(pc.QStore? && v'.readers == 0)
    ensures Fresh(v'.readers, pc')
  {
  }

  /** How an action can make or end a pending first reader. */
  lemma ActPending(v: Vars, pc: Pc, v': Vars, pc': Pc)
    requires Act(v, pc, v', pc') && Fresh(v.readers, pc)
    ensures Pending(pc') && !Pending(pc) ==> pc.RStore? && v.readers == 0
    ensures Pending(pc) && !Pending(pc') <==> pc == RDownAccessing(true)
    ensures v'.readers > v.readers <==> pc.RStore?
    ensures v'.readers < v.readers <==> pc.QStore?
    ensures v'.readers != v.readers ==> OwnsReadersLock(pc)
    ensures pc.RStore? && v.readers == 0 ==> Pending(pc')
  {
  }

  lemma StepCounts(s: State, s': State, t: Tid)
    requires Inv(s) && Step(s, s', t)
    ensures Counts(s')
  {
    var pc, pc' := s.pcs[t], s'.pcs[t];
    ActBooks(s.v, pc, s'.v, pc');
    ActPending(s.v, pc, s'.v, pc');
    CountsStep(s, t, pc');
    if Count(s.pcs, Pending) > 0 { PendingAlone(s, t); }
    if Counted(pc) { CountWitness(s.pcs, t, Counted); }
    if Pending(pc) { CountWitness(s.pcs, t, Pending); }
  }

  /** Every step of every thread keeps the token accounting. */
  lemma StepInv(s: State, s': State, t: Tid)
    requires Inv(s) && Step(s, s', t)
    ensures Inv(s')
  {
    StepCounts(s, s', t);
    ActBooks(s.v, s.pcs[t], s'.v, s'.pcs[t]);
    ActPending(s.v, s.pcs[t], s'.v, s'.pcs[t]);
    if OwnsReadersLock(s.pcs[t]) { ReadersLockAlone(s, t); }
  }

  // ---------- refinement ----------

  ghost function Abs(s: State): Holders {
    Holders(At(s.pcs, MayWrite), At(s.pcs, MayRead))
  }

  /** A writer is alone, and readers exclude writers. */
  lemma Exclusion(s: State)
    requires Inv(s)
    ensures Abs(s).Exclusive()
  {
    forall t | t in Abs(s).writers
      ensures (forall u :: u in Abs(s).writers ==> u == t) && Abs(s).readers == {}
    {
      CountWitness(s.pcs, t, OwnsAccessing);
      forall r | r in Abs(s).readers ensures false {
        if Count(s.pcs, Pending) > 0 { PendingAlone(s, r); }
        CountWitness(s.pcs, r, Counted);
      }
    }
  }

  /** No action turns a reader into a writer or a writer into a reader. */
  lemma ActAccess(v: Vars, pc: Pc, v': Vars, pc': Pc)
    requires Act(v, pc, v', pc')
    ensures MayWrite(pc) ==> !MayRead(pc) && !MayRead(pc')
    ensures MayRead(pc) ==> !MayWrite(pc')
  {
  }

  /** Each step is a step of the atomic lock: a thread gains the right to write only
      when nobody holds the lock, and the right to read only when nobody writes. */
  lemma StepRefines(s: State, s': State, t: Tid)
    requires Inv(s) && Step(s, s', t)
    ensures HoldersStep(Abs(s), Abs(s'), t)
  {
    StepInv(s, s', t);
    Exclusion(s');
    var x, y := s.pcs[t], s'.pcs[t];
    ActAccess(s.v, x, s'.v, y);
    AtStep(s.pcs, t, y, MayWrite);
    AtStep(s.pcs, t, y, MayRead);
    HoldersCases(Abs(s), Abs(s'), t, MayWrite(x), MayWrite(y), MayRead(x), MayRead(y));
  }

  lemma HoldersCases(l: Holders, l': Holders, t: Tid, w: bool, w': bool, r: bool, r': bool)
    requires l'.Exclusive()
    requires l'.writers == (if w' then l.writers + {t} else l.writers - {t}) && (t in l.writers <==> w)
    requires l'.readers == (if r' then l.readers + {t} else l.readers - {t}) && (t in l.readers <==> r)
    requires (w ==> !r && !r') && (r ==> !w')
    ensures HoldersStep(l, l', t)
  {
    if w == w' { assert l'.writers == l.writers; }
    if r == r' { assert l'.readers == l.readers; }
    if w' && !w {
      assert t in l'.writers && l'.readers == {};
      assert forall u :: u in l.writers ==> u in l'.writers && u == t;
      assert l.writers == {} && l.readers == {};
    } else if r' && !r {
      assert t in l'.readers;
    }
  }

  // ---------- progress ----------

  /** In the middle of acquiring or releasing. */
  predicate Mid(pc: Pc) {
    !pc.Outside? && !pc.Reading? && !pc.Writing?
  }

  /** The semaphore that the thread is about to down, if any, is positive. */
  predicate Can(v: Vars, pc: Pc) {
    && (pc.WDownWaiting? || pc.RDownWaiting? ==> v.noWaiting > 0)
    && (pc.WDownAccessing? || pc == RDownAccessing(true) ==> v.noAccessing > 0)
    && (pc.RDownLock? || pc.QDownLock? ==> v.readersLock > 0)
  }

  lemma CanAct(v: Vars, pc: Pc) returns (v': Vars, pc': Pc)
    requires Can(v, pc)
    ensures Act(v, pc, v', pc')
  {
    match pc
    case Outside => v', pc' := v, RDownWaiting;
    case WDownWaiting => v', pc' := v.(noWaiting := v.noWaiting - 1), WDownAccessing;
    case WDownAccessing => v', pc' := v.(noAccessing := v.noAccessing - 1), WUpWaiting;
    case WUpWaiting => v', pc' := v.(noWaiting := v.noWaiting + 1), Writing;
    case Writing => v', pc' := v.(noAccessing := v.noAccessing + 1), Outside;
    case TDownWaiting =>
      v' := if v.noWaiting > 0 then v.(noWaiting := v.noWaiting - 1) else v;
      pc' := if v.noWaiting > 0 then TDownAccessing else Outside;
    case TDownAccessing =>
      v' := if v.noAccessing > 0 then v.(noAccessing := v.noAccessing - 1) else v;
      pc' := if v.noAccessing > 0 then WUpWaiting else TGiveUp;
    case TGiveUp => v', pc' := v.(noWaiting := v.noWaiting + 1), Outside;
    case RDownWaiting => v', pc' := v.(noWaiting := v.noWaiting - 1), RDownLock;
    case RDownLock => v', pc' := v.(readersLock := v.readersLock - 1), RLoad;
    case RLoad => v', pc' := v, RStore(v.readers);
    case RStore(seen) => v', pc' := v.(readers := seen + 1), RUpLock(seen == 0);
    case RUpLock(first) => v', pc' := v.(readersLock := v.readersLock + 1), RDownAccessing(first);
    case RDownAccessing(first) => v', pc' := if first then v.(noAccessing := v.noAccessing - 1) else v, RUpWaiting;
    case RUpWaiting => v', pc' := v.(noWaiting := v.noWaiting + 1), Reading;
    case Reading => v', pc' := v, QDownLock;
    case QDownLock => v', pc' := v.(readersLock := v.readersLock - 1), QLoad;
    case QLoad => v', pc' := v, QStore(v.readers);
    case QStore(seen) => v', pc' := v.(readers := seen - 1), QUpLock(seen - 1 == 0);
    case QUpLock(last) => v', pc' := v.(readersLock := v.readersLock + 1), QUpAccessing(last);
    case QUpAccessing(last) => v', pc' := if last then v.(noAccessing := v.noAccessing + 1) else v, Outside;
  }

  ghost predicate NobodyInside(s: State) {
    forall t :: t in s.pcs ==> !s.pcs[t].Reading? && !s.pcs[t].Writing?
  }

  /** While `readers_lock` is taken, its owner can go on. */
  lemma LockOwnerCan(s: State) returns (u: Tid)
    requires Inv(s) && s.v.readersLock == 0
    ensures u in s.pcs && Mid(s.pcs[u]) && Can(s.v, s.pcs[u])
  {
    u := CountPositive(s.pcs, OwnsReadersLock);
  }

  /** While the access token is taken and nobody is inside, somebody can go on. */
  lemma TokenOwnerCan(s: State) returns (u: Tid)
    requires Inv(s) && s.v.noAccessing == 0 && NobodyInside(s)
    ensures u in s.pcs && Mid(s.pcs[u]) && Can(s.v, s.pcs[u])
  {
    if Count(s.pcs, OwnsAccessing) > 0 {
      u := CountPositive(s.pcs, OwnsAccessing);
    } else {
      u := CountPositive(s.pcs, Counted);
      CountZero(s.pcs, Pending, u);
      if s.pcs[u].QDownLock? && s.v.readersLock == 0 { u := LockOwnerCan(s); }
    }
  }

  /** There is no deadlock: while a thread is in the middle of acquiring or releasing, and nobody
      reads or writes, some such thread can take its next step. */
  lemma NeverStuck(s: State, t: Tid) returns (u: Tid, s': State)
    requires Inv(s) && NobodyInside(s) && t in s.pcs && Mid(s.pcs[t])
    ensures u in s.pcs && Mid(s.pcs[u]) && Step(s, s', u)
  {
    u := t;
    if !Can(s.v, s.pcs[u]) && s.v.noWaiting == 0 && (s.pcs[u].WDownWaiting? || s.pcs[u].RDownWaiting?) {
      u := CountPositive(s.pcs, OwnsWaiting);
    }
    if !Can(s.v, s.pcs[u]) {
      if s.v.readersLock == 0 { u := LockOwnerCan(s); } else { u := TokenOwnerCan(s); }
    }
    var v', pc' := CanAct(s.v, s.pcs[u]);
    s' := State(v', s.pcs[u := pc']);
  }

  /** A reader does not wait for other readers: with one of them inside, it goes on at once. */
  lemma ReadersShare(s: State, t: Tid, u: Tid)
    requires Inv(s) && t in s.pcs && u in s.pcs && s.pcs[t].RDownAccessing? && MayRead(s.pcs[u])
    ensures Can(s.v, s.pcs[t])
  {
    if Count(s.pcs, Pending) > 0 {
      PendingAlone(s, u);
    } else {
      CountZero(s.pcs, Pending, t);
    }
  }

  /** `writer_try_acquire`, once it is the first in line, gets the lock if and only if no other
      thread has it or is on its way into or out of it. */
  lemma TryLaw(s: State, s': State, t: Tid)
    requires Inv(s) && Step(s, s', t) && s.pcs[t] == TDownAccessing
    ensures MayWrite(s'.pcs[t]) <==> forall u :: u in s.pcs ==> !OwnsAccessing(s.pcs[u]) && !Counted(s.pcs[u])
  {
    if Count(s.pcs, Pending) > 0 { PendingAlone(s, t); }
    if s.v.noAccessing > 0 {
      forall u | u in s.pcs ensures !OwnsAccessing(s.pcs[u]) && !Counted(s.pcs[u]) {
        CountZero(s.pcs, OwnsAccessing, u);
        CountZero(s.pcs, Counted, u);
      }
    } else if Count(s.pcs, OwnsAccessing) > 0 {
      var u := CountPositive(s.pcs, OwnsAccessing);
    } else {
      var u := CountPositive(s.pcs, Counted);
    }
  }

  /** It is the first in line if and only if no other thread is. */
  lemma TryFirst(s: State, s': State, t: Tid)
    requires Inv(s) && Step(s, s', t) && s.pcs[t] == TDownWaiting
    ensures s'.pcs[t] == TDownAccessing <==> forall u :: u in s.pcs ==> !OwnsWaiting(s.pcs[u])
  {
    if s.v.noWaiting > 0 {
      forall u | u in s.pcs ensures !OwnsWaiting(s.pcs[u]) { CountZero(s.pcs, OwnsWaiting, u); }
    } else {
      var u := CountPositive(s.pcs, OwnsWaiting);
    }
  }

  predicate WriterEnters(pc: Pc) {
    pc.WDownWaiting? || pc.WDownAccessing? || pc.WUpWaiting?
  }

  predicate ReaderEnters(pc: Pc) {
    || pc.RDownWaiting? || pc.RDownLock? || pc.RLoad? || pc.RStore? || pc.RUpLock?
    || pc.RDownAccessing? || pc.RUpWaiting?
  }

  /** `writer_acquire` and `reader_acquire` end with the lock and in no other way; only a try can
      end without it, and it has held nothing then. */
  lemma AcquireEnds(v: Vars, pc: Pc, v': Vars, pc': Pc)
    requires Act(v, pc, v', pc')
    ensures WriterEnters(pc) ==> WriterEnters(pc') || pc' == Writing
    ensures ReaderEnters(pc) ==> ReaderEnters(pc') || pc' == Reading
    ensures pc' == Outside ==> MayWrite(pc) || pc.TDownWaiting? || pc.TGiveUp? || pc.QUpAccessing?
    ensures pc.TGiveUp? ==> pc' == Outside && v'.noAccessing == v.noAccessing
  {
  }

  /** When every thread has left, the lock is as it was at the start. */
  lemma AllLeft(s: State)
    requires Inv(s) && forall t :: t in s.pcs ==> s.pcs[t] == Outside
    ensures s.v == Vars(1, 1, 1, 0)
  {
    assert At(s.pcs, OwnsWaiting) == {} && At(s.pcs, OwnsReadersLock) == {};
    assert At(s.pcs, OwnsAccessing) == {} && At(s.pcs, Counted) == {};
  }

  // ---------- whole runs ----------

  ghost predicate Next(s: State, s': State) {
    exists t :: Step(s, s', t)
  }

  ghost predicate NextHolders(l: Holders, l': Holders) {
    exists t :: HoldersStep(l, l', t)
  }

  ghost predicate Run(tr: seq<State>) {
    && |tr| > 0 && Init(tr[0])
    && forall i :: 0 <= i < |tr| - 1 ==> Next(tr[i], tr[i + 1])
  }

  /** In every state of every run the token is conserved and access is exclusive. */
  lemma {:induction false} RunSafe(tr: seq<State>, n: nat)
    requires Run(tr) && n < |tr|
    ensures Inv(tr[n]) && Abs(tr[n]).Exclusive()
    ensures n + 1 < |tr| ==> NextHolders(Abs(tr[n]), Abs(tr[n + 1]))
  {
    if n == 0 {
      InitInv(tr[0]);
    } else {
      RunSafe(tr, n - 1);
      assert Next(tr[n - 1], tr[n - 1 + 1]);
      var t :| Step(tr[n - 1], tr[n], t);
      StepInv(tr[n - 1], tr[n], t);
    }
    Exclusion(tr[n]);
    if n + 1 < |tr| {
      var t :| Step(tr[n], tr[n + 1], t);
      StepRefines(tr[n], tr[n + 1], t);
    }
  }
}
