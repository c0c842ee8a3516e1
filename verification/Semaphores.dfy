/**
 Counting semaphores on one processor: sema_down, sema_try_down and sema_up of
 threads/synch.c with the blocking, unblocking and dispatching of threads/thread.c.

 Interrupts are off inside each operation, so an operation is one step up to the point
 where the thread gives up the processor.  A thread woken by sema_up competes for the
 value again when it next runs.
 */
module Semaphores {
  import opened Base
  import opened Counting

  type Tid = nat
  type SemaId = nat

  const PRI_MAX := 63

  datatype Status = Running | Ready | Blocked

  /** Where a thread stands: in its own code, or inside the loop of `sema_down`. */
  datatype At = Outside | InDown(s: SemaId)
  datatype Thread = Thread(status: Status, at: At)

  /** A semaphore, with the counts of completed operations since its start. */
  datatype Sema = Sema(value: nat, waiters: seq<Tid>, start: nat, ups: nat, downs: nat)

  datatype State = State(current: Option<Tid>, ready: seq<Tid>, semas: map<SemaId, Sema>,
                         threads: map<Tid, Thread>, prio: map<Tid, int>)

  // ---------- choosing a thread ----------

  /** The earliest of the threads with the highest priority. */
  predicate IsHighest(list: seq<Tid>, prio: map<Tid, int>, i: nat)
    requires forall t :: t in list ==> t in prio
  {
    && i < |list|
    && (forall j :: 0 <= j < |list| ==> prio[list[j]] <= prio[list[i]])
    && (forall j :: 0 <= j < i ==> prio[list[j]] < prio[list[i]])
  }

  function Highest(list: seq<Tid>, prio: map<Tid, int>): (i: nat)
    requires list != [] && forall t :: t in list ==> t in prio
    ensures IsHighest(list, prio, i)
  {
    var n := |list| - 1;
    if n == 0 then 0 else
      var init := list[..n];
      assert forall j :: 0 <= j < n ==> list[j] == init[j];
      var k := Highest(init, prio);
      if prio[list[n]] > prio[list[k]] then n else k
  }

  /** `get_highest_priority_thread`: the scan stops early at the top priority. */
  method GetHighestPriorityThread(list: seq<Tid>, prio: map<Tid, int>) returns (best: Option<nat>)
    requires forall t :: t in list ==> t in prio && prio[t] <= PRI_MAX
    ensures best == if list == [] then None else Some(Highest(list, prio))
  {
    best := None;
    for i := 0 to |list|
      invariant best.None? <==> i == 0
      invariant best.Some? ==> IsHighest(list[..i], prio, best.value)
    {
      var soFar := list[..i + 1];
      assert forall j :: 0 <= j <= i ==> soFar[j] == list[j];
      if best == None { best := Some(i); }
      if prio[list[i]] > prio[list[best.value]] { best := Some(i); }
      assert IsHighest(soFar, prio, best.value);
      if prio[list[best.value]] == PRI_MAX {
        HighestUnique(list, prio, best.value, Highest(list, prio));
        return;
      }
    }
    assert list[..|list|] == list;
    if best.Some? { HighestUnique(list, prio, best.value, Highest(list, prio)); }
  }

  lemma HighestUnique(list: seq<Tid>, prio: map<Tid, int>, i: nat, k: nat)
    requires forall t :: t in list ==> t in prio
    requires IsHighest(list, prio, i) && IsHighest(list, prio, k)
    ensures i == k
  {
    assert list[i] in prio && list[k] in prio;
    assert prio[list[i]] == prio[list[k]];
  }

  // ---------- operations ----------

  function Remove<T>(s: seq<T>, i: nat): seq<T>
    requires i < |s|
  {
    s[..i] + s[i + 1..]
  }

  /** Every thread on a list exists and has a priority. */
  ghost predicate Known(st: State) {
    && st.threads.Keys <= st.prio.Keys
    && (st.current.Some? ==> st.current.value in st.threads)
    && (forall t :: t in st.ready ==> t in st.threads)
    && (forall s, t :: s in st.semas && t in st.semas[s].waiters ==> t in st.threads)
  }

  function SetStatus(st: State, t: Tid, x: Thread): State {
    st.(threads := st.threads[t := x])
  }

  /** `thread_unblock`, and the queueing half of `thread_yield`. */
  function MakeReady(st: State, t: Tid): State
    requires t in st.threads
  {
    SetStatus(st, t, st.threads[t].(status := Ready)).(ready := st.ready + [t])
  }

  /** `schedule`: the highest-priority ready thread, or the idle thread. */
  ghost function Dispatch(st: State): State
    requires Known(st)
  {
    if st.ready == [] then st else
      var i := Highest(st.ready, st.prio);
      var t := st.ready[i];
      SetStatus(st, t, st.threads[t].(status := Running)).(current := Some(t), ready := Remove(st.ready, i))
  }

  function Yield(st: State): State
    requires st.current.Some? ==> st.current.value in st.threads
  {
    if st.current.None? then st else MakeReady(st, st.current.value).(current := None)
  }

  /** The waking half of `sema_up`. */
  ghost function Wake(st: State, s: SemaId): State
    requires Known(st) && s in st.semas
  {
    var q := st.semas[s];
    if q.waiters == [] then st else
      var i := Highest(q.waiters, st.prio);
      MakeReady(st.(semas := st.semas[s := q.(waiters := Remove(q.waiters, i))]), q.waiters[i])
  }

  function Raise(st: State, s: SemaId): State
    requires s in st.semas
  {
    st.(semas := st.semas[s := st.semas[s].(value := st.semas[s].value + 1, ups := st.semas[s].ups + 1)])
  }

  /** The running thread takes one unit of the value. */
  function Take(st: State, c: Tid, s: SemaId): State
    requires s in st.semas && st.semas[s].value > 0 && c in st.threads
  {
    SetStatus(st, c, st.threads[c].(at := Outside))
      .(semas := st.semas[s := st.semas[s].(value := st.semas[s].value - 1, downs := st.semas[s].downs + 1)])
  }

  /** The running thread joins the waiters and blocks. */
  function BlockOn(st: State, c: Tid, s: SemaId): State
    requires s in st.semas && c in st.threads
  {
    SetStatus(st, c, Thread(Blocked, InDown(s)))
      .(semas := st.semas[s := st.semas[s].(waiters := st.semas[s].waiters + [c])], current := None)
  }

  datatype Action =
    | Down(s: SemaId) | TryDown(s: SemaId) | Up(s: SemaId) | InterruptUp(s: SemaId)
    | Preempt | SetPriorities(prio: map<Tid, int>)

  ghost predicate Enabled(st: State, a: Action)
    requires Known(st)
  {
    match a
    case Down(s) => s in st.semas && st.current.Some? && st.threads[st.current.value].at in {Outside, InDown(s)}
    case TryDown(s) => s in st.semas && st.current.Some? && st.threads[st.current.value].at == Outside
    case Up(s) => s in st.semas && st.current.Some? && st.threads[st.current.value].at == Outside
    case InterruptUp(s) => s in st.semas
    case Preempt => true
    case SetPriorities(p) => p.Keys == st.prio.Keys
  }

  ghost function Do(st: State, a: Action): State
    requires Known(st) && Enabled(st, a)
  {
    match a
    case Down(s) =>
      var c := st.current.value;
      if st.semas[s].value > 0 then Take(st, c, s) else KnownBlock(st, c, s); Dispatch(BlockOn(st, c, s))
    case TryDown(s) =>
      if st.semas[s].value > 0 then Take(st, st.current.value, s) else st
    case Up(s) =>
      KnownWake(st, s);
      var woken := Raise(Wake(st, s), s);
      KnownYield(woken);
      Dispatch(Yield(woken))
    case InterruptUp(s) => Raise(Wake(st, s), s)
    case Preempt => KnownYield(st); Dispatch(Yield(st))
    case SetPriorities(p) => st.(prio := p)
  }

  lemma KnownBlock(st: State, c: Tid, s: SemaId)
    requires Known(st) && s in st.semas && c in st.threads
    ensures Known(BlockOn(st, c, s))
  {
  }

  lemma KnownYield(st: State)
    requires Known(st)
    ensures Known(Yield(st))
  {
  }

  lemma KnownWake(st: State, s: SemaId)
    requires Known(st) && s in st.semas
    ensures s in Wake(st, s).semas && Known(Wake(st, s)) && Known(Raise(Wake(st, s), s))
  {
    var q := st.semas[s];
    if q.waiters != [] {
      var i := Highest(q.waiters, st.prio);
      assert q.waiters[i] in st.threads;
      assert forall t :: t in Remove(q.waiters, i) ==> t in q.waiters;
    }
  }

  // ---------- invariants ----------

  predicate NoRepeats(l: seq<Tid>) {
    forall i, j :: 0 <= i < j < |l| ==> l[i] != l[j]
  }

  /** A thread is queued where its status says, and nowhere else. */
  ghost predicate Placed(st: State, t: Tid)
    requires t in st.threads
  {
    var x := st.threads[t];
    && (x.status == Running <==> st.current == Some(t))
    && (x.status == Ready <==> t in st.ready)
    && (x.status == Blocked ==> x.at.InDown? && x.at.s in st.semas)
    && (forall s :: s in st.semas ==> (t in st.semas[s].waiters <==> x == Thread(Blocked, InDown(s))))
  }

  ghost predicate Lists(st: State) {
    && Known(st)
    && NoRepeats(st.ready) && (forall s :: s in st.semas ==> NoRepeats(st.semas[s].waiters))
    && (forall t :: t in st.threads ==> Placed(st, t))
  }

  /** Woken from a wait for `s`, and has not yet looked at its value again. */
  predicate IsWoken(s: SemaId, x: Thread) {
    x.at == InDown(s) && x.status != Blocked
  }

  ghost function WokenFor(s: SemaId): Thread -> bool {
    x => IsWoken(s, x)
  }

  ghost function Woken(st: State, s: SemaId): nat {
    Count(st.threads, WokenFor(s))
  }

  ghost predicate Conserved(q: Sema) {
    q.value + q.downs == q.start + q.ups
  }

  /** Units left over while threads wait are all spoken for by woken threads. */
  ghost predicate NoLostWakeup(st: State, s: SemaId)
    requires s in st.semas
  {
    st.semas[s].waiters != [] ==> st.semas[s].value <= Woken(st, s)
  }

  ghost predicate Inv(st: State) {
    && Lists(st)
    && forall s :: s in st.semas ==> Conserved(st.semas[s]) && NoLostWakeup(st, s)
  }

  lemma RemoveMember(l: seq<Tid>, i: nat, t: Tid)
    requires i < |l| && NoRepeats(l)
    ensures NoRepeats(Remove(l, i))
    ensures t in Remove(l, i) <==> t in l && t != l[i]
  {
    var r := Remove(l, i);
    assert forall j :: 0 <= j < |r| ==> r[j] == if j < i then l[j] else l[j + 1];
    if t in l && t != l[i] {
      var k :| 0 <= k < |l| && l[k] == t;
      assert r[if k < i then k else k - 1] == t;
    }
  }

  lemma ReadyLists(st: State, t: Tid)
    requires Lists(st) && t in st.threads && st.threads[t].status == Running
    ensures Lists(MakeReady(st, t).(current := None))
  {
    var st' := MakeReady(st, t).(current := None);
    assert NoRepeats(st'.ready);
    forall u | u in st'.threads ensures Placed(st', u) { assert Placed(st, u); }
  }

  lemma DispatchLists(st: State)
    requires Lists(st) && st.current == None
    ensures Lists(Dispatch(st))
  {
    if st.ready != [] {
      var i := Highest(st.ready, st.prio);
      var st' := Dispatch(st);
      forall u ensures NoRepeats(st'.ready) && (u in st'.ready <==> u in st.ready && u != st.ready[i]) {
        RemoveMember(st.ready, i, u);
      }
      assert st.ready[i] in st.ready;
      forall u | u in st'.threads ensures Placed(st', u) { assert Placed(st, u); }
    }
  }

  lemma WakeLists(st: State, s: SemaId)
    requires Lists(st) && s in st.semas
    ensures Lists(Wake(st, s))
  {
    var q := st.semas[s];
    if q.waiters != [] {
      var i := Highest(q.waiters, st.prio);
      var t := q.waiters[i];
      var st' := Wake(st, s);
      forall u ensures NoRepeats(st'.semas[s].waiters) && (u in st'.semas[s].waiters <==> u in q.waiters && u != t) {
        RemoveMember(q.waiters, i, u);
      }
      assert Placed(st, t);
      assert NoRepeats(st'.ready);
      KnownWake(st, s);
      forall u | u in st'.threads ensures Placed(st', u) { assert Placed(st, u); }
    }
  }

  lemma BlockLists(st: State, c: Tid, s: SemaId)
    requires Lists(st) && s in st.semas && st.current == Some(c)
    ensures Lists(BlockOn(st, c, s))
  {
    var st' := BlockOn(st, c, s);
    assert Placed(st, c);
    assert NoRepeats(st'.semas[s].waiters);
    forall u | u in st'.threads ensures Placed(st', u) { assert Placed(st, u); }
  }

  lemma TakeLists(st: State, c: Tid, s: SemaId)
    requires Lists(st) && s in st.semas && st.current == Some(c) && st.semas[s].value > 0
    ensures Lists(Take(st, c, s))
  {
    var st' := Take(st, c, s);
    forall u | u in st'.threads ensures Placed(st', u) { assert Placed(st, u); }
  }

  /** Making one thread ready, running or blocked moves the count by that thread. */
  lemma WokenStep(st: State, t: Tid, x: Thread, s: SemaId)
    requires t in st.threads
    ensures Count(st.threads[t := x], WokenFor(s))
              == Woken(st, s) - Indicator(IsWoken(s, st.threads[t])) + Indicator(IsWoken(s, x))
  {
    CountStep(st.threads, t, x, WokenFor(s));
  }

  lemma DispatchInv(st: State)
    requires Inv(st) && st.current == None
    ensures Inv(Dispatch(st))
  {
    DispatchLists(st);
    if st.ready != [] {
      var t := st.ready[Highest(st.ready, st.prio)];
      assert t in st.ready && Placed(st, t);
      forall s | s in st.semas ensures NoLostWakeup(Dispatch(st), s) {
        WokenStep(st, t, st.threads[t].(status := Running), s);
      }
    }
  }

  lemma YieldInv(st: State)
    requires Inv(st)
    ensures Inv(Yield(st)) && Yield(st).current == None
  {
    if st.current.Some? {
      var t := st.current.value;
      assert Placed(st, t);
      ReadyLists(st, t);
      forall s | s in st.semas ensures NoLostWakeup(Yield(st), s) {
        WokenStep(st, t, st.threads[t].(status := Ready), s);
      }
    }
  }

  /** Waking a waiter and raising the value go together: the new unit is spoken for. */
  lemma RaiseInv(st: State, s: SemaId)
    requires Inv(st) && s in st.semas
    ensures s in Wake(st, s).semas && Inv(Raise(Wake(st, s), s))
  {
    var st1, q := Wake(st, s), st.semas[s];
    WakeLists(st, s);
    var st' := Raise(st1, s);
    assert Lists(st') by {
      forall u | u in st'.threads ensures Placed(st', u) { assert Placed(st1, u); }
    }
    if q.waiters != [] {
      var t := q.waiters[Highest(q.waiters, st.prio)];
      assert t in q.waiters && Placed(st, t);
      forall r | r in st.semas ensures NoLostWakeup(st', r) {
        WokenStep(st, t, st.threads[t].(status := Ready), r);
      }
    }
  }

  lemma TakeInv(st: State, c: Tid, s: SemaId)
    requires Inv(st) && s in st.semas && st.current == Some(c) && st.semas[s].value > 0
    requires st.threads[c].at in {Outside, InDown(s)}
    ensures Inv(Take(st, c, s))
  {
    TakeLists(st, c, s);
    assert Placed(st, c);
    forall r | r in st.semas ensures NoLostWakeup(Take(st, c, s), r) {
      WokenStep(st, c, st.threads[c].(at := Outside), r);
    }
  }

  lemma BlockInv(st: State, c: Tid, s: SemaId)
    requires Inv(st) && s in st.semas && st.current == Some(c) && st.semas[s].value == 0
    requires st.threads[c].at in {Outside, InDown(s)}
    ensures Inv(BlockOn(st, c, s))
  {
    BlockLists(st, c, s);
    assert Placed(st, c);
    forall r | r in st.semas ensures NoLostWakeup(BlockOn(st, c, s), r) {
      WokenStep(st, c, Thread(Blocked, InDown(s)), r);
    }
  }

  /** Every operation keeps the lists apart, the value balanced and the wake-ups accounted for. */
  lemma DoInv(st: State, a: Action)
    requires Inv(st) && Enabled(st, a)
    ensures Inv(Do(st, a))
  {
    match a
    case Down(s) =>
      if st.semas[s].value > 0 {
        TakeInv(st, st.current.value, s);
      } else {
        BlockInv(st, st.current.value, s);
        DispatchInv(BlockOn(st, st.current.value, s));
      }
    case TryDown(s) =>
      if st.semas[s].value > 0 { TakeInv(st, st.current.value, s); }
    case Up(s) =>
      RaiseInv(st, s);
      YieldInv(Raise(Wake(st, s), s));
      DispatchInv(Yield(Raise(Wake(st, s), s)));
    case InterruptUp(s) => RaiseInv(st, s);
    case Preempt =>
      YieldInv(st);
      DispatchInv(Yield(st));
    case SetPriorities(p) =>
      forall u | u in st.threads ensures Placed(Do(st, a), u) { assert Placed(st, u); }
      forall s | s in st.semas ensures NoLostWakeup(Do(st, a), s) { assert NoLostWakeup(st, s); }
  }

  // ---------- what each operation does ----------

  predicate Runnable(st: State, u: Tid) {
    u in st.ready || st.current == Some(u)
  }

  /** No ready thread has a higher priority than the running one, and the processor is idle only
      when no thread is ready. */
  ghost predicate Scheduled(st: State)
    requires Known(st)
  {
    && (st.current.None? ==> st.ready == [])
    && (st.current.Some? ==> forall u :: u in st.ready ==> st.prio[u] <= st.prio[st.current.value])
  }

  /** Every thread is where it was in its code, and every semaphore but `s` is as it was. */
  ghost predicate SameElsewhere(st: State, st': State, s: SemaId) {
    && st'.semas.Keys == st.semas.Keys && st'.threads.Keys == st.threads.Keys && st'.prio == st.prio
    && (forall r :: r in st.semas && r != s ==> st'.semas[r] == st.semas[r])
  }

  /** `sema_up` adds one unit and, if threads wait, makes runnable the first of those with the
      highest priority, and no other. */
  ghost predicate Upped(st: State, s: SemaId, st': State)
    requires Known(st) && s in st.semas
  {
    && SameElsewhere(st, st', s) && SameAt(st, st')
    && var q, q' := st.semas[s], st'.semas[s];
    && q' == q.(value := q.value + 1, ups := q.ups + 1, waiters := q'.waiters)
    && if q.waiters == [] then q'.waiters == [] && Runs(st, st', None)
       else
         var i := Highest(q.waiters, st.prio);
         && IsHighest(q.waiters, st.prio, i) && q'.waiters == q.waiters[..i] + q.waiters[i + 1..]
         && Runs(st, st', Some(q.waiters[i]))
  }

  ghost predicate SameAt(st: State, st': State) {
    st'.threads.Keys == st.threads.Keys && forall u :: u in st.threads ==> st'.threads[u].at == st.threads[u].at
  }

  /** The threads that can run are those of before, and `t`. */
  ghost predicate Runs(st: State, st': State, t: Option<Tid>) {
    forall u: Tid :: Runnable(st', u) <==> Runnable(st, u) || t == Some(u)
  }

  /** Giving up the processor changes neither semaphores nor who can run. */
  ghost predicate Rescheduled(st: State, st': State) {
    && st'.semas == st.semas && st'.prio == st.prio && SameAt(st, st') && Runs(st, st', None)
    && Known(st') && Scheduled(st')
  }

  lemma DispatchSame(st: State)
    requires Inv(st) && st.current == None
    ensures Rescheduled(st, Dispatch(st))
  {
    DispatchInv(st);
    if st.ready != [] {
      var i := Highest(st.ready, st.prio);
      forall u ensures u in Remove(st.ready, i) <==> u in st.ready && u != st.ready[i] { RemoveMember(st.ready, i, u); }
    }
  }

  lemma YieldSame(st: State)
    requires Inv(st)
    ensures Rescheduled(st, Dispatch(Yield(st)))
  {
    YieldInv(st);
    DispatchSame(Yield(st));
    assert Runs(st, Yield(st), None);
  }

  lemma ReadyRuns(st: State, t: Tid)
    requires t in st.threads
    ensures Runs(st, MakeReady(st, t), Some(t)) && SameAt(st, MakeReady(st, t))
  {
  }

  lemma WakeUps(st: State, s: SemaId)
    requires Inv(st) && s in st.semas
    ensures s in Wake(st, s).semas && Upped(st, s, Raise(Wake(st, s), s))
    ensures Raise(Wake(st, s), s).current == st.current
  {
    var q := st.semas[s];
    if q.waiters == [] {
      assert Runs(st, Raise(st, s), None);
    } else {
      WakeOne(st, s, Highest(q.waiters, st.prio));
    }
  }

  lemma WakeOne(st: State, s: SemaId, i: nat)
    requires Inv(st) && s in st.semas && st.semas[s].waiters != []
    requires i == Highest(st.semas[s].waiters, st.prio)
    ensures s in Wake(st, s).semas && Upped(st, s, Raise(Wake(st, s), s)) && Wake(st, s).current == st.current
  {
    var q := st.semas[s];
    assert q.waiters[i] in q.waiters;
    var st1 := st.(semas := st.semas[s := q.(waiters := Remove(q.waiters, i))]);
    ReadyRuns(st1, q.waiters[i]);
    RaiseRuns(MakeReady(st1, q.waiters[i]), s);
    assert Runs(st, Raise(Wake(st, s), s), Some(q.waiters[i])) && SameAt(st, Raise(Wake(st, s), s));
  }

  lemma RaiseRuns(st: State, s: SemaId)
    requires s in st.semas
    ensures Runs(st, Raise(st, s), None) && SameAt(st, Raise(st, s))
  {
  }

  lemma UppedOn(st: State, s: SemaId, st1: State, st': State)
    requires Known(st) && s in st.semas && Upped(st, s, st1) && Rescheduled(st1, st')
    ensures Upped(st, s, st')
  {
  }

  /** `sema_up` of a thread: one unit more, the right waiter woken, and the processor given to a
      thread of the highest priority. */
  lemma UpLaw(st: State, s: SemaId)
    requires Inv(st) && Enabled(st, Up(s))
    ensures var st' := Do(st, Up(s)); Upped(st, s, st') && Known(st') && Scheduled(st')
  {
    var st1 := Raise(Wake(st, s), s);
    WakeUps(st, s);
    RaiseInv(st, s);
    YieldSame(st1);
    UppedOn(st, s, st1, Do(st, Up(s)));
  }

  /** `sema_up` of an interrupt handler: the same, and the running thread goes on. */
  lemma InterruptUpLaw(st: State, s: SemaId)
    requires Inv(st) && Enabled(st, InterruptUp(s))
    ensures Upped(st, s, Do(st, InterruptUp(s))) && Do(st, InterruptUp(s)).current == st.current
  {
    WakeUps(st, s);
  }

  /** The running thread has taken a unit and goes on. */
  ghost predicate Downed(st: State, s: SemaId, st': State)
    requires Known(st) && s in st.semas && st.current.Some?
  {
    && SameElsewhere(st, st', s) && st'.current == st.current && st'.ready == st.ready
    && var q, c := st.semas[s], st.current.value;
    && q.value > 0 && st'.semas[s] == q.(value := q.value - 1, downs := q.downs + 1)
    && st'.threads == st.threads[c := st.threads[c].(at := Outside)]
  }

  /** `sema_down` takes a unit at once when there is one; when there is none, the running thread
      goes to the end of the waiters and blocks, and the processor to a thread of the highest
      priority. */
  lemma DownLaw(st: State, s: SemaId)
    requires Inv(st) && Enabled(st, Down(s))
    ensures var st', q, c := Do(st, Down(s)), st.semas[s], st.current.value;
            if q.value > 0 then Downed(st, s, st')
            else && SameElsewhere(st, st', s) && st'.semas[s] == q.(waiters := q.waiters + [c])
                 && st'.threads[c] == Thread(Blocked, InDown(s)) && Known(st') && Scheduled(st')
                 && forall u :: Runnable(st', u) <==> Runnable(st, u) && u != c
  {
    if st.semas[s].value == 0 { BlockLaw(st, st.current.value, s); }
  }

  lemma BlockLaw(st: State, c: Tid, s: SemaId)
    requires Inv(st) && s in st.semas && st.current == Some(c) && st.semas[s].value == 0
    requires st.threads[c].at in {Outside, InDown(s)}
    ensures Known(BlockOn(st, c, s)) && var st', q := Dispatch(BlockOn(st, c, s)), st.semas[s];
            && SameElsewhere(st, st', s) && st'.semas[s] == q.(waiters := q.waiters + [c])
            && st'.threads[c] == Thread(Blocked, InDown(s)) && Known(st') && Scheduled(st')
            && forall u :: Runnable(st', u) <==> Runnable(st, u) && u != c
  {
    var st1 := BlockOn(st, c, s);
    BlockInv(st, c, s);
    DispatchSame(st1);
    BlockRuns(st, c, s);
    BlockedStays(st, c, s);
  }

  lemma BlockRuns(st: State, c: Tid, s: SemaId)
    requires Inv(st) && s in st.semas && st.current == Some(c)
    ensures forall u :: Runnable(BlockOn(st, c, s), u) <==> Runnable(st, u) && u != c
  {
    assert Placed(st, c);
  }

  lemma BlockedStays(st: State, c: Tid, s: SemaId)
    requires Inv(st) && s in st.semas && st.current == Some(c) && Inv(BlockOn(st, c, s))
    ensures Dispatch(BlockOn(st, c, s)).threads[c] == Thread(Blocked, InDown(s))
  {
    var st1 := BlockOn(st, c, s);
    assert Placed(st1, c);
    if st1.ready != [] { assert st1.ready[Highest(st1.ready, st1.prio)] in st1.ready; }
  }

  /** `sema_try_down` takes a unit just when there is one, and never blocks. */
  lemma TryDownLaw(st: State, s: SemaId)
    requires Inv(st) && Enabled(st, TryDown(s))
    ensures var st' := Do(st, TryDown(s)); if st.semas[s].value > 0 then Downed(st, s, st') else st' == st
  {
    assert Placed(st, st.current.value);
  }

  /** `thread_yield` lets a thread of the highest priority run and changes nothing else. */
  lemma PreemptLaw(st: State)
    requires Inv(st)
    ensures Rescheduled(st, Do(st, Preempt))
  {
    YieldSame(st);
  }

  // ---------- whole runs ----------

  /** Fresh semaphores, and threads that are running or ready in their own code. */
  ghost predicate Init(st: State) {
    && Lists(st)
    && (forall t :: t in st.threads ==> st.threads[t].at == Outside)
    && (forall s :: s in st.semas ==> st.semas[s] == Sema(st.semas[s].start, [], st.semas[s].start, 0, 0))
  }

  ghost predicate Step(st: State, st': State) {
    Known(st) && exists a :: Enabled(st, a) && st' == Do(st, a)
  }

  ghost predicate Run(tr: seq<State>) {
    |tr| > 0 && Init(tr[0]) && forall i :: 0 <= i < |tr| - 1 ==> Step(tr[i], tr[i + 1])
  }

  lemma InitInv(st: State)
    requires Init(st)
    ensures Inv(st)
  {
    forall s | s in st.semas ensures Conserved(st.semas[s]) && NoLostWakeup(st, s) {
      assert st.semas[s] == Sema(st.semas[s].start, [], st.semas[s].start, 0, 0);
    }
  }

  lemma StepInv(st: State, st': State)
    requires Inv(st) && Step(st, st')
    ensures Inv(st')
  {
    var a :| Enabled(st, a) && st' == Do(st, a);
    DoInv(st, a);
  }

  lemma {:induction false} RunInv(tr: seq<State>, n: nat)
    requires Run(tr) && n < |tr|
    ensures Inv(tr[n])
  {
    if n == 0 {
      InitInv(tr[0]);
    } else {
      RunInv(tr, n - 1);
      assert Step(tr[n - 1], tr[n - 1 + 1]);
      StepInv(tr[n - 1], tr[n]);
    }
  }

  /** In every reachable state, the value of every semaphore is what was put in less what was
      taken out, whether anybody waits or not; and while somebody waits, the units left over
      are spoken for. */
  lemma UnitsConserved(tr: seq<State>, n: nat, s: SemaId)
    requires Run(tr) && n < |tr| && s in tr[n].semas
    ensures tr[n].semas[s].value + tr[n].semas[s].downs == tr[n].semas[s].start + tr[n].semas[s].ups
    ensures tr[n].semas[s].waiters != [] ==> tr[n].semas[s].value <= Woken(tr[n], s)
  {
    RunInv(tr, n);
    assert NoLostWakeup(tr[n], s);
  }

  /** In every reachable state: no thread is on two lists; the value is what was put in
      less what was taken out; and if a thread waits while the value is positive, some
      other thread has been woken for it and will look again. */
  lemma NoWakeupLost(tr: seq<State>, n: nat, s: SemaId, t: Tid)
    requires Run(tr) && n < |tr| && s in tr[n].semas && t in tr[n].semas[s].waiters
    ensures t !in tr[n].ready && tr[n].current != Some(t)
    ensures forall r :: r in tr[n].semas && r != s ==> t !in tr[n].semas[r].waiters
    ensures tr[n].semas[s].value + tr[n].semas[s].downs == tr[n].semas[s].start + tr[n].semas[s].ups
    ensures tr[n].semas[s].value <= Woken(tr[n], s)
    ensures tr[n].semas[s].value > 0 ==>
              exists u :: && u in tr[n].threads && IsWoken(s, tr[n].threads[u])
                          && (u in tr[n].ready || tr[n].current == Some(u))
  {
    RunInv(tr, n);
    var st := tr[n];
    assert Placed(st, t) && NoLostWakeup(st, s);
    if st.semas[s].value > 0 {
      var u := CountPositive(st.threads, WokenFor(s));
      assert Placed(st, u);
    }
  }
}
