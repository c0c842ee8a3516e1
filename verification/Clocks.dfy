/**
 The two second-chance clocks: `get_free_block` of filesys/cache.c and `evict_frame`
 of vm/frame.c, each run to completion while nobody else touches the entries.
 */
module Clocks {

  /** The entry under a clock hand that started at `start` and moved `k` times. */
  function Slot(start: nat, k: nat, n: nat): nat
    requires start < n && k < 2 * n
    ensures Slot(start, k, n) < n
  {
    if start + k < n then start + k else if start + k < 2 * n then start + k - n else start + k - 2 * n
  }

  lemma ModNext(a: nat, n: nat)
    requires a < n
    ensures (a + 1) % n == if a + 1 == n then 0 else a + 1
  {
    if a + 1 == n { assert n == n * 1 + 0; }
  }

  /** Every entry passes under the hand within one sweep. */
  lemma Sweep(start: nat, i: nat, n: nat) returns (k: nat)
    requires start < n && i < n
    ensures k < n && Slot(start, k, n) == i
    ensures forall j :: 0 <= j < n && Slot(start, j, n) == i ==> j == k
    ensures forall j :: n <= j < 2 * n && Slot(start, j, n) == i ==> j == k + n
  {
    k := if start <= i then i - start else i - start + n;
  }

  /** The entries of a clock when it starts: those that may be taken at all, those
      that need no second chance, and the accessed flags. */
  datatype Dial = Dial(start: nat, eligible: seq<bool>, free: seq<bool>, accessed: seq<bool>) {
    ghost predicate Valid() {
      start < |eligible| == |free| == |accessed|
    }

    function At(k: nat): nat
      requires start < |eligible| && k < 2 * |eligible|
    {
      Slot(start, k, |eligible|)
    }

    /** Could be taken the first time the hand comes by. */
    predicate Ready(i: nat)
      requires i < |eligible| == |free| == |accessed|
    {
      eligible[i] && (free[i] || !accessed[i])
    }
  }

  /** What second chance promises: the first entry that is ready when the hand first
      reaches it; if there is none, the first eligible entry of the second sweep. */
  ghost predicate Chosen(d: Dial, k: nat)
    requires d.Valid()
  {
    var n := |d.eligible|;
    && k < 2 * n && d.eligible[d.At(k)] && (k < n ==> d.Ready(d.At(k)))
    && Refused(d, k)
  }

  /** The first `k` entries under the hand had to be passed over. */
  ghost predicate Refused(d: Dial, k: nat)
    requires d.Valid() && k <= 2 * |d.eligible|
  {
    && (forall j :: 0 <= j < k && j < |d.eligible| ==> !d.Ready(d.At(j)))
    && (forall j :: |d.eligible| <= j < k ==> !d.eligible[d.At(j)])
  }

  /** The promise fixes the choice. */
  lemma ChosenUnique(d: Dial, k: nat, l: nat)
    requires d.Valid() && Chosen(d, k) && Chosen(d, l)
    ensures k == l
  {
  }

  /** If any entry is ready the choice is ready: an entry in use is taken only when
      every other eligible entry is in use too. */
  lemma ChosenReady(d: Dial, k: nat, i: nat)
    requires d.Valid() && Chosen(d, k) && i < |d.eligible| && d.Ready(i)
    ensures k < |d.eligible| && d.Ready(d.At(k))
  {
    var j := Sweep(d.start, i, |d.eligible|);
    assert d.At(j) == i;
  }

  ghost predicate Passed(d: Dial, i: nat, k: nat)
    requires d.Valid() && k <= 2 * |d.eligible|
  {
    exists j :: 0 <= j < k && d.At(j) == i
  }

  /** The accessed flags after the hand has moved `k` times: cleared on every eligible
      entry it has passed. */
  ghost predicate Cleared(d: Dial, now: seq<bool>, k: nat)
    requires d.Valid() && k <= 2 * |d.eligible|
  {
    && |now| == |d.eligible|
    && forall i :: 0 <= i < |now| ==> now[i] == (d.accessed[i] && !(d.eligible[i] && Passed(d, i, k)))
  }

  /** The clock has turned `k` times without a choice. */
  ghost predicate Turning(d: Dial, now: seq<bool>, k: nat)
    requires d.Valid()
  {
    k <= 2 * |d.eligible| && Refused(d, k) && Cleared(d, now, k)
  }

  lemma TurnStart(d: Dial)
    requires d.Valid()
    ensures Turning(d, d.accessed, 0)
  {
  }

  lemma PassedNext(d: Dial, i: nat, k: nat)
    requires d.Valid() && k < 2 * |d.eligible|
    ensures Passed(d, i, k + 1) <==> Passed(d, i, k) || d.At(k) == i
  {
    if Passed(d, i, k + 1) && d.At(k) != i {
      var j :| 0 <= j < k + 1 && d.At(j) == i;
      assert j < k;
    }
    if d.At(k) == i { assert 0 <= k < k + 1; }
  }

  /** In the second sweep every eligible entry has lost its flag. */
  lemma SecondSweep(d: Dial, now: seq<bool>, k: nat)
    requires d.Valid() && Turning(d, now, k) && |d.eligible| <= k < 2 * |d.eligible| && d.eligible[d.At(k)]
    ensures !now[d.At(k)]
  {
    assert d.At(k - |d.eligible|) == d.At(k);
  }

  /** In the first sweep the flags are still those of the start. */
  lemma FirstSweep(d: Dial, now: seq<bool>, k: nat)
    requires d.Valid() && Turning(d, now, k) && k < |d.eligible|
    ensures now[d.At(k)] == d.accessed[d.At(k)]
  {
  }

  /** An entry that is taken is the one that second chance promises. */
  lemma TurnTake(d: Dial, now: seq<bool>, k: nat)
    requires d.Valid() && Turning(d, now, k) && k < 2 * |d.eligible|
    requires d.eligible[d.At(k)] && (d.free[d.At(k)] || !now[d.At(k)])
    ensures Chosen(d, k)
  {
    if k < |d.eligible| { FirstSweep(d, now, k); }
  }

  /** An entry that is not taken loses its flag, and the hand moves on. */
  lemma TurnPass(d: Dial, now: seq<bool>, now': seq<bool>, k: nat)
    requires d.Valid() && Turning(d, now, k) && k < 2 * |d.eligible|
    requires d.eligible[d.At(k)] ==> !d.free[d.At(k)] && now[d.At(k)]
    requires now' == if d.eligible[d.At(k)] then now[d.At(k) := false] else now
    ensures Turning(d, now', k + 1)
  {
    if k < |d.eligible| { FirstSweep(d, now, k); } else if d.eligible[d.At(k)] { SecondSweep(d, now, k); }
    forall i | 0 <= i < |now'| ensures now'[i] == (d.accessed[i] && !(d.eligible[i] && Passed(d, i, k + 1))) {
      PassedNext(d, i, k);
    }
  }

  /** The clock stops within two sweeps: an eligible entry is never passed twice. */
  lemma TurnEnds(d: Dial, now: seq<bool>, k: nat, e: nat)
    requires d.Valid() && Turning(d, now, k) && e < |d.eligible| && d.eligible[e]
    ensures k < 2 * |d.eligible|
  {
    var j := Sweep(d.start, e, |d.eligible|);
    assert d.At(j + |d.eligible|) == e;
  }

  function Turned(d: Dial, now: seq<bool>, b: nat): seq<bool>
    requires b < |d.eligible| == |now|
  {
    if d.eligible[b] then now[b := false] else now
  }

  predicate Takes(d: Dial, now: seq<bool>, b: nat)
    requires b < |d.eligible| == |d.free| == |now|
  {
    d.eligible[b] && (d.free[b] || !now[b])
  }

  /** One turn of a clock that has an eligible entry `e`: the entry `b` under the hand
      is the choice, or the clock turns on. */
  lemma Turn(d: Dial, now: seq<bool>, k: nat, b: nat, e: nat)
    requires d.Valid() && Turning(d, now, k) && k < 2 * |d.eligible| && b == d.At(k)
    requires e < |d.eligible| && d.eligible[e]
    ensures Takes(d, now, b) ==> Chosen(d, k)
    ensures !Takes(d, now, b) ==>
              && Turning(d, Turned(d, now, b), k + 1) && k + 1 < 2 * |d.eligible|
              && d.At(k + 1) == if b + 1 == |d.eligible| then 0 else b + 1
  {
    if Takes(d, now, b) {
      TurnTake(d, now, k);
    } else {
      TurnPass(d, now, Turned(d, now, b), k);
      TurnEnds(d, Turned(d, now, b), k + 1, e);
    }
  }

  function Not(s: seq<bool>): (r: seq<bool>)
    ensures |r| == |s| && forall i :: 0 <= i < |s| ==> r[i] == !s[i]
  {
    seq(|s|, i requires 0 <= i < |s| => !s[i])
  }

  /** A block is eligible when its lock can be had. */
  function CacheDial(arm: nat, locked: seq<bool>, occupied: seq<bool>, accessed: seq<bool>): Dial {
    Dial(arm, Not(locked), Not(occupied), accessed)
  }

  /** The cache's clock: which blocks are occupied, and which are locked by others. */
  class CacheClock {
    var arm: nat
    var accessed: seq<bool>
    var occupied: seq<bool>
    var locked: seq<bool>

    ghost predicate Valid()
      reads this
    {
      arm < |accessed| == |occupied| == |locked|
    }

    ghost function View(): Dial
      reads this
    {
      CacheDial(arm, locked, occupied, accessed)
    }

    method AdvanceArm()
      requires Valid()
      modifies this`arm
      ensures arm == if old(arm) + 1 == |locked| then 0 else old(arm) + 1
    {
      ModNext(arm, |locked|);
      arm := (arm + 1) % |accessed|;
    }

    /** Takes the block that second chance promises, after passing over `k` blocks. */
    method GetFreeBlock() returns (b: nat, ghost k: nat)
      requires Valid()
      requires exists i :: 0 <= i < |locked| && !locked[i]
      modifies this
      ensures Valid() && Chosen(old(View()), k) && b == old(View()).At(k)
      ensures arm == (if b + 1 == |locked| then 0 else b + 1) && Cleared(old(View()), accessed, k)
      ensures !locked[b] && (!old(occupied)[b] || !accessed[b])
      ensures locked == old(locked) && occupied == old(occupied)[b := false]
    {
      ghost var d := View();
      ghost var e: nat :| e < |locked| && !locked[e];
      TurnStart(d);
      k := 0;
      while true
        invariant Valid() && locked == old(locked) && occupied == old(occupied)
        invariant Turning(d, accessed, k) && k < 2 * |locked| && arm == d.At(k)
        decreases 2 * |locked| - k
      {
        b := arm;
        Turn(d, accessed, k, b, e);
        AdvanceArm();
        if !locked[b] {
          if !occupied[b] || !accessed[b] {
            occupied := occupied[b := false];
            return;
          }
          accessed := accessed[b := false];
        }
        k := k + 1;
      }
    }
  }

  /** A frame can be evicted when its lock is free, it has a page, and the page's
      owner still has a page directory. */
  function Evictables(locked: seq<bool>, resident: seq<bool>, exiting: seq<bool>): (r: seq<bool>)
    requires |locked| == |resident| == |exiting|
    ensures |r| == |locked| && forall i :: 0 <= i < |r| ==> r[i] == (!locked[i] && resident[i] && !exiting[i])
  {
    seq(|locked|, i requires 0 <= i < |locked| => !locked[i] && resident[i] && !exiting[i])
  }

  function Never(n: nat): (r: seq<bool>)
    ensures |r| == n && forall i :: 0 <= i < n ==> !r[i]
  {
    seq(n, i => false)
  }

  /** The frame table as `evict_frame` looks at it: frame locks, resident pages, whether
      the page's owner has given up its page directory, and the accessed bits. */
  class FrameClock {
    var hand: nat
    var accessed: seq<bool>
    var locked: seq<bool>
    var resident: seq<bool>
    var exiting: seq<bool>

    ghost predicate Valid()
      reads this
    {
      hand < |accessed| == |locked| == |resident| == |exiting|
    }

    /** `advance_clock_hand` comes first, so the first frame looked at is the next one. */
    ghost function View(): Dial
      requires Valid()
      reads this
    {
      Dial(if hand + 1 >= |accessed| then 0 else hand + 1, Evictables(locked, resident, exiting), Never(|accessed|),
           accessed)
    }

    method AdvanceClockHand()
      requires Valid()
      modifies this`hand
      ensures hand == if old(hand) + 1 >= |accessed| then 0 else old(hand) + 1
    {
      hand := hand + 1;
      if hand >= |accessed| {
        hand := 0;
      }
    }

    /** Evicts the page that second chance promises, after passing over `k` frames, and
        returns its frame locked and empty. */
    method EvictFrame() returns (f: nat, ghost k: nat)
      requires Valid()
      requires exists i :: 0 <= i < |locked| && !locked[i] && resident[i] && !exiting[i]
      modifies this
      ensures Valid() && Chosen(old(View()), k) && f == old(View()).At(k) == hand
      ensures !old(locked)[f] && old(resident)[f] && !exiting[f] && !accessed[f]
      ensures locked == old(locked)[f := true] && resident == old(resident)[f := false] && exiting == old(exiting)
      ensures Cleared(old(View()), accessed, k)
    {
      ghost var d := View();
      ghost var e: nat :| e < |locked| && !locked[e] && resident[e] && !exiting[e];
      TurnStart(d);
      AdvanceClockHand();
      k := 0;
      while true
        invariant Valid() && locked == old(locked) && resident == old(resident) && exiting == old(exiting)
        invariant Turning(d, accessed, k) && k < 2 * |locked| && hand == d.At(k)
        decreases 2 * |locked| - k
      {
        f := hand;
        Turn(d, accessed, k, f, e);
        if !locked[f] && resident[f] && !exiting[f] {
          var wasAccessed := accessed[f];
          ghost var flags := accessed;
          accessed := accessed[f := false];
          if !wasAccessed {
            assert accessed == flags;
            locked, resident := locked[f := true], resident[f := false];
            return;
          }
        }
        AdvanceClockHand();
        k := k + 1;
      }
    }
  }
}
