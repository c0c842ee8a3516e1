/**
 What the list sort of lib/kernel/list.c computes, on sequences: one pass merges the runs
 of nondecreasing elements in pairs.
 */
module Sorting {
  /** `less` is a strict weak order on the elements of `s`. */
  ghost predicate StrictWeak<T>(less: (T, T) -> bool, s: seq<T>) {
    && (forall x, y {:trigger less(x, y)} :: x in s && y in s && less(x, y) ==> !less(y, x))
    && (forall x, y, z {:trigger less(x, y), less(y, z)} ::
          x in s && y in s && z in s && !less(x, y) && !less(y, z) ==> !less(x, z))
  }

  ghost predicate Sorted<T>(less: (T, T) -> bool, s: seq<T>) {
    forall i, j :: 0 <= i < j < |s| ==> !less(s[j], s[i])
  }

  /** The length of the longest run at the start of `s`. */
  ghost function RunEnd<T>(less: (T, T) -> bool, s: seq<T>): (e: nat)
    requires s != []
    ensures 0 < e <= |s|
  {
    if |s| == 1 || less(s[1], s[0]) then 1 else 1 + RunEnd(less, s[1..])
  }

  ghost function Merge<T>(less: (T, T) -> bool, a: seq<T>, b: seq<T>): (m: seq<T>)
    ensures |m| == |a| + |b|
  {
    if a == [] then b
    else if b == [] then a
    else if !less(b[0], a[0]) then [a[0]] + Merge(less, a[1..], b)
    else [b[0]] + Merge(less, a, b[1..])
  }

  /** The number of runs of `s`. */
  ghost function Runs<T>(less: (T, T) -> bool, s: seq<T>): nat {
    if s == [] then 0 else 1 + Runs(less, s[RunEnd(less, s)..])
  }

  /** One pass over the list. */
  ghost function Pass<T>(less: (T, T) -> bool, s: seq<T>): (t: seq<T>)
    ensures |t| == |s|
    decreases |s|
  {
    if s == [] then []
    else
      var e := RunEnd(less, s);
      if e == |s| then s
      else var f := e + RunEnd(less, s[e..]);
           Merge(less, s[..e], s[e..f]) + Pass(less, s[f..])
  }

  /** The number of runs that a pass counts as its output. */
  ghost function OutputRuns<T>(less: (T, T) -> bool, s: seq<T>): nat
    decreases |s|
  {
    if s == [] then 0
    else
      var e := RunEnd(less, s);
      if e == |s| then 1 else 1 + OutputRuns(less, s[e + RunEnd(less, s[e..])..])
  }

  // ---------- runs ----------

  lemma SubOrder<T>(less: (T, T) -> bool, s: seq<T>, t: seq<T>)
    requires StrictWeak(less, s) && forall x :: x in t ==> x in s
    ensures StrictWeak(less, t)
  {
  }

  /** A run is sorted. */
  lemma {:induction false} RunSorted<T>(less: (T, T) -> bool, s: seq<T>)
    requires s != [] && StrictWeak(less, s)
    ensures Sorted(less, s[..RunEnd(less, s)])
  {
    if |s| <= 1 || less(s[1], s[0]) {
    } else {
      SubOrder(less, s, s[1..]);
      RunSorted(less, s[1..]);
      var run, rest := s[..RunEnd(less, s)], s[1..][..RunEnd(less, s[1..])];
      forall i, j | 0 <= i < j < |run| ensures !less(run[j], run[i]) {
        if i > 0 {
          assert run[i] == rest[i - 1] && run[j] == rest[j - 1];
        } else {
          assert run[1] == rest[0] && run[j] == rest[j - 1];
          assert run[j] in s && run[1] in s && run[0] in s;
        }
      }
    }
  }

  /** A sorted stretch at the start lies within the first run. */
  lemma {:induction false} RunCovers<T>(less: (T, T) -> bool, s: seq<T>, k: nat)
    requires 0 < k <= |s| && Sorted(less, s[..k])
    ensures k <= RunEnd(less, s)
  {
    if k <= 1 {
    } else {
      assert s[..k][1] == s[1] && s[..k][0] == s[0];
      assert s[1..][..k - 1] == s[..k][1..];
      RunCovers(less, s[1..], k - 1);
    }
  }

  lemma {:induction false} RunTail<T>(less: (T, T) -> bool, s: seq<T>, k: nat)
    requires s != [] && k < RunEnd(less, s)
    ensures RunEnd(less, s[k..]) == RunEnd(less, s) - k
  {
    if k > 0 {
      RunTail(less, s[1..], k - 1);
      assert s[1..][k - 1..] == s[k..];
    } else {
      assert s[0..] == s;
    }
  }

  /** Dropping a prefix adds no run. */
  lemma {:induction false} RunsSuffix<T>(less: (T, T) -> bool, s: seq<T>, k: nat)
    requires k <= |s|
    ensures Runs(less, s[k..]) <= Runs(less, s)
    decreases |s|
  {
    if s == [] {
      assert s[k..] == s;
    } else if k < RunEnd(less, s) {
      var e := RunEnd(less, s);
      RunTail(less, s, k);
      assert s[k..][e - k..] == s[e..];
      assert Runs(less, s[k..]) == 1 + Runs(less, s[e..]);
    } else {
      var e := RunEnd(less, s);
      RunsSuffix(less, s[e..], k - e);
      assert s[e..][k - e..] == s[k..];
    }
  }

  /** A sorted stretch in front adds at most one run. */
  lemma RunsJoin<T>(less: (T, T) -> bool, a: seq<T>, b: seq<T>)
    requires a != [] && Sorted(less, a)
    ensures Runs(less, a + b) <= 1 + Runs(less, b)
  {
    var s := a + b;
    assert s[..|a|] == a;
    RunCovers(less, s, |a|);
    var e := RunEnd(less, s);
    assert s[e..] == b[e - |a|..];
    RunsSuffix(less, b, e - |a|);
  }

  // ---------- merging ----------

  lemma ConsCount<T>(x: T, s: seq<T>)
    ensures multiset([x] + s) == multiset{x} + multiset(s)
  {
  }

  lemma JoinCount<T>(s: seq<T>, t: seq<T>)
    ensures multiset(s + t) == multiset(s) + multiset(t)
  {
  }

  lemma JoinThree<T>(a: seq<T>, b: seq<T>, c: seq<T>, m: seq<T>, p: seq<T>)
    requires multiset(m) == multiset(a) + multiset(b) && multiset(p) == multiset(c)
    ensures multiset(m + p) == multiset(a + b + c)
  {
    JoinCount(m, p);
    JoinCount(a, b);
    JoinCount(a + b, c);
  }

  lemma TailCount<T>(s: seq<T>, t: seq<T>)
    requires s != [] && t != [] && s[0] == t[0] && multiset(s) == multiset(t)
    ensures multiset(s[1..]) == multiset(t[1..])
  {
    assert s == [s[0]] + s[1..] && t == [t[0]] + t[1..];
    ConsCount(s[0], s[1..]);
    ConsCount(t[0], t[1..]);
    assert multiset(s[1..]) == multiset(s) - multiset{s[0]};
    assert multiset(t[1..]) == multiset(t) - multiset{t[0]};
  }

  lemma {:induction false} MergePermutes<T>(less: (T, T) -> bool, a: seq<T>, b: seq<T>)
    ensures multiset(Merge(less, a, b)) == multiset(a) + multiset(b)
  {
    if a == [] || b == [] {
    } else if !less(b[0], a[0]) {
      MergePermutes(less, a[1..], b);
      HeadCount(a, b, Merge(less, a[1..], b));
    } else {
      MergePermutes(less, a, b[1..]);
      HeadCount(b, a, Merge(less, a, b[1..]));
    }
  }

  /** The head of one part goes in front of the rest. */
  lemma HeadCount<T>(a: seq<T>, b: seq<T>, m: seq<T>)
    requires a != [] && multiset(m) == multiset(a[1..]) + multiset(b)
    ensures multiset([a[0]] + m) == multiset(a) + multiset(b)
  {
    ConsCount(a[0], a[1..]);
    ConsCount(a[0], m);
    assert a == [a[0]] + a[1..];
  }

  lemma SortedCons<T>(less: (T, T) -> bool, x: T, s: seq<T>)
    requires Sorted(less, s) && forall y :: y in s ==> !less(y, x)
    ensures Sorted(less, [x] + s)
  {
  }

  /** In a sorted sequence nothing is less than something no greater than its first. */
  lemma Least<T>(less: (T, T) -> bool, all: seq<T>, x: T, s: seq<T>)
    requires StrictWeak(less, all) && x in all && forall y :: y in s ==> y in all
    requires Sorted(less, s) && s != [] && !less(s[0], x)
    ensures forall y :: y in s ==> !less(y, x)
  {
    forall y | y in s ensures !less(y, x) {
      var i :| 0 <= i < |s| && s[i] == y;
      assert i > 0 ==> !less(s[i], s[0]);
    }
  }

  lemma {:induction false} MergeSorted<T>(less: (T, T) -> bool, a: seq<T>, b: seq<T>)
    requires StrictWeak(less, a + b) && Sorted(less, a) && Sorted(less, b)
    ensures Sorted(less, Merge(less, a, b))
  {
    if a == [] || b == [] {
    } else {
      var all := a + b;
      assert a[0] in all && b[0] in all;
      if !less(b[0], a[0]) {
        SubOrder(less, all, a[1..] + b);
        MergeSorted(less, a[1..], b);
        MergePermutes(less, a[1..], b);
        Least(less, all, a[0], b);
        Only(Merge(less, a[1..], b), a[1..], b);
        SortedCons(less, a[0], Merge(less, a[1..], b));
      } else {
        SubOrder(less, all, a + b[1..]);
        MergeSorted(less, a, b[1..]);
        MergePermutes(less, a, b[1..]);
        Least(less, all, b[0], a);
        Only(Merge(less, a, b[1..]), a, b[1..]);
        SortedCons(less, b[0], Merge(less, a, b[1..]));
      }
    }
  }

  lemma Only<T>(m: seq<T>, a: seq<T>, b: seq<T>)
    requires multiset(m) == multiset(a) + multiset(b)
    ensures forall x :: x in m ==> x in a || x in b
  {
    forall x | x in m ensures x in a || x in b { assert x in multiset(m); }
  }

  // ---------- stability ----------

  predicate Same<T>(less: (T, T) -> bool, x: T, y: T) {
    !less(x, y) && !less(y, x)
  }

  ghost function Peer<T>(less: (T, T) -> bool, x: T, y: T): seq<T> {
    if Same(less, x, y) then [y] else []
  }

  /** The elements of `s` that `less` does not tell from `x`, in order. */
  ghost function Peers<T>(less: (T, T) -> bool, x: T, s: seq<T>): seq<T> {
    if s == [] then [] else Peer(less, x, s[0]) + Peers(less, x, s[1..])
  }

  /** `t` has the elements of `s`, and keeps the order of those `less` does not tell apart. */
  ghost predicate StableOf<T>(less: (T, T) -> bool, s: seq<T>, t: seq<T>) {
    multiset(t) == multiset(s) && forall x :: x in s ==> Peers(less, x, t) == Peers(less, x, s)
  }

  lemma PeersCons<T>(less: (T, T) -> bool, x: T, y: T, s: seq<T>)
    ensures Peers(less, x, [y] + s) == Peer(less, x, y) + Peers(less, x, s)
  {
    assert ([y] + s)[1..] == s;
  }

  lemma {:induction false} PeersJoin<T>(less: (T, T) -> bool, x: T, s: seq<T>, t: seq<T>)
    ensures Peers(less, x, s + t) == Peers(less, x, s) + Peers(less, x, t)
  {
    if s == [] {
      assert s + t == t;
    } else {
      var rest := s[1..];
      assert s + t == [s[0]] + (rest + t);
      PeersCons(less, x, s[0], rest + t);
      PeersJoin(less, x, rest, t);
    }
  }

  lemma {:induction false} NoPeers<T>(less: (T, T) -> bool, x: T, s: seq<T>)
    requires forall y :: y in s ==> less(x, y)
    ensures Peers(less, x, s) == []
  {
    if s == [] {
    } else {
      NoPeers(less, x, s[1..]);
    }
  }

  /** Something less than the first of a sorted sequence has no peer of `x`'s there. */
  lemma LessThanAll<T>(less: (T, T) -> bool, all: seq<T>, x: T, b: T, s: seq<T>)
    requires StrictWeak(less, all) && x in all && b in all && forall y :: y in s ==> y in all
    requires Sorted(less, s) && s != [] && less(b, s[0]) && Same(less, x, b)
    ensures forall y :: y in s ==> less(x, y)
  {
    forall y | y in s ensures less(x, y) {
      var i :| 0 <= i < |s| && s[i] == y;
      assert i > 0 ==> !less(s[i], s[0]);
      assert s[0] in all;
    }
  }

  lemma {:induction false} MergeStable<T>(less: (T, T) -> bool, all: seq<T>, a: seq<T>, b: seq<T>, x: T)
    requires StrictWeak(less, all) && x in all && (forall y :: y in a || y in b ==> y in all)
    requires Sorted(less, a) && Sorted(less, b)
    ensures Peers(less, x, Merge(less, a, b)) == Peers(less, x, a) + Peers(less, x, b)
  {
    if a == [] || b == [] {
    } else {
      if !less(b[0], a[0]) {
        MergeStable(less, all, a[1..], b, x);
        PeersCons(less, x, a[0], Merge(less, a[1..], b));
      } else {
        MergeStable(less, all, a, b[1..], x);
        PeersCons(less, x, b[0], Merge(less, a, b[1..]));
        if Same(less, x, b[0]) {
          LessThanAll(less, all, x, b[0], a);
          NoPeers(less, x, a);
        }
      }
    }
  }

  // ---------- passes ----------

  /** A pass over two runs or more: it merges the first two and goes on behind them. */
  lemma PassParts<T>(less: (T, T) -> bool, s: seq<T>) returns (a: seq<T>, b: seq<T>, c: seq<T>)
    requires s != [] && RunEnd(less, s) < |s|
    ensures s == a + b + c && a != [] && b != [] && |a| == RunEnd(less, s) && |b| == RunEnd(less, b + c)
    ensures Pass(less, s) == Merge(less, a, b) + Pass(less, c)
    ensures OutputRuns(less, s) == 1 + OutputRuns(less, c) && Runs(less, s) == 2 + Runs(less, c)
  {
    var e := RunEnd(less, s);
    var f := e + RunEnd(less, s[e..]);
    a, b, c := s[..e], s[e..f], s[f..];
    assert s[e..] == b + c;
    assert s[e..][f - e..] == c;
  }

  lemma RunIs<T>(less: (T, T) -> bool, a: seq<T>, rest: seq<T>)
    requires a != [] && |a| == RunEnd(less, a + rest) && StrictWeak(less, a + rest)
    ensures Sorted(less, a)
  {
    RunSorted(less, a + rest);
    assert (a + rest)[..|a|] == a;
  }

  /** Two runs next to each other are sorted, and so is what they merge into. */
  lemma MergedRuns<T>(less: (T, T) -> bool, a: seq<T>, b: seq<T>, c: seq<T>)
    requires StrictWeak(less, a + b + c) && a != [] && b != [] && |a| == RunEnd(less, a + b + c)
    requires |b| == RunEnd(less, b + c)
    ensures Sorted(less, a) && Sorted(less, b) && Sorted(less, Merge(less, a, b))
  {
    assert a + b + c == a + (b + c);
    RunIs(less, a, b + c);
    SubOrder(less, a + b + c, b + c);
    RunIs(less, b, c);
    SubOrder(less, a + b + c, a + b);
    MergeSorted(less, a, b);
  }

  /** The two runs that a pass merges next are sorted, and so is what they make. */
  lemma NextRuns<T>(less: (T, T) -> bool, s: seq<T>) returns (a: seq<T>, b: seq<T>, c: seq<T>)
    requires s != [] && RunEnd(less, s) < |s| && StrictWeak(less, s)
    ensures s == a + b + c && a != [] && b != [] && |a| == RunEnd(less, s) && |b| == RunEnd(less, b + c)
    ensures Pass(less, s) == Merge(less, a, b) + Pass(less, c)
    ensures OutputRuns(less, s) == 1 + OutputRuns(less, c) && Runs(less, s) == 2 + Runs(less, c)
    ensures Sorted(less, a) && Sorted(less, b) && Sorted(less, Merge(less, a, b)) && StrictWeak(less, c)
  {
    a, b, c := PassParts(less, s);
    MergedRuns(less, a, b, c);
    SubOrder(less, s, c);
  }

  /** A pass sends `r` runs to at most half as many, rounded up. */
  lemma {:induction false} PassHalves<T>(less: (T, T) -> bool, s: seq<T>)
    requires StrictWeak(less, s)
    ensures OutputRuns(less, s) == (Runs(less, s) + 1) / 2
    ensures Runs(less, Pass(less, s)) <= OutputRuns(less, s)
    decreases |s|
  {
    if s == [] {
    } else {
      if RunEnd(less, s) == |s| {
        assert s[|s|..] == [];
      } else {
        var a, b, c := NextRuns(less, s);
        PassHalves(less, c);
        RunsJoin(less, Merge(less, a, b), Pass(less, c));
      }
    }
  }

  lemma {:induction false} PassPermutes<T>(less: (T, T) -> bool, s: seq<T>)
    ensures multiset(Pass(less, s)) == multiset(s)
    decreases |s|
  {
    if s == [] || RunEnd(less, s) == |s| {
    } else {
      var a, b, c := PassParts(less, s);
      PassPermutes(less, c);
      MergePermutes(less, a, b);
      JoinThree(a, b, c, Merge(less, a, b), Pass(less, c));
    }
  }

  lemma {:induction false} PassPeers<T>(less: (T, T) -> bool, all: seq<T>, s: seq<T>, x: T)
    requires StrictWeak(less, all) && x in all && forall y :: y in s ==> y in all
    ensures Peers(less, x, Pass(less, s)) == Peers(less, x, s)
    decreases |s|
  {
    if s == [] || RunEnd(less, s) == |s| {
    } else {
      SubOrder(less, all, s);
      var a, b, c := NextRuns(less, s);
      MergeStable(less, all, a, b, x);
      PassPeers(less, all, c, x);
      PeersJoin(less, x, Merge(less, a, b), Pass(less, c));
      PeersJoin(less, x, a, b);
      PeersJoin(less, x, a + b, c);
    }
  }

  lemma PassStable<T>(less: (T, T) -> bool, s: seq<T>)
    requires StrictWeak(less, s)
    ensures StableOf(less, s, Pass(less, s))
  {
    PassPermutes(less, s);
    forall x | x in s ensures Peers(less, x, Pass(less, s)) == Peers(less, x, s) { PassPeers(less, s, s, x); }
  }

  /** What a sequence of passes keeps. */
  lemma StableTwice<T>(less: (T, T) -> bool, s: seq<T>, t: seq<T>, u: seq<T>)
    requires StableOf(less, s, t) && StableOf(less, t, u)
    ensures StableOf(less, s, u)
  {
    forall x | x in s ensures x in t { assert x in multiset(s); }
  }

  /** With one run, or none, the sequence is sorted. */
  lemma OneRunSorted<T>(less: (T, T) -> bool, s: seq<T>)
    requires StrictWeak(less, s) && Runs(less, s) <= 1
    ensures Sorted(less, s)
  {
    if s != [] {
      var e := RunEnd(less, s);
      assert s[e..] == [];
      RunSorted(less, s);
      assert s[..e] == s;
    }
  }

  /** A sorted stable rearrangement is unique: it is the only result a stable sort can have. */
  lemma {:induction false} StableUnique<T>(less: (T, T) -> bool, s: seq<T>, t: seq<T>)
    requires StrictWeak(less, s) && Sorted(less, s) && Sorted(less, t) && StableOf(less, s, t)
    ensures s == t
  {
    assert |multiset(t)| == |multiset(s)|;
    if s == [] {
    } else {
      SameFirst(less, s, t);
      TailCount(s, t);
      TailPeers(less, s, t);
      SubOrder(less, s, s[1..]);
      StableUnique(less, s[1..], t[1..]);
      assert s == [s[0]] + s[1..] && t == [t[0]] + t[1..];
    }
  }

  lemma SameFirst<T>(less: (T, T) -> bool, s: seq<T>, t: seq<T>)
    requires StrictWeak(less, s) && Sorted(less, s) && Sorted(less, t) && StableOf(less, s, t) && s != [] && t != []
    ensures s[0] == t[0]
  {
    assert t[0] in multiset(t) && s[0] in multiset(s);
    var i :| 0 <= i < |s| && s[i] == t[0];
    var j :| 0 <= j < |t| && t[j] == s[0];
    assert Same(less, s[0], t[0]) && Same(less, s[0], s[0]);
    assert Peers(less, s[0], s)[0] == s[0] && Peers(less, s[0], t)[0] == t[0];
  }

  lemma TailPeers<T>(less: (T, T) -> bool, s: seq<T>, t: seq<T>)
    requires s != [] && t != [] && s[0] == t[0]
    requires forall x :: x in s ==> Peers(less, x, t) == Peers(less, x, s)
    ensures forall x :: x in s[1..] ==> Peers(less, x, t[1..]) == Peers(less, x, s[1..])
  {
    forall x | x in s[1..] ensures Peers(less, x, t[1..]) == Peers(less, x, s[1..]) {
      assert x in s;
      var first := Peer(less, x, s[0]);
      assert Peers(less, x, s) == first + Peers(less, x, s[1..]);
      assert Peers(less, x, t) == first + Peers(less, x, t[1..]);
      assert Peers(less, x, s[1..]) == (first + Peers(less, x, s[1..]))[|first|..];
      assert Peers(less, x, t[1..]) == (first + Peers(less, x, t[1..]))[|first|..];
    }
  }
}
