/**
 The doubly linked lists of lib/kernel/list.c, links and all.  A list is described by its
 spine: every element in order, from the head to the tail element.
 */
module Lists {
  import opened Sorting

  class Elem {
    var prev: Elem?
    var next: Elem?
  }

  predicate Differ(s: seq<Elem>, i: nat, j: nat)
    requires i < |s| && j < |s|
  {
    s[i] != s[j]
  }

  ghost predicate Distinct(s: seq<Elem>) {
    forall i, j {:trigger Differ(s, i, j)} :: 0 <= i < j < |s| ==> Differ(s, i, j)
  }

  lemma DistinctElems(s: seq<Elem>)
    requires Distinct(s)
    ensures forall i, j :: 0 <= i < j < |s| ==> s[i] != s[j]
  {
    forall i, j | 0 <= i < j < |s| ensures s[i] != s[j] { assert Differ(s, i, j); }
  }

  ghost predicate Apart(s: seq<Elem>, t: seq<Elem>) {
    forall i, j :: 0 <= i < |s| && 0 <= j < |t| ==> s[i] != t[j]
  }

  /** The links of the elements of `s` lead along `s`, both ways, and end at its ends. */
  ghost predicate Linked(s: seq<Elem>)
    reads s
  {
    && |s| >= 2 && Distinct(s) && s[0].prev == null && s[|s| - 1].next == null
    && (forall i {:trigger s[i].next} :: 0 <= i < |s| - 1 ==> s[i].next == s[i + 1])
    && (forall i {:trigger s[i].prev} :: 0 < i < |s| ==> s[i].prev == s[i - 1])
  }

  /** `list_insert` */
  method Insert(before: Elem, elem: Elem, ghost s: seq<Elem>, ghost i: nat)
    requires Linked(s) && 0 < i < |s| && before == s[i] && elem !in s
    modifies s[i], s[i - 1], elem
    ensures Linked(s[..i] + [elem] + s[i..])
  {
    DistinctElems(s);
    elem.prev := before.prev;
    elem.next := before;
    before.prev.next := elem;
    before.prev := elem;
  }

  /** `list_remove` */
  method Remove(elem: Elem, ghost s: seq<Elem>, ghost i: nat) returns (next: Elem)
    requires Linked(s) && 0 < i < |s| - 1 && elem == s[i]
    modifies s[i - 1], s[i + 1]
    ensures Linked(s[..i] + s[i + 1..]) && next == s[i + 1]
  {
    DistinctElems(s);
    elem.prev.next := elem.next;
    elem.next.prev := elem.prev;
    next := elem.next;
  }

  /** Consecutive elements of `s` are linked to each other. */
  ghost predicate Chain(s: seq<Elem>)
    reads s
  {
    && (forall i {:trigger s[i].next} :: 0 <= i < |s| - 1 ==> s[i].next == s[i + 1])
    && (forall i {:trigger s[i].prev} :: 0 < i < |s| ==> s[i].prev == s[i - 1])
  }

  lemma ChainJoin(s: seq<Elem>, t: seq<Elem>)
    requires Chain(s) && Chain(t) && s != [] && t != [] && s[|s| - 1].next == t[0] && t[0].prev == s[|s| - 1]
    ensures Chain(s + t)
  {
    var u := s + t;
    forall i | 0 <= i < |u| - 1 ensures u[i].next == u[i + 1] {
      if i < |s| { assert u[i] == s[i]; } else { assert u[i] == t[i - |s|]; }
    }
    forall i | 0 < i < |u| ensures u[i].prev == u[i - 1] {
      if i < |s| { assert u[i] == s[i]; } else { assert u[i] == t[i - |s|]; }
    }
  }

  /** The first half of `list_splice`: `s[j..k]` leaves its list. */
  method Unlink(first: Elem, end: Elem, ghost s: seq<Elem>, ghost j: nat, ghost k: nat)
    requires Linked(s) && 0 < j < k < |s| && first == s[j] && end == s[k - 1]
    modifies s[j - 1], s[k]
    ensures Linked(s[..j] + s[k..]) && Chain(s[j..k])
  {
    DistinctElems(s);
    first.prev.next := end.next;
    end.next.prev := first.prev;
  }

  lemma JoinDistinct(t: seq<Elem>, chain: seq<Elem>, i: nat)
    requires Distinct(t) && Distinct(chain) && Apart(chain, t) && i <= |t|
    ensures Distinct(t[..i] + chain + t[i..])
  {
    DistinctElems(t);
    DistinctElems(chain);
  }

  /** The second half: a chain of elements goes in front of `t[i]`. */
  method LinkBefore(before: Elem, first: Elem, end: Elem, ghost chain: seq<Elem>, ghost t: seq<Elem>, ghost i: nat)
    requires Linked(t) && 0 < i < |t| && before == t[i]
    requires Chain(chain) && Distinct(chain) && Apart(chain, t) && chain != [] && first == chain[0]
    requires end == chain[|chain| - 1]
    modifies first, end, t[i - 1], t[i]
    ensures Linked(t[..i] + chain + t[i..])
  {
    DistinctElems(t);
    DistinctElems(chain);
    first.prev := before.prev;
    end.next := before;
    before.prev.next := first;
    before.prev := end;
    var u, w := t[..i], t[i..];
    assert Chain(u) by { assert forall x :: 0 <= x < i ==> u[x] == t[x]; }
    assert Chain(w) by { assert forall x :: 0 <= x < |w| ==> w[x] == t[i + x]; }
    ChainJoin(u, chain);
    ChainJoin(u + chain, w);
    JoinDistinct(t, chain, i);
  }

  /** `list_splice`: the elements of `s` from the `j`th to before the `k`th move to the
      front of `t[i]`, where `t` is what they leave of their own list, or another list. */
  method Splice(before: Elem, first: Elem, last: Elem, ghost s: seq<Elem>, ghost j: nat, ghost k: nat,
                ghost t: seq<Elem>, ghost i: nat)
    requires Linked(s) && 0 < j <= k < |s| && first == s[j] && last == s[k]
    requires t == s[..j] + s[k..] || (Linked(t) && Apart(s, t))
    requires 0 < i < |t| && before == t[i]
    modifies s[j - 1], s[j], s[k - 1], s[k], t[i - 1], t[i]
    ensures Linked(t[..i] + s[j..k] + t[i..])
    ensures t != s[..j] + s[k..] ==> Linked(s[..j] + s[k..])
  {
    DistinctElems(s);
    if first == last {
      assert s[..j] + s[k..] == s && t[..i] + s[j..k] + t[i..] == t;
      return;
    }
    var end := last.prev;
    Unlink(first, end, s, j, k);
    ghost var rest := s[..j] + s[k..];
    assert Apart(s[j..k], rest);
    LinkBefore(before, first, end, s[j..k], t, i);
  }

  // ---------- sorting ----------

  /** `find_end_of_run` over the stretch `r` of a list. */
  method FindEndOfRun(a: Elem, b: Elem, less: (Elem, Elem) -> bool, ghost pre: seq<Elem>, ghost r: seq<Elem>,
                      ghost post: seq<Elem>) returns (end: Elem)
    requires Linked(pre + r + post) && pre != [] && r != [] && post != [] && a == r[0] && b == post[0]
    ensures end == (r + post)[RunEnd(less, r)]
  {
    ghost var s, i := pre + r + post, |pre|;
    assert a == s[i];
    end := a.next;
    ghost var e := 1;
    while end != b && !less(end, end.prev)
      invariant 0 < e <= |r| && end == s[i + e] == (r + post)[e]
      invariant RunEnd(less, r) == e - 1 + RunEnd(less, r[e - 1..])
      decreases |r| - e
    {
      assert r[e - 1..][1..] == r[e..];
      end := end.next;
      e := e + 1;
    }
    assert e < |r| ==> Differ(s, i + e, i + |r|);
  }

  /** The splice that merging makes: one element moves to the front of the stretch `x`. */
  method MoveBack(before: Elem, elem: Elem, next: Elem, ghost pre: seq<Elem>, ghost x: seq<Elem>, ghost post: seq<Elem>)
    requires Linked(pre + x + [elem] + post) && pre != [] && x != [] && post != [] && before == x[0] && next == post[0]
    modifies pre[|pre| - 1], before, x[|x| - 1], elem, next
    ensures Linked(pre + [elem] + x + post)
  {
    ghost var t, rest, p, q := pre + x + [elem] + post, pre + x + post, |pre|, |pre| + |x|;
    assert rest == t[..q] + t[q + 1..];
    Splice(before, elem, next, t, q, q + 1, rest, p);
    assert rest[..p] == pre && rest[p..] == x + post && t[q..q + 1] == [elem];
    assert pre + [elem] + (x + post) == pre + [elem] + x + post;
  }

  ghost predicate Among(s: seq<Elem>, nodes: set<Elem>) {
    forall e :: e in s ==> e in nodes
  }

  /** In the middle of a merge that is to give `result`: `x` and `y` are left to merge. */
  ghost predicate Merging(less: (Elem, Elem) -> bool, result: seq<Elem>, nodes: set<Elem>,
                          done: seq<Elem>, x: seq<Elem>, y: seq<Elem>, post: seq<Elem>, a0: Elem, a1b0: Elem)
    reads nodes
  {
    && done != [] && post != [] && Among(done + x + y + post, nodes) && Linked(done + x + y + post)
    && a0 == (x + y + post)[0] && a1b0 == (y + post)[0] && done + Merge(less, x, y) == result
  }

  /** Passing over an element of the first stretch leaves the list as it is. */
  lemma KeepFirst(less: (Elem, Elem) -> bool, done: seq<Elem>, x: seq<Elem>, y: seq<Elem>, post: seq<Elem>)
    requires x != [] && y != [] && !less(y[0], x[0])
    ensures done + [x[0]] + x[1..] + y + post == done + x + y + post
    ensures done + [x[0]] + Merge(less, x[1..], y) == done + Merge(less, x, y)
  {
    assert x == [x[0]] + x[1..];
  }

  lemma TakeSecond(less: (Elem, Elem) -> bool, done: seq<Elem>, x: seq<Elem>, y: seq<Elem>)
    requires x != [] && y != [] && less(y[0], x[0])
    ensures done + [y[0]] + Merge(less, x, y[1..]) == done + Merge(less, x, y)
  {
  }

  /** The list before and after the first element of `y` moves in front of `x`. */
  lemma MovesFront(done: seq<Elem>, x: seq<Elem>, y: seq<Elem>, post: seq<Elem>)
    requires y != []
    ensures done + x + [y[0]] + (y[1..] + post) == done + x + y + post
    ensures done + [y[0]] + x + (y[1..] + post) == done + [y[0]] + x + y[1..] + post
  {
    assert y == [y[0]] + y[1..];
  }

  lemma MovesAmong(done: seq<Elem>, x: seq<Elem>, y: seq<Elem>, post: seq<Elem>, nodes: set<Elem>)
    requires y != [] && Among(done + x + y + post, nodes)
    ensures Among(done + [y[0]] + x + y[1..] + post, nodes)
  {
    var s, t := done + x + y + post, done + [y[0]] + x + y[1..] + post;
    forall e | e in t ensures e in nodes { assert e in s; }
  }

  /** One iteration of `inplace_merge`: the first element of `x` or of `y` joins `done`. */
  method MergeStep(a0: Elem, a1b0: Elem, less: (Elem, Elem) -> bool, ghost result: seq<Elem>, ghost nodes: set<Elem>,
                   ghost done: seq<Elem>, ghost x: seq<Elem>, ghost y: seq<Elem>, ghost post: seq<Elem>)
    returns (b0: Elem, b1: Elem, ghost done': seq<Elem>, ghost x': seq<Elem>, ghost y': seq<Elem>)
    requires Merging(less, result, nodes, done, x, y, post, a0, a1b0) && x != [] && y != []
    modifies nodes
    ensures Merging(less, result, nodes, done', x', y', post, b0, b1) && |x'| + |y'| < |x| + |y|
  {
    b0, b1, x', y' := a0, a1b0, x, y;
    ghost var t := done + x + y + post;
    assert t[|done|] == a0 && t[|done| + |x|] == a1b0;
    if !less(a1b0, a0) {
      b0 := a0.next;
      KeepFirst(less, done, x, y, post);
      done', x' := done + [x[0]], x[1..];
    } else {
      b1 := a1b0.next;
      TakeSecond(less, done, x, y);
      MovesFront(done, x, y, post);
      MovesAmong(done, x, y, post, nodes);
      MoveBack(a0, b1.prev, b1, done, x, y[1..] + post);
      done', y' := done + [y[0]], y[1..];
    }
  }

  /** The merge stops when one of the two stretches is used up. */
  lemma Finished(t: seq<Elem>, done: seq<Elem>, x: seq<Elem>, y: seq<Elem>, post: seq<Elem>)
    requires Distinct(t) && t == done + x + y + post && post != []
    ensures (x + y + post)[0] == (y + post)[0] ==> x == []
    ensures (y + post)[0] == post[0] ==> y == []
  {
    var p, q, k := |done|, |done| + |x|, |done| + |x| + |y|;
    assert t[p] == (x + y + post)[0] && t[q] == (y + post)[0] && t[k] == post[0];
    assert (p < q ==> Differ(t, p, q)) && (q < k ==> Differ(t, q, k));
  }

  lemma MergeEnds(less: (Elem, Elem) -> bool, result: seq<Elem>, nodes: set<Elem>,
                  done: seq<Elem>, x: seq<Elem>, y: seq<Elem>, post: seq<Elem>, a0: Elem, a1b0: Elem)
    requires Merging(less, result, nodes, done, x, y, post, a0, a1b0) && (a0 == a1b0 || a1b0 == post[0])
    ensures Linked(result + post)
  {
    Finished(done + x + y + post, done, x, y, post);
    assert done + x + y + post == result + post;
  }

  /** `inplace_merge` of the neighbouring stretches `a` and `b`. */
  method InplaceMerge(first: Elem, second: Elem, end: Elem, less: (Elem, Elem) -> bool,
                      ghost pre: seq<Elem>, ghost a: seq<Elem>, ghost b: seq<Elem>, ghost post: seq<Elem>,
                      ghost nodes: set<Elem>)
    requires pre != [] && a != [] && b != [] && post != []
    requires Linked(pre + a + b + post) && Among(pre + a + b + post, nodes)
    requires first == a[0] && second == b[0] && end == post[0] && Sorted(less, a) && Sorted(less, b)
    modifies nodes
    ensures Linked(pre + Merge(less, a, b) + post)
  {
    var a0, a1b0 := first, second;
    ghost var result, done, x, y := pre + Merge(less, a, b), pre, a, b;
    while a0 != a1b0 && a1b0 != end
      invariant Merging(less, result, nodes, done, x, y, post, a0, a1b0)
      decreases |x| + |y|
    {
      a0, a1b0, done, x, y := MergeStep(a0, a1b0, less, result, nodes, done, x, y, post);
    }
    MergeEnds(less, result, nodes, done, x, y, post, a0, a1b0);
  }

  // ---------- passes ----------

  ghost function Spine(head: Elem, interior: seq<Elem>, tail: Elem): seq<Elem> {
    [head] + interior + [tail]
  }

  lemma AtTail(s: seq<Elem>, pre: seq<Elem>, rest: seq<Elem>, tail: Elem, e: nat)
    requires Distinct(s) && s == pre + rest + [tail] && e <= |rest|
    ensures (rest + [tail])[e] == tail <==> e == |rest|
  {
    assert s[|pre| + e] == (rest + [tail])[e];
    assert e < |rest| ==> Differ(s, |pre| + e, |s| - 1);
  }

  /** In the middle of a pass over `s`: the pass has still to do `rest`. */
  ghost predicate Passing(less: (Elem, Elem) -> bool, head: Elem, tail: Elem, s: seq<Elem>, nodes: set<Elem>,
                          done: seq<Elem>, rest: seq<Elem>, outputRuns: nat, a0: Elem)
    reads nodes
  {
    && done != [] && Among(done + rest + [tail], nodes) && Linked(done + rest + [tail]) && a0 == (rest + [tail])[0]
    && StrictWeak(less, rest) && done + Pass(less, rest) == [head] + Pass(less, s)
    && outputRuns + OutputRuns(less, rest) == OutputRuns(less, s)
  }

  /** The list under the names that a pass has for its parts. */
  lemma Regroup(done: seq<Elem>, a: seq<Elem>, b: seq<Elem>, c: seq<Elem>, tail: Elem)
    ensures done + a + (b + c) + [tail] == done + (a + b + c) + [tail]
    ensures done + a + b + (c + [tail]) == done + (a + b + c) + [tail]
  {
  }

  lemma RegroupMerged(done: seq<Elem>, m: seq<Elem>, c: seq<Elem>, tail: Elem, p: seq<Elem>)
    ensures done + m + (c + [tail]) == done + m + c + [tail] && done + m + p == done + (m + p)
  {
  }

  lemma MergedAmong(less: (Elem, Elem) -> bool, done: seq<Elem>, a: seq<Elem>, b: seq<Elem>, c: seq<Elem>,
                    tail: Elem, nodes: set<Elem>)
    requires Among(done + (a + b + c) + [tail], nodes)
    ensures Among(done + Merge(less, a, b) + c + [tail], nodes)
  {
    var s, t := done + (a + b + c) + [tail], done + Merge(less, a, b) + c + [tail];
    MergePermutes(less, a, b);
    Only(Merge(less, a, b), a, b);
    forall e | e in t ensures e in nodes { assert e in s; }
  }

  /** The part of an iteration of a pass that follows the `break`: a second run is found and
      merged with the first. */
  method PassStep(tail: Elem, a0: Elem, a1b0: Elem, less: (Elem, Elem) -> bool, ghost head: Elem, ghost s: seq<Elem>,
                  ghost nodes: set<Elem>,
                  ghost done: seq<Elem>, ghost rest: seq<Elem>, ghost runs: nat)
    returns (b1: Elem, ghost done': seq<Elem>, ghost rest': seq<Elem>)
    requires Passing(less, head, tail, s, nodes, done, rest, runs, a0) && rest != [] && RunEnd(less, rest) < |rest|
    requires a1b0 == (rest + [tail])[RunEnd(less, rest)]
    modifies nodes
    ensures Passing(less, head, tail, s, nodes, done', rest', runs + 1, b1) && |rest'| < |rest|
  {
    ghost var a, b, c := NextRuns(less, rest);
    Regroup(done, a, b, c, tail);
    b1 := FindEndOfRun(a1b0, tail, less, done + a, b + c, [tail]);
    InplaceMerge(a0, a1b0, b1, less, done, a, b, c + [tail], nodes);
    RegroupMerged(done, Merge(less, a, b), c, tail, Pass(less, c));
    MergedAmong(less, done, a, b, c, tail, nodes);
    done', rest' := done + Merge(less, a, b), c;
  }

  /** One pass over the list: the body of the outer loop of `list_sort`. */
  method OnePass(head: Elem, tail: Elem, less: (Elem, Elem) -> bool, ghost s: seq<Elem>, ghost nodes: set<Elem>)
    returns (outputRuns: nat)
    requires Linked(Spine(head, s, tail)) && StrictWeak(less, s) && Among(Spine(head, s, tail), nodes)
    modifies nodes
    ensures Linked(Spine(head, Pass(less, s), tail)) && outputRuns == OutputRuns(less, s)
  {
    outputRuns := 0;
    ghost var done, rest := [head], s;
    assert Spine(head, s, tail)[0] == head && Spine(head, s, tail)[1] == (s + [tail])[0];
    var a0: Elem := head.next;
    while a0 != tail
      invariant Passing(less, head, tail, s, nodes, done, rest, outputRuns, a0)
      decreases |rest|
    {
      var a1b0 := FindEndOfRun(a0, tail, less, done, rest, [tail]);
      AtTail(done + rest + [tail], done, rest, tail, RunEnd(less, rest));
      if a1b0 == tail {
        outputRuns := outputRuns + 1;
        return;
      }
      a0, done, rest := PassStep(tail, a0, a1b0, less, head, s, nodes, done, rest, outputRuns);
      outputRuns := outputRuns + 1;
    }
    AtTail(done + rest + [tail], done, rest, tail, 0);
  }

  /** `list_sort`: for any strict weak order the list ends sorted, with its own elements,
      and elements that `less` does not tell apart in their old order.  Each pass takes the
      runs to at most half as many, so the loop ends. */
  method Sort(head: Elem, tail: Elem, less: (Elem, Elem) -> bool, ghost s: seq<Elem>, ghost nodes: set<Elem>)
    returns (ghost t: seq<Elem>)
    requires Linked(Spine(head, s, tail)) && StrictWeak(less, s) && Among(Spine(head, s, tail), nodes)
    modifies nodes
    ensures Linked(Spine(head, t, tail)) && Sorted(less, t) && StableOf(less, s, t)
  {
    t := s;
    var outputRuns: nat := OnePass(head, tail, less, t, nodes);
    PassKeeps(less, s, t, head, tail, nodes);
    t := Pass(less, t);
    while outputRuns > 1
      invariant Linked(Spine(head, t, tail)) && StableOf(less, s, t) && StrictWeak(less, t)
      invariant Among(Spine(head, t, tail), nodes)
      invariant Runs(less, t) <= outputRuns
      decreases outputRuns
    {
      outputRuns := OnePass(head, tail, less, t, nodes);
      PassKeeps(less, s, t, head, tail, nodes);
      t := Pass(less, t);
    }
    OneRunSorted(less, t);
  }

  lemma PassKeeps(less: (Elem, Elem) -> bool, s: seq<Elem>, t: seq<Elem>, head: Elem, tail: Elem, nodes: set<Elem>)
    requires StrictWeak(less, t) && StableOf(less, s, t) && Among(Spine(head, t, tail), nodes)
    ensures var u := Pass(less, t);
            && StrictWeak(less, u) && StableOf(less, s, u) && Among(Spine(head, u, tail), nodes)
            && Runs(less, u) <= OutputRuns(less, t) == (Runs(less, t) + 1) / 2
  {
    var u := Pass(less, t);
    PassStable(less, t);
    StableTwice(less, s, t, u);
    PassHalves(less, t);
    SameElements(t, u);
    SubOrder(less, t, u);
    forall e | e in Spine(head, u, tail) ensures e in nodes { assert e in Spine(head, t, tail); }
  }

  lemma SameElements(t: seq<Elem>, u: seq<Elem>)
    requires multiset(u) == multiset(t)
    ensures forall e :: e in u ==> e in t
  {
    forall e | e in u ensures e in t { assert e in multiset(u); }
  }
}
