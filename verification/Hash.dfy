/**
 The hash table of lib/kernel/hash.c: a power of two of buckets that grows and shrinks with
 the number of elements, against the set of elements it holds.
 */
module Hash {
  import Arithmetic
  import opened Base

  // ---------- bits ----------

  /** `&` of two unsigned numbers. */
  function BitAnd(x: nat, y: nat): nat {
    if x == 0 || y == 0 then 0 else 2 * BitAnd(x / 2, y / 2) + (if x % 2 == 1 && y % 2 == 1 then 1 else 0)
  }

  function Pow2(k: nat): (p: nat)
    ensures p > 0
  {
    if k == 0 then 1 else 2 * Pow2(k - 1)
  }

  ghost predicate IsPow2(x: nat) {
    exists k: nat :: x == Pow2(k)
  }

  /** Masking with a power of two less one is the remainder. */
  lemma {:induction false} AndMask(x: nat, k: nat)
    ensures BitAnd(x, Pow2(k) - 1) == x % Pow2(k)
  {
    if x == 0 || k == 0 {
    } else {
      AndMask(x / 2, k - 1);
      var p := Pow2(k - 1);
      assert (2 * p - 1) / 2 == p - 1;
      ModDouble(x, p);
    }
  }

  lemma ModDouble(x: nat, p: nat)
    requires p > 0
    ensures x % (2 * p) == 2 * (x / 2 % p) + x % 2
  {
    var q, r := x / 2 / p, x / 2 % p;
    assert x / 2 == p * q + r;
    Remainder(x, 2 * p, q, 2 * r + x % 2);
  }

  lemma Remainder(x: nat, m: nat, q: nat, r: nat)
    requires r < m && x == m * q + r
    ensures x % m == r
  {
    Arithmetic.MulAdd(q, 1, m);
    Arithmetic.DivUnique(x, m, q);
    assert x == m * (x / m) + x % m;
  }

  /** `turn_off_least_1bit` */
  function TurnOff(x: nat): nat {
    if x == 0 then 0 else BitAnd(x, x - 1)
  }

  /** The highest power of two not above `x`. */
  ghost function Top(x: nat): (p: nat)
    requires x > 0
    ensures p <= x < 2 * p && IsPow2(p)
  {
    if x == 1 then (assert Pow2(0) == 1; 1)
    else
      var p := Top(x / 2);
      assert IsPow2(2 * p) by { var k: nat :| p == Pow2(k); assert Pow2(k + 1) == 2 * p; }
      2 * p
  }

  lemma {:induction false} AndSelf(x: nat)
    ensures BitAnd(x, x) == x
  {
    if x == 0 {
    } else {
      AndSelf(x / 2);
    }
  }

  /** Turning off the lowest bit leaves nothing just of a power of two, and leaves the
      highest bit of anything else. */
  lemma {:induction false} TurnOffTop(x: nat)
    requires x > 0
    ensures TurnOff(x) < x
    ensures TurnOff(x) == 0 <==> Top(x) == x
    ensures TurnOff(x) != 0 ==> Top(TurnOff(x)) == Top(x)
  {
    if x == 1 {
    } else if x % 2 == 1 {
      assert (x - 1) / 2 == x / 2;
      AndSelf(x / 2);
      assert TurnOff(x) == x - 1;
    } else {
      assert (x - 1) / 2 == x / 2 - 1;
      TurnOffTop(x / 2);
      assert TurnOff(x) == 2 * TurnOff(x / 2);
    }
  }

  /** The number of buckets that `rehash` aims at: a power of two, at least four. */
  ghost function Ideal(elemCnt: nat): (n: nat)
    ensures n >= 4 && IsPow2(n)
  {
    assert Top(4) == 4;
    TopGrows(4, Max(4, elemCnt / 2));
    Top(Max(4, elemCnt / 2))
  }

  lemma {:induction false} TopGrows(x: nat, y: nat)
    requires 0 < x <= y
    ensures Top(x) <= Top(y)
  {
    if x <= 1 {
    } else {
      TopGrows(x / 2, y / 2);
    }
  }

  method IdealBuckets(elemCnt: nat) returns (n: nat)
    ensures n == Ideal(elemCnt)
  {
    n := elemCnt / 2;
    if n < 4 { n := 4; }
    while !(n != 0 && TurnOff(n) == 0)
      invariant n > 0 && Top(n) == Top(Max(4, elemCnt / 2))
      decreases n
    {
      TurnOffTop(n);
      n := TurnOff(n);
    }
    TurnOffTop(n);
  }

  // ---------- the table ----------

  /** Elements are equal when neither is less than the other. */
  predicate Same<T>(less: (T, T) -> bool, x: T, y: T) {
    !less(x, y) && !less(y, x)
  }

  /** What a table asks of its functions: equality is an equivalence, and equal elements
      have equal hashes. */
  ghost predicate Proper<T(!new)>(less: (T, T) -> bool, hash: T -> nat) {
    && (forall x :: Same(less, x, x))
    && (forall x, y, z {:trigger Same(less, x, y), Same(less, y, z)} :: Same(less, x, y) && Same(less, y, z) ==>
          Same(less, x, z))
    && (forall x, y {:trigger Same(less, x, y)} :: Same(less, x, y) ==> hash(x) == hash(y))
  }

  ghost predicate NoRepeats<T>(s: seq<T>) {
    forall i, j :: 0 <= i < j < |s| ==> s[i] != s[j]
  }

  lemma ConsNoRepeats<T>(x: T, s: seq<T>)
    requires NoRepeats(s) && x !in s
    ensures NoRepeats([x] + s)
  {
    var t := [x] + s;
    forall i, j | 0 <= i < j < |t| ensures t[i] != t[j] { assert t[j] == s[j - 1]; }
  }

  /** `find_bucket` */
  function Index(hash: nat, bucketCnt: nat): (i: nat)
    requires bucketCnt > 0
  {
    BitAnd(hash, bucketCnt - 1)
  }

  lemma IndexInRange(hash: nat, bucketCnt: nat)
    requires IsPow2(bucketCnt)
    ensures bucketCnt > 0 && Index(hash, bucketCnt) < bucketCnt
  {
    var k: nat :| bucketCnt == Pow2(k);
    AndMask(hash, k);
  }

  /** Bucket `i` holds, once each, the elements of `contents` whose hash selects it. */
  ghost predicate BucketOk<T(!new)>(hash: T -> nat, buckets: seq<seq<T>>, contents: set<T>, i: nat)
    requires i < |buckets|
  {
    && NoRepeats(buckets[i])
    && forall x {:trigger x in buckets[i]} :: x in buckets[i] <==> x in contents && Index(hash(x), |buckets|) == i
  }

  ghost predicate Holds<T(!new)>(hash: T -> nat, buckets: seq<seq<T>>, contents: set<T>) {
    && IsPow2(|buckets|) && |buckets| >= 4
    && forall i {:trigger BucketOk(hash, buckets, contents, i)} :: 0 <= i < |buckets| ==>
         BucketOk(hash, buckets, contents, i)
  }

  /** No two elements are equal: the contents are a finite map from keys to elements. */
  ghost predicate Unlike<T(!new)>(less: (T, T) -> bool, contents: set<T>) {
    forall x, y {:trigger Same(less, x, y)} :: x in contents && y in contents && x != y ==> !Same(less, x, y)
  }

  /** An element of `contents` equal to `e`, if there is one. */
  ghost predicate Found<T>(less: (T, T) -> bool, contents: set<T>, e: T, r: Option<T>) {
    match r
    case Some(x) => x in contents && Same(less, x, e)
    case None => forall x :: x in contents ==> !Same(less, x, e)
  }

  /** Pushing an element to the front of its bucket adds it to the contents. */
  lemma PushHolds<T(!new)>(hash: T -> nat, buckets: seq<seq<T>>, contents: set<T>, x: T)
    requires Holds(hash, buckets, contents) && x !in contents
    ensures Index(hash(x), |buckets|) < |buckets|
    ensures var i := Index(hash(x), |buckets|); Holds(hash, buckets[i := [x] + buckets[i]], contents + {x})
  {
    IndexInRange(hash(x), |buckets|);
    var i := Index(hash(x), |buckets|);
    var buckets' := buckets[i := [x] + buckets[i]];
    forall j | 0 <= j < |buckets| ensures BucketOk(hash, buckets', contents + {x}, j) {
      assert BucketOk(hash, buckets, contents, j);
      if j == i { ConsNoRepeats(x, buckets[i]); }
    }
  }

  function Erase<T(==)>(s: seq<T>, x: T): seq<T> {
    if s == [] then [] else (if s[0] == x then [] else [s[0]]) + Erase(s[1..], x)
  }

  lemma {:induction false} EraseFacts<T>(s: seq<T>, x: T)
    requires NoRepeats(s)
    ensures NoRepeats(Erase(s, x)) && forall y {:trigger y in Erase(s, x)} :: y in Erase(s, x) <==> y in s && y != x
  {
    if s == [] {
    } else {
      EraseFacts(s[1..], x);
      assert s == [s[0]] + s[1..];
      if s[0] != x { ConsNoRepeats(s[0], Erase(s[1..], x)); }
    }
  }

  /** Taking an element off its bucket takes it out of the contents. */
  lemma EraseHolds<T(!new)>(hash: T -> nat, buckets: seq<seq<T>>, contents: set<T>, x: T)
    requires Holds(hash, buckets, contents)
    ensures Index(hash(x), |buckets|) < |buckets|
    ensures var i := Index(hash(x), |buckets|); Holds(hash, buckets[i := Erase(buckets[i], x)], contents - {x})
  {
    IndexInRange(hash(x), |buckets|);
    var i := Index(hash(x), |buckets|);
    var buckets' := buckets[i := Erase(buckets[i], x)];
    forall j | 0 <= j < |buckets| ensures BucketOk(hash, buckets', contents - {x}, j) {
      assert BucketOk(hash, buckets, contents, j);
      if j == i { EraseFacts(buckets[i], x); }
    }
  }

  /** `struct hash` */
  class Table<T(!new, ==)> {
    const hash: T -> nat
    const less: (T, T) -> bool
    var elemCnt: nat
    var buckets: seq<seq<T>>
    ghost var contents: set<T>

    ghost predicate Valid()
      reads this
    {
      && Proper(less, hash) && Holds(hash, buckets, contents) && Unlike(less, contents)
      && elemCnt == |contents|
    }

    /** `hash_init`, when the allocation succeeds. */
    constructor (hash: T -> nat, less: (T, T) -> bool)
      requires Proper(less, hash)
      ensures Valid() && contents == {} && this.hash == hash && this.less == less
    {
      this.hash, this.less, elemCnt, contents := hash, less, 0, {};
      buckets := [[], [], [], []];
      assert Pow2(2) == 4;
    }

    /** `find_elem` in the bucket that the hash of `e` selects. */
    method FindElem(e: T) returns (r: Option<T>)
      requires Valid()
      ensures Found(less, contents, e, r)
    {
      IndexInRange(hash(e), |buckets|);
      var i := Index(hash(e), |buckets|);
      var bucket := buckets[i];
      assert BucketOk(hash, buckets, contents, i);
      for k := 0 to |bucket|
        invariant forall j :: 0 <= j < k ==> !Same(less, bucket[j], e)
      {
        if !less(bucket[k], e) && !less(e, bucket[k]) {
          assert bucket[k] in bucket;
          return Some(bucket[k]);
        }
      }
      forall x | x in contents ensures !Same(less, x, e) {
        assert Same(less, x, e) ==> x in bucket;
      }
      return None;
    }

    /** `hash_find` */
    method Find(e: T) returns (r: Option<T>)
      requires Valid()
      ensures Found(less, contents, e, r)
    {
      r := FindElem(e);
    }

    /** `insert_elem` */
    method InsertElem(x: T)
      requires Valid() && forall y :: y in contents ==> !Same(less, y, x)
      modifies this`elemCnt, this`buckets, this`contents
      ensures Valid() && contents == old(contents) + {x} && |buckets| == |old(buckets)|
    {
      assert x !in contents by { assert Same(less, x, x); }
      PushHolds(hash, buckets, contents, x);
      var i := Index(hash(x), |buckets|);
      elemCnt := elemCnt + 1;
      buckets := buckets[i := [x] + buckets[i]];
      contents := contents + {x};
    }

    /** `remove_elem` */
    method RemoveElem(x: T)
      requires Valid() && x in contents
      modifies this`elemCnt, this`buckets, this`contents
      ensures Valid() && contents == old(contents) - {x} && |buckets| == |old(buckets)|
    {
      EraseHolds(hash, buckets, contents, x);
      var i := Index(hash(x), |buckets|);
      elemCnt := elemCnt - 1;
      buckets := buckets[i := Erase(buckets[i], x)];
      contents := contents - {x};
    }

    /** `hash_insert` */
    method Insert(x: T, allocates: bool) returns (r: Option<T>)
      requires Valid()
      modifies this`elemCnt, this`buckets, this`contents
      ensures Valid() && Found(less, old(contents), x, r)
      ensures contents == if r == None then old(contents) + {x} else old(contents)
      ensures |buckets| == if allocates then Ideal(elemCnt) else |old(buckets)|
    {
      r := FindElem(x);
      if r == None { InsertElem(x); }
      Rehash(allocates);
    }

    /** `hash_replace` */
    method Replace(x: T, allocates: bool) returns (r: Option<T>)
      requires Valid()
      modifies this`elemCnt, this`buckets, this`contents
      ensures Valid() && Found(less, old(contents), x, r)
      ensures contents == (if r == None then old(contents) else old(contents) - {r.value}) + {x}
      ensures |buckets| == if allocates then Ideal(elemCnt) else |old(buckets)|
    {
      r := FindElem(x);
      if r != None {
        RemoveElem(r.value);
        OnlyOne(less, hash, old(contents), x, r.value);
      }
      InsertElem(x);
      Rehash(allocates);
    }

    /** `hash_delete` */
    method Delete(e: T, allocates: bool) returns (r: Option<T>)
      requires Valid()
      modifies this`elemCnt, this`buckets, this`contents
      ensures Valid() && Found(less, old(contents), e, r)
      ensures contents == if r == None then old(contents) else old(contents) - {r.value}
      ensures |buckets| == if r != None && allocates then Ideal(elemCnt) else |old(buckets)|
    {
      r := FindElem(e);
      if r != None {
        RemoveElem(r.value);
        Rehash(allocates);
      }
    }

    /** `rehash`: the elements stay, whether or not new buckets can be allocated. */
    method Rehash(allocates: bool)
      requires Valid()
      modifies this`buckets
      ensures Valid()
      ensures |buckets| == if allocates then Ideal(elemCnt) else |old(buckets)|
    {
      var newCnt := IdealBuckets(elemCnt);
      if newCnt == |buckets| || !allocates { return; }
      var oldBuckets := buckets;
      buckets := seq(newCnt, _ => []);
      ghost var moved: set<T> := {};
      for i := 0 to |oldBuckets|
        invariant |buckets| == newCnt && Holds(hash, buckets, moved) && Moved(hash, oldBuckets, contents, moved, i, 0)
      {
        var bucket := oldBuckets[i];
        for k := 0 to |bucket|
          invariant |buckets| == newCnt && Holds(hash, buckets, moved) && Moved(hash, oldBuckets, contents, moved, i, k)
        {
          MoveOne(hash, oldBuckets, contents, moved, i, k);
          PushHolds(hash, buckets, moved, bucket[k]);
          var j := Index(hash(bucket[k]), |buckets|);
          buckets := buckets[j := [bucket[k]] + buckets[j]];
          moved := moved + {bucket[k]};
        }
        MoveOn(hash, oldBuckets, contents, moved, i);
      }
      MovedAll(hash, oldBuckets, contents, moved);
    }
  }

  /** With equal elements excluded, a key has one element at most. */
  lemma OnlyOne<T(!new)>(less: (T, T) -> bool, hash: T -> nat, contents: set<T>, e: T, x: T)
    requires Proper(less, hash) && Unlike(less, contents) && x in contents && Same(less, x, e)
    ensures forall y :: y in contents - {x} ==> !Same(less, y, e)
  {
    forall y | y in contents - {x} ensures !Same(less, y, e) {
      assert Same(less, e, x);
      assert Same(less, y, e) ==> Same(less, y, x);
    }
  }

  /** The elements moved so far: those of the first `i` buckets and the first `k` of the next. */
  ghost predicate Moved<T(!new)>(hash: T -> nat, old_: seq<seq<T>>, contents: set<T>, moved: set<T>, i: nat, k: nat)
    requires |old_| > 0 && i <= |old_| && (i < |old_| ==> k <= |old_[i]|)
  {
    forall x {:trigger x in moved} :: x in moved <==>
      x in contents && (Index(hash(x), |old_|) < i || (i < |old_| && Index(hash(x), |old_|) == i && x in old_[i][..k]))
  }

  lemma MoveOne<T(!new)>(hash: T -> nat, old_: seq<seq<T>>, contents: set<T>, moved: set<T>, i: nat, k: nat)
    requires Holds(hash, old_, contents) && i < |old_| && k < |old_[i]| && Moved(hash, old_, contents, moved, i, k)
    ensures old_[i][k] !in moved && Moved(hash, old_, contents, moved + {old_[i][k]}, i, k + 1)
  {
    assert BucketOk(hash, old_, contents, i);
    var b := old_[i];
    assert b[k] in b;
    assert b[..k + 1] == b[..k] + [b[k]];
  }

  lemma MoveOn<T(!new)>(hash: T -> nat, old_: seq<seq<T>>, contents: set<T>, moved: set<T>, i: nat)
    requires Holds(hash, old_, contents) && i < |old_| && Moved(hash, old_, contents, moved, i, |old_[i]|)
    ensures Moved(hash, old_, contents, moved, i + 1, 0)
  {
    assert BucketOk(hash, old_, contents, i);
    assert old_[i][..|old_[i]|] == old_[i];
  }

  lemma MovedAll<T(!new)>(hash: T -> nat, old_: seq<seq<T>>, contents: set<T>, moved: set<T>)
    requires Holds(hash, old_, contents) && Moved(hash, old_, contents, moved, |old_|, 0)
    ensures moved == contents
  {
    forall x ensures x in moved <==> x in contents { IndexInRange(hash(x), |old_|); }
  }
}
