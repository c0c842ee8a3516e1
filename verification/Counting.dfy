/**
 Counting the threads of a system whose program counter is in a given class.
 The counting invariants of the lock and semaphore protocols are stated with it.
 */
module Counting {

  /** The threads of `m` whose local state satisfies `p`. */
  ghost function At<T, P>(m: map<T, P>, p: P -> bool): set<T> {
    set t | t in m && p(m[t])
  }

  ghost function Count<T, P>(m: map<T, P>, p: P -> bool): nat {
    |At(m, p)|
  }

  function Indicator(b: bool): nat {
    if b then 1 else 0
  }

  /** Moving one thread adds or removes exactly that thread. */
  lemma AtStep<T, P>(m: map<T, P>, t: T, x: P, p: P -> bool)
    requires t in m
    ensures At(m[t := x], p) == if p(x) then At(m, p) + {t} else At(m, p) - {t}
    ensures t in At(m, p) <==> p(m[t])
  {
  }

  /** Moving one thread changes the count by exactly that thread's contribution. */
  lemma CountStep<T, P>(m: map<T, P>, t: T, x: P, p: P -> bool)
    requires t in m
    ensures Count(m[t := x], p) == Count(m, p) - Indicator(p(m[t])) + Indicator(p(x))
  {
    AtStep(m, t, x, p);
    var a := At(m, p);
    if p(x) && !p(m[t]) {
      assert |a + {t}| == |a| + 1;
    } else if !p(x) && p(m[t]) {
      assert |a - {t}| == |a| - 1;
    } else {
      assert a == if p(x) then a + {t} else a - {t};
    }
  }

  /** A thread that satisfies `p` is counted, and two of them are counted twice. */
  lemma CountWitness<T, P>(m: map<T, P>, t: T, p: P -> bool)
    requires t in m && p(m[t])
    ensures Count(m, p) >= 1
    ensures forall u :: u in m && u != t && p(m[u]) ==> Count(m, p) >= 2
  {
    assert t in At(m, p);
    forall u | u in m && u != t && p(m[u]) ensures Count(m, p) >= 2 {
      assert {t, u} <= At(m, p);
      SubsetSize({t, u}, At(m, p));
    }
  }

  lemma {:induction false} SubsetSize<T>(a: set<T>, b: set<T>)
    requires a <= b
    ensures |a| <= |b|
  {
    if a == {} {
    } else {
      var x :| x in a;
      SubsetSize(a - {x}, b - {x});
    }
  }

  /** A count of zero has none. */
  lemma CountZero<T, P>(m: map<T, P>, p: P -> bool, t: T)
    requires Count(m, p) == 0 && t in m
    ensures !p(m[t])
  {
    assert p(m[t]) ==> t in At(m, p);
  }

  /** A positive count has a witness. */
  lemma CountPositive<T, P>(m: map<T, P>, p: P -> bool) returns (t: T)
    requires Count(m, p) > 0
    ensures t in m && p(m[t])
  {
    t :| t in At(m, p);
  }
}
