/**
 64-bit division from a 64/32-bit divide: lib/arithmetic.c.

 Unsigned words are naturals below their width's power of two; every shift and every
 subtraction that could leave the word is written with its wrap-around.
 */
module Arithmetic {
  const B31 := 0x8000_0000
  const B32 := 0x1_0000_0000
  const B63 := 0x8000_0000_0000_0000
  const B64 := 0x1_0000_0000_0000_0000

  type u32 = x: int | 0 <= x < B32
  type u64 = x: int | 0 <= x < B64
  type i64 = x: int | -B63 <= x < B63

  // ---------- products ----------

  lemma MulLe(a: int, b: int, c: int)
    requires a <= b && c >= 0
    ensures a * c <= b * c
  {
  }

  lemma MulLt(a: int, b: int, c: int)
    requires a < b && c > 0
    ensures a * c < b * c
  {
  }

  lemma MulAdd(a: int, b: int, c: int)
    ensures (a + b) * c == a * c + b * c && c * (a + b) == c * a + c * b
  {
  }

  lemma MulAssoc(a: int, b: int, c: int)
    ensures (a * b) * c == a * (b * c) == (a * c) * b
  {
  }

  // ---------- division ----------

  /** The quotient is the one number that fits. */
  lemma DivUnique(n: int, d: int, q: int)
    requires d > 0 && q * d <= n < (q + 1) * d
    ensures n / d == q
  {
    DivBounds(n, d);
    var p := n / d;
    if p < q {
      MulLe(p + 1, q, d);
    } else if p > q {
      MulLe(q + 1, p, d);
    }
  }

  lemma DivBounds(n: int, d: int)
    requires d > 0
    ensures (n / d) * d <= n < (n / d + 1) * d
  {
    MulAdd(n / d, 1, d);
    assert n == d * (n / d) + n % d;
  }

  lemma DivSign(n: int, d: int)
    requires d > 0 && n >= 0
    ensures 0 <= n / d <= n
  {
    DivBounds(n, d);
    var q := n / d;
    if q < 0 { MulLe(q + 1, 0, d); }
    if q > n { MulLe(1, d, q); }
  }

  lemma DivDiv(n: int, a: int, b: int)
    requires a > 0 && b > 0
    ensures a * b > 0 && (n / a) / b == n / (a * b)
  {
    var x := n / a;
    var q := x / b;
    DivBounds(n, a);
    DivBounds(x, b);
    MulLt(0, a, b);
    MulLe(q * b, x, a);
    MulLe(x + 1, (q + 1) * b, a);
    MulAssoc(q, a, b);
    MulAssoc(q + 1, a, b);
    DivUnique(n, a * b, q);
  }

  /** The `divl` instruction: it traps unless the quotient fits in 32 bits. */
  function Divl(n: int, d: int): (q: u32)
    requires 0 <= n < B64 && 0 < d < B32 && n / d < B32
    ensures q * d <= n < (q + 1) * d
  {
    DivBounds(n, d);
    DivSign(n, d);
    n / d
  }

  // ---------- shifts ----------

  /** `x << n` before anything is cut off. */
  function Shl(x: int, n: nat): int {
    if n == 0 then x else 2 * Shl(x, n - 1)
  }

  lemma {:induction false} ShlShl(x: int, a: nat, b: nat)
    ensures Shl(x, a + b) == Shl(Shl(x, a), b)
  {
    if b == 0 {
    } else {
      ShlShl(x, a, b - 1);
      assert a + b - 1 == a + (b - 1);
    }
  }

  lemma ShlConst(x: int)
    ensures Shl(x, 1) == 2 * x && Shl(x, 2) == 4 * x && Shl(x, 4) == 16 * x && Shl(x, 8) == 256 * x
    ensures Shl(x, 16) == 65536 * x
  {
    ShlFour(x);
    ShlShl(x, 4, 4); ShlFour(Shl(x, 4));
    ShlShl(x, 8, 4); ShlFour(Shl(x, 8));
    ShlShl(x, 12, 4); ShlFour(Shl(x, 12));
  }

  lemma ShlFour(x: int)
    ensures Shl(x, 4) == 16 * x
  {
    assert Shl(x, 3) == 2 * Shl(x, 2) && Shl(x, 2) == 2 * Shl(x, 1);
  }

  lemma {:induction false} ShlMul(x: int, n: nat)
    ensures Shl(x, n) == x * Shl(1, n) && Shl(1, n) >= 1
  {
    if n == 0 {
    } else {
      ShlMul(x, n - 1);
      MulAssoc(2, x, Shl(1, n - 1));
    }
  }

  /** Shifting further up by `k` is multiplying by `c`; nothing is lost below 2^32. */
  lemma ShiftUp(x0: int, n: nat, k: nat, c: int)
    requires
      || (k == 16 && c == 0x1_0000) || (k == 8 && c == 0x100)
      || (k == 4 && c == 16) || (k == 2 && c == 4) || (k == 1 && c == 2)
    ensures Shl(x0, n + k) == Shl(x0, n) * c
    ensures 0 <= Shl(x0, n) * c < B32 ==> (Shl(x0, n) * c) % B32 == Shl(x0, n) * c
  {
    ShlShl(x0, n, k);
    ShlConst(Shl(x0, n));
  }

  /** The number of leading zero bits: the shift that brings the top bit to the top. */
  method Nlz(x0: u32) returns (n: nat)
    requires x0 != 0
    ensures n < 32 && B31 <= Shl(x0, n) < B32
  {
    n := 0;
    var x: int := x0;
    if x <= 0x0000_FFFF {
      ShiftUp(x0, n, 16, 0x1_0000);
      n := n + 16;
      x := (x * 0x1_0000) % B32;
    }
    assert x == Shl(x0, n) && 0xFFFF < x < B32;
    if x <= 0x00FF_FFFF {
      ShiftUp(x0, n, 8, 0x100);
      n := n + 8;
      x := (x * 0x100) % B32;
    }
    assert x == Shl(x0, n) && 0xFF_FFFF < x < B32;
    if x <= 0x0FFF_FFFF {
      ShiftUp(x0, n, 4, 16);
      n := n + 4;
      x := (x * 16) % B32;
    }
    assert x == Shl(x0, n) && 0xFFF_FFFF < x < B32;
    if x <= 0x3FFF_FFFF {
      ShiftUp(x0, n, 2, 4);
      n := n + 2;
      x := (x * 4) % B32;
    }
    assert x == Shl(x0, n) && 0x3FFF_FFFF < x < B32;
    if x <= 0x7FFF_FFFF {
      ShiftUp(x0, n, 1, 2);
      n := n + 1;
    }
  }

  // ---------- the trial quotient ----------

  /** `m` is the divisor with its low bits cut off, `k` bounds what was cut.  Dividing by
      `m` instead of `d` overshoots by at most one. */
  lemma TrialQuotient(n: int, d: int, m: int, k: int)
    requires 0 <= n < B64 && k >= 2 && B31 * k <= m <= d < m + k
    ensures n / d <= n / m <= n / d + 1
  {
    var q, t := n / d, n / m;
    DivBounds(n, d);
    DivBounds(n, m);
    DivSign(n, d);
    if t < q {
      MulLe(t + 1, q, m);
      MulLe(m, d, q);
    } else if t > q + 1 {
      NotTwoTooLarge(n, d, m, k, q + 1, t);
    }
  }

  lemma NotTwoTooLarge(n: int, d: int, m: int, k: int, a: int, t: int)
    requires 0 <= n < B64 && k >= 2 && B31 * k <= m <= d < m + k
    requires a >= 1 && n < a * d && t * m <= n
    ensures t <= a
  {
    if t > a {
      MulLe(a + 1, t, m);
      MulAdd(a, 1, m);
      assert a * m + m <= n;
      MulLe(d, m + (k - 1), a);
      MulAdd(m, k - 1, a);
      assert m < a * (k - 1);
      MulLe(B31 * k, m, a);
      MulAssoc(B31, k, a);
      Discriminant(k, a, k * a);
    }
  }

  lemma Discriminant(k: int, a: int, p: int)
    requires k >= 2 && p == k * a && B31 * p < B64
    ensures a * (k - 1) <= B31 * k
  {
    assert (k - 2) * (k - 2) == k * k - 4 * (k - 1);
    MulLe(p, 4 * B31, k - 1);
    MulAssoc(a, k - 1, k);
    MulAssoc(B31, k, k);
    if B31 * k < a * (k - 1) {
      MulLt(B31 * k, a * (k - 1), k);
    }
  }

  lemma MulCancel(a: int, b: int, c: int)
    requires c > 0
    ensures a * c <= b * c ==> a <= b
    ensures a * c < b * c ==> a < b
  {
    if b < a { MulLt(b, a, c); }
    if b <= a { MulLe(b, a, c); }
  }

  lemma Powers(s: nat)
    requires s < 32
    ensures Shl(1, s) >= 1 && Shl(1, 31 - s) >= 1 && Shl(1, 32 - s) == 2 * Shl(1, 31 - s)
    ensures Shl(1, 32 - s) * Shl(1, s) == B32
  {
    ShlMul(1, s);
    ShlMul(1, 31 - s);
    ShlShl(1, 32 - s, s);
    ShlMul(Shl(1, 32 - s), s);
    ShlConst(1);
    ShlShl(1, 16, 16);
    ShlConst(Shl(1, 16));
  }

  /** Shifting the divisor up loses nothing, and its top word stands for it. */
  lemma Normalised(d: int, s: nat, dh: int, k: int)
    requires B32 <= d < B64 && s < 32 && B31 <= Shl(d / B32, s) < B32
    requires dh == Shl(d, s) / B32 && k == Shl(1, 32 - s)
    ensures 0 <= Shl(d, s) < B64 && B31 <= dh < B32
    ensures B31 * k <= dh * k <= d < dh * k + k
  {
    var p, d1 := Shl(1, s), d / B32;
    Powers(s);
    ShlMul(d, s);
    ShlMul(d1, s);
    MulCancel(d1, k, p);
    MulLe(d1 + 1, k, p);
    MulLe(d1 * B32, d, p);
    MulLe(d + 1, (d1 + 1) * B32, p);
    MulAssoc(d1, B32, p);
    MulAssoc(d1 + 1, B32, p);
    MulAdd(d, 1, p);
    assert dh * B32 <= d * p < (dh + 1) * B32;
    MulLe(B31, dh, k);
    MulAssoc(dh, k, p);
    MulAssoc(dh + 1, k, p);
    MulCancel(dh * k, d, p);
    MulCancel(d, (dh + 1) * k, p);
    MulAdd(dh, 1, k);
  }

  /** Schoolbook division by a one-word divisor: the high word first. */
  lemma OneWord(n: int, d: int, q1: int, r1: int, n0: int)
    requires d > 0 && n == B32 * (d * q1 + r1) + n0 && 0 <= r1 < d && 0 <= n0 < B32
    ensures 0 <= B32 * r1 + n0 < B32 * d
    ensures (B32 * r1 + n0) / d < B32
    ensures n / d == (B32 * r1 + n0) / d + B32 * q1
  {
    var x := B32 * r1 + n0;
    DivBounds(x, d);
    var q := x / d;
    MulCancel(q, B32, d);
    MulAssoc(B32, d, q1);
    MulAdd(q, B32 * q1, d);
    MulAdd(q + 1, B32 * q1, d);
    MulAssoc(B32, q1, d);
    DivUnique(n, d, q + B32 * q1);
  }

  /** `udiv64`: the floor of n / d for every n and every nonzero d.  No call of `divl`
      traps: each satisfies its precondition. */
  method Udiv64(n: u64, d: u64) returns (r: u64)
    requires d != 0
    ensures r == n / d
  {
    DivSign(n, d);
    if d / B32 == 0 {
      var n1, n0 := n / B32, n % B32;
      ghost var q1, r1 := n1 / d, n1 % d;
      OneWord(n, d, q1, r1, n0);
      r := Divl(B32 * (n1 % d) + n0, d) + B32 * (n1 / d);
    } else if n < d {
      DivUnique(n, d, 0);
      r := 0;
    } else {
      var s := Nlz(d / B32);
      Trial(n, d, s);
      var q := Divl(n / 2, (Shl(d, s) % B64) / B32) / Shl(1, 31 - s);
      Correct(n, d, q);
      r := if (n - ((q - 1) * d) % B64) % B64 < d then q - 1 else q;
    }
  }

  /** The trial quotient of a two-word divisor: `divl` does not trap on it, and it is
      exact or one too large. */
  lemma Trial(n: int, d: int, s: nat)
    requires B32 <= d <= n < B64 && s < 32 && B31 <= Shl(d / B32, s) < B32
    ensures var dh := (Shl(d, s) % B64) / B32;
            && 0 < dh < B32 && 0 <= n / 2 && (n / 2) / dh < B32 && Shl(1, 31 - s) > 0
            && n / d <= ((n / 2) / dh) / Shl(1, 31 - s) <= n / d + 1
  {
    var k, dh := Shl(1, 32 - s), (Shl(d, s) % B64) / B32;
    Normalised(d, s, Shl(d, s) / B32, k);
    assert Shl(d, s) % B64 == Shl(d, s);
    Powers(s);
    TrialFits(n, dh);
    TrialBound(n, d, dh, Shl(1, 31 - s), k);
  }

  lemma TrialBound(n: int, d: int, dh: int, e: int, k: int)
    requires B32 <= d <= n < B64 && dh > 0 && e > 0 && k == 2 * e && B31 * k <= dh * k <= d < dh * k + k
    ensures n / d <= ((n / 2) / dh) / e <= n / d + 1
  {
    TrialIs(n, dh, e, k);
    TrialQuotient(n, d, dh * k, k);
  }

  lemma TrialFits(n: int, dh: int)
    requires 0 <= n < B64 && dh >= B31
    ensures 0 <= n / 2 && (n / 2) / dh < B32
  {
    DivBounds(n / 2, dh);
    MulLe(B31, dh, B32);
    MulCancel((n / 2) / dh, B32, dh);
  }

  lemma TrialIs(n: int, dh: int, e: int, k: int)
    requires dh > 0 && e > 0 && k == 2 * e
    ensures dh * k > 0 && ((n / 2) / dh) / e == n / (dh * k)
  {
    DivDiv(n, 2, dh);
    DivDiv(n, 2 * dh, e);
    MulAssoc(2, dh, e);
    MulAssoc(dh, 2, e);
  }

  /** The correction step: no intermediate value wraps, and it picks the quotient. */
  lemma Correct(n: int, d: int, q: int)
    requires 0 < d <= n < B64 && n / d <= q <= n / d + 1
    ensures q >= 1 && 0 <= (q - 1) * d <= n
    ensures n / d == if (n - ((q - 1) * d) % B64) % B64 < d then q - 1 else q
  {
    DivBounds(n, d);
    MulCancel(1, n / d + 1, d);
    MulLe(0, q - 1, d);
    MulLe(q - 1, n / d, d);
    MulAdd(q - 1, 1, d);
    var m := (q - 1) * d;
    assert m % B64 == m && (n - m) % B64 == n - m;
    if n - m < d { DivUnique(n, d, q - 1); }
  }

  // ---------- remainder and signed division ----------

  lemma RemainderWraps(n: int, d: int)
    requires 0 <= n < B64 && d > 0
    ensures (n - (d * (n / d)) % B64) % B64 == n % d
  {
    DivBounds(n, d);
    DivSign(n, d);
    MulLe(0, n / d, d);
    var m := d * (n / d);
    assert n == m + n % d;
    assert m % B64 == m && (n - m) % B64 == n - m;
  }

  /** `umod64` hands its 64-bit remainder back as 32 bits. */
  method Umod64(n: u64, d: u64) returns (r: u32)
    requires d != 0
    ensures r == (n % d) % B32
  {
    var q := Udiv64(n, d);
    RemainderWraps(n, d);
    r := ((n - (d * q) % B64) % B64) % B32;
  }

  /** So it is the remainder for every dividend exactly when the divisor is at most 2^32. */
  lemma Umod64Exact(d: u64)
    requires d != 0
    ensures (forall n: u64 :: (n % d) % B32 == n % d) <==> d <= B32
  {
    if d <= B32 {
      forall n: u64 ensures (n % d) % B32 == n % d {
        assert 0 <= n % d < d;
      }
    } else {
      var n: u64 := d - 1;
      assert n % d == n by { DivUnique(n, d, 0); }
      assert (n % d) % B32 != n % d;
    }
  }

  function Abs(x: int): nat {
    if x < 0 then -x else x
  }

  /** The 64-bit two's complement reading of a word. */
  function Signed(x: int): (r: int)
    ensures -B63 <= r < B63
    ensures -B63 <= x < B63 ==> r == x
  {
    var w := x % B64;
    if w < B63 then w else w - B64
  }

  /** `r` is n / d truncated toward zero: the remainder is smaller than the divisor and
      has the sign of the dividend. */
  predicate Truncated(n: int, d: int, r: int) {
    var m := n - r * d;
    Abs(m) < Abs(d) && (m != 0 ==> (m < 0 <==> n < 0))
  }

  /** The signed result that `sdiv64` makes of the quotient of the absolute values. */
  function SignedResult(n: int, d: int, q: int): int {
    if (n < 0) == (d < 0) then Signed(q) else Signed(-Signed(q))
  }

  /** The absolute value as an unsigned word. */
  function AbsWord(x: i64): (r: u64)
    ensures r == Abs(x)
  {
    if x >= 0 then x else -(x as int) % B64
  }

  /** `sdiv64` truncates toward zero, except where the quotient 2^63 has no 64-bit form and
      comes out as -2^63. */
  method Sdiv64(n: i64, d: i64) returns (r: i64)
    requires d != 0
    ensures Truncated(n, d, r) <==> !(n == -B63 && d == -1)
    ensures n == -B63 && d == -1 ==> r == -B63
  {
    var q := Udiv64(AbsWord(n), AbsWord(d));
    SignedQuotient(n, d, q);
    r := SignedResult(n, d, q);
  }

  lemma SignedQuotient(n: int, d: int, q: int)
    requires -B63 <= n < B63 && -B63 <= d < B63 && d != 0 && q == Abs(n) / Abs(d)
    ensures 0 <= q <= B63
    ensures Truncated(n, d, SignedResult(n, d, q)) <==> !(n == -B63 && d == -1)
    ensures n == -B63 && d == -1 ==> SignedResult(n, d, q) == -B63
  {
    AbsQuotient(Abs(n), Abs(d), q);
    if q < B63 {
      SignRule(n, d, q, SignedResult(n, d, q));
    } else {
      assert Signed(B63) == -B63;
    }
  }

  lemma AbsQuotient(a: int, b: int, q: int)
    requires 0 <= a <= B63 && b > 0 && q == a / b
    ensures 0 <= q <= B63 && 0 <= a - q * b < b && (q == B63 ==> a == B63 && b == 1)
  {
    DivBounds(a, b);
    DivSign(a, b);
    MulAdd(q, 1, b);
    if q == B63 && b > 1 { MulLe(2, b, q); }
  }

  lemma SignRule(n: int, d: int, q: int, r: int)
    requires d != 0 && 0 <= Abs(n) - q * Abs(d) < Abs(d)
    requires r == if (n < 0) == (d < 0) then q else -q
    ensures Truncated(n, d, r)
  {
    MulSign(q, d);
  }

  lemma MulSign(q: int, d: int)
    ensures (-q) * d == -(q * d) && q * (-d) == -(q * d)
  {
  }
}
