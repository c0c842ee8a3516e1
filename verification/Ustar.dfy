/**
 ustar archive headers in lib/ustar.c, with the octal printing of lib/stdio.c.  The format
 is that of the "ustar Interchange Format" section of the pax utility in IEEE Std
 1003.1-2001.
 */
module Ustar {
  import opened Base

  const HEADER_SIZE := 512
  const NUL := 0
  const SPACE := 32
  const DOT := 46
  const SLASH := 47
  const ZERO := 48
  const INT_MAX := 0x7fff_ffff
  const INT_MIN := -0x8000_0000
  const ULONG_MAX := 0xffff_ffff

  // ---------- names ----------

  /** `strip_antisocial_prefixes` */
  function Strip(s: seq<Byte>): (r: seq<Byte>)
    decreases |s|
  {
    if |s| >= 1 && s[0] == SLASH then Strip(s[1..])
    else if |s| >= 2 && s[..2] == [DOT, SLASH] then Strip(s[2..])
    else if |s| >= 3 && s[..3] == [DOT, DOT, SLASH] then Strip(s[3..])
    else if s == [] || s == [DOT, DOT] then [DOT] else s
  }

  /** The position of the first slash. */
  function FirstSlash(s: seq<Byte>): (i: nat)
    requires SLASH in s
    ensures i < |s| && s[i] == SLASH && forall k :: 0 <= k < i ==> s[k] != SLASH
  {
    if s[0] == SLASH then 0 else 1 + FirstSlash(s[1..])
  }

  method StripPrefixes(s: seq<Byte>) returns (r: seq<Byte>)
    ensures r == Strip(s)
  {
    r := s;
    while || (|r| >= 1 && r[0] == SLASH) || (|r| >= 2 && r[..2] == [DOT, SLASH])
          || (|r| >= 3 && r[..3] == [DOT, DOT, SLASH])
      invariant Strip(r) == Strip(s)
      decreases |r|
    {
      if r[0] == SLASH {
        assert SLASH in r && FirstSlash(r) == 0;
      } else if r[..2] == [DOT, SLASH] {
        assert r[..2][1] == r[1] == SLASH;
        assert SLASH in r && FirstSlash(r) == 1;
      } else {
        assert r[..3][0] == r[0] == DOT && r[..3][1] == r[1] == DOT && r[..3][2] == r[2] == SLASH;
        assert SLASH in r && FirstSlash(r) == 2;
      }
      r := r[FirstSlash(r) + 1..];
    }
    if r == [] || r == [DOT, DOT] { r := [DOT]; }
  }

  /** A stripped name is not empty, is not absolute, is not `..` and does not start with `../`;
      stripping it again changes nothing. */
  lemma {:induction false} StripTwice(s: seq<Byte>)
    ensures Strip(Strip(s)) == Strip(s) && Strip(s) != [] && Strip(s) != [DOT, DOT]
    ensures Strip(s)[0] != SLASH && !([DOT, DOT, SLASH] <= Strip(s)) && !([DOT, SLASH] <= Strip(s))
    ensures (NUL !in s ==> NUL !in Strip(s)) && |Strip(s)| <= Max(1, |s|)
    decreases |s|
  {
    if |s| >= 1 && s[0] == SLASH {
      StripTwice(s[1..]);
    } else if |s| >= 2 && s[..2] == [DOT, SLASH] {
      StripTwice(s[2..]);
    } else if |s| >= 3 && s[..3] == [DOT, DOT, SLASH] {
      StripTwice(s[3..]);
    }
  }

  /** A name with no such prefix is kept as it is, directories and all, */
  lemma StripKeeps(s: seq<Byte>)
    requires s != [] && s != [DOT, DOT]
    requires s[0] != SLASH && !([DOT, SLASH] <= s) && !([DOT, DOT, SLASH] <= s)
    ensures Strip(s) == s
  {
    assert |s| >= 2 && s[..2] == [DOT, SLASH] ==> [DOT, SLASH] <= s;
    assert |s| >= 3 && s[..3] == [DOT, DOT, SLASH] ==> [DOT, DOT, SLASH] <= s;
  }

  /** and each of the three prefixes goes; nothing at all, or `..` alone, becomes the current
      directory.  With StripKeeps this determines what stripping does to any name. */
  lemma StripDrops(s: seq<Byte>)
    ensures Strip([SLASH] + s) == Strip(s)
    ensures Strip([DOT, SLASH] + s) == Strip(s)
    ensures Strip([DOT, DOT, SLASH] + s) == Strip(s)
    ensures Strip([]) == [DOT] && Strip([DOT, DOT]) == [DOT]
  {
    assert ([SLASH] + s)[1..] == s;
    var a, b := [DOT, SLASH] + s, [DOT, DOT, SLASH] + s;
    assert a[..2] == [DOT, SLASH] && a[2..] == s;
    assert b[0] == DOT && b[..2] == [DOT, DOT] && b[..2] != [DOT, SLASH] by { assert b[..2][1] == DOT; }
    assert b[..3] == [DOT, DOT, SLASH] && b[3..] == s;
  }

  // ---------- octal numbers ----------

  predicate IsOctal(c: Byte) {
    ZERO <= c <= ZERO + 7
  }

  ghost predicate AllOctal(d: seq<Byte>) {
    forall k :: 0 <= k < |d| ==> IsOctal(d[k])
  }

  function Digit(c: Byte): (v: nat)
    requires IsOctal(c)
    ensures v <= 7
  {
    c - ZERO
  }

  /** The digits of a number, most significant first; none for zero. */
  function Digits(v: nat): (d: seq<Byte>)
    ensures AllOctal(d)
  {
    if v == 0 then [] else Digits(v / 8) + [ZERO + v % 8]
  }

  /** A number in at least `width` digits, with zeros in front. */
  function Octal(v: nat, width: nat): (d: seq<Byte>)
    ensures |d| >= width && AllOctal(d)
  {
    seq(Max(0, width - |Digits(v)|), _ => ZERO) + Digits(v)
  }

  /** The number that a row of digits goes on to from `v`. */
  ghost function Read(v: nat, d: seq<Byte>): nat
    requires AllOctal(d)
    decreases d
  {
    if d == [] then v else Read(8 * v + Digit(d[0]), d[1..])
  }

  lemma {:induction false} ReadJoin(v: nat, a: seq<Byte>, b: seq<Byte>)
    requires AllOctal(a) && AllOctal(b)
    ensures Read(v, a + b) == Read(Read(v, a), b)
    decreases a
  {
    if a == [] {
      assert a + b == b;
    } else {
      assert (a + b)[1..] == a[1..] + b;
      ReadJoin(8 * v + Digit(a[0]), a[1..], b);
    }
  }

  lemma {:induction false} ReadZeros(n: nat)
    ensures Read(0, seq(n, _ => ZERO)) == 0
  {
    if n == 0 {
    } else {
      ReadZeros(n - 1);
      assert seq(n, _ => ZERO)[1..] == seq(n - 1, _ => ZERO);
    }
  }

  lemma {:induction false} ReadDigits(v: nat)
    ensures Read(0, Digits(v)) == v
  {
    if v == 0 {
    } else {
      ReadDigits(v / 8);
      ReadJoin(0, Digits(v / 8), [ZERO + v % 8]);
    }
  }

  /** Reading the digits gives the number back. */
  lemma ReadOctal(v: nat, width: nat)
    ensures Read(0, Octal(v, width)) == v
  {
    var zeros: seq<Byte> := seq(Max(0, width - |Digits(v)|), _ => ZERO);
    ReadJoin(0, zeros, Digits(v));
    ReadZeros(|zeros|);
    ReadDigits(v);
  }

  lemma {:induction false} ReadGrows(v: nat, d: seq<Byte>)
    requires AllOctal(d)
    ensures v <= Read(v, d) && (d != [] ==> 8 * v <= Read(v, d))
    decreases d
  {
    if d == [] {
    } else {
      ReadGrows(8 * v + Digit(d[0]), d[1..]);
    }
  }

  function Reversed(s: seq<Byte>): (r: seq<Byte>)
    ensures |r| == |s|
  {
    if s == [] then [] else [s[|s| - 1]] + Reversed(s[..|s| - 1])
  }

  lemma ReversedPush(s: seq<Byte>, x: Byte)
    ensures Reversed(s + [x]) == [x] + Reversed(s)
  {
    assert (s + [x])[..|s|] == s;
  }

  /** The first loop of `format_integer`: the digits go into a buffer backwards. */
  method CollectDigits(value: nat) returns (buf: seq<Byte>)
    ensures Reversed(buf) == Digits(value)
  {
    var v := value;
    buf := [];
    while v > 0
      invariant Digits(value) == Digits(v) + Reversed(buf)
      decreases v
    {
      var c: Byte := ZERO + v % 8;
      assert Digits(v / 8) + [c] + Reversed(buf) == Digits(v / 8) + ([c] + Reversed(buf));
      ReversedPush(buf, c);
      buf := buf + [c];
      v := v / 8;
    }
  }

  /** The last loop: they come out in order. */
  method Emit(out: seq<Byte>, digits: seq<Byte>) returns (r: seq<Byte>)
    ensures r == out + Reversed(digits)
  {
    r := out;
    var buf := digits;
    while buf != []
      invariant r + Reversed(buf) == out + Reversed(digits)
      decreases buf
    {
      var c := buf[|buf| - 1];
      assert r + [c] + Reversed(buf[..|buf| - 1]) == r + Reversed(buf);
      r, buf := r + [c], buf[..|buf| - 1];
    }
  }

  /** `format_integer` for base 8 with the zero flag and no precision. */
  method FormatOctal(value: nat, width: nat) returns (out: seq<Byte>)
    requires width > 0
    ensures out == Octal(value, width)
  {
    var buf: seq<Byte> := CollectDigits(value);
    if value > 0 { assert Digits(value) != []; }
    while |buf| < 1
      invariant if value > 0 then Reversed(buf) == Digits(value) && buf != [] else buf == [] || buf == [ZERO]
      decreases 1 - |buf|
    {
      buf := buf + [ZERO];
    }
    var pad := Max(0, width - |buf|);
    out := Emit(seq(pad, _ => ZERO), buf);
    if value == 0 {
      assert buf == [ZERO] && Reversed(buf) == [ZERO];
      assert seq(width - 1, _ => ZERO as Byte) + [ZERO] == seq(width, _ => ZERO);
    }
  }

  // ---------- headers ----------

  /** `parse_octal_field`, `v` being the value read so far. */
  function ParseOctal(s: seq<Byte>, v: nat, started: bool): Option<nat> {
    if s == [] then None
    else if IsOctal(s[0]) then (if v > ULONG_MAX / 8 then None else ParseOctal(s[1..], 8 * v + Digit(s[0]), true))
    else if (s[0] == SPACE || s[0] == NUL) && started then Some(v)
    else None
  }

  method ParseOctalField(s: seq<Byte>) returns (r: Option<nat>)
    ensures r == ParseOctal(s, 0, false)
    ensures r.Some? ==> r.value <= ULONG_MAX
  {
    var value: nat := 0;
    for ofs := 0 to |s|
      invariant ParseOctal(s, 0, false) == ParseOctal(s[ofs..], value, ofs > 0) && 0 <= value <= ULONG_MAX
    {
      var c := s[ofs];
      assert s[ofs..][1..] == s[ofs + 1..];
      if IsOctal(c) {
        if value > ULONG_MAX / 8 { return None; }
        value := Digit(c) + value * 8;
      } else if c == SPACE || c == NUL {
        return if ofs > 0 then Some(value) else None;
      } else {
        return None;
      }
    }
    return None;
  }

  /** A field is a row of digits, a byte that is none, and any bytes after it.  It is read as the
      number of the digits, if there is one, the byte is a space or a null byte, and the number has
      32 bits; and refused otherwise. */
  lemma {:induction false} OctalLaw(d: seq<Byte>, c: Byte, rest: seq<Byte>, v: nat, started: bool)
    requires AllOctal(d) && !IsOctal(c) && v <= ULONG_MAX
    ensures ParseOctal(d + [c] + rest, v, started)
         == if (started || d != []) && (c == SPACE || c == NUL) && Read(v, d) <= ULONG_MAX
            then Some(Read(v, d)) else None
    decreases d
  {
    var s := d + [c] + rest;
    if d == [] {
      assert s[0] == c;
    } else {
      var v' := 8 * v + Digit(d[0]);
      assert s[0] == d[0] && s[1..] == d[1..] + [c] + rest;
      if v' <= ULONG_MAX { OctalLaw(d[1..], c, rest, v', true); } else { ReadGrows(v', d[1..]); }
    }
  }

  /** A field of digits alone is refused. */
  lemma {:induction false} OctalUnended(d: seq<Byte>, v: nat, started: bool)
    requires AllOctal(d)
    ensures ParseOctal(d, v, started) == None
    decreases d
  {
    if d == [] {
    } else {
      OctalUnended(d[1..], 8 * v + Digit(d[0]), true);
    }
  }

  /** Digits that end in a null byte parse as the number they stand for. */
  lemma {:induction false} ParseDigits(d: seq<Byte>, v: nat, started: bool)
    requires AllOctal(d) && (started || d != []) && Read(v, d) <= ULONG_MAX
    ensures ParseOctal(d + [NUL], v, started) == Some(Read(v, d))
    decreases d
  {
    var s := d + [NUL];
    if d == [] {
    } else {
      assert s[1..] == d[1..] + [NUL];
      ReadGrows(v, d);
      ParseDigits(d[1..], 8 * v + Digit(d[0]), true);
    }
  }

  /** The printer and the parser of octal fields are inverse. */
  lemma OctalRoundTrip(v: nat, width: nat)
    requires v <= ULONG_MAX && width > 0
    ensures ParseOctal(Octal(v, width) + [NUL], 0, false) == Some(v)
  {
    ReadOctal(v, width);
    ParseDigits(Octal(v, width), 0, false);
  }

  const CHKSUM := 148
  const CHKSUM_END := 156

  /** `calculate_chksum`, of the first `n` bytes. */
  function Chksum(h: seq<Byte>, n: nat): (c: nat)
    requires n <= |h|
    ensures c <= 255 * n
  {
    if n == 0 then 0 else Chksum(h, n - 1) + if CHKSUM <= n - 1 < CHKSUM_END then SPACE else h[n - 1]
  }

  /** An empty header has the checksum of eight spaces; with ChksumIgnoresItself and ChksumSees
      this determines the checksum of every header. */
  lemma {:induction false} ChksumBlank(h: seq<Byte>, n: nat)
    requires n <= |h| && forall i :: 0 <= i < n ==> h[i] == 0
    ensures Chksum(h, n) == SPACE * Max(0, Min(n, CHKSUM_END) - CHKSUM)
  {
    if n == 0 {
    } else {
      ChksumBlank(h, n - 1);
    }
  }

  method CalculateChksum(h: seq<Byte>) returns (chksum: nat)
    requires |h| == HEADER_SIZE
    ensures chksum == Chksum(h, HEADER_SIZE)
  {
    chksum := 0;
    for i := 0 to HEADER_SIZE
      invariant chksum == Chksum(h, i)
    {
      var inField := CHKSUM <= i < CHKSUM_END;
      chksum := chksum + if inField then SPACE else h[i];
    }
  }

  /** The checksum does not depend on its own field. */
  lemma {:induction false} ChksumIgnoresItself(h: seq<Byte>, g: seq<Byte>, n: nat)
    requires n <= |h| == |g| && forall i :: 0 <= i < n && !(CHKSUM <= i < CHKSUM_END) ==> h[i] == g[i]
    ensures Chksum(h, n) == Chksum(g, n)
  {
    if n == 0 {
    } else {
      ChksumIgnoresItself(h, g, n - 1);
    }
  }

  /** It does depend on every other byte. */
  lemma {:induction false} ChksumSees(h: seq<Byte>, i: nat, x: Byte, n: nat)
    requires i < n <= |h| && !(CHKSUM <= i < CHKSUM_END)
    ensures Chksum(h[i := x], n) == Chksum(h, n) - h[i] + x
  {
    if i < n - 1 { ChksumSees(h, i, x, n - 1); } else { ChksumIgnoresItself(h, h[i := x], n - 1); }
  }

  datatype FileType = Regular | Directory

  function TypeFlag(t: FileType): Byte {
    if t == Regular then 48 else 53
  }

  const USTAR: seq<Byte> := [117, 115, 116, 97, 114]
  const ROOT: seq<Byte> := [114, 111, 111, 116]
  const SEVEN_ZEROS: seq<Byte> := [48, 48, 48, 48, 48, 48, 48]

  lemma {:induction false} FewDigits(v: nat, n: nat)
    requires v < Pow8(n)
    ensures |Digits(v)| <= n
  {
    if v == 0 {
    } else {
      FewDigits(v / 8, n - 1);
    }
  }

  function Pow8(n: nat): nat {
    if n == 0 then 1 else 8 * Pow8(n - 1)
  }

  /** A number below 8 to the power of `width` takes exactly that many digits. */
  lemma OctalFits(v: nat, width: nat)
    requires v < Pow8(width)
    ensures |Octal(v, width)| == width
  {
    FewDigits(v, width);
  }

  /** `snprintf` of an octal number into a field of `n` bytes. */
  function OctalField(v: nat, n: nat): (f: seq<Byte>)
    requires n > 0
    ensures |f| == n
  {
    Octal(v, n - 1)[..n - 1] + [NUL]
  }

  /** An octal field is read back as the number printed to it. */
  lemma FieldRoundTrip(v: nat, n: nat)
    requires n > 1 && v < Pow8(n - 1) && v <= ULONG_MAX
    ensures ParseOctal(OctalField(v, n), 0, false) == Some(v)
  {
    OctalFits(v, n - 1);
    assert Octal(v, n - 1)[..n - 1] == Octal(v, n - 1);
    OctalRoundTrip(v, n - 1);
  }

  /** The first fields of a header: name, mode, user and group. */
  function Owner(name: seq<Byte>, t: FileType): (h: seq<Byte>)
    requires |name| <= 99
    ensures |h| == HEADER_SIZE
  {
    var h := Splice(seq(HEADER_SIZE, _ => 0), 0, name + [NUL]);
    var h := Splice(h, 100, OctalField(if t == Regular then 0x1a4 else 0x1ed, 8));
    var h := Splice(h, 108, SEVEN_ZEROS + [NUL]);
    Splice(h, 116, SEVEN_ZEROS + [NUL])
  }

  /** With size and time. */
  function Front(name: seq<Byte>, t: FileType, size: nat): (h: seq<Byte>)
    requires |name| <= 99
    ensures |h| == HEADER_SIZE
  {
    Splice(Splice(Owner(name, t), 124, OctalField(size, 12)), 136, OctalField(1136102400, 12))
  }

  /** The header before its checksum is filled in. */
  function Body(name: seq<Byte>, t: FileType, size: nat): (h: seq<Byte>)
    requires |name| <= 99
    ensures |h| == HEADER_SIZE
  {
    var h := Splice(Front(name, t, size), 156, [TypeFlag(t)]);
    var h := Splice(h, 257, USTAR + [NUL]);
    var h := Splice(h, 263, [ZERO, ZERO]);
    var h := Splice(h, 297, ROOT + [NUL]);
    Splice(h, 265, ROOT + [NUL])
  }

  function Header(name: seq<Byte>, t: FileType, size: nat): (h: seq<Byte>)
    requires |name| <= 99
    ensures |h| == HEADER_SIZE
  {
    var h := Body(name, t, size);
    Splice(h, CHKSUM, OctalField(Chksum(h, HEADER_SIZE), 8))
  }

  /** The name field holds the name and null bytes. */
  lemma FrontName(name: seq<Byte>, t: FileType, size: nat, i: nat)
    requires |name| <= 99 && i < 100
    ensures Front(name, t, size)[i] == if i < |name| then name[i] else NUL
  {
  }

  lemma HeaderName(name: seq<Byte>, t: FileType, size: nat)
    requires |name| <= 99
    ensures var h := Header(name, t, size); h[..|name|] == name && h[|name|] == NUL && h[99] == NUL
  {
    var h := Header(name, t, size);
    forall i | 0 <= i < 100 ensures h[i] == if i < |name| then name[i] else NUL {
      FrontName(name, t, size, i);
      assert Body(name, t, size)[i] == Front(name, t, size)[i];
    }
  }

  lemma HeaderPrefix(name: seq<Byte>, t: FileType, size: nat)
    requires |name| <= 99
    ensures Header(name, t, size)[345] == NUL
  {
    assert Front(name, t, size)[345] == NUL;
  }

  lemma HeaderFlag(name: seq<Byte>, t: FileType, size: nat)
    requires |name| <= 99
    ensures var h := Header(name, t, size); h[156] == TypeFlag(t) && h[263] == ZERO && h[264] == ZERO
  {
  }

  lemma HeaderMagic(name: seq<Byte>, t: FileType, size: nat)
    requires |name| <= 99
    ensures Header(name, t, size)[257..263] == USTAR + [NUL]
  {
  }

  lemma HeaderSize(name: seq<Byte>, t: FileType, size: nat)
    requires |name| <= 99
    ensures Header(name, t, size)[124..136] == OctalField(size, 12)
  {
  }

  /** `rw-r--r--` or `rwxr-xr-x`, as octal digits. */
  function Mode(t: FileType): seq<Byte> {
    [ZERO, ZERO, ZERO, ZERO] + (if t == Regular then [ZERO + 6, ZERO + 4, ZERO + 4] else [ZERO + 7, ZERO + 5, ZERO + 5])
  }

  lemma ThreeDigits(a: nat, b: nat, c: nat)
    requires 0 < a < 8 && b < 8 && c < 8
    ensures Digits(64 * a + 8 * b + c) == [ZERO + a, ZERO + b, ZERO + c]
  {
    assert Digits(a) == [ZERO + a];
    assert Digits(8 * a + b) == [ZERO + a] + [ZERO + b];
    var v := 64 * a + 8 * b + c;
    assert v / 8 == 8 * a + b && v % 8 == c;
  }

  lemma ModeDigits(t: FileType)
    ensures OctalField(if t == Regular then 0x1a4 else 0x1ed, 8) == Mode(t) + [NUL]
  {
    if t == Regular { ThreeDigits(6, 4, 4); } else { ThreeDigits(7, 5, 5); }
    var v := if t == Regular then 0x1a4 else 0x1ed;
    assert Octal(v, 7) == [ZERO, ZERO, ZERO, ZERO] + Digits(v);
    assert Octal(v, 7)[..7] == Octal(v, 7);
  }

  /** The fields of a header that the parser does not look at: permissions, user and group zero, */
  lemma HeaderOwner(name: seq<Byte>, t: FileType, size: nat)
    requires |name| <= 99
    ensures var h := Header(name, t, size);
            h[100..108] == Mode(t) + [NUL] && h[108..116] == SEVEN_ZEROS + [NUL] && h[116..124] == SEVEN_ZEROS + [NUL]
  {
    ModeDigits(t);
    OwnerRest(name, t, 124);
    var o, h := Owner(name, t), Header(name, t, size);
    forall k | 100 <= k < 124 ensures h[k] == o[k] { OwnerStays(name, t, size, k); }
    SameSlice(h, o, 100, 108);
    SameSlice(h, o, 108, 116);
    SameSlice(h, o, 116, 124);
  }

  lemma OwnerStays(name: seq<Byte>, t: FileType, size: nat, k: nat)
    requires |name| <= 99 && 100 <= k < 124
    ensures Header(name, t, size)[k] == Owner(name, t)[k]
  {
    assert Header(name, t, size)[k] == Body(name, t, size)[k];
  }

  lemma SameSlice(a: seq<Byte>, b: seq<Byte>, i: nat, j: nat)
    requires i <= j <= |a| && j <= |b| && forall k :: i <= k < j ==> a[k] == b[k]
    ensures a[i..j] == b[i..j]
  {
  }

  /** the time and the names of user and group, */
  lemma HeaderNames(name: seq<Byte>, t: FileType, size: nat)
    requires |name| <= 99
    ensures var h := Header(name, t, size);
            h[136..148] == OctalField(1136102400, 12) && h[265..270] == ROOT + [NUL] && h[297..302] == ROOT + [NUL]
  {
    HeaderTime(name, t, size);
    HeaderUser(name, t, size);
    HeaderGroup(name, t, size);
  }

  lemma HeaderTime(name: seq<Byte>, t: FileType, size: nat)
    requires |name| <= 99
    ensures Header(name, t, size)[136..148] == OctalField(1136102400, 12)
  {
  }

  lemma HeaderUser(name: seq<Byte>, t: FileType, size: nat)
    requires |name| <= 99
    ensures Header(name, t, size)[265..270] == ROOT + [NUL]
  {
  }

  lemma HeaderGroup(name: seq<Byte>, t: FileType, size: nat)
    requires |name| <= 99
    ensures Header(name, t, size)[297..302] == ROOT + [NUL]
  {
  }

  /** and zeros everywhere else. */
  lemma HeaderZeros(name: seq<Byte>, t: FileType, size: nat, i: nat)
    requires |name| <= 99 && (157 <= i < 257 || 270 <= i < 297 || 302 <= i < HEADER_SIZE)
    ensures Header(name, t, size)[i] == NUL
  {
    OwnerRest(name, t, i);
    assert Header(name, t, size)[i] == Body(name, t, size)[i] == Owner(name, t)[i];
  }

  lemma OwnerRest(name: seq<Byte>, t: FileType, i: nat)
    requires |name| <= 99
    ensures var h := Owner(name, t);
            && h[100..108] == OctalField(if t == Regular then 0x1a4 else 0x1ed, 8)
            && h[108..116] == SEVEN_ZEROS + [NUL] && h[116..124] == SEVEN_ZEROS + [NUL]
            && (124 <= i < HEADER_SIZE ==> h[i] == NUL)
  {
  }

  lemma HeaderChksum(name: seq<Byte>, t: FileType, size: nat)
    requires |name| <= 99
    ensures var h := Header(name, t, size);
            h[CHKSUM..CHKSUM_END] == OctalField(Chksum(h, HEADER_SIZE), 8)
  {
    var h, body := Header(name, t, size), Body(name, t, size);
    ChksumIgnoresItself(h, body, HEADER_SIZE);
    assert h[CHKSUM..CHKSUM_END] == OctalField(Chksum(body, HEADER_SIZE), 8);
  }

  // ---------- making and parsing ----------

  /** What `ustar_parse_header` returns: the end of the archive, a file, or a message. */
  datatype Parsed = Eof | File(name: seq<Byte>, fileType: FileType, size: nat) | Error(message: string)

  /** The C string at the start of `s`. */
  function CString(s: seq<Byte>): seq<Byte> {
    if s == [] || s[0] == NUL then [] else [s[0]] + CString(s[1..])
  }

  lemma {:induction false} CStringIs(s: seq<Byte>, n: nat)
    requires n < |s| && s[n] == NUL && NUL !in s[..n]
    ensures CString(s) == s[..n]
  {
    if n == 0 {
    } else {
      assert s[..n][0] in s[..n];
      assert s[1..][..n - 1] == s[..n][1..];
      CStringIs(s[1..], n - 1);
    }
  }

  predicate AllZeros(h: seq<Byte>) {
    forall i :: 0 <= i < |h| ==> h[i] == 0
  }

  /** `ustar_parse_header` */
  function Parse(h: seq<Byte>): Parsed
    requires |h| == HEADER_SIZE
  {
    if AllZeros(h) then Eof
    else if h[257..263] != USTAR + [NUL] then Error("not a ustar archive")
    else if h[263] != ZERO || h[264] != ZERO then Error("invalid ustar version")
    else
      var chksum := ParseOctal(h[CHKSUM..CHKSUM_END], 0, false);
      if chksum == None then Error("corrupt chksum field")
      else if chksum.value != Chksum(h, HEADER_SIZE) then Error("checksum mismatch")
      else if h[99] != NUL || h[345] != NUL then Error("file name too long")
      else if h[156] != TypeFlag(Regular) && h[156] != TypeFlag(Directory) then Error("unimplemented file type")
      else if h[156] == TypeFlag(Regular) then
        var size := ParseOctal(h[124..136], 0, false);
        if size == None then Error("corrupt file size field")
        else if size.value > INT_MAX then Error("file too large")
        else File(Strip(CString(h[..100])), Regular, size.value)
      else File(Strip(CString(h[..100])), Directory, 0)
  }

  /** The size field of a regular file holds an `int`. */
  predicate SizeOk(h: seq<Byte>)
    requires |h| == HEADER_SIZE
  {
    var size := ParseOctal(h[124..136], 0, false);
    size.Some? && size.value <= INT_MAX
  }

  /** Which headers are accepted, field by field: any other is refused, unless it is all zeros and
      ends the archive. */
  lemma Accepts(h: seq<Byte>)
    requires |h| == HEADER_SIZE
    ensures Parse(h).Eof? <==> AllZeros(h)
    ensures Parse(h).File? <==>
            && h[257..263] == USTAR + [NUL] && h[263] == ZERO && h[264] == ZERO
            && ParseOctal(h[CHKSUM..CHKSUM_END], 0, false) == Some(Chksum(h, HEADER_SIZE))
            && h[99] == NUL && h[345] == NUL
            && (h[156] == ZERO || h[156] == ZERO + 5) && (h[156] == ZERO ==> SizeOk(h))
  {
    if h[257..263] == USTAR + [NUL] { assert h[257..263][0] == h[257]; }
  }

  /** What is read from a header that is accepted. */
  lemma AcceptedFields(h: seq<Byte>)
    requires |h| == HEADER_SIZE && Parse(h).File?
    ensures Parse(h).name == Strip(CString(h[..100]))
    ensures h[156] == if Parse(h).fileType == Regular then ZERO else ZERO + 5
    ensures if Parse(h).fileType == Regular then ParseOctal(h[124..136], 0, false) == Some(Parse(h).size)
            else Parse(h).size == 0
  {
  }

  /** What the parser looks at. */
  lemma ParsesTo(h: seq<Byte>, n: seq<Byte>, t: FileType, size: nat, chksum: nat)
    requires |h| == HEADER_SIZE && NUL !in n && Strip(n) == n && size <= ULONG_MAX && chksum == Chksum(h, HEADER_SIZE)
    requires |n| <= 99 && h[..|n|] == n && h[|n|] == NUL && h[99] == NUL && h[345] == NUL
    requires h[156] == TypeFlag(t) && h[263] == ZERO && h[264] == ZERO && h[257..263] == USTAR + [NUL]
    requires h[CHKSUM..CHKSUM_END] == OctalField(chksum, 8) && h[124..136] == OctalField(size, 12)
    ensures Parse(h) == if t == Directory then File(n, t, 0)
                        else if size <= INT_MAX then File(n, t, size) else Error("file too large")
  {
    NameBack(h, n);
    assert Pow8(7) == 0x20_0000 && Pow8(11) == 0x2_0000_0000;
    FieldRoundTrip(chksum, 8);
    FieldRoundTrip(size, 12);
  }

  /** An `int` as `%o` prints it. */
  function Unsigned(size: int): (v: nat)
    requires INT_MIN <= size <= INT_MAX
    ensures v <= ULONG_MAX
  {
    if size < 0 then size + ULONG_MAX + 1 else size
  }

  /** Parsing the header made for a file gives back its stripped name, its type, and its size,
      which is nothing for a directory.  A regular file of negative size is refused. */
  lemma RoundTrip(name: seq<Byte>, t: FileType, bytes: int)
    requires NUL !in name && |Strip(name)| <= 99 && INT_MIN <= bytes <= INT_MAX
    ensures Parse(Header(Strip(name), t, Unsigned(bytes)))
         == if t == Directory then File(Strip(name), t, 0)
            else if bytes >= 0 then File(Strip(name), t, bytes) else Error("file too large")
  {
    var n, size := Strip(name), Unsigned(bytes);
    StripTwice(name);
    HeaderName(n, t, size);
    HeaderPrefix(n, t, size);
    HeaderFlag(n, t, size);
    HeaderMagic(n, t, size);
    HeaderChksum(n, t, size);
    HeaderSize(n, t, size);
    ParsesTo(Header(n, t, size), n, t, size, Chksum(Header(n, t, size), HEADER_SIZE));
  }

  lemma NameBack(h: seq<Byte>, n: seq<Byte>)
    requires |h| == HEADER_SIZE && |n| <= 99 && h[..|n|] == n && h[|n|] == NUL && NUL !in n
    ensures CString(h[..100]) == n
  {
    assert h[..100][..|n|] == n;
    CStringIs(h[..100], |n|);
  }

  lemma {:induction false} CStringShort(s: seq<Byte>, k: nat)
    requires k < |s| && s[k] == NUL
    ensures |CString(s)| <= k && NUL !in CString(s)
  {
    if k == 0 || s[0] == NUL {
    } else {
      CStringShort(s[1..], k - 1);
    }
  }

  /** Whatever the bytes of a header are, a file that the parser accepts has a name that is not
      empty, is not absolute, is not `..` and does not start with `../`, of at most 99 bytes
      none of which is null, and a size that an `int` holds. */
  lemma ParsesSafely(h: seq<Byte>)
    requires |h| == HEADER_SIZE && Parse(h).File?
    ensures var name := Parse(h).name;
            && 0 < |name| <= 99 && NUL !in name && name[0] != SLASH
            && name != [DOT, DOT] && !([DOT, DOT, SLASH] <= name) && !([DOT, SLASH] <= name)
    ensures Parse(h).size <= INT_MAX
  {
    CStringShort(h[..100], 99);
    StripTwice(CString(h[..100]));
  }

  /** A header that differs from a good one in one byte outside the checksum is refused. */
  lemma DamageFound(h: seq<Byte>, i: nat, x: Byte)
    requires |h| == HEADER_SIZE && Parse(h).File? && i < HEADER_SIZE && !(CHKSUM <= i < CHKSUM_END) && x != h[i]
    ensures Parse(h[i := x]).Error?
  {
    var g := h[i := x];
    ChksumSees(h, i, x, HEADER_SIZE);
    assert g[CHKSUM..CHKSUM_END] == h[CHKSUM..CHKSUM_END];
    assert h[257..263][0] == h[257] != 0 && h[257..263][1] == h[258] != 0;
    assert g[257] != 0 || g[258] != 0;
  }

  /** A field is copied into the header. */
  method WriteField(header: array<Byte>, ofs: nat, bytes: seq<Byte>)
    requires ofs + |bytes| <= header.Length
    modifies header
    ensures header[..] == Splice(old(header[..]), ofs, bytes)
  {
    for i := 0 to |bytes|
      invariant forall k :: 0 <= k < header.Length ==>
                  header[k] == if ofs <= k < ofs + i then bytes[k - ofs] else old(header[k])
    {
      header[ofs + i] := bytes[i];
    }
  }

  /** `snprintf` of an octal number with zeros in front into a field of `n` bytes. */
  method WriteOctal(header: array<Byte>, ofs: nat, v: nat, n: nat)
    requires n > 1 && ofs + n <= header.Length
    modifies header
    ensures header[..] == Splice(old(header[..]), ofs, OctalField(v, n))
  {
    var out := FormatOctal(v, n - 1);
    WriteField(header, ofs, out[..n - 1] + [NUL]);
  }

  /** The fields that `ustar_make_header` fills in first. */
  method WriteFront(header: array<Byte>, name: seq<Byte>, t: FileType, size: nat)
    requires header.Length == HEADER_SIZE && |name| <= 99
    modifies header
    ensures header[..] == Front(name, t, size)
  {
    WriteField(header, 0, seq(HEADER_SIZE, _ => 0));
    assert header[..] == seq(HEADER_SIZE, _ => 0);
    WriteField(header, 0, name + [NUL]);
    WriteOctal(header, 100, if t == Regular then 0x1a4 else 0x1ed, 8);
    WriteField(header, 108, SEVEN_ZEROS + [NUL]);
    WriteField(header, 116, SEVEN_ZEROS + [NUL]);
    WriteOctal(header, 124, size, 12);
    WriteOctal(header, 136, 1136102400, 12);
  }

  /** All fields but the checksum. */
  method WriteBody(header: array<Byte>, name: seq<Byte>, t: FileType, size: nat)
    requires header.Length == HEADER_SIZE && |name| <= 99
    modifies header
    ensures header[..] == Body(name, t, size)
  {
    WriteFront(header, name, t, size);
    WriteField(header, 156, [TypeFlag(t)]);
    WriteField(header, 257, USTAR + [NUL]);
    WriteField(header, 263, [ZERO, ZERO]);
    WriteField(header, 297, ROOT + [NUL]);
    WriteField(header, 265, ROOT + [NUL]);
  }

  /** `ustar_make_header` */
  method MakeHeader(fileName: seq<Byte>, t: FileType, size: int, header: array<Byte>) returns (ok: bool)
    requires header.Length == HEADER_SIZE && INT_MIN <= size <= INT_MAX
    modifies header
    ensures ok <==> |Strip(fileName)| <= 99
    ensures header[..] == if ok then Header(Strip(fileName), t, Unsigned(size)) else old(header[..])
  {
    var name := StripPrefixes(fileName);
    if |name| > 99 { return false; }
    WriteBody(header, name, t, Unsigned(size));
    var chksum := CalculateChksum(header[..]);
    WriteOctal(header, CHKSUM, chksum, 8);
    return true;
  }

  /** `is_all_zeros` */
  method IsAllZeros(block: seq<Byte>) returns (zeros: bool)
    ensures zeros == AllZeros(block)
  {
    for i := 0 to |block|
      invariant AllZeros(block[..i])
    {
      if block[i] != 0 { return false; }
      assert block[..i + 1] == block[..i] + [block[i]];
    }
    assert block[..|block|] == block;
    return true;
  }

  /** `ustar_parse_header` */
  method ParseHeader(h: seq<Byte>) returns (r: Parsed)
    requires |h| == HEADER_SIZE
    ensures r == Parse(h)
  {
    var zeros := IsAllZeros(h);
    if zeros { return Eof; }
    if h[257..263] != USTAR + [NUL] { return Error("not a ustar archive"); }
    if h[263] != ZERO || h[264] != ZERO { return Error("invalid ustar version"); }
    var chksum := ParseOctalField(h[CHKSUM..CHKSUM_END]);
    if chksum == None { return Error("corrupt chksum field"); }
    var sum := CalculateChksum(h);
    if chksum.value != sum { return Error("checksum mismatch"); }
    if h[99] != NUL || h[345] != NUL { return Error("file name too long"); }
    if h[156] != TypeFlag(Regular) && h[156] != TypeFlag(Directory) { return Error("unimplemented file type"); }
    var size := Some(0);
    if h[156] == TypeFlag(Regular) {
      size := ParseOctalField(h[124..136]);
      if size == None { return Error("corrupt file size field"); }
      if size.value > INT_MAX { return Error("file too large"); }
    }
    var name := StripPrefixes(CString(h[..100]));
    return File(name, if h[156] == TypeFlag(Regular) then Regular else Directory, size.value);
  }
}
