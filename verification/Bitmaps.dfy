/**
 The bitmaps of lib/kernel/bitmap.c: an array of 32-bit words that stands for an array of
 bits, and the first-fit search that every allocator of the kernel uses.
 */
module Bitmaps {
  import opened Base

  const ELEM_BITS := 32

  /** An `elem_type`, as its bits from the least significant on. */
  type Word = w: seq<bool> | |w| == 32 witness seq(32, _ => false)

  function Zero(): Word {
    seq(32, _ => false)
  }

  function Or(a: Word, b: Word): Word {
    seq(32, i requires 0 <= i < 32 => a[i] || b[i])
  }

  function And(a: Word, b: Word): Word {
    seq(32, i requires 0 <= i < 32 => a[i] && b[i])
  }

  function Not(a: Word): Word {
    seq(32, i requires 0 <= i < 32 => !a[i])
  }

  /** `bit_mask` */
  function BitMask(i: nat): Word {
    seq(32, k => k == i % ELEM_BITS)
  }

  /** Testing a word against a mask reads one of its bits. */
  lemma MaskReads(w: Word, i: nat)
    ensures And(w, BitMask(i)) != Zero() <==> w[i % ELEM_BITS]
  {
    var r := And(w, BitMask(i));
    if w[i % ELEM_BITS] {
      assert r[i % ELEM_BITS] && !Zero()[i % ELEM_BITS];
    } else {
      assert forall k :: 0 <= k < 32 ==> r[k] == Zero()[k];
    }
  }

  /** The bits that the words stand for. */
  ghost function BitsOf(words: seq<Word>, n: nat): (b: seq<bool>)
    requires n <= ELEM_BITS * |words|
    ensures |b| == n && forall i :: 0 <= i < n ==> b[i] == words[i / ELEM_BITS][i % ELEM_BITS]
  {
    seq(n, i requires 0 <= i < n => words[i / ELEM_BITS][i % ELEM_BITS])
  }

  /** Setting or clearing a bit of one word does so to one bit of the bitmap. */
  lemma SetOne(words: seq<Word>, n: nat, i: nat)
    requires i < n <= ELEM_BITS * |words|
    ensures var k := i / ELEM_BITS;
            && BitsOf(words[k := Or(words[k], BitMask(i))], n) == BitsOf(words, n)[i := true]
            && BitsOf(words[k := And(words[k], Not(BitMask(i)))], n) == BitsOf(words, n)[i := false]
  {
    var k := i / ELEM_BITS;
    var b := BitsOf(words, n);
    var marked, reset := words[k := Or(words[k], BitMask(i))], words[k := And(words[k], Not(BitMask(i)))];
    forall j | 0 <= j < n ensures BitsOf(marked, n)[j] == b[i := true][j] && BitsOf(reset, n)[j] == b[i := false][j] {
      if j / ELEM_BITS == k && j % ELEM_BITS == i % ELEM_BITS { assert j == i; }
    }
  }

  /** All `cnt` bits from `start` on have the value. */
  ghost predicate AllBits(b: seq<bool>, start: nat, cnt: nat, value: bool)
    requires start + cnt <= |b|
  {
    forall i :: start <= i < start + cnt ==> b[i] == value
  }

  /** The `cnt` bits from `start` on take the value. */
  function Filled(b: seq<bool>, start: nat, cnt: nat, value: bool): (r: seq<bool>)
    requires start + cnt <= |b|
    ensures |r| == |b| && forall i :: 0 <= i < |b| ==> r[i] == if start <= i < start + cnt then value else b[i]
  {
    b[..start] + seq(cnt, _ => value) + b[start + cnt..]
  }

  /** `struct bitmap` */
  class Bitmap {
    const bitCnt: nat
    const bits: array<Word>

    ghost predicate Valid() {
      bits.Length == (bitCnt + ELEM_BITS - 1) / ELEM_BITS
    }

    ghost function Bits(): (b: seq<bool>)
      requires Valid()
      reads bits
      ensures |b| == bitCnt
    {
      BitsOf(bits[..], bitCnt)
    }

    /** `bitmap_create` */
    constructor (n: nat)
      ensures Valid() && bitCnt == n && fresh(bits) && AllBits(Bits(), 0, n, false)
    {
      bitCnt := n;
      bits := new Word[(n + ELEM_BITS - 1) / ELEM_BITS](_ => Zero());
      new;
      SetMultiple(0, n, false);
    }

    /** `bitmap_mark` */
    method Mark(i: nat)
      requires Valid() && i < bitCnt
      modifies bits
      ensures Bits() == old(Bits())[i := true]
    {
      SetOne(bits[..], bitCnt, i);
      bits[i / ELEM_BITS] := Or(bits[i / ELEM_BITS], BitMask(i));
      assert bits[..] == old(bits[..])[i / ELEM_BITS := bits[i / ELEM_BITS]];
    }

    /** `bitmap_reset` */
    method Reset(i: nat)
      requires Valid() && i < bitCnt
      modifies bits
      ensures Bits() == old(Bits())[i := false]
    {
      SetOne(bits[..], bitCnt, i);
      bits[i / ELEM_BITS] := And(bits[i / ELEM_BITS], Not(BitMask(i)));
      assert bits[..] == old(bits[..])[i / ELEM_BITS := bits[i / ELEM_BITS]];
    }

    /** `bitmap_set` */
    method Set(i: nat, value: bool)
      requires Valid() && i < bitCnt
      modifies bits
      ensures Bits() == old(Bits())[i := value]
    {
      if value { Mark(i); } else { Reset(i); }
    }

    /** `bitmap_test` */
    method Test(i: nat) returns (value: bool)
      requires Valid() && i < bitCnt
      ensures value == Bits()[i]
    {
      value := And(bits[i / ELEM_BITS], BitMask(i)) != Zero();
      MaskReads(bits[i / ELEM_BITS], i);
    }

    /** `bitmap_set_multiple` */
    method SetMultiple(start: nat, cnt: nat, value: bool)
      requires Valid() && start + cnt <= bitCnt
      modifies bits
      ensures Bits() == Filled(old(Bits()), start, cnt, value)
    {
      for i := 0 to cnt
        invariant Bits() == Filled(old(Bits()), start, i, value)
      {
        Set(start + i, value);
      }
    }

    /** `bitmap_contains` */
    method Contains(start: nat, cnt: nat, value: bool) returns (found: bool)
      requires Valid() && start + cnt <= bitCnt
      ensures found <==> !AllBits(Bits(), start, cnt, !value)
    {
      for i := 0 to cnt
        invariant AllBits(Bits(), start, i, !value)
      {
        var bit := Test(start + i);
        if bit == value { return true; }
      }
      return false;
    }

    /** `bitmap_scan`: the first group of `cnt` bits at or after `start` with the value. */
    method Scan(start: nat, cnt: nat, value: bool) returns (at: Option<nat>)
      requires Valid() && start <= bitCnt
      ensures at == FirstFit(Bits(), start, cnt, value)
    {
      if cnt <= bitCnt {
        var i := start;
        while i <= bitCnt - cnt
          invariant start <= i && FirstFit(Bits(), start, cnt, value) == FirstFit(Bits(), i, cnt, value)
        {
          var other := Contains(i, cnt, !value);
          if !other { return Some(i); }
          i := i + 1;
        }
      }
      return None;
    }

    /** `bitmap_scan_and_flip` */
    method ScanAndFlip(start: nat, cnt: nat, value: bool) returns (at: Option<nat>)
      requires Valid() && start <= bitCnt
      modifies bits
      ensures at == FirstFit(old(Bits()), start, cnt, value)
      ensures Bits() == if at == None then old(Bits()) else Filled(old(Bits()), at.value, cnt, !value)
    {
      at := Scan(start, cnt, value);
      if at != None { SetMultiple(at.value, cnt, !value); }
    }
  }

  /** First fit, bit by bit. */
  ghost function FirstFit(b: seq<bool>, start: nat, cnt: nat, value: bool): (at: Option<nat>)
    ensures at.Some? ==> start <= at.value && at.value + cnt <= |b| && AllBits(b, at.value, cnt, value)
    decreases |b| + 1 - start
  {
    if start + cnt > |b| then None
    else if AllBits(b, start, cnt, value) then Some(start)
    else FirstFit(b, start + 1, cnt, value)
  }

  /** First fit finds a group whenever there is one, and none before the one it finds. */
  lemma {:induction false} FirstFitLeast(b: seq<bool>, start: nat, cnt: nat, value: bool, i: nat)
    requires start <= i && i + cnt <= |b| && AllBits(b, i, cnt, value)
    ensures FirstFit(b, start, cnt, value).Some? && FirstFit(b, start, cnt, value).value <= i
    decreases i - start
  {
    if start == i {
    } else {
      FirstFitLeast(b, start + 1, cnt, value, i);
    }
  }

  /** No bits at all are found at once, where the scan starts: `bitmap_scan_and_flip` of count
      0, which flips nothing, returns 0 if and only if it started there. */
  lemma ScanZero(b: seq<bool>, start: nat, value: bool)
    requires start <= |b|
    ensures FirstFit(b, start, 0, value) == Some(start)
    ensures FirstFit(b, start, 0, value) == Some(0) <==> start == 0
    ensures Filled(b, start, 0, !value) == b
  {
    assert AllBits(b, start, 0, value);
  }
}
