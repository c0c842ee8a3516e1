/**
 The swap table of vm/swap.c: a stack of free slots over a device of sectors, eight
 sectors to a page.
 */
module Swap {
  import opened Base
  import opened Counting

  type Page = p: seq<Byte> | |p| == PAGE_SIZE witness seq(PAGE_SIZE, i => 0)
  type Sector = s: seq<Byte> | |s| == SECTOR_SIZE witness seq(SECTOR_SIZE, i => 0)

  const SECTORS_PER_PAGE := 8

  /** The swap partition as paging sees it: the free slots in stack order (top last), and
      the page in every slot. */
  datatype View = View(free: seq<nat>, pages: seq<Page>) {
    /** Free slots are distinct slots of the device. */
    ghost predicate Valid() {
      && (forall i :: 0 <= i < |free| ==> free[i] < |pages|)
      && (forall i, j :: 0 <= i < j < |free| ==> free[i] != free[j])
    }

    /** The slots that hold a page nobody has read back yet. */
    ghost function InUse(): set<nat> {
      set s: nat | s < |pages| && s !in free
    }

    /** The top slot comes off the stack and receives the page. */
    function Out(p: Page): View
      requires free != [] && free[|free| - 1] < |pages|
    {
      View(free[..|free| - 1], pages[free[|free| - 1] := p])
    }

    /** The slot goes back on the stack. */
    function In(slot: nat): View {
      View(free + [slot], pages)
    }
  }

  /** Writing a page out takes one slot, keeps every other page, and conserves the slots. */
  lemma OutConserves(v: View, p: Page)
    requires v.Valid() && v.free != []
    ensures var slot, v' := v.free[|v.free| - 1], v.Out(p);
            && v'.Valid() && v'.pages[slot] == p && v'.InUse() == v.InUse() + {slot} && slot !in v.InUse()
            && forall s :: s in v.InUse() ==> v'.pages[s] == v.pages[s]
  {
    var n := |v.free| - 1;
    var slot, v' := v.free[n], v.Out(p);
    assert v.free == v'.free + [slot];
    assert slot !in v'.free;
  }

  /** Reading a page in gives its slot back and touches no other page. */
  lemma InConserves(v: View, slot: nat)
    requires v.Valid() && slot in v.InUse()
    ensures var v' := v.In(slot);
            v'.Valid() && v'.InUse() == v.InUse() - {slot} && v'.pages == v.pages && |v'.free| <= |v.pages|
  {
    var v' := v.In(slot);
    assert slot !in v.free;
    forall s ensures s in v'.free <==> s in v.free || s == slot {}
    DistinctBound(v'.free, |v.pages|);
  }

  /** Distinct numbers below `n` are at most `n` many: the stack never overflows. */
  lemma DistinctBound(s: seq<nat>, n: nat)
    requires forall i :: 0 <= i < |s| ==> s[i] < n
    requires forall i, j :: 0 <= i < j < |s| ==> s[i] != s[j]
    ensures |s| <= n
  {
    var a := set x | x in s;
    SetSize(s, a);
    SubsetSize(a, Below(n));
  }

  ghost function Below(n: nat): (b: set<nat>)
    ensures |b| == n && forall x: nat :: x in b <==> x < n
  {
    if n == 0 then {} else Below(n - 1) + {n - 1}
  }

  lemma {:induction false} SetSize(s: seq<nat>, a: set<nat>)
    requires forall i, j :: 0 <= i < j < |s| ==> s[i] != s[j]
    requires a == set x | x in s
    ensures |a| == |s|
  {
    if s == [] {
    } else {
      var n := |s| - 1;
      var b := set x | x in s[..n];
      SetSize(s[..n], b);
      assert s[n] !in b;
      assert s == s[..n] + [s[n]];
      assert a == b + {s[n]};
    }
  }

  // ---------- the table and the device ----------

  /** The page that eight sectors make up. */
  function Joined(ss: seq<Sector>): (p: seq<Byte>)
    ensures |p| == SECTOR_SIZE * |ss|
  {
    if ss == [] then [] else Joined(ss[..|ss| - 1]) + ss[|ss| - 1]
  }

  lemma {:induction false} JoinedChunks(ss: seq<Sector>, p: seq<Byte>)
    requires |p| == SECTOR_SIZE * |ss|
    requires forall i :: 0 <= i < |ss| ==> ss[i] == p[i * SECTOR_SIZE..(i + 1) * SECTOR_SIZE]
    ensures Joined(ss) == p
  {
    if ss == [] {
    } else {
      var n := |ss| - 1;
      var q := p[..n * SECTOR_SIZE];
      forall i | 0 <= i < n ensures ss[..n][i] == q[i * SECTOR_SIZE..(i + 1) * SECTOR_SIZE] {
        assert (i + 1) * SECTOR_SIZE <= n * SECTOR_SIZE;
      }
      JoinedChunks(ss[..n], q);
      assert p == q + p[n * SECTOR_SIZE..];
    }
  }

  /** The page in each slot of the device. */
  function PageAt(device: seq<Sector>, slot: nat): (p: Page)
    requires (slot + 1) * SECTORS_PER_PAGE <= |device|
  {
    Joined(device[slot * SECTORS_PER_PAGE..(slot + 1) * SECTORS_PER_PAGE])
  }

  function PagesOf(device: seq<Sector>, slots: nat): (ps: seq<Page>)
    requires slots * SECTORS_PER_PAGE <= |device|
    ensures |ps| == slots
    ensures forall s :: 0 <= s < slots ==> ps[s] == PageAt(device, s)
  {
    seq(slots, s requires 0 <= s < slots => PageAt(device, s))
  }

  /** A transfer that fills the sectors of one slot with a page changes that slot only. */
  lemma SlotWritten(before: seq<Sector>, after: seq<Sector>, slots: nat, slot: nat, p: Page)
    requires slot < slots && slots * SECTORS_PER_PAGE <= |before| == |after|
    requires forall i :: 0 <= i < SECTORS_PER_PAGE ==>
               after[slot * SECTORS_PER_PAGE + i] == p[i * SECTOR_SIZE..(i + 1) * SECTOR_SIZE]
    requires forall k :: 0 <= k < |after| && !(slot * SECTORS_PER_PAGE <= k < (slot + 1) * SECTORS_PER_PAGE) ==>
               after[k] == before[k]
    ensures PagesOf(after, slots) == PagesOf(before, slots)[slot := p]
  {
    forall s | 0 <= s < slots ensures PageAt(after, s) == PagesOf(before, slots)[slot := p][s] {
      var ss := after[s * SECTORS_PER_PAGE..(s + 1) * SECTORS_PER_PAGE];
      if s == slot {
        forall i | 0 <= i < |ss| ensures ss[i] == p[i * SECTOR_SIZE..(i + 1) * SECTOR_SIZE] {
          assert ss[i] == after[slot * SECTORS_PER_PAGE + i];
        }
        JoinedChunks(ss, p);
      } else {
        assert ss == before[s * SECTORS_PER_PAGE..(s + 1) * SECTORS_PER_PAGE];
      }
    }
  }

  class SwapTable {
    const slots: nat
    const table: array<nat>
    var top: int
    var device: seq<Sector>

    ghost predicate Valid()
      reads this, table
    {
      && table.Length == slots && slots * SECTORS_PER_PAGE <= |device|
      && -1 <= top < slots && Contents().Valid()
    }

    ghost function Contents(): View
      reads this, table
      requires table.Length == slots && slots * SECTORS_PER_PAGE <= |device| && -1 <= top < slots
    {
      View(table[..top + 1], PagesOf(device, slots))
    }

    /** `init_swap_table`: every slot is free. */
    constructor (device: seq<Sector>)
      ensures Valid() && fresh(table) && this.device == device
      ensures slots == |device| / SECTORS_PER_PAGE && Contents().InUse() == {}
    {
      var n := |device| / SECTORS_PER_PAGE;
      slots := n;
      table := new nat[n](i => i);
      top := n - 1;
      this.device := device;
      new;
      ghost var free := table[..top + 1];
      assert free == table[..n];
      forall s: nat | s < n ensures s in free { assert free[s] == s; }
    }

    /** `write_to_swap`; with no free slot the kernel panics. */
    method WriteToSwap(page: Page) returns (slot: Option<nat>)
      requires Valid()
      modifies this, table
      ensures Valid()
      ensures slot == None <==> old(Contents()).free == []
      ensures slot == None ==> Contents() == old(Contents())
      ensures slot.Some? ==> slot.value == old(Contents()).free[|old(Contents()).free| - 1]
      ensures slot.Some? ==> Contents() == old(Contents()).Out(page)
    {
      if top < 0 {
        return None;
      }
      ghost var before := Contents();
      OutConserves(before, page);
      var s := table[top];
      table[top] := 0xBADC_0DE5;
      top := top - 1;
      ghost var was := device;
      var i := 0;
      while i < SECTORS_PER_PAGE
        invariant 0 <= i <= SECTORS_PER_PAGE && |device| == |was|
        invariant -1 <= top < slots && table[..top + 1] == before.free[..|before.free| - 1]
        invariant forall j :: 0 <= j < i ==>
                    device[s * SECTORS_PER_PAGE + j] == page[j * SECTOR_SIZE..(j + 1) * SECTOR_SIZE]
        invariant forall k :: 0 <= k < |was| && !(s * SECTORS_PER_PAGE <= k < s * SECTORS_PER_PAGE + i) ==>
                    device[k] == was[k]
      {
        device := device[s * SECTORS_PER_PAGE + i := page[i * SECTOR_SIZE..(i + 1) * SECTOR_SIZE]];
        i := i + 1;
      }
      SlotWritten(was, device, slots, s, page);
      slot := Some(s);
    }

    /** `free_slot`: the assertion that the stack has room holds. */
    method FreeSlot(slot: nat)
      requires Valid() && slot in Contents().InUse()
      modifies this`top, table
      ensures Valid() && Contents() == old(Contents()).In(slot) && device == old(device)
    {
      InConserves(Contents(), slot);
      ghost var was := Contents().free;
      top := top + 1;
      assert top < slots;
      table[top] := slot;
      assert table[..top + 1] == was + [slot];
    }

    /** `read_from_swap`: the page comes back as it was written, and the slot is free. */
    method ReadFromSwap(slot: nat) returns (page: Page)
      requires Valid() && slot in Contents().InUse()
      modifies this`top, table
      ensures Valid() && page == old(Contents()).pages[slot]
      ensures Contents() == old(Contents()).In(slot) && device == old(device)
    {
      var sectors: seq<Sector>, buffer: seq<Byte> := [], [];
      var i := 0;
      while i < SECTORS_PER_PAGE
        invariant 0 <= i <= SECTORS_PER_PAGE
        invariant sectors == device[slot * SECTORS_PER_PAGE..slot * SECTORS_PER_PAGE + i] && buffer == Joined(sectors)
      {
        var sector := device[slot * SECTORS_PER_PAGE + i];
        sectors := sectors + [sector];
        assert sectors[..|sectors| - 1] == device[slot * SECTORS_PER_PAGE..slot * SECTORS_PER_PAGE + i];
        buffer := buffer + sector;
        i := i + 1;
      }
      page := buffer;
      FreeSlot(slot);
    }
  }
}
