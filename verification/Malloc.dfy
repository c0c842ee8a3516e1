/**
 threads/malloc.c on the kernel pool: the descriptors, the arenas and the free lists that
 `malloc`, `free` and `realloc` change step by step, against the operations of Heap.
 */
module MallocCode {
  import opened Base
  import opened Counting
  import opened Pages
  import H = Heap

  type Addr = H.Addr

  /** `list` without block `b`: `list_remove` of a block that is on the list once. */
  function Erase(list: seq<Addr>, b: Addr): seq<Addr> {
    if list == [] then [] else (if list[0] == b then [] else [list[0]]) + Erase(list[1..], b)
  }

  ghost function EraseSlots(list: seq<Addr>, page: nat, d: nat, n: nat): seq<Addr> {
    if n == 0 then list else Erase(EraseSlots(list, page, d, n - 1), H.Slot(page, d, n - 1))
  }

  lemma {:induction false} EraseSlotsCons(x: Addr, list: seq<Addr>, page: nat, d: nat, n: nat)
    ensures EraseSlots([x] + list, page, d, n)
         == (if exists i :: 0 <= i < n && x == H.Slot(page, d, i) then [] else [x]) + EraseSlots(list, page, d, n)
  {
    if n == 0 {
    } else {
      EraseSlotsCons(x, list, page, d, n - 1);
      var rest := EraseSlots(list, page, d, n - 1);
      if exists i :: 0 <= i < n - 1 && x == H.Slot(page, d, i) {
        assert [] + rest == rest;
      } else {
        assert ([x] + rest)[1..] == rest;
      }
    }
  }

  lemma {:induction false} EraseSlotsNil(page: nat, d: nat, n: nat)
    ensures EraseSlots([], page, d, n) == []
  {
    if n == 0 {
    } else {
      EraseSlotsNil(page, d, n - 1);
    }
  }

  /** Removing all blocks of an arena one by one leaves the list off its page. */
  lemma {:induction false} ErasesPage(list: seq<Addr>, page: nat, d: nat)
    requires forall b :: b in list && H.PageOf(b) == page ==> H.IsBlock(page, d, b)
    ensures EraseSlots(list, page, d, H.PerArena(d)) == H.OffPage(list, page)
  {
    if list == [] {
      EraseSlotsNil(page, d, H.PerArena(d));
    } else {
      var x, rest := list[0], list[1..];
      assert list == [x] + rest;
      EraseSlotsCons(x, rest, page, d, H.PerArena(d));
      ErasesPage(rest, page, d);
      assert H.PageOf(x) == page <==> exists i :: 0 <= i < H.PerArena(d) && x == H.Slot(page, d, i) by {
        forall i | 0 <= i < H.PerArena(d) ensures H.PageOf(H.Slot(page, d, i)) == page { H.SlotInside(page, d, i); }
        assert x in list;
      }
    }
  }

  /** What a block holds before its owner writes to it: anything. */
  method Junk(n: int) returns (bytes: seq<Byte>)
    requires n >= 0
    ensures |bytes| == n
  {
    assert |seq(n, _ => 0 as Byte)| == n;
    bytes :| |bytes| == n;
  }

  class Allocator {
    const pool: Pool
    var blockSizes: seq<nat>
    var arenas: map<nat, H.Arena>
    var lists: seq<seq<Addr>>
    ghost var live: set<Addr>
    var bytes: map<Addr, seq<Byte>>

    ghost function View(): H.State
      requires pool.Valid()
      reads this, pool.usedMap.bits
    {
      H.State(pool.View(), arenas, lists, live)
    }

    ghost predicate Valid()
      reads this, pool.usedMap.bits
    {
      && pool.Valid() && H.Good(View())
      && blockSizes == seq(H.DESCS, d requires 0 <= d < H.DESCS => H.Size(d))
      && H.BytesOk(View(), bytes)
    }

    /** `malloc_init`: the sizes double from 16 bytes up to half a page, exclusive. */
    constructor (p: Pool)
      requires p.Valid()
      ensures Valid() && pool == p && live == {} && arenas == map[]
    {
      pool, arenas, live, bytes := p, map[], {}, map[];
      var size, sizes, empty := 16, [], [];
      while size < PAGE_SIZE / 2
        invariant |sizes| == |empty| <= H.DESCS && size == H.Size(|sizes|)
        invariant forall d :: 0 <= d < |sizes| ==> sizes[d] == H.Size(d) && empty[d] == []
        decreases H.DESCS - |sizes|
      {
        assert H.Size(H.DESCS) == 2048;
        sizes, empty := sizes + [size], empty + [[]];
        size := 2 * size;
      }
      assert |sizes| == H.DESCS by { if |sizes| < 7 { H.SizesFit(|sizes|); } }
      blockSizes, lists := sizes, empty;
    }

    /** The first descriptor with blocks of at least `size` bytes. */
    method FindDesc(size: nat) returns (d: nat)
      requires Valid()
      ensures d == H.Choose(size, 0)
    {
      d := 0;
      while d < |blockSizes| && blockSizes[d] < size
        invariant d <= H.DESCS && H.Choose(size, d) == H.Choose(size, 0)
      {
        d := d + 1;
      }
    }

    /** A new arena's blocks go to the back of the free list. */
    method AddArena(d: nat, page: nat)
      requires |lists| == H.DESCS && d < H.DESCS
      modifies this`arenas, this`lists
      ensures arenas == old(arenas)[page := H.Small(d, H.PerArena(d))]
      ensures lists == old(lists)[d := old(lists)[d] + H.Slots(page, d, H.PerArena(d))]
    {
      arenas := arenas[page := H.Small(d, H.PerArena(d))];
      var n := H.PerArena(d);
      assert old(lists)[d] + H.Slots(page, d, 0) == old(lists)[d];
      for i := 0 to n
        invariant arenas == old(arenas)[page := H.Small(d, n)]
        invariant lists == old(lists)[d := old(lists)[d] + H.Slots(page, d, i)]
      {
        var was, b := H.Slots(page, d, i), H.Slot(page, d, i);
        assert H.Slots(page, d, i + 1) == was + [b];
        assert old(lists)[d] + was + [b] == old(lists)[d] + (was + [b]);
        lists := lists[d := lists[d] + [b]];
      }
    }

    /** The first block of a free list goes to the caller. */
    method TakeFirst(d: nat) returns (b: Addr)
      requires pool.Valid() && H.Inv(View()) && d < H.DESCS && lists[d] != []
      modifies this`arenas, this`lists, this`live
      ensures Some(b) == H.Take(old(View()), d).1 && View() == H.Take(old(View()), d).0
    {
      H.PopInv(View(), d);
      b := lists[d][0];
      lists := lists[d := lists[d][1..]];
      var page := H.PageOf(b);
      arenas := arenas[page := arenas[page].(freeCnt := arenas[page].freeCnt - 1)];
      live := live + {b};
    }

    /** `malloc` of a size that has a descriptor. */
    method MallocSmall(d: nat) returns (b: Option<Addr>)
      requires pool.Valid() && H.Inv(View()) && d < H.DESCS
      modifies this`arenas, this`lists, this`live, pool.usedMap.bits
      ensures var h := old(View());
              View() == H.MallocSmall(h, d).0 && b == H.MallocSmall(h, d).1
    {
      if lists[d] == [] {
        ghost var h := View();
        var page := pool.Get(1);
        if page == None { return None; }
        H.NewArenaInv(h, d, pool.View(), page.value);
        AddArena(d, page.value);
        H.SlotsFirst(page.value, d);
      }
      var first := TakeFirst(d);
      b := Some(first);
    }

    /** `malloc` of a size without a descriptor, on pages of its own. */
    method MallocBig(cnt: nat) returns (b: Option<Addr>)
      requires pool.Valid() && H.Inv(View())
      modifies this`arenas, this`live, pool.usedMap.bits
      ensures View() == H.MallocBig(old(View()), cnt).0 && b == H.MallocBig(old(View()), cnt).1
      ensures b != None ==> cnt > 0
    {
      var page := pool.Get(cnt);
      if page == None { return None; }
      arenas := arenas[page.value := H.Big(cnt)];
      b := Some(page.value * PAGE_SIZE + H.ARENA);
      live := live + {b.value};
    }

    /** `malloc` */
    method Malloc(size: nat) returns (b: Option<Addr>)
      requires Valid() && size < H.WORD
      modifies this`arenas, this`lists, this`live, this`bytes, pool.usedMap.bits
      ensures Valid() && View() == H.Malloc(old(View()), size).0 && b == H.Malloc(old(View()), size).1
      ensures forall c :: c in old(live) ==> c in bytes && bytes[c] == old(bytes)[c]
    {
      H.MallocInv(View(), size);
      if size == 0 { return None; }
      var d := FindDesc(size);
      var n: int;
      if d == |blockSizes| {
        n := PAGE_SIZE * H.PageCnt(size) - H.ARENA;
        b := MallocBig(H.PageCnt(size));
      } else {
        n := blockSizes[d];
        b := MallocSmall(d);
      }
      if b == None { return None; }
      var junk := Junk(n);
      H.BytesAfterMalloc(old(View()), size, bytes, junk);
      bytes := bytes[b.value := junk];
    }

    /** The blocks of an arena leave the free list, one by one. */
    method RemoveBlocks(d: nat, page: nat)
      requires |lists| == H.DESCS && d < H.DESCS
      requires forall b :: b in lists[d] && H.PageOf(b) == page ==> H.IsBlock(page, d, b)
      modifies this`lists
      ensures lists == old(lists)[d := H.OffPage(old(lists)[d], page)]
    {
      var n := H.PerArena(d);
      for i := 0 to n
        invariant lists == old(lists)[d := EraseSlots(old(lists)[d], page, d, i)]
      {
        lists := lists[d := Erase(lists[d], H.Slot(page, d, i))];
      }
      ErasesPage(old(lists)[d], page, d);
    }

    /** `free` of a normal block. */
    method FreeSmall(b: Addr)
      requires pool.Valid() && H.Good(View()) && b in live && H.PageOf(b) in arenas && arenas[H.PageOf(b)].Small?
      modifies this`arenas, this`lists, this`live, pool.usedMap.bits
      ensures View() == H.Free(old(View()), b)
    {
      ghost var h := View();
      H.PushInv(h, b);
      var page := H.PageOf(b);
      var d := arenas[page].desc;
      lists := lists[d := [b] + lists[d]];
      arenas := arenas[page := arenas[page].(freeCnt := arenas[page].freeCnt + 1)];
      live := live - {b};
      ghost var h1 := View();
      assert h1 == H.Push(h, b);
      H.CountBound(h1, page);
      if arenas[page].freeCnt >= H.PerArena(d) {
        assert arenas[page].freeCnt == H.PerArena(d);
        H.DropInv(h1, page);
        assert H.ListOk(h1, d);
        RemoveBlocks(d, page);
        arenas := arenas - {page};
        pool.usedMap.SetMultiple(page - pool.base, 1, false);
      }
    }

    /** `free`; a null pointer is ignored. */
    method Free(p: Option<Addr>)
      requires Valid() && (p != None ==> p.value in live)
      modifies this`arenas, this`lists, this`live, this`bytes, pool.usedMap.bits
      ensures Valid() && View() == if p == None then old(View()) else H.Free(old(View()), p.value)
      ensures forall c :: c in live ==> c in old(bytes) && bytes[c] == old(bytes)[c]
    {
      if p == None { return; }
      ghost var h := View();
      H.FreeInv(h, p.value);
      assert H.LiveOk(h, p.value);
      var page := H.PageOf(p.value);
      if arenas[page].Small? {
        FreeSmall(p.value);
      } else {
        H.DropBigInv(h, page);
        pool.usedMap.SetMultiple(page - pool.base, arenas[page].pages, false);
        arenas := arenas - {page};
        live := live - {p.value};
      }
      bytes := bytes - {p.value};
      H.BytesAfterFree(h, p.value, old(bytes));
    }

    /** The copy of `realloc`. */
    method CopyBlock(to: Addr, from: Addr, size: nat)
      requires Valid() && to in live && from in live && Min(size, |bytes[from]|) <= |bytes[to]|
      modifies this`bytes
      ensures Valid() && bytes.Keys == old(bytes).Keys && |bytes[to]| == |old(bytes)[to]|
      ensures var n := Min(size, |old(bytes)[from]|); bytes[to][..n] == old(bytes)[from][..n]
      ensures forall c :: c in live && c != to ==> bytes[c] == old(bytes)[c]
    {
      var n := Min(size, |bytes[from]|);
      bytes := bytes[to := bytes[from][..n] + bytes[to][n..]];
    }

    /** The end of `realloc`: the old block is copied and freed. */
    method MoveBlock(to: Addr, from: Addr, size: nat)
      requires Valid() && to in live && from in live && to != from && Min(size, |bytes[from]|) <= |bytes[to]|
      modifies this`arenas, this`lists, this`live, this`bytes, pool.usedMap.bits
      ensures Valid() && View() == H.Free(old(View()), from) && to in live && |bytes[to]| == |old(bytes)[to]|
      ensures var n := Min(size, |old(bytes)[from]|); bytes[to][..n] == old(bytes)[from][..n]
      ensures forall c :: c in live && c != to ==> c in old(bytes) && bytes[c] == old(bytes)[c]
    {
      H.FreeInv(View(), from);
      CopyBlock(to, from, size);
      Free(Some(from));
    }

    /** `realloc`, when the copy has room: see `CopyFits`. */
    method Realloc(p: Option<Addr>, size: nat) returns (b: Option<Addr>)
      requires Valid() && (p != None ==> p.value in live) && size < H.WORD
      requires p != None ==> size <= H.WORD - H.ARENA || |bytes[p.value]| <= PAGE_SIZE - H.ARENA
      modifies this`arenas, this`lists, this`live, this`bytes, pool.usedMap.bits
      ensures Valid() && View() == H.Realloc(old(View()), p, size).0 && b == H.Realloc(old(View()), p, size).1
      ensures forall c :: c in old(live) && c in live ==> c in bytes && c in old(bytes) && bytes[c] == old(bytes)[c]
      ensures b != None ==> b.value in bytes && (|bytes[b.value]| >= size <==> size <= H.WORD - H.ARENA)
      ensures b != None && p != None ==>
                && p.value in old(bytes)
                && var data := old(bytes)[p.value]; var n := Min(size, |data|);
                   n <= |bytes[b.value]| && bytes[b.value][..n] == data[..n]
    {
      if size == 0 {
        Free(p);
        return None;
      }
      H.MallocInv(View(), size);
      H.MallocSize(View(), size);
      if p != None && H.Malloc(View(), size).1 != None { H.CopyFits(View(), p.value, size); }
      b := Malloc(size);
      if p != None && b != None { MoveBlock(b.value, p.value, size); }
    }
  }
}
