/**
 The block allocator of threads/malloc.c.  An arena is a page cut into blocks of one size,
 or several pages that hold one big block; each of the seven sizes has a free list.
 */
module Heap {
  import Arithmetic
  import opened Base
  import opened Bitmaps
  import opened Counting
  import opened Pages

  /** Block and arena addresses are byte addresses. */
  type Addr = nat

  const ARENA := 12
  const DESCS := 7
  const WORD := 0x1_0000_0000

  /** The block size of descriptor `d`: 16 bytes to 1 kB. */
  function Size(d: nat): (s: nat)
    ensures s >= 16
  {
    if d == 0 then 16 else 2 * Size(d - 1)
  }

  function PerArena(d: nat): nat {
    Arithmetic.DivSign(PAGE_SIZE - ARENA, Size(d));
    (PAGE_SIZE - ARENA) / Size(d)
  }

  /** `arena_to_block` */
  function Slot(page: nat, d: nat, i: nat): Addr {
    page * PAGE_SIZE + ARENA + i * Size(d)
  }

  /** `block_to_arena` */
  function PageOf(b: Addr): nat {
    b / PAGE_SIZE
  }

  lemma MulUp(i: nat, j: nat, s: nat)
    requires i < j
    ensures i * s + s <= j * s
  {
    Arithmetic.MulLe(i + 1, j, s);
    Arithmetic.MulAdd(i, 1, s);
  }

  /** Blocks of one arena follow each other without overlap. */
  lemma SlotOrder(page: nat, d: nat, i: nat, j: nat)
    requires i < j
    ensures Slot(page, d, i) + Size(d) <= Slot(page, d, j)
  {
    MulUp(i, j, Size(d));
  }

  /** A block lies behind the header and within the page of its arena. */
  lemma SlotInside(page: nat, d: nat, i: nat)
    requires i < PerArena(d)
    ensures page * PAGE_SIZE + ARENA <= Slot(page, d, i) && Slot(page, d, i) + Size(d) <= (page + 1) * PAGE_SIZE
    ensures PageOf(Slot(page, d, i)) == page
  {
    MulUp(i, PerArena(d), Size(d));
    DivBelow(PAGE_SIZE - ARENA, Size(d));
  }

  lemma DivBelow(n: nat, s: nat)
    requires s > 0
    ensures n / s * s <= n
  {
  }

  lemma SizesFit(d: nat)
    requires d < DESCS
    ensures Size(d) <= 1024 && PerArena(d) >= 3
  {
    assert Size(6) == 1024;
    SizeGrows(d, 6);
    DivAtLeast(PAGE_SIZE - ARENA, Size(d), 3);
  }

  lemma DivAtLeast(n: nat, s: nat, k: nat)
    requires s > 0 && k * s <= n
    ensures n / s >= k
  {
    if n / s < k { MulUp(n / s, k, s); }
  }

  lemma SizeGrows(d: nat, e: nat)
    requires d <= e
    ensures Size(d) <= Size(e)
  {
  }

  // ---------- states ----------

  /** `struct arena`: of blocks of one size, or of the pages of a big block. */
  datatype Arena = Small(desc: nat, freeCnt: nat) | Big(pages: nat)

  /** The pool the pages come from, the arenas by page, the free lists, and the blocks that
      callers hold. */
  datatype State = State(pool: PoolView, arenas: map<nat, Arena>, lists: seq<seq<Addr>>, live: set<Addr>)

  function Span(a: Arena): nat {
    if a.Big? then a.pages else 1
  }

  ghost predicate IsBlock(page: nat, d: nat, b: Addr) {
    exists i :: 0 <= i < PerArena(d) && b == Slot(page, d, i)
  }

  /** The blocks of an arena that are on a free list, by their number. */
  ghost function FreeSlots(list: seq<Addr>, page: nat, d: nat): set<nat> {
    set i | 0 <= i < PerArena(d) && Slot(page, d, i) in list
  }

  ghost predicate NoRepeats(list: seq<Addr>) {
    forall i, j :: 0 <= i < j < |list| ==> list[i] != list[j]
  }

  /** The arena's pages are in use; the free blocks are counted; every block is either free
      or held by a caller. */
  ghost predicate ArenaOk(h: State, page: nat)
    requires page in h.arenas && |h.lists| == DESCS
  {
    && (forall q {:trigger h.pool.InUse(q)} :: page <= q < page + Span(h.arenas[page]) ==> h.pool.InUse(q))
    && match h.arenas[page]
       case Small(d, n) =>
         && d < DESCS && n == |FreeSlots(h.lists[d], page, d)|
         && (forall i {:trigger Slot(page, d, i)} :: 0 <= i < PerArena(d) ==>
               (Slot(page, d, i) in h.lists[d] <==> Slot(page, d, i) !in h.live))
       case Big(n) => n > 0 && page * PAGE_SIZE + ARENA in h.live
  }

  /** The free list holds blocks of arenas of its own size only. */
  ghost predicate ListOk(h: State, d: nat)
    requires d < |h.lists|
  {
    && NoRepeats(h.lists[d])
    && forall b :: b in h.lists[d] ==>
         && PageOf(b) in h.arenas && h.arenas[PageOf(b)].Small?
         && h.arenas[PageOf(b)].desc == d && IsBlock(PageOf(b), d, b)
  }

  ghost predicate LiveOk(h: State, b: Addr) {
    && PageOf(b) in h.arenas
    && match h.arenas[PageOf(b)]
       case Small(d, n) => IsBlock(PageOf(b), d, b)
       case Big(n) => b == PageOf(b) * PAGE_SIZE + ARENA
  }

  predicate Apart(h: State, p: nat, q: nat)
    requires p in h.arenas && q in h.arenas
  {
    p + Span(h.arenas[p]) <= q || q + Span(h.arenas[q]) <= p
  }

  ghost predicate Inv(h: State) {
    && |h.lists| == DESCS
    && (forall p {:trigger ArenaOk(h, p)} :: p in h.arenas ==> ArenaOk(h, p))
    && (forall p, q {:trigger Apart(h, p, q)} :: p in h.arenas && q in h.arenas && p != q ==> Apart(h, p, q))
    && (forall d {:trigger ListOk(h, d)} :: 0 <= d < DESCS ==> ListOk(h, d))
    && (forall b {:trigger LiveOk(h, b)} :: b in h.live ==> LiveOk(h, b))
  }

  /** No arena is wholly free. */
  ghost predicate NoIdle(h: State) {
    forall p {:trigger h.arenas[p]} :: p in h.arenas && h.arenas[p].Small? ==>
      h.arenas[p].freeCnt < PerArena(h.arenas[p].desc)
  }

  // ---------- operations ----------

  /** The descriptor for a request: the first whose blocks are large enough, or none. */
  function Choose(size: nat, d: nat): (r: nat)
    requires d <= DESCS
    ensures d <= r <= DESCS && (r < DESCS ==> size <= Size(r))
    decreases DESCS - d
  {
    if d == DESCS || Size(d) >= size then d else Choose(size, d + 1)
  }

  /** The pages for a big block, in 32-bit arithmetic. */
  function PageCnt(size: nat): nat {
    (size + ARENA + PAGE_SIZE - 1) % WORD / PAGE_SIZE
  }

  /** The size of the block for a request. */
  function BlockFor(size: nat): int {
    if Choose(size, 0) < DESCS then Size(Choose(size, 0)) else PAGE_SIZE * PageCnt(size) - ARENA
  }

  /** A fresh arena for descriptor `d`, all of its blocks on the free list. */
  function NewArena(h: State, d: nat, pool: PoolView, page: nat): State
    requires d < |h.lists|
  {
    h.(pool := pool, arenas := h.arenas[page := Small(d, PerArena(d))],
       lists := h.lists[d := h.lists[d] + Slots(page, d, PerArena(d))])
  }

  function Slots(page: nat, d: nat, n: nat): seq<Addr> {
    seq(n, i requires 0 <= i < n => Slot(page, d, i))
  }

  /** The first block of free list `d` goes to the caller. */
  function Pop(h: State, d: nat): State
    requires d < |h.lists| && h.lists[d] != []
    requires PageOf(h.lists[d][0]) in h.arenas && h.arenas[PageOf(h.lists[d][0])].Small?
    requires h.arenas[PageOf(h.lists[d][0])].freeCnt > 0
  {
    var b := h.lists[d][0];
    var a := h.arenas[PageOf(b)];
    h.(lists := h.lists[d := h.lists[d][1..]], arenas := h.arenas[PageOf(b) := a.(freeCnt := a.freeCnt - 1)],
       live := h.live + {b})
  }

  /** A block comes back to the front of its free list. */
  function Push(h: State, b: Addr): State
    requires PageOf(b) in h.arenas && h.arenas[PageOf(b)].Small? && h.arenas[PageOf(b)].desc < |h.lists|
  {
    var a := h.arenas[PageOf(b)];
    h.(lists := h.lists[a.desc := [b] + h.lists[a.desc]],
       arenas := h.arenas[PageOf(b) := a.(freeCnt := a.freeCnt + 1)], live := h.live - {b})
  }

  /** The list without the blocks of one page. */
  function OffPage(list: seq<Addr>, page: nat): seq<Addr> {
    if list == [] then [] else (if PageOf(list[0]) == page then [] else [list[0]]) + OffPage(list[1..], page)
  }

  /** An arena goes back to the page allocator. */
  ghost function DropArena(h: State, page: nat): State
    requires page in h.arenas && h.arenas[page].Small? && h.arenas[page].desc < |h.lists| && h.pool.HasAll(page, 1)
  {
    var d := h.arenas[page].desc;
    h.(lists := h.lists[d := OffPage(h.lists[d], page)], arenas := h.arenas - {page}, pool := h.pool.Free(page, 1))
  }

  // ---------- what each keeps ----------

  /** Nothing about arena `p` changes from `h` to `h'`. */
  ghost predicate ArenaSame(h: State, h': State, p: nat)
    requires |h.lists| == |h'.lists| == DESCS
  {
    && p in h.arenas && p in h'.arenas && h'.arenas[p] == h.arenas[p]
    && (forall q {:trigger h'.pool.InUse(q)} :: p <= q < p + Span(h.arenas[p]) && h.pool.InUse(q) ==> h'.pool.InUse(q))
    && match h.arenas[p]
       case Small(d, n) => d < DESCS && forall i {:trigger Slot(p, d, i)} :: 0 <= i < PerArena(d) ==>
         && (Slot(p, d, i) in h'.lists[d] <==> Slot(p, d, i) in h.lists[d])
         && (Slot(p, d, i) in h'.live <==> Slot(p, d, i) in h.live)
       case Big(n) => p * PAGE_SIZE + ARENA in h.live ==> p * PAGE_SIZE + ARENA in h'.live
  }

  lemma ArenaStays(h: State, h': State, p: nat)
    requires |h.lists| == |h'.lists| == DESCS && ArenaSame(h, h', p) && ArenaOk(h, p)
    ensures ArenaOk(h', p)
  {
    if h.arenas[p].Small? {
      var d := h.arenas[p].desc;
      assert FreeSlots(h'.lists[d], p, d) == FreeSlots(h.lists[d], p, d);
    }
  }

  ghost function Numbers(n: nat): (s: set<nat>)
    ensures |s| == n && forall i: nat :: i in s <==> i < n
  {
    if n == 0 then {} else Numbers(n - 1) + {n - 1}
  }

  /** A page that is not in use belongs to no arena. */
  lemma NotAnArena(h: State, p: nat, page: nat)
    requires Inv(h) && p in h.arenas && !h.pool.InUse(page)
    ensures page < p || page >= p + Span(h.arenas[p]) > p
  {
    assert ArenaOk(h, p);
  }

  /** The blocks of an arena: distinct, all on its page, and as many as their numbers. */
  lemma SlotsFacts(page: nat, d: nat)
    ensures var list := Slots(page, d, PerArena(d));
            && NoRepeats(list) && FreeSlots(list, page, d) == Numbers(PerArena(d))
            && forall b :: b in list ==> PageOf(b) == page && IsBlock(page, d, b)
  {
    var list := Slots(page, d, PerArena(d));
    forall i, j | 0 <= i < j < |list| ensures list[i] != list[j] { SlotOrder(page, d, i, j); }
    forall i | 0 <= i < PerArena(d) ensures Slot(page, d, i) in list { assert list[i] == Slot(page, d, i); }
    forall b | b in list ensures PageOf(b) == page && IsBlock(page, d, b) {
      var i :| 0 <= i < |list| && list[i] == b;
      SlotInside(page, d, i);
    }
  }

  lemma NewArenaOwn(h: State, d: nat, pool: PoolView, page: nat)
    requires Inv(h) && d < DESCS && h.pool.Get(1) == (pool, Some(page)) && h.lists[d] == []
    ensures var h' := NewArena(h, d, pool, page); ArenaOk(h', page) && ListOk(h', d)
  {
    var h' := NewArena(h, d, pool, page);
    GetFresh(h.pool, 1, page);
    SlotsFacts(page, d);
    assert h'.lists[d] == Slots(page, d, PerArena(d));
    forall i | 0 <= i < PerArena(d) ensures Slot(page, d, i) in h'.lists[d] && Slot(page, d, i) !in h.live {
      assert h'.lists[d][i] == Slot(page, d, i);
      SlotInside(page, d, i);
      if Slot(page, d, i) in h.live {
        assert LiveOk(h, Slot(page, d, i));
        NotAnArena(h, page, page);
      }
    }
  }

  lemma NewArenaOther(h: State, d: nat, pool: PoolView, page: nat, p: nat)
    requires Inv(h) && d < DESCS && h.pool.Get(1) == (pool, Some(page)) && h.lists[d] == [] && p in h.arenas
    ensures page !in h.arenas
    ensures var h' := NewArena(h, d, pool, page); ArenaOk(h', p) && Apart(h', p, page) && Apart(h', page, p)
  {
    var h' := NewArena(h, d, pool, page);
    GetFresh(h.pool, 1, page);
    assert page !in h.arenas by { if page in h.arenas { NotAnArena(h, page, page); } }
    NotAnArena(h, p, page);
    assert ArenaOk(h, p);
    if h.arenas[p].Small? && h.arenas[p].desc == d {
      forall i | 0 <= i < PerArena(d) ensures Slot(p, d, i) !in h'.lists[d] {
        SlotInside(p, d, i);
        if Slot(p, d, i) in h'.lists[d] {
          var j :| 0 <= j < PerArena(d) && Slot(page, d, j) == Slot(p, d, i);
          SlotInside(page, d, j);
        }
      }
    }
    ArenaStays(h, h', p);
  }

  lemma NewArenaInv(h: State, d: nat, pool: PoolView, page: nat)
    requires Inv(h) && d < DESCS && h.pool.Get(1) == (pool, Some(page)) && h.lists[d] == []
    ensures page !in h.arenas && Inv(NewArena(h, d, pool, page))
  {
    var h' := NewArena(h, d, pool, page);
    GetFresh(h.pool, 1, page);
    assert page !in h.arenas by { if page in h.arenas { NotAnArena(h, page, page); } }
    NewArenaOwn(h, d, pool, page);
    forall p | p in h'.arenas ensures ArenaOk(h', p) { if p != page { NewArenaOther(h, d, pool, page, p); } }
    forall p, q | p in h'.arenas && q in h'.arenas && p != q ensures Apart(h', p, q) {
      if p == page { NewArenaOther(h, d, pool, page, q); }
      else if q == page { NewArenaOther(h, d, pool, page, p); }
      else { assert Apart(h, p, q); }
    }
    forall e | 0 <= e < DESCS ensures ListOk(h', e) { assert ListOk(h, e); }
    forall b | b in h'.live ensures LiveOk(h', b) { assert LiveOk(h, b); }
  }

  /** Blocks of different pages are different. */
  lemma OtherPageSlot(p: nat, d: nat, i: nat, b: Addr)
    requires i < PerArena(d) && p != PageOf(b)
    ensures Slot(p, d, i) != b
  {
    SlotInside(p, d, i);
  }

  /** Taking one block off a list or putting one on leaves the other arenas alone. */
  lemma OneBlock(h: State, h': State, b: Addr, p: nat)
    requires Inv(h) && |h'.lists| == DESCS && h'.pool == h.pool && p in h.arenas && p in h'.arenas
    requires h'.arenas[p] == h.arenas[p] && p != PageOf(b)
    requires forall c, e {:trigger c in h'.lists[e]} :: 0 <= e < DESCS && c != b ==>
               (c in h'.lists[e] <==> c in h.lists[e])
    requires forall c :: c != b ==> (c in h'.live <==> c in h.live)
    ensures ArenaOk(h', p)
  {
    assert ArenaOk(h, p);
    if h.arenas[p].Small? {
      var d := h.arenas[p].desc;
      forall i | 0 <= i < PerArena(d) ensures Slot(p, d, i) != b { OtherPageSlot(p, d, i, b); }
    } else {
      assert PageOf(p * PAGE_SIZE + ARENA) == p;
    }
    ArenaStays(h, h', p);
  }

  /** The head of a list is on it once. */
  lemma HeadOnce(list: seq<Addr>)
    requires NoRepeats(list) && list != []
    ensures NoRepeats(list[1..]) && forall c :: c in list[1..] <==> c in list && c != list[0]
  {
    forall c | c in list && c != list[0] ensures c in list[1..] {
      var i :| 0 <= i < |list| && list[i] == c;
      assert list[1..][i - 1] == c;
    }
  }

  lemma HeadArena(h: State, d: nat) returns (k: nat)
    requires Inv(h) && d < DESCS && h.lists[d] != []
    ensures var b := h.lists[d][0];
            && PageOf(b) in h.arenas && h.arenas[PageOf(b)].Small?
            && h.arenas[PageOf(b)].desc == d && h.arenas[PageOf(b)].freeCnt > 0
            && k < PerArena(d) && b == Slot(PageOf(b), d, k) && b !in h.live
  {
    var b := h.lists[d][0];
    assert ListOk(h, d);
    assert b in h.lists[d];
    k :| 0 <= k < PerArena(d) && b == Slot(PageOf(b), d, k);
    assert ArenaOk(h, PageOf(b));
    assert k in FreeSlots(h.lists[d], PageOf(b), d);
  }

  lemma PopOwn(h: State, d: nat)
    requires Inv(h) && d < DESCS && h.lists[d] != []
    requires PageOf(h.lists[d][0]) in h.arenas && h.arenas[PageOf(h.lists[d][0])].Small?
    requires h.arenas[PageOf(h.lists[d][0])].freeCnt > 0
    ensures var h' := Pop(h, d); ArenaOk(h', PageOf(h.lists[d][0])) && LiveOk(h', h.lists[d][0])
  {
    var h', b := Pop(h, d), h.lists[d][0];
    var page := PageOf(b);
    var k := HeadArena(h, d);
    assert ListOk(h, d) && ArenaOk(h, page);
    HeadOnce(h.lists[d]);
    forall i | 0 <= i < PerArena(d) && i != k ensures Slot(page, d, i) != b {
      if i < k { SlotOrder(page, d, i, k); } else { SlotOrder(page, d, k, i); }
    }
    assert FreeSlots(h'.lists[d], page, d) == FreeSlots(h.lists[d], page, d) - {k};
  }

  lemma PopInv(h: State, d: nat)
    requires Inv(h) && d < DESCS && h.lists[d] != []
    ensures PageOf(h.lists[d][0]) in h.arenas && h.arenas[PageOf(h.lists[d][0])].Small?
    ensures h.arenas[PageOf(h.lists[d][0])].freeCnt > 0
    ensures Inv(Pop(h, d))
  {
    var k := HeadArena(h, d);
    var h', b := Pop(h, d), h.lists[d][0];
    PopOwn(h, d);
    assert ListOk(h, d);
    HeadOnce(h.lists[d]);
    forall p | p in h'.arenas ensures ArenaOk(h', p) { if p != PageOf(b) { OneBlock(h, h', b, p); } }
    forall p, q | p in h'.arenas && q in h'.arenas && p != q ensures Apart(h', p, q) { assert Apart(h, p, q); }
    forall e | 0 <= e < DESCS ensures ListOk(h', e) { assert ListOk(h, e); }
    forall c | c in h'.live ensures LiveOk(h', c) { if c != b { assert LiveOk(h, c); } }
  }

  lemma PushOwn(h: State, b: Addr)
    requires Inv(h) && b in h.live && PageOf(b) in h.arenas && h.arenas[PageOf(b)].Small?
    ensures h.arenas[PageOf(b)].desc < DESCS && b !in h.lists[h.arenas[PageOf(b)].desc]
    ensures ArenaOk(Push(h, b), PageOf(b)) && ListOk(Push(h, b), h.arenas[PageOf(b)].desc)
  {
    var page := PageOf(b);
    assert ArenaOk(h, page) && LiveOk(h, b);
    var d := h.arenas[page].desc;
    var h' := Push(h, b);
    var k :| 0 <= k < PerArena(d) && b == Slot(page, d, k);
    forall i | 0 <= i < PerArena(d) && i != k ensures Slot(page, d, i) != b {
      if i < k { SlotOrder(page, d, i, k); } else { SlotOrder(page, d, k, i); }
    }
    assert FreeSlots(h'.lists[d], page, d) == FreeSlots(h.lists[d], page, d) + {k};
    assert ListOk(h, d);
  }

  lemma PushInv(h: State, b: Addr)
    requires Inv(h) && b in h.live && PageOf(b) in h.arenas && h.arenas[PageOf(b)].Small?
    ensures h.arenas[PageOf(b)].desc < DESCS && Inv(Push(h, b))
  {
    PushOwn(h, b);
    var h' := Push(h, b);
    forall p | p in h'.arenas ensures ArenaOk(h', p) { if p != PageOf(b) { OneBlock(h, h', b, p); } }
    forall p, q | p in h'.arenas && q in h'.arenas && p != q ensures Apart(h', p, q) { assert Apart(h, p, q); }
    forall e | 0 <= e < DESCS ensures ListOk(h', e) { assert ListOk(h, e); }
    forall c | c in h'.live ensures LiveOk(h', c) { assert LiveOk(h, c); }
  }

  lemma {:induction false} OffPageFacts(list: seq<Addr>, page: nat)
    ensures forall c :: c in OffPage(list, page) <==> c in list && PageOf(c) != page
    ensures NoRepeats(list) ==> NoRepeats(OffPage(list, page))
  {
    if list == [] {
    } else {
      OffPageFacts(list[1..], page);
      assert list == [list[0]] + list[1..];
      if NoRepeats(list) { HeadOnce(list); }
    }
  }

  /** A wholly free arena has no block in a caller's hands. */
  lemma IdleArena(h: State, page: nat, b: Addr)
    requires Inv(h) && page in h.arenas && h.arenas[page].Small?
    requires h.arenas[page].freeCnt == PerArena(h.arenas[page].desc) && b in h.live
    ensures PageOf(b) != page
  {
    if PageOf(b) == page {
      assert ArenaOk(h, page) && LiveOk(h, b);
      var d := h.arenas[page].desc;
      var k :| 0 <= k < PerArena(d) && b == Slot(page, d, k);
      var free := FreeSlots(h.lists[d], page, d);
      assert free <= Numbers(PerArena(d)) - {k};
      SubsetSize(free, Numbers(PerArena(d)) - {k});
    }
  }

  lemma DropOther(h: State, page: nat, p: nat)
    requires Inv(h) && page in h.arenas && h.arenas[page].Small? && h.pool.HasAll(page, 1)
    requires h.arenas[page].desc < DESCS && p in h.arenas && p != page
    ensures ArenaOk(DropArena(h, page), p)
  {
    var h' := DropArena(h, page);
    assert ArenaOk(h, p) && Apart(h, p, page);
    FreeReleases(h.pool, page, 1);
    OffPageFacts(h.lists[h.arenas[page].desc], page);
    if h.arenas[p].Small? {
      var d := h.arenas[p].desc;
      forall i | 0 <= i < PerArena(d) ensures PageOf(Slot(p, d, i)) == p { SlotInside(p, d, i); }
    }
    ArenaStays(h, h', p);
  }

  lemma DropInv(h: State, page: nat)
    requires Inv(h) && page in h.arenas && h.arenas[page].Small?
    requires h.arenas[page].freeCnt == PerArena(h.arenas[page].desc)
    ensures h.pool.HasAll(page, 1) && h.arenas[page].desc < DESCS && Inv(DropArena(h, page))
  {
    assert ArenaOk(h, page);
    assert h.pool.InUse(page);
    var h' := DropArena(h, page);
    OffPageFacts(h.lists[h.arenas[page].desc], page);
    forall p | p in h'.arenas ensures ArenaOk(h', p) { DropOther(h, page, p); }
    forall p, q | p in h'.arenas && q in h'.arenas && p != q ensures Apart(h', p, q) { assert Apart(h, p, q); }
    forall e | 0 <= e < DESCS ensures ListOk(h', e) { assert ListOk(h, e); }
    forall c | c in h'.live ensures LiveOk(h', c) {
      assert LiveOk(h, c);
      IdleArena(h, page, c);
    }
  }

  /** A big block of `cnt` pages. */
  function NewBig(h: State, pool: PoolView, page: nat, cnt: nat): State {
    h.(pool := pool, arenas := h.arenas[page := Big(cnt)], live := h.live + {page * PAGE_SIZE + ARENA})
  }

  ghost function DropBig(h: State, page: nat): State
    requires page in h.arenas && h.arenas[page].Big? && h.pool.HasAll(page, h.arenas[page].pages)
  {
    h.(pool := h.pool.Free(page, h.arenas[page].pages), arenas := h.arenas - {page},
       live := h.live - {page * PAGE_SIZE + ARENA})
  }

  lemma BigOther(h: State, pool: PoolView, page: nat, cnt: nat, p: nat)
    requires Inv(h) && h.pool.Get(cnt) == (pool, Some(page)) && p in h.arenas
    ensures p + Span(h.arenas[p]) <= page || page + cnt <= p
    ensures p != page && ArenaOk(NewBig(h, pool, page, cnt), p)
  {
    GetFresh(h.pool, cnt, page);
    if p < page { NotAnArena(h, p, page); } else if p < page + cnt { NotAnArena(h, p, p); }
    assert ArenaOk(h, p);
    var b := page * PAGE_SIZE + ARENA;
    assert PageOf(b) == page;
    if h.arenas[p].Small? {
      var d := h.arenas[p].desc;
      forall i | 0 <= i < PerArena(d) ensures Slot(p, d, i) != b { OtherPageSlot(p, d, i, b); }
    }
    ArenaStays(h, NewBig(h, pool, page, cnt), p);
  }

  lemma NewBigInv(h: State, pool: PoolView, page: nat, cnt: nat)
    requires Inv(h) && h.pool.Get(cnt) == (pool, Some(page))
    ensures page !in h.arenas && page * PAGE_SIZE + ARENA !in h.live && Inv(NewBig(h, pool, page, cnt))
  {
    var h' := NewBig(h, pool, page, cnt);
    var b := page * PAGE_SIZE + ARENA;
    assert PageOf(b) == page;
    GetFresh(h.pool, cnt, page);
    assert page !in h.arenas by { if page in h.arenas { NotAnArena(h, page, page); } }
    assert b in h.live ==> LiveOk(h, b);
    forall p | p in h'.arenas ensures ArenaOk(h', p) { if p != page { BigOther(h, pool, page, cnt, p); } }
    forall p, q | p in h'.arenas && q in h'.arenas && p != q ensures Apart(h', p, q) {
      if p == page { BigOther(h, pool, page, cnt, q); }
      else if q == page { BigOther(h, pool, page, cnt, p); }
      else { assert Apart(h, p, q); }
    }
    forall e | 0 <= e < DESCS ensures ListOk(h', e) { assert ListOk(h, e); }
    forall c | c in h'.live ensures LiveOk(h', c) { if c != b { assert LiveOk(h, c); } }
  }

  lemma DropBigInv(h: State, page: nat)
    requires Inv(h) && page in h.arenas && h.arenas[page].Big?
    ensures h.pool.HasAll(page, h.arenas[page].pages) && Inv(DropBig(h, page))
  {
    assert ArenaOk(h, page);
    var n := h.arenas[page].pages;
    assert h.pool.InUse(page) && h.pool.InUse(page + n - 1);
    FreeReleases(h.pool, page, n);
    var h', b := DropBig(h, page), page * PAGE_SIZE + ARENA;
    assert PageOf(b) == page;
    forall p | p in h'.arenas ensures ArenaOk(h', p) {
      assert ArenaOk(h, p) && Apart(h, p, page);
      if h.arenas[p].Small? {
        var d := h.arenas[p].desc;
        forall i | 0 <= i < PerArena(d) ensures Slot(p, d, i) != b { OtherPageSlot(p, d, i, b); }
      }
      ArenaStays(h, h', p);
    }
    forall p, q | p in h'.arenas && q in h'.arenas && p != q ensures Apart(h', p, q) { assert Apart(h, p, q); }
    forall e | 0 <= e < DESCS ensures ListOk(h', e) { assert ListOk(h, e); }
    forall c | c in h'.live ensures LiveOk(h', c) { assert LiveOk(h, c); }
  }

  /** Pages that others get from the pool, or give back to it, are no concern of an arena. */
  lemma PoolInv(h: State, pool: PoolView)
    requires Inv(h)
    requires forall p, q {:trigger h.arenas[p], pool.InUse(q)} ::
               p in h.arenas && p <= q < p + Span(h.arenas[p]) && h.pool.InUse(q) ==> pool.InUse(q)
    ensures Inv(h.(pool := pool))
  {
    var h' := h.(pool := pool);
    forall p | p in h'.arenas ensures ArenaOk(h', p) {
      assert ArenaOk(h, p);
      ArenaStays(h, h', p);
    }
    forall p, q | p in h'.arenas && q in h'.arenas && p != q ensures Apart(h', p, q) { assert Apart(h, p, q); }
    forall e | 0 <= e < DESCS ensures ListOk(h', e) { assert ListOk(h, e); }
    forall c | c in h'.live ensures LiveOk(h', c) { assert LiveOk(h, c); }
  }

  // ---------- malloc, free, realloc ----------

  ghost function Take(h: State, d: nat): (State, Option<Addr>)
    requires Inv(h) && d < DESCS
  {
    if h.lists[d] == [] then (h, None)
    else
      PopInv(h, d);
      (Pop(h, d), Some(h.lists[d][0]))
  }

  /** `malloc` of a block of descriptor `d`. */
  ghost function MallocSmall(h: State, d: nat): (State, Option<Addr>)
    requires Inv(h) && d < DESCS
  {
    if h.lists[d] == [] then
      match h.pool.Get(1)
      case (pool, None) => (h, None)
      case (pool, Some(page)) =>
        NewArenaInv(h, d, pool, page);
        Take(NewArena(h, d, pool, page), d)
    else Take(h, d)
  }

  /** `malloc` of a block with `cnt` pages of its own. */
  ghost function MallocBig(h: State, cnt: nat): (State, Option<Addr>) {
    match h.pool.Get(cnt)
    case (pool, None) => (h, None)
    case (pool, Some(page)) => (NewBig(h, pool, page, cnt), Some(page * PAGE_SIZE + ARENA))
  }

  /** `malloc` of `size` bytes; None for a null pointer. */
  ghost function Malloc(h: State, size: nat): (State, Option<Addr>)
    requires Inv(h)
  {
    if size == 0 then (h, None)
    else
      var d := Choose(size, 0);
      if d < DESCS then MallocSmall(h, d) else MallocBig(h, PageCnt(size))
  }

  /** `free` of a block that a caller holds. */
  ghost function Free(h: State, b: Addr): State
    requires Inv(h) && b in h.live
  {
    assert LiveOk(h, b);
    var page := PageOf(b);
    match h.arenas[page]
    case Big(n) =>
      DropBigInv(h, page);
      DropBig(h, page)
    case Small(d, n) =>
      PushInv(h, b);
      var h' := Push(h, b);
      if h'.arenas[page].freeCnt == PerArena(d) then
        DropInv(h', page);
        DropArena(h', page)
      else h'
  }

  /** `block_size` of a live block. */
  function Capacity(h: State, b: Addr): int
    requires PageOf(b) in h.arenas
  {
    match h.arenas[PageOf(b)]
    case Small(d, n) => Size(d)
    case Big(n) => PAGE_SIZE * n - b % PAGE_SIZE
  }

  /** No arena but perhaps one is wholly free. */
  ghost predicate NoIdleBut(h: State, page: nat) {
    forall p {:trigger h.arenas[p]} :: p in h.arenas && h.arenas[p].Small? && p != page ==>
      h.arenas[p].freeCnt < PerArena(h.arenas[p].desc)
  }

  /** The blocks that callers hold keep their place and size. */
  ghost predicate Keeps(h: State, h': State) {
    forall c :: c in h.live && c in h'.live && PageOf(c) in h.arenas ==>
      PageOf(c) in h'.arenas && Capacity(h', c) == Capacity(h, c)
  }

  /** Each block that a caller holds has contents of its size. */
  ghost predicate BytesOk(h: State, bytes: map<Addr, seq<Byte>>) {
    && bytes.Keys == h.live
    && forall b {:trigger bytes[b]} :: b in h.live ==> PageOf(b) in h.arenas && |bytes[b]| == Capacity(h, b)
  }

  lemma BytesAfterMalloc(h: State, size: nat, bytes: map<Addr, seq<Byte>>, new_: seq<Byte>)
    requires Inv(h) && NoIdle(h) && BytesOk(h, bytes) && Malloc(h, size).1 != None
    requires |new_| == BlockFor(size)
    ensures BytesOk(Malloc(h, size).0, bytes[Malloc(h, size).1.value := new_])
  {
    MallocInv(h, size);
    MallocCapacity(h, size);
  }

  /** A block taken off a list is new to the callers and is of the list's size. */
  lemma TakeKeeps(h: State, d: nat)
    requires Inv(h) && d < DESCS && h.lists[d] != [] && NoIdleBut(h, PageOf(h.lists[d][0]))
    ensures var (h', b) := Take(h, d);
            && b == Some(h.lists[d][0]) && Inv(h') && NoIdle(h') && Keeps(h, h')
            && b.value !in h.live && h'.live == h.live + {b.value}
            && PageOf(b.value) in h'.arenas && Capacity(h', b.value) == Size(d)
  {
    PopInv(h, d);
    var k := HeadArena(h, d);
    var page := PageOf(h.lists[d][0]);
    assert ArenaOk(h, page);
    var free := FreeSlots(h.lists[d], page, d);
    assert free <= Numbers(PerArena(d));
    SubsetSize(free, Numbers(PerArena(d)));
  }

  /** The first block of a new arena. */
  lemma SlotsFirst(page: nat, d: nat)
    requires d < DESCS
    ensures var list := Slots(page, d, PerArena(d));
            list != [] && list[0] == Slot(page, d, 0) && PageOf(list[0]) == page
  {
    SizesFit(d);
    SlotInside(page, d, 0);
  }

  lemma SmallInv(h: State, d: nat)
    requires Inv(h) && NoIdle(h) && d < DESCS
    ensures var (h', b) := MallocSmall(h, d);
            && Inv(h') && NoIdle(h') && Keeps(h, h')
            && (if b == None then h' == h
                else && b.value !in h.live && h'.live == h.live + {b.value}
                     && PageOf(b.value) in h'.arenas && Capacity(h', b.value) == Size(d))
  {
    if h.lists[d] == [] {
      var (pool, page) := h.pool.Get(1);
      if page != None {
        NewArenaInv(h, d, pool, page.value);
        var h1 := NewArena(h, d, pool, page.value);
        SlotsFirst(page.value, d);
        assert h1.lists[d] == Slots(page.value, d, PerArena(d));
        TakeKeeps(h1, d);
        forall c | c in h.live ensures PageOf(c) != page.value { assert LiveOk(h, c); }
      }
    } else {
      TakeKeeps(h, d);
    }
  }

  /** `malloc` keeps the invariant.  On success the block is new, and those that callers hold
      already stay as they are; on failure nothing changes. */
  lemma MallocInv(h: State, size: nat)
    requires Inv(h) && NoIdle(h)
    ensures var (h', b) := Malloc(h, size);
            && Inv(h') && NoIdle(h') && Keeps(h, h')
            && (if b == None then h' == h else b.value !in h.live && h'.live == h.live + {b.value})
  {
    var d := Choose(size, 0);
    if d < DESCS {
      SmallInv(h, d);
    } else {
      var (pool, page) := h.pool.Get(PageCnt(size));
      if page != None {
        NewBigInv(h, pool, page.value, PageCnt(size));
        forall c | c in h.live ensures PageOf(c) != page.value { assert LiveOk(h, c); }
      }
    }
  }

  /** The descriptor chosen is the smallest one that satisfies the request, and there is one
      for every request of at most 1 kB. */
  lemma {:induction false} ChooseLeast(size: nat, d: nat, e: nat)
    requires d <= e < DESCS && (forall f :: 0 <= f < d ==> Size(f) < size) && size <= Size(e)
    ensures Choose(size, d) <= e
    decreases DESCS - d
  {
    if Size(d) >= size {
    } else {
      ChooseLeast(size, d + 1, e);
    }
  }

  lemma ChooseSmall(size: nat)
    ensures Choose(size, 0) < DESCS <==> size <= 1024
  {
    assert Size(6) == 1024;
    if size <= 1024 { ChooseLeast(size, 0, 6); }
  }

  ghost predicate AllInUse(v: PoolView) {
    forall q: nat :: v.Has(q) ==> v.InUse(q)
  }

  lemma GetOne(v: PoolView)
    ensures v.Get(1).1 == None <==> AllInUse(v)
  {
    GetFails(v, 1);
    if v.Get(1).1 == None {
      forall q: nat | v.Has(q) ensures v.InUse(q) { assert !AllBits(v.used, q - v.base, 1, false); }
    } else {
      GetFresh(v, 1, v.Get(1).1.value);
      assert !v.InUse(v.Get(1).1.value);
    }
  }

  /** `malloc` fails only for want of memory: a request of at most 1 kB, when no free block of its
      size is listed and every page is in use; a larger one, when the pool has no run of as many
      free pages. */
  lemma MallocFails(h: State, size: nat)
    requires Inv(h) && NoIdle(h)
    ensures Malloc(h, size).1 == None <==>
            || size == 0
            || (size <= 1024 && h.lists[Choose(size, 0)] == [] && AllInUse(h.pool))
            || (size > 1024 && (PageCnt(size) == 0 || forall i: nat :: i + PageCnt(size) <= |h.pool.used| ==>
                                                      !AllBits(h.pool.used, i, PageCnt(size), false)))
  {
    ChooseSmall(size);
    if 0 < size <= 1024 {
      SmallFails(h, Choose(size, 0));
    } else if PageCnt(size) > 0 {
      GetFails(h.pool, PageCnt(size));
    }
  }

  lemma SmallFails(h: State, d: nat)
    requires Inv(h) && NoIdle(h) && d < DESCS
    ensures MallocSmall(h, d).1 == None <==> h.lists[d] == [] && AllInUse(h.pool)
  {
    GetOne(h.pool);
    if h.lists[d] == [] && h.pool.Get(1).1 != None {
      var (pool, page) := h.pool.Get(1);
      NewArenaInv(h, d, pool, page.value);
      SlotsFirst(page.value, d);
      assert NewArena(h, d, pool, page.value).lists[d] == Slots(page.value, d, PerArena(d));
    }
  }

  /** The size of the block that `malloc` returns. */
  lemma MallocCapacity(h: State, size: nat)
    requires Inv(h) && NoIdle(h)
    ensures var (h', b) := Malloc(h, size);
            b != None ==> PageOf(b.value) in h'.arenas && Capacity(h', b.value) == BlockFor(size)
  {
    var d := Choose(size, 0);
    if d < DESCS {
      SmallInv(h, d);
    } else {
      var (pool, page) := h.pool.Get(PageCnt(size));
      if page != None { GetFresh(h.pool, PageCnt(size), page.value); }
    }
  }

  /** The block holds the bytes asked for unless the page count wrapped around, as it does
      just for the last eleven sizes of a 32-bit `size_t`. */
  lemma MallocSize(h: State, size: nat)
    requires Inv(h) && NoIdle(h) && size < WORD
    ensures var (h', b) := Malloc(h, size);
            b != None ==> PageOf(b.value) in h'.arenas && (Capacity(h', b.value) >= size <==> size <= WORD - ARENA)
  {
    MallocCapacity(h, size);
    var d := Choose(size, 0);
    if d < DESCS {
      SizesFit(d);
    } else if size > 0 {
      var (pool, page) := h.pool.Get(PageCnt(size));
      if page != None {
        GetFresh(h.pool, PageCnt(size), page.value);
        PagesHold(size);
      }
    }
  }

  lemma PagesHold(size: nat)
    requires 0 < size < WORD && PageCnt(size) > 0
    ensures PAGE_SIZE * PageCnt(size) - ARENA >= size <==> size <= WORD - ARENA
  {
  }

  /** A request for one of the last eleven sizes is served with one page, if there is one. */
  lemma MallocTooSmall(h: State, size: nat)
    requires Inv(h) && NoIdle(h) && WORD - ARENA < size < WORD
    requires exists q: nat :: h.pool.Has(q) && !h.pool.InUse(q)
    ensures var (h', b) := Malloc(h, size);
            b != None && PageOf(b.value) in h'.arenas && Capacity(h', b.value) == PAGE_SIZE - ARENA < size
  {
    var q: nat :| h.pool.Has(q) && !h.pool.InUse(q);
    assert AllBits(h.pool.used, q - h.pool.base, 1, false);
    GetFails(h.pool, 1);
    assert PageCnt(size) == 1 && Choose(size, 0) == DESCS;
    MallocCapacity(h, size);
  }

  /** What `realloc` copies has room in the new block, if and only if the size did not wrap
      around or the old block fits in one page. */
  lemma CopyFits(h: State, b: Addr, size: nat)
    requires Inv(h) && NoIdle(h) && b in h.live && 0 < size < WORD && Malloc(h, size).1 != None
    ensures var (h', c) := Malloc(h, size);
            && PageOf(b) in h.arenas && PageOf(c.value) in h'.arenas
            && (Min(size, Capacity(h, b)) <= Capacity(h', c.value) <==>
                size <= WORD - ARENA || Capacity(h, b) <= PAGE_SIZE - ARENA)
  {
    assert LiveOk(h, b);
    MallocSize(h, size);
    MallocCapacity(h, size);
    if size > WORD - ARENA { assert PageCnt(size) == 1 && Choose(size, 0) == DESCS; }
  }

  /** On a machine with one page, `malloc` of 2^32 - 1 bytes succeeds. */
  lemma MallocWraps()
    ensures var h := State(PoolView(0, [false]), map[], seq(DESCS, _ => []), {});
            && Inv(h) && NoIdle(h) && var (h', b) := Malloc(h, WORD - 1);
            && b != None && PageOf(b.value) in h'.arenas && Capacity(h', b.value) == 4084
  {
    var h := State(PoolView(0, [false]), map[], seq(DESCS, _ => []), {});
    assert h.pool.Has(0) && !h.pool.InUse(0);
    MallocTooSmall(h, WORD - 1);
  }

  /** Three pages, all of them free. */
  function ThreePages(): State {
    State(PoolView(0, [false, false, false]), map[], seq(DESCS, _ => []), {})
  }

  lemma TwoPages()
    ensures var pool := ThreePages().pool;
            pool.Get(2).1 == Some(0) && pool.Get(2).0.Has(2) && !pool.Get(2).0.InUse(2)
  {
    var pool := ThreePages().pool;
    assert AllBits(pool.used, 0, 2, false);
    FirstFitLeast(pool.used, 0, 2, false, 0);
    GetFresh(pool, 2, 0);
  }

  lemma BigBlock(h: State, size: nat)
    requires Inv(h) && NoIdle(h) && 1024 < size && h.pool.Get(PageCnt(size)).1 == Some(0)
    ensures var (h', b) := Malloc(h, size);
            && b == Some(ARENA) && Inv(h') && NoIdle(h') && ARENA in h'.live && h'.pool == h.pool.Get(PageCnt(size)).0
            && PageOf(ARENA) in h'.arenas && Capacity(h', ARENA) == BlockFor(size)
  {
    MallocInv(h, size);
    MallocCapacity(h, size);
    assert Choose(size, 0) == DESCS;
  }

  /** `malloc` of 5000 bytes takes two pages; `realloc` of the block to 2^32 - 1 bytes, with one
      page more, copies more than the new block holds. */
  lemma TwoMallocs(h: State)
    requires Inv(h) && NoIdle(h)
    requires h.pool.Get(2).1 == Some(0) && h.pool.Get(2).0.Has(2) && !h.pool.Get(2).0.InUse(2)
    ensures var (h1, b) := Malloc(h, 5000);
            && b == Some(ARENA) && Inv(h1) && NoIdle(h1) && ARENA in h1.live && PageOf(ARENA) in h1.arenas
            && var (h', c) := Malloc(h1, WORD - 1);
            && c != None && PageOf(c.value) in h'.arenas
            && Min(WORD - 1, Capacity(h1, ARENA)) > Capacity(h', c.value)
  {
    assert PageCnt(5000) == 2;
    BigBlock(h, 5000);
    MallocTooSmall(Malloc(h, 5000).0, WORD - 1);
  }

  lemma ThreePagesGood()
    ensures Inv(ThreePages()) && NoIdle(ThreePages())
  {
  }

  /** It happens on a machine with three pages. */
  lemma ReallocOverruns()
    ensures Inv(ThreePages()) && NoIdle(ThreePages())
    ensures var (h, b) := Malloc(ThreePages(), 5000);
            && b == Some(ARENA) && Inv(h) && NoIdle(h) && ARENA in h.live && PageOf(ARENA) in h.arenas
            && var (h', c) := Malloc(h, WORD - 1);
            && c != None && PageOf(c.value) in h'.arenas
            && Min(WORD - 1, Capacity(h, ARENA)) > Capacity(h', c.value)
  {
    ThreePagesGood();
    TwoPages();
    TwoMallocs(ThreePages());
  }

  /** `free` keeps the invariant and gives back that block alone. */
  lemma FreeInv(h: State, b: Addr)
    requires Inv(h) && NoIdle(h) && b in h.live
    ensures var h' := Free(h, b); Inv(h') && NoIdle(h') && Keeps(h, h') && h'.live == h.live - {b}
  {
    assert LiveOk(h, b);
    var page := PageOf(b);
    match h.arenas[page]
    case Big(n) =>
      DropBigInv(h, page);
      forall c | c in h.live && c != b ensures PageOf(c) != page { assert LiveOk(h, c); }
    case Small(d, n) =>
      PushInv(h, b);
      var h1 := Push(h, b);
      if h1.arenas[page].freeCnt == PerArena(d) {
        DropInv(h1, page);
        forall c | c in h1.live ensures PageOf(c) != page { IdleArena(h1, page, c); }
      }
  }

  lemma BytesAfterFree(h: State, b: Addr, bytes: map<Addr, seq<Byte>>)
    requires Inv(h) && NoIdle(h) && BytesOk(h, bytes) && b in h.live
    ensures BytesOk(Free(h, b), bytes - {b})
  {
    FreeInv(h, b);
  }

  // ---------- pages ----------

  /** Page `q` belongs to an arena. */
  ghost predicate InArena(h: State, q: nat) {
    exists p {:trigger h.arenas[p]} :: p in h.arenas && p <= q < p + Span(h.arenas[p])
  }

  /** The pages that others than `malloc` have from the pool are the same. */
  ghost predicate OthersSame(h: State, h': State) {
    forall q: nat {:trigger Others(h', q)} :: Others(h', q) <==> Others(h, q)
  }

  ghost predicate Others(h: State, q: nat) {
    h.pool.InUse(q) && !InArena(h, q)
  }

  /** The same arenas, with perhaps other counts. */
  lemma SameArenas(h: State, h': State)
    requires h'.pool == h.pool && h'.arenas.Keys == h.arenas.Keys
    requires forall p :: p in h.arenas ==> Span(h'.arenas[p]) == Span(h.arenas[p])
    ensures OthersSame(h, h')
  {
    forall q: nat ensures Others(h', q) <==> Others(h, q) {
      if InArena(h, q) { var p :| p in h.arenas && p <= q < p + Span(h.arenas[p]); assert p in h'.arenas; }
      if InArena(h', q) { var p :| p in h'.arenas && p <= q < p + Span(h'.arenas[p]); assert p in h.arenas; }
    }
  }

  /** A new arena takes exactly its pages from the pool. */
  lemma ArenaTakes(h: State, h': State, page: nat, a: Arena)
    requires page !in h.arenas && h'.arenas == h.arenas[page := a]
    requires h.pool.Get(Span(a)) == (h'.pool, Some(page))
    ensures OthersSame(h, h')
  {
    GetFresh(h.pool, Span(a), page);
    forall q: nat ensures Others(h', q) <==> Others(h, q) {
      assert h'.arenas[page] == a;
      if InArena(h, q) { var p :| p in h.arenas && p <= q < p + Span(h.arenas[p]); assert h'.arenas[p] == h.arenas[p]; }
      if InArena(h', q) && !(page <= q < page + Span(a)) {
        var p :| p in h'.arenas && p <= q < p + Span(h'.arenas[p]);
        assert h.arenas[p] == h'.arenas[p];
      }
    }
  }

  /** An arena that is dropped gives exactly its pages back. */
  lemma ArenaGives(h: State, h': State, page: nat)
    requires Inv(h) && page in h.arenas && h'.arenas == h.arenas - {page}
    requires h.pool.HasAll(page, Span(h.arenas[page])) && h'.pool == h.pool.Free(page, Span(h.arenas[page]))
    ensures OthersSame(h, h')
  {
    var n := Span(h.arenas[page]);
    FreeReleases(h.pool, page, n);
    forall q: nat ensures Others(h', q) <==> Others(h, q) {
      if InArena(h', q) {
        var p :| p in h'.arenas && p <= q < p + Span(h'.arenas[p]);
        assert h.arenas[p] == h'.arenas[p];
      }
      if InArena(h, q) && !(page <= q < page + n) {
        var p :| p in h.arenas && p <= q < p + Span(h.arenas[p]);
        assert h'.arenas[p] == h.arenas[p];
      }
    }
  }

  lemma SmallPages(h: State, d: nat)
    requires Inv(h) && d < DESCS
    ensures OthersSame(h, MallocSmall(h, d).0)
  {
    if h.lists[d] == [] {
      var (pool, page) := h.pool.Get(1);
      if page != None {
        NewArenaInv(h, d, pool, page.value);
        var h1 := NewArena(h, d, pool, page.value);
        ArenaTakes(h, h1, page.value, Small(d, PerArena(d)));
        if h1.lists[d] != [] {
          PopInv(h1, d);
          SameArenas(h1, Pop(h1, d));
        }
      }
    } else {
      PopInv(h, d);
      SameArenas(h, Pop(h, d));
    }
  }

  /** `malloc` takes from the pool just the pages of the arenas that it makes, */
  lemma MallocPages(h: State, size: nat)
    requires Inv(h) && NoIdle(h)
    ensures OthersSame(h, Malloc(h, size).0)
  {
    var d := Choose(size, 0);
    if d < DESCS {
      SmallPages(h, d);
    } else {
      var (pool, page) := h.pool.Get(PageCnt(size));
      if page != None {
        NewBigInv(h, pool, page.value, PageCnt(size));
        GetFresh(h.pool, PageCnt(size), page.value);
        ArenaTakes(h, NewBig(h, pool, page.value, PageCnt(size)), page.value, Big(PageCnt(size)));
      }
    }
  }

  /** `free` gives back the pages of those that it drops, */
  lemma FreePages(h: State, b: Addr)
    requires Inv(h) && NoIdle(h) && b in h.live
    ensures OthersSame(h, Free(h, b))
  {
    assert LiveOk(h, b);
    var page := PageOf(b);
    match h.arenas[page]
    case Big(n) =>
      DropBigInv(h, page);
      ArenaGives(h, DropBig(h, page), page);
    case Small(d, n) =>
      PushInv(h, b);
      var h1 := Push(h, b);
      SameArenas(h, h1);
      if h1.arenas[page].freeCnt == PerArena(d) {
        DropInv(h1, page);
        ArenaGives(h1, DropArena(h1, page), page);
      }
  }

  /** so that, with every block freed, no arena is left. */
  lemma NothingLeft(h: State, p: nat)
    requires Inv(h) && NoIdle(h) && h.live == {}
    ensures p !in h.arenas
  {
    if p in h.arenas {
      assert ArenaOk(h, p);
      if h.arenas[p].Small? { AllFree(h, p); }
    }
  }

  lemma AllFree(h: State, p: nat)
    requires Inv(h) && p in h.arenas && h.arenas[p].Small? && h.live == {}
    ensures h.arenas[p].freeCnt == PerArena(h.arenas[p].desc)
  {
    assert ArenaOk(h, p);
    var d := h.arenas[p].desc;
    assert FreeSlots(h.lists[d], p, d) == Numbers(PerArena(d));
  }

  /** An arena has no more free blocks than blocks. */
  lemma CountBound(h: State, page: nat)
    requires Inv(h) && page in h.arenas && h.arenas[page].Small?
    ensures h.arenas[page].freeCnt <= PerArena(h.arenas[page].desc)
  {
    assert ArenaOk(h, page);
    var d := h.arenas[page].desc;
    var free := FreeSlots(h.lists[d], page, d);
    assert free <= Numbers(PerArena(d));
    SubsetSize(free, Numbers(PerArena(d)));
  }

  /** Live blocks do not overlap, and lie behind the header within pages in use. */
  lemma LiveApart(h: State, b: Addr, c: Addr)
    requires Inv(h) && b in h.live && c in h.live && b != c
    ensures PageOf(b) in h.arenas && PageOf(c) in h.arenas
    ensures b + Capacity(h, b) <= c || c + Capacity(h, c) <= b
  {
    LiveInside(h, b);
    LiveInside(h, c);
    var p: nat, q: nat := PageOf(b), PageOf(c);
    if p != q {
      assert Apart(h, p, q);
    } else {
      assert LiveOk(h, b) && LiveOk(h, c);
      if h.arenas[p].Small? {
        var d := h.arenas[p].desc;
        var i :| 0 <= i < PerArena(d) && b == Slot(p, d, i);
        var j :| 0 <= j < PerArena(d) && c == Slot(p, d, j);
        if i < j { SlotOrder(p, d, i, j); } else if j < i { SlotOrder(p, d, j, i); }
      }
    }
  }

  /** A live block lies behind the header of its arena, in pages that are in use. */
  lemma LiveInside(h: State, b: Addr)
    requires Inv(h) && b in h.live
    ensures PageOf(b) in h.arenas
    ensures var p := PageOf(b);
            && p * PAGE_SIZE + ARENA <= b && b + Capacity(h, b) <= (p + Span(h.arenas[p])) * PAGE_SIZE
            && forall q :: p <= q < p + Span(h.arenas[p]) ==> h.pool.InUse(q)
  {
    assert LiveOk(h, b);
    var p := PageOf(b);
    assert ArenaOk(h, p);
    if h.arenas[p].Small? {
      var d := h.arenas[p].desc;
      var i :| 0 <= i < PerArena(d) && b == Slot(p, d, i);
      SlotInside(p, d, i);
    }
  }

  /** A free block, in which the allocator keeps the links of its list and which `free` fills
      with 0xcc, lies apart from every live block. */
  lemma FreeApart(h: State, d: nat, f: Addr, b: Addr)
    requires Inv(h) && d < DESCS && f in h.lists[d] && b in h.live
    ensures PageOf(b) in h.arenas && (f + Size(d) <= b || b + Capacity(h, b) <= f)
  {
    LiveInside(h, b);
    assert ListOk(h, d);
    var p: nat, q: nat := PageOf(f), PageOf(b);
    var i :| 0 <= i < PerArena(d) && f == Slot(p, d, i);
    SlotInside(p, d, i);
    if p != q {
      assert Apart(h, p, q);
    } else {
      assert LiveOk(h, b) && ArenaOk(h, p);
      var j :| 0 <= j < PerArena(d) && b == Slot(p, d, j);
      if i < j { SlotOrder(p, d, i, j); } else if j < i { SlotOrder(p, d, j, i); }
    }
  }

  /** The header of an arena lies apart from every live block, of its own or of another. */
  lemma HeaderApart(h: State, p: nat, b: Addr)
    requires Inv(h) && p in h.arenas && b in h.live
    ensures PageOf(b) in h.arenas && (p * PAGE_SIZE + ARENA <= b || b + Capacity(h, b) <= p * PAGE_SIZE)
  {
    LiveInside(h, b);
    var q: nat := PageOf(b);
    if p != q {
      assert Apart(h, p, q);
      assert ArenaOk(h, p);
    }
  }

  /** `realloc`; freeing comes after allocating. */
  ghost function Realloc(h: State, old_: Option<Addr>, size: nat): (State, Option<Addr>)
    requires Inv(h) && NoIdle(h) && (old_ != None ==> old_.value in h.live)
  {
    if size == 0 then (if old_ == None then h else Free(h, old_.value), None)
    else
      var (h', b) := Malloc(h, size);
      MallocInv(h, size);
      (if old_ != None && b != None then Free(h', old_.value) else h', b)
  }

  function AsSet(b: Option<Addr>): set<Addr> {
    if b == None then {} else {b.value}
  }

  /** `realloc` trades the old block for the new one, or keeps the old one when it fails. */
  lemma ReallocInv(h: State, old_: Option<Addr>, size: nat)
    requires Inv(h) && NoIdle(h) && (old_ != None ==> old_.value in h.live)
    ensures var (h', b) := Realloc(h, old_, size);
            && Inv(h') && NoIdle(h') && Keeps(h, h')
            && (if size > 0 && b == None then h' == h
                else h'.live == h.live - AsSet(old_) + AsSet(b))
            && (b != None ==> b.value !in h.live)
  {
    if size == 0 {
      if old_ != None { FreeInv(h, old_.value); }
    } else {
      MallocInv(h, size);
      var (h1, b) := Malloc(h, size);
      if old_ != None && b != None {
        FreeInv(h1, old_.value);
        forall c | c in h.live ensures PageOf(c) in h.arenas { assert LiveOk(h, c); }
      }
    }
  }

  /** `realloc` succeeds just when `malloc` of the new size would, and with the same block. */
  lemma ReallocSucceeds(h: State, old_: Option<Addr>, size: nat)
    requires Inv(h) && NoIdle(h) && (old_ != None ==> old_.value in h.live)
    ensures Realloc(h, old_, size).1 == Malloc(h, size).1
    ensures Realloc(h, old_, size).1 == None && size > 0 ==> Realloc(h, old_, size).0 == h
  {
    MallocInv(h, size);
  }

  // ---------- runs ----------

  datatype Op =
    | MallocOp(size: nat)
    | FreeOp(block: Addr)
    | ReallocOp(old_: Option<Addr>, size: nat)
    | GetPagesOp(cnt: nat)
    | FreePagesOp(page: nat, cnt: nat)

  /** One call.  Others may get pages from the pool and give back pages of no arena. */
  ghost predicate Does(h: State, op: Op, h': State)
    requires Inv(h) && NoIdle(h)
  {
    match op
    case MallocOp(size) => h' == Malloc(h, size).0
    case FreeOp(b) => b in h.live && h' == Free(h, b)
    case ReallocOp(o, size) => (o != None ==> o.value in h.live) && h' == Realloc(h, o, size).0
    case GetPagesOp(cnt) => h' == h.(pool := h.pool.Get(cnt).0)
    case FreePagesOp(page, cnt) =>
      && h.pool.HasAll(page, cnt) && h' == h.(pool := h.pool.Free(page, cnt))
      && forall p :: p in h.arenas ==> p + Span(h.arenas[p]) <= page || page + cnt <= p
  }

  ghost predicate Good(h: State) {
    Inv(h) && NoIdle(h)
  }

  lemma DoesGood(h: State, op: Op, h': State)
    requires Good(h) && Does(h, op, h')
    ensures Good(h')
  {
    match op
    case MallocOp(size) => MallocInv(h, size);
    case FreeOp(b) => FreeInv(h, b);
    case ReallocOp(o, size) => ReallocInv(h, o, size);
    case GetPagesOp(cnt) =>
      var (pool, page) := h.pool.Get(cnt);
      if page != None { GetFresh(h.pool, cnt, page.value); }
      PoolInv(h, pool);
    case FreePagesOp(page, cnt) =>
      FreeReleases(h.pool, page, cnt);
      PoolInv(h, h.pool.Free(page, cnt));
  }

  ghost predicate StepAt(tr: seq<State>, ops: seq<Op>, i: nat)
    requires |tr| == |ops| + 1 && i < |ops|
  {
    Good(tr[i]) ==> Does(tr[i], ops[i], tr[i + 1])
  }

  ghost predicate Run(tr: seq<State>, ops: seq<Op>) {
    && |tr| == |ops| + 1 && tr[0].arenas == map[] && tr[0].live == {} && tr[0].lists == seq(DESCS, _ => [])
    && forall i {:trigger StepAt(tr, ops, i)} :: 0 <= i < |ops| ==> StepAt(tr, ops, i)
  }

  lemma {:induction false} RunGood(tr: seq<State>, ops: seq<Op>, n: nat)
    requires Run(tr, ops) && n < |tr|
    ensures Good(tr[n])
  {
    if n == 0 {
    } else {
      RunGood(tr, ops, n - 1);
      assert StepAt(tr, ops, n - 1);
      DoesGood(tr[n - 1], ops[n - 1], tr[n]);
    }
  }

  /** The call returns block `b`. */
  ghost predicate Returns(h: State, op: Op, b: Addr) {
    && Good(h)
    && match op
       case MallocOp(size) => Malloc(h, size).1 == Some(b)
       case ReallocOp(o, size) => (o != None ==> o.value in h.live) && Realloc(h, o, size).1 == Some(b)
       case _ => false
  }

  /** The block returned is live and of the size asked for, unless that wrapped around. */
  lemma ReturnsSize(h: State, op: Op, h': State, b: Addr)
    requires Returns(h, op, b) && Does(h, op, h') && op.size < WORD
    ensures b in h'.live && PageOf(b) in h'.arenas && (Capacity(h', b) >= op.size <==> op.size <= WORD - ARENA)
  {
    var h1 := Malloc(h, op.size).0;
    MallocInv(h, op.size);
    MallocSize(h, op.size);
    if op.ReallocOp? && op.old_ != None { FreeInv(h1, op.old_.value); }
  }

  /** No call moves or resizes a block that stays live. */
  lemma DoesKeeps(h: State, op: Op, h': State)
    requires Good(h) && Does(h, op, h')
    ensures Keeps(h, h')
  {
    match op
    case MallocOp(size) => MallocInv(h, size);
    case FreeOp(b) => FreeInv(h, b);
    case ReallocOp(o, size) => ReallocInv(h, o, size);
    case GetPagesOp(cnt) =>
    case FreePagesOp(page, cnt) =>
  }

  lemma BlockKept(h: State, op: Op, h': State, b: Addr)
    requires Good(h) && Does(h, op, h') && b in h.live && b in h'.live && PageOf(b) in h.arenas
    ensures PageOf(b) in h'.arenas && Capacity(h', b) == Capacity(h, b)
  {
    DoesKeeps(h, op, h');
  }

  /** After any calls of `malloc`, `free` and `realloc`, among any page allocations of
      others: a live block lies behind the header of its arena, in pages in use, */
  lemma RunInside(tr: seq<State>, ops: seq<Op>, n: nat, b: Addr)
    requires Run(tr, ops) && n < |tr| && b in tr[n].live
    ensures var h, p := tr[n], PageOf(b);
            && p in h.arenas && p * PAGE_SIZE + ARENA <= b
            && b + Capacity(h, b) <= (p + Span(h.arenas[p])) * PAGE_SIZE
            && forall q :: p <= q < p + Span(h.arenas[p]) ==> h.pool.InUse(q)
  {
    RunGood(tr, ops, n);
    LiveInside(tr[n], b);
  }

  /** two live blocks never overlap, */
  lemma RunApart(tr: seq<State>, ops: seq<Op>, n: nat, b: Addr, c: Addr)
    requires Run(tr, ops) && n < |tr| && b in tr[n].live && c in tr[n].live && b != c
    ensures var h := tr[n];
            && PageOf(b) in h.arenas && PageOf(c) in h.arenas
            && (b + Capacity(h, b) <= c || c + Capacity(h, c) <= b)
  {
    RunGood(tr, ops, n);
    LiveApart(tr[n], b, c);
  }

  /** and apart from free blocks and from headers, which is where the allocator itself writes, */
  lemma RunUntouched(tr: seq<State>, ops: seq<Op>, n: nat, b: Addr, d: nat, f: Addr, p: nat)
    requires Run(tr, ops) && n < |tr| && b in tr[n].live
    ensures var h := tr[n];
            && PageOf(b) in h.arenas && |h.lists| == DESCS
            && (d < DESCS && f in h.lists[d] ==> f + Size(d) <= b || b + Capacity(h, b) <= f)
            && (p in h.arenas ==> p * PAGE_SIZE + ARENA <= b || b + Capacity(h, b) <= p * PAGE_SIZE)
  {
    RunGood(tr, ops, n);
    LiveInside(tr[n], b);
    if d < DESCS && f in tr[n].lists[d] { FreeApart(tr[n], d, f, b); }
    if p in tr[n].arenas { HeaderApart(tr[n], p, b); }
  }

  /** and a block that `malloc` or `realloc` returned holds the bytes asked for until it is
      freed, if and only if their number is at most 2^32 - 12. */
  lemma {:induction false} RunHolds(tr: seq<State>, ops: seq<Op>, i: nat, n: nat, b: Addr)
    requires Run(tr, ops) && i < n < |tr| && Returns(tr[i], ops[i], b) && ops[i].size < WORD
    requires forall j {:trigger tr[j]} :: i < j <= n ==> b in tr[j].live
    ensures PageOf(b) in tr[n].arenas
    ensures Capacity(tr[n], b) >= ops[i].size <==> ops[i].size <= WORD - ARENA
  {
    RunGood(tr, ops, n - 1);
    assert StepAt(tr, ops, n - 1);
    if n == i + 1 {
      ReturnsSize(tr[i], ops[i], tr[n], b);
    } else {
      RunHolds(tr, ops, i, n - 1, b);
      assert b in tr[n - 1].live && b in tr[n].live;
      BlockKept(tr[n - 1], ops[n - 1], tr[n], b);
    }
  }

  lemma ReallocPages(h: State, old_: Option<Addr>, size: nat)
    requires Inv(h) && NoIdle(h) && (old_ != None ==> old_.value in h.live)
    ensures OthersSame(h, Realloc(h, old_, size).0)
  {
    if size == 0 {
      if old_ != None { FreePages(h, old_.value); }
    } else {
      MallocInv(h, size);
      MallocPages(h, size);
      var (h1, b) := Malloc(h, size);
      if old_ != None && b != None { FreePages(h1, old_.value); }
    }
  }

  lemma {:induction false} RunOthers(tr: seq<State>, ops: seq<Op>, n: nat)
    requires Run(tr, ops) && n < |tr|
    requires forall i {:trigger ops[i]} :: 0 <= i < n ==> ops[i].MallocOp? || ops[i].FreeOp? || ops[i].ReallocOp?
    ensures OthersSame(tr[0], tr[n])
  {
    if n == 0 {
    } else {
      RunOthers(tr, ops, n - 1);
      RunGood(tr, ops, n - 1);
      assert StepAt(tr, ops, n - 1);
      var h := tr[n - 1];
      match ops[n - 1]
      case MallocOp(size) => MallocPages(h, size);
      case FreeOp(b) => FreePages(h, b);
      case ReallocOp(o, size) => ReallocPages(h, o, size);
    }
  }

  /** No page is lost: after any calls of `malloc`, `free` and `realloc` that leave no live block,
      the pages in use are those that were in use at the start. */
  lemma RunNoLeak(tr: seq<State>, ops: seq<Op>, n: nat, q: nat)
    requires Run(tr, ops) && n < |tr| && tr[n].live == {}
    requires forall i {:trigger ops[i]} :: 0 <= i < n ==> ops[i].MallocOp? || ops[i].FreeOp? || ops[i].ReallocOp?
    ensures tr[n].pool.InUse(q) <==> tr[0].pool.InUse(q)
  {
    RunOthers(tr, ops, n);
    RunGood(tr, ops, n);
    assert Others(tr[n], q) <==> Others(tr[0], q);
    forall p: nat ensures p !in tr[n].arenas { NothingLeft(tr[n], p); }
  }

  /** After any calls: an arena counts exactly its blocks on the free list, and not all of
      its blocks are free. */
  lemma RunCounts(tr: seq<State>, ops: seq<Op>, n: nat, page: nat)
    requires Run(tr, ops) && n < |tr| && page in tr[n].arenas && tr[n].arenas[page].Small?
    ensures var h, d := tr[n], tr[n].arenas[page].desc;
            d < |h.lists| && h.arenas[page].freeCnt == |FreeSlots(h.lists[d], page, d)| < PerArena(d)
  {
    RunGood(tr, ops, n);
    assert ArenaOk(tr[n], page);
  }
}
