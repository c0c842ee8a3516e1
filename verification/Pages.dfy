/**
 The page allocator of threads/palloc.c: two pools of pages, each with a bitmap of the
 pages in use.  A page is named by its page number.
 */
module Pages {
  import opened Base
  import opened Bitmaps

  /** `struct pool` as a value: page `base + i` is in use if `used[i]` is set. */
  datatype PoolView = PoolView(base: nat, used: seq<bool>) {
    /** `page_from_pool` */
    predicate Has(page: nat) {
      base <= page < base + |used|
    }

    predicate InUse(page: nat) {
      Has(page) && used[page - base]
    }

    /** The `cnt` pages from `page` on are pages of this pool. */
    predicate HasAll(page: nat, cnt: nat) {
      base <= page && page + cnt <= base + |used|
    }

    /** `palloc_get_multiple` from this pool: first fit. */
    ghost function Get(cnt: nat): (r: (PoolView, Option<nat>)) {
      if cnt == 0 then (this, None)
      else match FirstFit(used, 0, cnt, false)
           case None => (this, None)
           case Some(i) => (PoolView(base, Filled(used, i, cnt, true)), Some(base + i))
    }

    /** `palloc_free_multiple` */
    ghost function Free(page: nat, cnt: nat): PoolView
      requires HasAll(page, cnt)
    {
      PoolView(base, Filled(used, page - base, cnt, false))
    }
  }

  /** The pages handed out were free, are in use now, and no other page changes. */
  lemma GetFresh(v: PoolView, cnt: nat, page: nat)
    requires v.Get(cnt).1 == Some(page)
    ensures var v' := v.Get(cnt).0;
            && cnt > 0 && v.HasAll(page, cnt) && v'.HasAll(page, cnt)
            && (forall q :: page <= q < page + cnt ==> !v.InUse(q) && v'.InUse(q))
            && (forall q: nat :: q < page || q >= page + cnt ==> (v'.InUse(q) <==> v.InUse(q)))
  {
    var i := FirstFit(v.used, 0, cnt, false).value;
    assert AllBits(v.used, i, cnt, false);
  }

  /** A request fails just when the pool has no such run of free pages. */
  lemma GetFails(v: PoolView, cnt: nat)
    requires cnt > 0
    ensures v.Get(cnt).1 == None <==> forall i: nat :: i + cnt <= |v.used| ==> !AllBits(v.used, i, cnt, false)
  {
    forall i: nat | i + cnt <= |v.used| && AllBits(v.used, i, cnt, false) ensures v.Get(cnt).1 != None {
      FirstFitLeast(v.used, 0, cnt, false, i);
    }
  }

  /** Giving pages back undoes getting them. */
  lemma FreeUndoesGet(v: PoolView, cnt: nat, page: nat)
    requires v.Get(cnt).1 == Some(page)
    ensures v.Get(cnt).0.HasAll(page, cnt) && v.Get(cnt).0.Free(page, cnt) == v
  {
    GetFresh(v, cnt, page);
    var i := page - v.base;
    assert AllBits(v.used, i, cnt, false);
    assert v.Get(cnt).0.Free(page, cnt).used == v.used;
  }

  lemma FreeReleases(v: PoolView, page: nat, cnt: nat)
    requires v.HasAll(page, cnt)
    ensures var v' := v.Free(page, cnt);
            && (forall q :: page <= q < page + cnt ==> !v'.InUse(q))
            && (forall q: nat :: q < page || q >= page + cnt ==> (v'.InUse(q) <==> v.InUse(q)))
  {
  }

  /** The pages at the base of a pool of `pageCnt` pages that its bitmap takes up. */
  function BitmapPages(pageCnt: nat): nat {
    (8 + 4 * ((pageCnt + ELEM_BITS - 1) / ELEM_BITS) + PAGE_SIZE - 1) / PAGE_SIZE
  }

  /** `struct pool` */
  class Pool {
    const base: nat
    const usedMap: Bitmap

    ghost predicate Valid() {
      usedMap.Valid()
    }

    ghost function View(): PoolView
      requires Valid()
      reads usedMap.bits
    {
      PoolView(base, usedMap.Bits())
    }

    /** `init_pool`; a pool too small for its bitmap is a panic. */
    constructor (start: nat, pageCnt: nat)
      requires BitmapPages(pageCnt) <= pageCnt
      ensures Valid() && fresh(usedMap) && fresh(usedMap.bits) && start <= base
      ensures View().base + |View().used| == start + pageCnt
      ensures forall q: nat :: !View().InUse(q)
    {
      base := start + BitmapPages(pageCnt);
      usedMap := new Bitmap(pageCnt - BitmapPages(pageCnt));
    }

    /** The part of `palloc_get_multiple` under the pool's lock; None for a null pointer. */
    method Get(cnt: nat) returns (page: Option<nat>)
      requires Valid()
      modifies usedMap.bits
      ensures page == old(View()).Get(cnt).1 && View() == old(View()).Get(cnt).0
    {
      if cnt == 0 { return None; }
      var i := usedMap.ScanAndFlip(0, cnt, false);
      if i != None { page := Some(base + i.value); } else { page := None; }
    }
  }

  /** The kernel pool and the user pool. */
  class PageAllocator {
    const kernelPool: Pool
    const userPool: Pool

    ghost predicate Valid() {
      && kernelPool.Valid() && userPool.Valid() && kernelPool.usedMap.bits != userPool.usedMap.bits
      && kernelPool.base + kernelPool.usedMap.bitCnt <= userPool.base
    }

    /** `palloc_init` */
    constructor (start: nat, kernelPages: nat, userPages: nat)
      requires BitmapPages(kernelPages) <= kernelPages && BitmapPages(userPages) <= userPages
      ensures Valid() && fresh(kernelPool) && fresh(userPool)
      ensures forall q: nat :: !kernelPool.View().InUse(q) && !userPool.View().InUse(q)
    {
      kernelPool := new Pool(start, kernelPages);
      userPool := new Pool(start + kernelPages, userPages);
    }

    /** `palloc_get_multiple` */
    method GetMultiple(user: bool, cnt: nat) returns (page: Option<nat>)
      requires Valid()
      modifies if user then userPool.usedMap.bits else kernelPool.usedMap.bits
      ensures var pool := if user then userPool else kernelPool;
              page == old(pool.View()).Get(cnt).1 && pool.View() == old(pool.View()).Get(cnt).0
      ensures var other := if user then kernelPool else userPool; other.View() == old(other.View())
    {
      var pool := if user then userPool else kernelPool;
      page := pool.Get(cnt);
    }

    /** The `cnt` pages from `page` on are in use in the pool. */
    ghost predicate Owned(pool: Pool, page: nat, cnt: nat)
      requires pool.Valid()
      reads pool.usedMap.bits
    {
      pool.View().HasAll(page, cnt) && AllBits(pool.View().used, page - pool.base, cnt, true)
    }

    /** `palloc_free_multiple` of pages in use; the pool is found by the first page. */
    method FreeMultiple(page: Option<nat>, cnt: nat)
      requires Valid()
      requires page != None && cnt > 0 ==> Owned(kernelPool, page.value, cnt) || Owned(userPool, page.value, cnt)
      modifies kernelPool.usedMap.bits, userPool.usedMap.bits
      ensures page == None || cnt == 0 ==>
                kernelPool.View() == old(kernelPool.View()) && userPool.View() == old(userPool.View())
      ensures page != None && cnt > 0 && old(Owned(kernelPool, page.value, cnt)) ==>
        kernelPool.View() == old(kernelPool.View()).Free(page.value, cnt) && userPool.View() == old(userPool.View())
      ensures page != None && cnt > 0 && old(Owned(userPool, page.value, cnt)) ==>
        userPool.View() == old(userPool.View()).Free(page.value, cnt) && kernelPool.View() == old(kernelPool.View())
    {
      if page == None || cnt == 0 { return; }
      var pool := userPool;
      if kernelPool.base <= page.value < kernelPool.base + kernelPool.usedMap.bitCnt { pool := kernelPool; }
      pool.usedMap.SetMultiple(page.value - pool.base, cnt, false);
    }
  }
}
