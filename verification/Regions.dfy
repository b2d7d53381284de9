/** Several regions of memory, each with its own buddy pool. */
module Regions {
  import opened Common
  import opened Blocks
  import opened BuddySpec
  import opened Buddy

  /** The pools share no part of their state. */
  ghost predicate Separate(pools: seq<Pool>)
    reads set p | p in pools
  {
    forall i, j :: 0 <= i < j < |pools| ==>
      && pools[i] != pools[j] && pools[i].frames != pools[j].frames
      && pools[i].pageList != pools[j].pageList && pools[i].freeNr != pools[j].freeNr
  }

  /** The free pages of a valid pool. */
  ghost function FreeOf(pool: Pool): set<nat>
    reads pool, pool.frames, pool.pageList, pool.freeNr
  {
    if pool.Valid() then pool.FreeSet() else {}
  }

  /** No aligned run of 2^order pages of the pool is free. */
  ghost predicate NoRun(pool: Pool, order: nat)
    reads pool, pool.frames, pool.pageList, pool.freeNr
  {
    forall p: nat :: Aligned(p, order) ==> !(Run(p, order) <= FreeOf(pool))
  }

  /** page_buddy_dequeue on one region. */
  method TakeFrom(pool: Pool, order: nat) returns (r: AllocResult)
    requires pool.Valid()
    modifies pool`heads, pool.frames, pool.pageList, pool.freeNr
    ensures pool.Valid()
    ensures !r.Allocated? ==> FreeOf(pool) == old(FreeOf(pool)) && (order < MAX_ORDER ==> NoRun(pool, order))
    ensures r.Allocated? ==>
      && order < MAX_ORDER && pool.startPfn <= r.pfn && Aligned(r.pfn - pool.startPfn, order)
      && var run := Run(r.pfn - pool.startPfn, order);
         run <= old(FreeOf(pool)) && FreeOf(pool) == old(FreeOf(pool)) - run
  {
    hide Partition, Queued, Maximal, FreePages, Run;
    r := pool.Dequeue(order);
  }

  /** alloc_buddy_pages: the first region that can serve the request does; there is no memory only when no
      region has an aligned free run. */
  method AllocPages(pools: seq<Pool>, order: nat) returns (r: Option<(nat, nat)>)
    requires Separate(pools) && forall i :: 0 <= i < |pools| ==> pools[i].Valid()
    modifies set p | p in pools, set p | p in pools :: p.frames, set p | p in pools :: p.pageList,
             set p | p in pools :: p.freeNr
    ensures forall i :: 0 <= i < |pools| ==> pools[i].Valid()
    ensures r.None? ==> forall i :: 0 <= i < |pools| ==> FreeOf(pools[i]) == old(FreeOf(pools[i]))
    ensures r.None? && order < MAX_ORDER ==> forall i :: 0 <= i < |pools| ==> NoRun(pools[i], order)
    ensures r.Some? ==> var k, pfn := r.value.0, r.value.1;
      && order < MAX_ORDER && k < |pools| && pools[k].startPfn <= pfn && Aligned(pfn - pools[k].startPfn, order)
      && (var run := Run(pfn - pools[k].startPfn, order);
          run <= old(FreeOf(pools[k])) && FreeOf(pools[k]) == old(FreeOf(pools[k])) - run)
      && (forall i :: 0 <= i < |pools| && i != k ==> FreeOf(pools[i]) == old(FreeOf(pools[i])))
      && (forall i :: 0 <= i < k ==> NoRun(pools[i], order))
  {
    hide Pool.Valid, FreeOf, NoRun, Run;
    var k := 0;
    while k < |pools|
      invariant 0 <= k <= |pools|
      invariant forall i :: 0 <= i < |pools| ==> pools[i].Valid()
      invariant forall i :: 0 <= i < |pools| ==> FreeOf(pools[i]) == old(FreeOf(pools[i]))
      invariant order < MAX_ORDER ==> forall i :: 0 <= i < k ==> NoRun(pools[i], order)
    {
      var a := TakeFrom(pools[k], order);
      if a.Allocated? { return Some((k, a.pfn)); }
      k := k + 1;
    }
    return None;
  }
}
