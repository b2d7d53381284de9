/** The buddy page allocator: splitting on allocation, coalescing on release. */
module Buddy {
  import opened Common
  import opened Blocks
  import opened BuddySpec

  datatype AllocResult = Allocated(pfn: nat) | InvalidOrder | NoMemory

  datatype ReleaseResult = Released | NotFound | NotReserved

  /** A region of `frames.Length` pages from `startPfn` on.  Pages from `maxPfn` on hold the frame array itself;
      `nrPages` is the bound that page_buddy_init is given, which counts from page 0. */
  class Pool {
    const startPfn: nat
    const maxPfn: nat
    const nrPages: nat
    const frames: array<Frame>
    const pageList: array<seq<nat>>
    const freeNr: array<int>
    ghost var heads: Heads

    ghost predicate Shape()
      reads this
    {
      && pageList.Length == MAX_ORDER && freeNr.Length == MAX_ORDER
      && frames as object != pageList && frames as object != freeNr && pageList as object != freeNr
    }

    ghost predicate Counted()
      requires Shape()
      reads this, pageList, freeNr
    {
      forall k :: 0 <= k < MAX_ORDER ==> freeNr[k] == |pageList[k]|
    }

    /** The pages that hold the frame array stay reserved; they are the last ones of a region that does not
        start at page 0, and no page is both in use and reserved. */
    ghost predicate Edge()
      reads this, frames
    {
      && nrPages == startPfn + frames.Length && maxPfn <= nrPages
      && (startPfn == 0 || maxPfn < nrPages || frames.Length == 0)
      && (forall p :: 0 <= p < frames.Length && maxPfn <= startPfn + p ==> frames[p].reserved)
      && (forall p :: 0 <= p < frames.Length ==> !frames[p].used || !frames[p].reserved)
    }

    /** All that holds while the block at i is in hand; -1 for none. */
    ghost predicate Holding(i: int)
      reads this, frames, pageList, freeNr
    {
      Shape() && Counted() && Edge() && PoolInv(frames[..], heads, pageList[..], i)
    }

    ghost predicate Valid()
      reads this, frames, pageList, freeNr
    {
      Holding(-1)
    }

    ghost function FreeSet(): set<nat>
      requires Partition(frames[..], heads)
      reads this, frames
    {
      FreePages(frames[..], heads)
    }

    /** page_buddy_init and kcom_add_page_info: every frame starts as a block of one page, in use or
        reserved, and the frames that are not reserved are then released one by one. */
    constructor (startPfn: nat, maxPfn: nat, reserved: seq<bool>)
      requires maxPfn <= startPfn + |reserved|
      requires startPfn == 0 || maxPfn < startPfn + |reserved| || reserved == []
      ensures Valid() && fresh(frames) && fresh(pageList) && fresh(freeNr)
      ensures this.startPfn == startPfn && this.maxPfn == maxPfn && frames.Length == |reserved|
      ensures FreeSet() == set p: nat | p < |reserved| && startPfn + p < maxPfn && !reserved[p]
      ensures forall p :: 0 <= p < |reserved| ==>
        !frames[p].used && frames[p].reserved == (startPfn + p >= maxPfn || reserved[p])
    {
      this.startPfn, this.maxPfn, nrPages := startPfn, maxPfn, startPfn + |reserved|;
      var kept := seq(|reserved|, i requires 0 <= i < |reserved| => startPfn + i >= maxPfn || reserved[i]);
      var fs := new Frame[|kept|](i requires 0 <= i < |kept| => Frame(0, !kept[i], kept[i]));
      var ls := new seq<nat>[MAX_ORDER](_ => []);
      var ns := new int[MAX_ORDER](_ => 0);
      frames, pageList, freeNr := fs, ls, ns;
      heads := seq(|reserved|, i => i);
      new;
      Fresh(frames[..], heads, pageList[..]);
      hide PoolInv, FreePages;
      ReleaseAll(kept);
    }

    method ReleaseAll(kept: seq<bool>)
      requires Valid() && frames.Length == |kept| && FreeSet() == {}
      requires forall p :: 0 <= p < |kept| ==> frames[p] == Frame(0, !kept[p], kept[p])
      modifies this`heads, frames, pageList, freeNr
      ensures Valid()
      ensures FreeSet() == set p: nat | p < |kept| && !kept[p]
      ensures forall p :: 0 <= p < |kept| ==> !frames[p].used && frames[p].reserved == kept[p]
    {
      hide Partition, Queued, Maximal, FreePages;
      var i := 0;
      while i < frames.Length
        invariant Valid()
        invariant 0 <= i <= frames.Length
        invariant forall p :: 0 <= p < |kept| ==> frames[p].reserved == kept[p]
        invariant forall p :: 0 <= p < |kept| ==> frames[p].used == (i <= p && !kept[p])
        invariant forall p :: i <= p < |kept| && !kept[p] ==> frames[p].order == 0
        invariant FreeSet() == set p: nat | p < i && !kept[p]
      {
        if !frames[i].reserved {
          RunOfOne(i);
          Enqueue(startPfn + i);
        }
        i := i + 1;
      }
    }

    /** page_buddy_get_free */
    method GetFree() returns (n: int)
      requires Valid()
      ensures n == |FreeSet()|
    {
      n := 0;
      CountAll(frames[..], heads);
      for i := 0 to MAX_ORDER
        invariant n == |FreeBelow(frames[..], heads, i)|
      {
        CountQueue(frames[..], heads, pageList[..], i);
        n := n + freeNr[i] * Pow2(i);
      }
    }

    /** The block at i is in use, or has just stopped being reserved and is on no queue. */
    ghost predicate Loose(i: nat)
      reads this, frames, pageList, freeNr
    {
      i < frames.Length && (Holding(i) || (Holding(-1) && frames[i].used))
    }

    /** page_buddy_enqueue; a page that holds the frame array is left alone */
    method Enqueue(pfn: nat)
      requires startPfn <= pfn < startPfn + nrPages && (pfn < maxPfn || Valid())
      requires pfn < maxPfn ==> Loose(pfn - startPfn)
      modifies this`heads, frames, pageList, freeNr
      ensures Valid()
      ensures pfn >= maxPfn ==> frames[..] == old(frames[..]) && pageList[..] == old(pageList[..])
      ensures pfn < maxPfn ==> var i := pfn - startPfn;
        && frames[i].Free() && SameInUse(old(frames[..]), frames[..], i)
        && FreeSet() == old(FreeSet()) + Run(i, old(frames[i].order))
        && (old(frames[i].used) ==> old(FreeSet()) !! Run(i, old(frames[i].order)))
        && exists m :: Joined(old(pageList[..]), pageList[..], i, old(frames[i].order), m)
    {
      if pfn >= maxPfn { return; }
      hide Partition, Queued, Maximal, FreePages, Joined;
      var idx := pfn - startPfn;
      ghost var F := frames[..];
      if frames[idx].used {
        Release(F, heads, pageList[..], idx);
      } else {
        InHand(F, heads, pageList[..], idx);
        HeldPages(F, heads, idx);
      }
      frames[idx] := frames[idx].(used := false);
      assert frames[..] == F[idx := Frame(F[idx].order, false, false)];
      ghost var m := Coalesce(idx);
    }

    /** Lines 137-216: merge the block in hand with its free buddies and queue the result. */
    method Coalesce(idx: nat) returns (ghost m: nat)
      requires idx < frames.Length && Holding(idx)
      modifies this`heads, frames, pageList, freeNr
      ensures Valid() && FreeSet() == old(FreeSet())
      ensures Joined(old(pageList[..]), pageList[..], idx, old(frames[idx].order), m)
      ensures frames[idx].Free() && SameInUse(old(frames[..]), frames[..], idx)
    {
      hide Partition, Queued, Maximal, FreePages, Edge, XorBit, ClearLow, Merged, Joined, Stops;
      var curIdx: nat := idx;
      var curOrder: nat := frames[curIdx].order;
      ghost var first := frames[..];
      InHand(first, heads, pageList[..], curIdx);
      assert Reordered(first, curIdx, curOrder) == first;
      ghost var target, L := FreePages(first, heads), pageList[..];
      AlignedIsClear(idx, curOrder);
      MergedNone(L, idx, curOrder);

      var merged := true;
      while merged
        invariant Shape() && Counted() && Edge() && curOrder < MAX_ORDER && curIdx < frames.Length
        invariant PoolInv(Reordered(frames[..], curIdx, curOrder), heads, pageList[..], curIdx)
        invariant FreePages(Reordered(frames[..], curIdx, curOrder), heads) == target
        invariant SameInUse(first, frames[..], idx) && frames[idx].Free()
        invariant first[idx].order <= curOrder && curIdx == ClearLow(idx, curOrder)
        invariant Merged(L, pageList[..], idx, first[idx].order, curOrder)
        invariant !merged ==> frames[curIdx].order == curOrder && Stops(curIdx)
        decreases merged, MAX_ORDER - curOrder
      {
        ghost var L1 := pageList[..];
        ghost var F1 := frames[..];
        merged := TryMerge(curIdx, curOrder);
        assert Reordered(frames[..], curIdx, curOrder) == frames[..] == Reordered(F1, curIdx, curOrder);
        if merged {
          MergedStep(L, L1, pageList[..], idx, first[idx].order, curOrder);
          ClearTwice(idx, curOrder);
          curOrder := curOrder + 1;
          curIdx := ClearLow(curIdx, curOrder);
        }
      }
      assert Reordered(frames[..], curIdx, curOrder) == frames[..];
      ghost var L1 := pageList[..];
      Append(curIdx);
      MergedDone(L, L1, pageList[..], idx, first[idx].order, curOrder);
      m := curOrder;
    }

    /** The block at idx cannot merge: it has the top order, or its buddy is no free block of the same order. */
    ghost predicate Stops(idx: nat)
      requires idx < frames.Length
      reads this, frames
    {
      var k := frames[idx].order; var b := XorBit(idx, k);
      k + 1 >= MAX_ORDER || b >= frames.Length || frames[b].order != k || !frames[b].Free()
    }

    /** Lines 147-186: set the order of the block in hand and take its buddy from the queue if it is free. */
    method TryMerge(idx: nat, order: nat) returns (merged: bool)
      requires Shape() && Counted() && Edge() && idx < frames.Length && order < MAX_ORDER
      requires PoolInv(Reordered(frames[..], idx, order), heads, pageList[..], idx)
      modifies this`heads, frames, pageList, freeNr
      ensures Shape() && Counted() && Edge() && frames[..] == Reordered(old(frames[..]), idx, order)
      ensures !merged ==> heads == old(heads) && pageList[..] == old(pageList[..]) && Stops(idx)
      ensures merged ==> var lo := ClearLow(idx, order + 1);
        && order + 1 < MAX_ORDER && lo < frames.Length
        && pageList[..] == old(pageList[..])[order := Remove(old(pageList[..])[order], XorBit(idx, order))]
        && PoolInv(Reordered(frames[..], lo, order + 1), heads, pageList[..], lo)
        && FreePages(Reordered(frames[..], lo, order + 1), heads) == FreePages(frames[..], old(heads))
    {
      hide Partition, Queued, Maximal, FreePages, Edge, XorBit, ClearLow;
      SetOrder(idx, order);
      InHand(frames[..], heads, pageList[..], idx);
      if order >= MAX_ORDER - 1 { return false; }
      var buddyIdx := XorBit(idx, order);
      BoundSound(idx);
      if buddyIdx >= nrPages { return false; }
      if frames[idx].order != frames[buddyIdx].order { return false; }
      if !frames[buddyIdx].Free() { return false; }
      TakeBuddy(idx, buddyIdx, order);
      return true;
    }

    /** Line 151 */
    method SetOrder(idx: nat, order: nat)
      requires idx < frames.Length && Edge()
      modifies frames
      ensures frames[..] == Reordered(old(frames[..]), idx, order) && Edge()
    {
      frames[idx] := frames[idx].(order := order);
    }

    /** For the buddy of a free block the bound that counts from page 0 is as good as the array length. */
    lemma BoundSound(i: nat)
      requires Edge() && Partition(frames[..], heads) && Head(heads, i) && frames[i].Free()
      ensures XorBit(i, frames[i].order) >= nrPages <==> XorBit(i, frames[i].order) >= frames.Length
    {
      if startPfn > 0 { BuddyInside(frames[..], heads, i); }
    }

    /** Lines 184-186: the free buddy leaves its queue; its pages join the block in hand, one order up. */
    method TakeBuddy(idx: nat, buddyIdx: nat, order: nat)
      requires Shape() && Counted() && Edge()
      requires idx < frames.Length && frames[idx].order == order && order + 1 < MAX_ORDER
      requires PoolInv(frames[..], heads, pageList[..], idx)
      requires buddyIdx == XorBit(idx, order) < frames.Length
      requires frames[buddyIdx].order == order && frames[buddyIdx].Free()
      modifies this`heads, pageList, freeNr
      ensures Shape() && Counted() && Edge()
      ensures pageList[..] == old(pageList[..])[order := Remove(old(pageList[..])[order], buddyIdx)]
      ensures var lo := ClearLow(idx, order + 1);
        && lo < frames.Length && PoolInv(Reordered(frames[..], lo, order + 1), heads, pageList[..], lo)
        && FreePages(Reordered(frames[..], lo, order + 1), heads) == FreePages(frames[..], old(heads))
    {
      hide Partition, Queued, Maximal, FreePages;
      ghost var F, H, L, lo := frames[..], heads, pageList[..], ClearLow(idx, order + 1);
      ghost var L' := L[order := Remove(L[order], buddyIdx)];
      InHand(F, H, L, idx);
      Merge(F, H, L, idx, Reordered(F, lo, order + 1), Reheaded(H, lo, order + 1), L');
      pageList[order] := Remove(pageList[order], buddyIdx);
      assert pageList[..] == L';
      freeNr[order] := freeNr[order] - 1;
      heads := Reheaded(H, lo, order + 1);
    }

    /** Lines 200-216: the block in hand goes to the tail of its queue. */
    method Append(idx: nat)
      requires idx < frames.Length && Holding(idx)
      requires Stops(idx)
      modifies pageList, freeNr
      ensures Valid()
      ensures var k := frames[idx].order;
        k < MAX_ORDER && pageList[..] == old(pageList[..])[k := old(pageList[..])[k] + [idx]]
    {
      hide Partition, Queued, Maximal, FreePages;
      ghost var L := pageList[..];
      Settle(frames[..], heads, L, idx);
      var order := frames[idx].order;
      pageList[order] := pageList[order] + [idx];
      freeNr[order] := freeNr[order] + 1;
      assert pageList[..] == L[order := L[order] + [idx]];
    }

    /** page_release_reservation */
    method ReleaseReservation(pfn: nat) returns (r: ReleaseResult)
      requires Valid()
      modifies this`heads, frames, pageList, freeNr
      ensures Valid()
      ensures r == if pfn < startPfn || pfn >= maxPfn then NotFound
                   else if !old(frames[..])[pfn - startPfn].reserved then NotReserved else Released
      ensures !r.Released? ==> frames[..] == old(frames[..]) && pageList[..] == old(pageList[..])
      ensures r.Released? ==> var i := pfn - startPfn; var run := Run(i, old(frames[i].order));
        && frames[i].Free() && SameInUse(old(frames[..]), frames[..], i)
        && FreeSet() == old(FreeSet()) + run && old(FreeSet()) !! run
        && exists m :: Joined(old(pageList[..]), pageList[..], i, old(frames[i].order), m)
    {
      hide Partition, Queued, Maximal, FreePages;
      if pfn < startPfn || pfn >= maxPfn { return NotFound; }
      var i := pfn - startPfn;
      if !frames[i].reserved { return NotReserved; }
      ghost var F := frames[..];
      Release(F, heads, pageList[..], i);
      frames[i] := frames[i].(reserved := false);
      assert frames[..] == F[i := Frame(F[i].order, false, false)];
      Enqueue(pfn);
      return Released;
    }

    /** remove_page_from_page_queue: keep halving the block in hand until it has the requested order */
    method RemoveFromQueue(page: nat, requestOrder: nat, foundOrder: nat) returns (rmPage: nat)
      requires Holding(page)
      requires page < frames.Length && frames[page].order == foundOrder && requestOrder <= foundOrder
      modifies this`heads, frames, pageList, freeNr
      ensures Holding(rmPage)
      ensures rmPage < frames.Length && frames[rmPage].order == requestOrder && frames[rmPage].Free()
      ensures FreeSet() == old(FreeSet())
      ensures SameInUse(old(frames[..]), frames[..], rmPage) && old(frames[..])[rmPage].Free()
      ensures foundOrder < MAX_ORDER && rmPage == Upper(page, foundOrder, requestOrder)
      ensures Halved(old(pageList[..]), pageList[..], page, foundOrder, requestOrder)
      ensures requestOrder == foundOrder ==> frames[..] == old(frames[..]) && heads == old(heads)
    {
      hide Partition, Queued, Maximal, FreePages, Edge;
      rmPage := page;
      var curOrder := foundOrder;
      ghost var L := pageList[..];
      InHand(frames[..], heads, pageList[..], rmPage);
      while curOrder > requestOrder
        invariant requestOrder <= curOrder < MAX_ORDER
        invariant Holding(rmPage) && rmPage < frames.Length && frames[rmPage].order == curOrder
        invariant FreePages(frames[..], heads) == old(FreePages(frames[..], heads))
        invariant SameInUse(old(frames[..]), frames[..], rmPage) && frames[rmPage].Free()
        invariant old(frames[..])[rmPage].Free()
        invariant curOrder <= foundOrder < MAX_ORDER && rmPage == Upper(page, foundOrder, curOrder)
        invariant Halved(L, pageList[..], page, foundOrder, curOrder)
        invariant curOrder == foundOrder ==> frames[..] == old(frames[..]) && heads == old(heads)
      {
        curOrder := curOrder - 1;
        ghost var L1 := pageList[..];
        rmPage := Halve(rmPage, curOrder);
        HalvedStep(L, L1, pageList[..], page, foundOrder, curOrder);
      }
    }

    /** Lines 50-71: the lower half goes to the queue one order down, the upper half stays in hand. */
    method Halve(page: nat, order: nat) returns (upper: nat)
      requires Holding(page) && page < frames.Length && frames[page].order == order + 1
      modifies this`heads, frames, pageList, freeNr
      ensures Holding(upper) && upper < frames.Length && frames[upper].order == order && frames[upper].Free()
      ensures FreePages(frames[..], heads) == old(FreePages(frames[..], heads))
      ensures SameInUse(old(frames[..]), frames[..], upper) && old(frames[..])[upper].Free()
      ensures old(frames[..])[page].Free() && frames[page].Free()
      ensures upper == page + Pow2(order) && order < MAX_ORDER
      ensures pageList[..] == old(pageList[..])[order := old(pageList[..])[order] + [page]]
    {
      hide Partition, Queued, Maximal, FreePages;
      ghost var F, H, L := frames[..], heads, pageList[..];
      InHand(F, H, L, page);
      upper := page + Pow2(order);
      frames[page] := frames[page].(order := order);
      pageList[order] := pageList[order] + [page];
      freeNr[order] := freeNr[order] + 1;
      frames[upper] := frames[upper].(order := order);
      heads := Reheaded(H, upper, order);
      assert frames[..] == Reordered(Reordered(F, page, order), upper, order);
      assert pageList[..] == L[order := L[order] + [page]];
      Split(F, H, L, page, frames[..], heads, pageList[..]);
      InHand(frames[..], heads, pageList[..], upper);
    }

    /** page_buddy_dequeue */
    method Dequeue(order: nat) returns (r: AllocResult)
      requires Valid()
      modifies this`heads, frames, pageList, freeNr
      ensures Valid()
      ensures r.InvalidOrder? <==> order >= MAX_ORDER
      ensures r.Allocated? ==>
        && startPfn <= r.pfn < startPfn + frames.Length
        && var i := r.pfn - startPfn;
           && old(frames[i].Free()) && frames[i].used && !frames[i].reserved && frames[i].order == order
           && Aligned(i, order)
           && Run(i, order) <= old(FreeSet()) && FreeSet() == old(FreeSet()) - Run(i, order)
           && SameInUse(old(frames[..]), frames[..], i)
           && Served(old(frames[..]), old(heads), old(pageList[..]), pageList[..], order, i)
           && (old(frames[i].order) == order && old(heads[i]) == i ==>
                 frames[..] == old(frames[..])[i := Frame(order, true, false)])
      ensures !r.Allocated? ==>
        frames[..] == old(frames[..]) && heads == old(heads) && pageList[..] == old(pageList[..])
      ensures r.NoMemory? ==> forall i: nat :: Aligned(i, order) ==> !(Run(i, order) <= FreeSet())
    {
      hide Partition, Queued, Maximal, FreePages;
      if order >= MAX_ORDER { return InvalidOrder; }
      var curOrder := order;
      while curOrder < MAX_ORDER
        invariant order <= curOrder <= MAX_ORDER
        invariant forall k :: order <= k < curOrder ==> pageList[k] == []
      {
        if pageList[curOrder] != [] {
          var curPage := pageList[curOrder][0];
          ghost var L := pageList[..];
          Take(frames[..], heads, L, curOrder);
          pageList[curOrder] := pageList[curOrder][1..];
          freeNr[curOrder] := freeNr[curOrder] - 1;
          assert pageList[..] == L[curOrder := L[curOrder][1..]];
          InHand(frames[..], heads, pageList[..], curPage);
          ghost var F0, H0, h := frames[..], heads, curPage;
          curPage := RemoveFromQueue(curPage, order, curOrder);
          ServedBy(F0, H0, L, pageList[..], order, curOrder, curPage);
          ghost var F := frames[..];
          InHand(F, heads, pageList[..], curPage);
          Use(F, heads, pageList[..], curPage);
          frames[curPage] := frames[curPage].(used := true);
          assert frames[..] == F[curPage := F[curPage].(used := true)];
          return Allocated(curPage + startPfn);
        }
        curOrder := curOrder + 1;
      }
      NoBlockNoRun(frames[..], heads, pageList[..], order);
      return NoMemory;
    }
  }

  /** Releasing a block right after allocating it restores every queue's contents and every count. */
  method AllocateAndRelease(pool: Pool, order: nat)
    requires pool.Valid()
    modifies pool`heads, pool.frames, pool.pageList, pool.freeNr
    ensures pool.Valid() && pool.FreeSet() == old(pool.FreeSet())
    ensures forall k, h :: 0 <= k < MAX_ORDER ==> (h in pool.pageList[k] <==> h in old(pool.pageList[..])[k])
    ensures pool.freeNr[..] == old(pool.freeNr[..])
  {
    hide Partition, Queued, Maximal, FreePages;
    var r := pool.Dequeue(order);
    if r.Allocated? {
      pool.Enqueue(r.pfn);
    }
    QueuesCanonical(old(pool.frames[..]), old(pool.heads), old(pool.pageList[..]),
                    pool.frames[..], pool.heads, pool.pageList[..]);
  }

  /** With every queue from `order` up empty there is no aligned free run of that order. */
  lemma NoBlockNoRun(F: seq<Frame>, H: Heads, L: Queues, order: nat)
    requires PoolInv(F, H, L, -1) && order < MAX_ORDER
    requires forall k :: order <= k < MAX_ORDER ==> L[k] == []
    ensures forall i: nat :: Aligned(i, order) ==> !(Run(i, order) <= FreePages(F, H))
  {
    forall i: nat | Aligned(i, order)
      ensures !(Run(i, order) <= FreePages(F, H))
    {
      if Run(i, order) <= FreePages(F, H) {
        FreeRunQueued(F, H, L, i, order);
      }
    }
  }

  /** An aligned run of free pages is found on a queue of at least its order. */
  lemma FreeRunQueued(F: seq<Frame>, H: Heads, L: Queues, i: nat, order: nat)
    requires PoolInv(F, H, L, -1) && order < MAX_ORDER && Aligned(i, order)
    requires Run(i, order) <= FreePages(F, H)
    ensures i < |H| && var k := F[H[i]].order; order <= k < MAX_ORDER && H[i] in L[k]
  {
    forall p | i <= p < i + Pow2(order)
      ensures p < |H| && F[H[p]].Free()
    {
      assert InBlock(p, i, order);
      assert p in Run(i, order);
    }
    var last := i + Pow2(order) - 1;
    assert InBlock(last, i, order) && last in Run(i, order);
    FreeRunCovered(F, H, i, order);
    var h := H[i];
    assert BlockOk(F, H, h) && FreeHead(F, H, h, F[h].order, -1);
    assert QueueOk(F, H, L[F[h].order], F[h].order, -1);
  }
}
