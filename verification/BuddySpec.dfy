/** The buddy pool as a value: page frames, per-order queues and the partition
    into blocks that the code keeps only implicitly.  Only head frames carry a
    meaningful `order`; the ghost sequence `H` maps every page to its head. */
module BuddySpec {
  import opened Common
  import opened Blocks

  const MAX_ORDER := 11

  datatype Frame = Frame(order: nat, used: bool, reserved: bool) {
    predicate Free() { !used && !reserved }
  }

  type Heads = seq<nat>
  type Queues = seq<seq<nat>>

  ghost predicate Head(H: Heads, h: int) {
    0 <= h < |H| && H[h] == h
  }

  ghost predicate BlockOk(F: seq<Frame>, H: Heads, h: nat)
    requires |F| == |H| && h < |F|
  {
    && F[h].order < MAX_ORDER
    && Aligned(h, F[h].order)
    && h + Pow2(F[h].order) <= |F|
    && (forall q :: InBlock(q, h, F[h].order) ==> H[q] == h)
  }

  /** The pages are partitioned into aligned blocks; frames that are not the
      head of a block are neither in use nor reserved. */
  ghost predicate Partition(F: seq<Frame>, H: Heads) {
    && |F| == |H|
    && (forall h :: Head(H, h) ==> BlockOk(F, H, h))
    && (forall p :: 0 <= p < |H| ==> Head(H, H[p]) && InBlock(p, H[p], F[H[p]].order))
    && (forall p :: 0 <= p < |H| && !Head(H, p) ==> F[p].Free())
  }

  /** h heads a free block of order k; the block `out` is the one in hand, which is on no queue. */
  ghost predicate FreeHead(F: seq<Frame>, H: Heads, h: int, k: int, out: int)
    requires |F| == |H|
  {
    Head(H, h) && F[h].order == k && F[h].Free() && h != out
  }

  /** The queue holds exactly the heads of the free blocks of order k, each once. */
  ghost predicate QueueOk(F: seq<Frame>, H: Heads, q: seq<nat>, k: nat, out: int)
    requires |F| == |H|
  {
    NoDup(q) && forall h: nat :: h in q <==> FreeHead(F, H, h, k, out)
  }

  ghost predicate Queued(F: seq<Frame>, H: Heads, L: Queues, out: int)
    requires |F| == |H|
  {
    |L| == MAX_ORDER && forall k :: 0 <= k < MAX_ORDER ==> QueueOk(F, H, L[k], k, out)
  }

  /** No two free buddies of the same order below the top order coexist. */
  ghost predicate Maximal(F: seq<Frame>, H: Heads, out: int)
    requires |F| == |H|
  {
    forall h: nat, k: nat :: FreeHead(F, H, h, k, out) && k + 1 < MAX_ORDER
      ==> !FreeHead(F, H, XorBit(h, k), k, out)
  }

  ghost predicate PoolInv(F: seq<Frame>, H: Heads, L: Queues, out: int) {
    && Partition(F, H)
    && Queued(F, H, L, out)
    && Maximal(F, H, out)
    && (out == -1 || (Head(H, out) && F[out].Free()))
  }

  /** The pages of all free blocks. */
  ghost function FreePages(F: seq<Frame>, H: Heads): set<nat>
    requires Partition(F, H)
  {
    set p: nat | p < |H| && F[H[p]].Free()
  }

  ghost function Run(i: nat, k: nat): set<nat> {
    set p: nat | p < i + Pow2(k) && InBlock(p, i, k)
  }

  lemma RunOfOne(i: nat)
    ensures Run(i, 0) == {i}
  {
    assert Pow2(0) == 1;
    forall p: nat
      ensures p in Run(i, 0) <==> p == i
    {
      assert InBlock(p, i, 0) <==> p == i;
    }
  }

  /** Blocks in use are the same before and after, except the one headed by `x`. */
  ghost predicate SameInUse(F: seq<Frame>, F': seq<Frame>, x: nat) {
    && |F| == |F'|
    && (forall h :: 0 <= h < |F| && h != x ==>
          F[h].used == F'[h].used && F[h].reserved == F'[h].reserved
          && (!F[h].Free() ==> F[h].order == F'[h].order))
  }

  // ---- The alignment argument behind the cheap merge test ----

  /** A block of order at least k that holds one page of an aligned run of order k holds all of it. */
  lemma SameBlock(F: seq<Frame>, H: Heads, i: nat, k: nat, p: nat, q: nat)
    requires Partition(F, H) && Aligned(i, k) && InBlock(p, i, k) && InBlock(q, i, k)
    requires p < |F| && q < |F| && F[H[p]].order >= k
    ensures H[q] == H[p]
  {
    var h := H[p];
    assert BlockOk(F, H, h);
    Nested(i, k, h, F[h].order, p);
    assert InBlock(q, h, F[h].order);
  }

  /** An aligned index inside a block of order at most its alignment is the block's head. */
  lemma AlignedIsHead(F: seq<Frame>, H: Heads, b: nat, k: nat)
    requires Partition(F, H) && b < |F| && Aligned(b, k) && F[H[b]].order <= k
    ensures H[b] == b
  {
    var h := H[b];
    var j := F[h].order;
    assert BlockOk(F, H, h);
    AlignedDown(b, j, k);
    assert InBlock(b, b, j);
    Nested(b, j, h, j, b);
  }

  /** The buddy index of a block of order k that is inside the array is itself the
      head of a block of order at most k: its `order` field is never stale. */
  lemma BuddyIsHead(F: seq<Frame>, H: Heads, i: nat)
    requires Partition(F, H) && Head(H, i)
    ensures var k := F[i].order; var b := XorBit(i, k);
      b < |F| ==> Head(H, b) && F[b].order <= k && b != i
  {
    var k := F[i].order;
    var b := XorBit(i, k);
    assert BlockOk(F, H, i);
    BuddyPair(i, k);
    if b < |F| {
      if F[H[b]].order > k { SameBlock(F, H, ClearLow(i, k + 1), k + 1, b, i); }
      AlignedIsHead(F, H, b, k);
    }
  }

  lemma BuddyInvolution(F: seq<Frame>, H: Heads, h: nat)
    requires Partition(F, H) && Head(H, h)
    ensures XorBit(XorBit(h, F[h].order), F[h].order) == h
  {
    assert BlockOk(F, H, h);
    BuddyPair(h, F[h].order);
  }

  // ---- One lemma per state change of the code ----

  /** What the code relies on about the block in hand: its asserted order bound and alignment. */
  lemma InHand(F: seq<Frame>, H: Heads, L: Queues, i: nat)
    requires PoolInv(F, H, L, i)
    ensures |H| == |F| && |L| == MAX_ORDER && i < |F|
    ensures F[i].Free() && F[i].order < MAX_ORDER && Aligned(i, F[i].order)
    ensures ClearLow(i, F[i].order + 1) <= i
    ensures i + Pow2(F[i].order) <= |F|
  {
    assert BlockOk(F, H, i);
    BuddyPair(i, F[i].order);
  }

  ghost function Reheaded(H: Heads, i: nat, k: nat): Heads {
    seq(|H|, p requires 0 <= p < |H| => if InBlock(p, i, k) then i else H[p])
  }

  ghost function Reordered(F: seq<Frame>, i: nat, k: nat): seq<Frame>
    requires i < |F|
  {
    F[i := F[i].(order := k)]
  }

  /** A block stops being in use or reserved and is now in hand. */
  lemma Release(F: seq<Frame>, H: Heads, L: Queues, i: nat)
    requires PoolInv(F, H, L, -1) && i < |F| && !F[i].Free()
    ensures var F' := F[i := Frame(F[i].order, false, false)];
      && PoolInv(F', H, L, i)
      && FreePages(F', H) == FreePages(F, H) + Run(i, F[i].order)
      && FreePages(F, H) !! Run(i, F[i].order)
  {
    var F' := F[i := Frame(F[i].order, false, false)];
    assert Head(H, i) && BlockOk(F, H, i);
    assert forall h :: Head(H, h) ==> BlockOk(F, H, h) && BlockOk(F', H, h);
    assert forall p | 0 <= p < |H| :: InBlock(p, i, F[i].order) <==> H[p] == i;
    assert forall h, k :: FreeHead(F', H, h, k, i) <==> FreeHead(F, H, h, k, -1);
  }

  /** The pages of a free block are free. */
  lemma HeldPages(F: seq<Frame>, H: Heads, i: nat)
    requires Partition(F, H) && Head(H, i) && F[i].Free()
    ensures Run(i, F[i].order) <= FreePages(F, H)
  {
    assert BlockOk(F, H, i);
  }

  /** When the last frame is reserved, the buddy of a free block lies inside the array: the block itself
      would have to end with the last frame. */
  lemma BuddyInside(F: seq<Frame>, H: Heads, i: nat)
    requires Partition(F, H) && Head(H, i) && F[i].Free() && F[|F| - 1].reserved
    ensures XorBit(i, F[i].order) < |F|
  {
    var k, last := F[i].order, |F| - 1;
    assert BlockOk(F, H, i);
    BuddyPair(i, k);
    assert Head(H, last);
    assert last != i;
    assert !InBlock(last, i, k);
  }

  /** Merging relabels exactly the pages of the two buddies. */
  lemma MergeHeads(F: seq<Frame>, H: Heads, i: nat, H': Heads)
    requires Partition(F, H) && Head(H, i) && F[i].order + 1 < MAX_ORDER
    requires var k := F[i].order; var b := XorBit(i, k);
      b < |F| && F[b].order == k && H' == Reheaded(H, ClearLow(i, k + 1), k + 1)
    ensures var k := F[i].order; var b := XorBit(i, k); var lo := ClearLow(i, k + 1);
      && b != i && Head(H, b) && (lo == i || lo == b) && lo + Pow2(k + 1) <= |F| && Aligned(lo, k + 1)
      && (forall p :: lo <= p < lo + Pow2(k + 1) ==> H'[p] == lo)
      && (forall p :: 0 <= p < |H| ==> H'[p] == if H[p] == i || H[p] == b then lo else H[p])
  {
    var k := F[i].order;
    var b := XorBit(i, k);
    var lo := ClearLow(i, k + 1);
    BuddyPair(i, k);
    BuddyIsHead(F, H, i);
    assert BlockOk(F, H, i) && BlockOk(F, H, b);
    forall p | 0 <= p < |H|
      ensures InBlock(p, lo, k + 1) <==> H[p] == i || H[p] == b
    {
      assert InBlock(p, lo, k + 1) <==> InBlock(p, i, k) || InBlock(p, b, k);
    }
  }

  lemma MergeBlock(F: seq<Frame>, H: Heads, i: nat, F': seq<Frame>, H': Heads, h: nat)
    requires Partition(F, H) && Head(H, i) && F[i].order + 1 < MAX_ORDER
    requires var k := F[i].order; var b := XorBit(i, k); var lo := ClearLow(i, k + 1);
      && b < |F| && F[b].order == k && lo < |F|
      && F' == Reordered(F, lo, k + 1) && H' == Reheaded(H, lo, k + 1)
    requires Head(H', h)
    ensures BlockOk(F', H', h)
  {
    MergeHeads(F, H, i, H');
    if h != ClearLow(i, F[i].order + 1) {
      assert Head(H, h);
      assert BlockOk(F, H, h);
      forall q | InBlock(q, h, F[h].order)
        ensures H'[q] == h
      {
        assert H[q] == h;
      }
    }
  }

  lemma MergePartition(F: seq<Frame>, H: Heads, i: nat, F': seq<Frame>, H': Heads)
    requires Partition(F, H) && Head(H, i) && F[i].Free() && F[i].order + 1 < MAX_ORDER
    requires var k := F[i].order; var b := XorBit(i, k); var lo := ClearLow(i, k + 1);
      && b < |F| && F[b].order == k && F[b].Free()
      && lo < |F|
      && F' == Reordered(F, lo, k + 1) && H' == Reheaded(H, lo, k + 1)
    ensures Partition(F', H')
    ensures FreePages(F', H') == FreePages(F, H)
    ensures var k := F[i].order; var b := XorBit(i, k); var lo := ClearLow(i, k + 1);
      Head(H', lo) && F'[lo].Free() && b != i && Head(H, b)
  {
    var k := F[i].order;
    var lo := ClearLow(i, k + 1);
    MergeHeads(F, H, i, H');
    forall h | Head(H', h)
      ensures BlockOk(F', H', h)
    {
      MergeBlock(F, H, i, F', H', h);
    }
    assert BlockOk(F', H', lo);
    forall p | 0 <= p < |H'|
      ensures Head(H', H'[p]) && InBlock(p, H'[p], F'[H'[p]].order)
      ensures !Head(H', p) ==> F'[p].Free()
    {
      MergePage(F, H, i, F', H', p);
    }
  }

  /** Every page keeps its head, or gets the head of the merged block. */
  lemma MergePage(F: seq<Frame>, H: Heads, i: nat, F': seq<Frame>, H': Heads, p: nat)
    requires Partition(F, H) && Head(H, i) && F[i].Free() && F[i].order + 1 < MAX_ORDER && p < |F|
    requires var k := F[i].order; var b := XorBit(i, k); var lo := ClearLow(i, k + 1);
      && b < |F| && F[b].order == k && F[b].Free()
      && lo < |F|
      && F' == Reordered(F, lo, k + 1) && H' == Reheaded(H, lo, k + 1)
    ensures Head(H', H'[p]) && InBlock(p, H'[p], F'[H'[p]].order)
    ensures !Head(H', p) ==> F'[p].Free()
  {
    var k, b, lo := F[i].order, XorBit(i, F[i].order), ClearLow(i, F[i].order + 1);
    MergeHeads(F, H, i, H');
    assert Head(H, H[p]) && InBlock(p, H[p], F[H[p]].order);
    if !InBlock(p, lo, k + 1) {
      assert H'[p] == H[p];
      assert H[p] != i && H[p] != b;
    }
  }

  lemma MergeFreeHeads(F: seq<Frame>, H: Heads, i: nat, F': seq<Frame>, H': Heads, h: int, j: int)
    requires Partition(F, H) && Head(H, i) && F[i].Free() && F[i].order + 1 < MAX_ORDER
    requires var k := F[i].order; var b := XorBit(i, k); var lo := ClearLow(i, k + 1);
      && b < |F| && F[b].order == k && F[b].Free()
      && lo < |F|
      && F' == Reordered(F, lo, k + 1) && H' == Reheaded(H, lo, k + 1)
    ensures var k := F[i].order; var b := XorBit(i, k); var lo := ClearLow(i, k + 1);
      FreeHead(F', H', h, j, lo) <==> FreeHead(F, H, h, j, i) && h != b
  {
    MergeHeads(F, H, i, H');
  }

  /** Lines 158-196: a free buddy of the same order leaves its queue and joins the block in hand. */
  lemma Merge(F: seq<Frame>, H: Heads, L: Queues, i: nat, F': seq<Frame>, H': Heads, L': Queues)
    requires PoolInv(F, H, L, i) && F[i].order + 1 < MAX_ORDER
    requires var k := F[i].order; var b := XorBit(i, k); var lo := ClearLow(i, k + 1);
      && b < |F| && F[b].order == k && F[b].Free()
      && lo < |F|
      && F' == Reordered(F, lo, k + 1) && H' == Reheaded(H, lo, k + 1) && L' == L[k := Remove(L[k], b)]
    ensures XorBit(i, F[i].order) in L[F[i].order] && |L'[F[i].order]| == |L[F[i].order]| - 1
    ensures PoolInv(F', H', L', ClearLow(i, F[i].order + 1))
    ensures FreePages(F', H') == FreePages(F, H)
  {
    var k := F[i].order;
    var b := XorBit(i, k);
    var lo := ClearLow(i, k + 1);
    MergePartition(F, H, i, F', H');
    forall h, j
      ensures FreeHead(F', H', h, j, lo) <==> FreeHead(F, H, h, j, i) && h != b
    {
      MergeFreeHeads(F, H, i, F', H', h, j);
    }
    assert QueueOk(F, H, L[k], k, i) && FreeHead(F, H, b, k, i);
    RemoveProps(L[k], b);
    forall j | 0 <= j < MAX_ORDER
      ensures QueueOk(F', H', L'[j], j, lo)
    {
      assert QueueOk(F, H, L[j], j, i);
    }
  }

  /** Lines 200-216: a block that cannot merge goes to the tail of its queue. */
  lemma Settle(F: seq<Frame>, H: Heads, L: Queues, i: nat)
    requires PoolInv(F, H, L, i)
    requires var k := F[i].order; var b := XorBit(i, k);
      k + 1 >= MAX_ORDER || b >= |F| || F[b].order != k || !F[b].Free()
    ensures F[i].order < MAX_ORDER
    ensures PoolInv(F, H, L[F[i].order := L[F[i].order] + [i]], -1)
  {
    var k := F[i].order;
    assert BlockOk(F, H, i);
    BuddyPair(i, k);
    assert forall h, j :: FreeHead(F, H, h, j, -1) <==> FreeHead(F, H, h, j, i) || (h == i && j == k);
    var L' := L[k := L[k] + [i]];
    assert QueueOk(F, H, L[k], k, i) && !FreeHead(F, H, i, k, i);
    NoDupAppend(L[k], i);
    forall j | 0 <= j < MAX_ORDER
      ensures QueueOk(F, H, L'[j], j, -1)
    {
      assert QueueOk(F, H, L[j], j, i);
    }
    forall h: nat, j: nat | FreeHead(F, H, h, j, -1) && j + 1 < MAX_ORDER
      ensures !FreeHead(F, H, XorBit(h, j), j, -1)
    {
      if h != i {
        assert BlockOk(F, H, h);
        BuddyPair(h, j);
      }
    }
  }

  /** Lines 244-249: the first block of a queue is taken in hand. */
  lemma Take(F: seq<Frame>, H: Heads, L: Queues, k: nat)
    requires PoolInv(F, H, L, -1) && k < MAX_ORDER && L[k] != []
    ensures PoolInv(F, H, L[k := L[k][1..]], L[k][0])
    ensures F[L[k][0]].order == k
  {
    var i, L' := L[k][0], L[k := L[k][1..]];
    assert i in L[k];
    assert L[k] == [i] + L[k][1..];
    assert QueueOk(F, H, L[k], k, -1);
    assert FreeHead(F, H, i, k, -1);
    assert forall h, j :: FreeHead(F, H, h, j, i) <==> FreeHead(F, H, h, j, -1) && h != i;
    forall j | 0 <= j < MAX_ORDER
      ensures QueueOk(F, H, L'[j], j, i)
    {
      assert QueueOk(F, H, L[j], j, -1);
    }
  }

  lemma SplitHeads(F: seq<Frame>, H: Heads, i: nat, H': Heads)
    requires Partition(F, H) && Head(H, i) && F[i].order > 0
    requires var k := F[i].order - 1; H' == Reheaded(H, i + Pow2(k), k)
    ensures var k := F[i].order - 1; var u := i + Pow2(k);
      && XorBit(i, k) == u && Aligned(i, k) && Aligned(u, k) && u + Pow2(k) <= |F|
      && (forall p :: i <= p < u + Pow2(k) ==> H'[p] == (if p < u then i else u) && H[p] == i)
      && (forall p :: 0 <= p < |H| && !(i <= p < u + Pow2(k)) ==> H'[p] == H[p] && H[p] != i)
      && F[u].Free() && H'[u] == u
  {
    var k := F[i].order - 1;
    var u := i + Pow2(k);
    assert BlockOk(F, H, i);
    Halves(i, k);
    assert forall p :: 0 <= p < |H| && H[p] == i ==> InBlock(p, i, k + 1);
    assert forall p :: i <= p < u + Pow2(k) ==> InBlock(p, i, k + 1) && H[p] == i;
  }

  lemma SplitFreeHeads(F: seq<Frame>, H: Heads, i: nat, F': seq<Frame>, H': Heads, h: int, j: int)
    requires Partition(F, H) && Head(H, i) && F[i].Free() && F[i].order > 0
    requires var k := F[i].order - 1; var u := i + Pow2(k);
      && u < |F| && F' == Reordered(Reordered(F, i, k), u, k) && H' == Reheaded(H, u, k)
    ensures var k := F[i].order - 1; var u := i + Pow2(k);
      FreeHead(F', H', h, j, u) <==> FreeHead(F, H, h, j, i) || (h == i && j == k)
  {
    SplitHeads(F, H, i, H');
  }

  lemma SplitBlock(F: seq<Frame>, H: Heads, i: nat, F': seq<Frame>, H': Heads, h: nat)
    requires Partition(F, H) && Head(H, i) && F[i].order > 0
    requires var k := F[i].order - 1; var u := i + Pow2(k);
      && u < |F| && F' == Reordered(Reordered(F, i, k), u, k) && H' == Reheaded(H, u, k)
    requires Head(H', h)
    ensures BlockOk(F', H', h)
  {
    var k := F[i].order - 1;
    var u := i + Pow2(k);
    assert BlockOk(F, H, i);
    SplitHeads(F, H, i, H');
    if h != i && h != u {
      assert Head(H, h);
      assert BlockOk(F, H, h);
      assert F'[h] == F[h];
      forall q | InBlock(q, h, F[h].order)
        ensures H'[q] == h
      {
        assert H[q] == h;
      }
    }
  }

  lemma SplitPage(F: seq<Frame>, H: Heads, i: nat, F': seq<Frame>, H': Heads, p: nat)
    requires Partition(F, H) && Head(H, i) && F[i].Free() && F[i].order > 0 && p < |F|
    requires var k := F[i].order - 1; var u := i + Pow2(k);
      && u < |F| && F' == Reordered(Reordered(F, i, k), u, k) && H' == Reheaded(H, u, k)
    ensures H'[p] < |H| && Head(H', H'[p]) && InBlock(p, H'[p], F'[H'[p]].order)
    ensures !Head(H', p) ==> F'[p].Free()
    ensures F'[H'[p]].Free() == F[H[p]].Free()
  {
    var k := F[i].order - 1;
    SplitHeads(F, H, i, H');
    var h := H[p];
    assert Head(H, h) && InBlock(p, h, F[h].order);
    if h != i { assert H'[p] == h && F'[h] == F[h]; }
  }

  lemma SplitPartition(F: seq<Frame>, H: Heads, i: nat, F': seq<Frame>, H': Heads)
    requires Partition(F, H) && Head(H, i) && F[i].Free() && F[i].order > 0
    requires var k := F[i].order - 1; var u := i + Pow2(k);
      && u < |F| && F' == Reordered(Reordered(F, i, k), u, k) && H' == Reheaded(H, u, k)
    ensures Partition(F', H')
    ensures FreePages(F', H') == FreePages(F, H)
  {
    forall h | Head(H', h)
      ensures BlockOk(F', H', h)
    {
      SplitBlock(F, H, i, F', H', h);
    }
    forall p | 0 <= p < |H'|
      ensures Head(H', H'[p]) && InBlock(p, H'[p], F'[H'[p]].order)
      ensures !Head(H', p) ==> F'[p].Free()
      ensures F'[H'[p]].Free() == F[H[p]].Free()
    {
      SplitPage(F, H, i, F', H', p);
    }
  }

  lemma SameLength(F: seq<Frame>, H: Heads)
    requires Partition(F, H)
    ensures |F| == |H|
  {
  }

  /** Lines 50-71: the lower half goes to the tail of the queue one order down, the upper half stays in hand. */
  lemma Split(F: seq<Frame>, H: Heads, L: Queues, i: nat, F': seq<Frame>, H': Heads, L': Queues)
    requires PoolInv(F, H, L, i) && i < |F| && F[i].order > 0
    requires var k := F[i].order - 1; var u := i + Pow2(k);
      && u < |F| && k < |L|
      && F' == Reordered(Reordered(F, i, k), u, k)
      && H' == Reheaded(H, u, k)
      && L' == L[k := L[k] + [i]]
    ensures PoolInv(F', H', L', i + Pow2(F[i].order - 1))
    ensures FreePages(F', H') == FreePages(F, H)
  {
    hide Partition, FreePages, Maximal, Pow2, XorBit, Aligned;
    SameLength(F, H);
    var k := F[i].order - 1;
    var u := i + Pow2(k);
    SplitPartition(F, H, i, F', H');
    SplitHeads(F, H, i, H');
    forall h, j
      ensures FreeHead(F', H', h, j, u) <==> FreeHead(F, H, h, j, i) || (h == i && j == k)
    {
      SplitFreeHeads(F, H, i, F', H', h, j);
    }
    assert QueueOk(F, H, L[k], k, i) && !FreeHead(F, H, i, k, i);
    NoDupAppend(L[k], i);
    forall j | 0 <= j < MAX_ORDER
      ensures QueueOk(F', H', L'[j], j, u)
    {
      assert QueueOk(F, H, L[j], j, i);
    }
    SplitMaximal(F, H, i, F', H');
  }

  /** The half that is queued has the half in hand as its buddy, so no pair of free buddies appears. */
  lemma SplitMaximal(F: seq<Frame>, H: Heads, i: nat, F': seq<Frame>, H': Heads)
    requires |F| == |H| && |F'| == |H'| && i < |F| && F[i].order > 0 && Maximal(F, H, i) && Partition(F', H')
    requires var k := F[i].order - 1; var u := i + Pow2(k);
      && u < |F| && XorBit(i, k) == u
      && forall h, j :: FreeHead(F', H', h, j, u) <==> FreeHead(F, H, h, j, i) || (h == i && j == k)
    ensures Maximal(F', H', i + Pow2(F[i].order - 1))
  {
    hide Partition, XorBit, Pow2;
    var u := i + Pow2(F[i].order - 1);
    forall h: nat, j: nat | FreeHead(F', H', h, j, u) && j + 1 < MAX_ORDER
      ensures !FreeHead(F', H', XorBit(h, j), j, u)
    {
      BuddyInvolution(F', H', h);
      SplitPair(F, H, i, F', H', h, j);
    }
  }

  lemma SplitPair(F: seq<Frame>, H: Heads, i: nat, F': seq<Frame>, H': Heads, h: nat, j: nat)
    requires |F| == |H| && |F'| == |H'| && i < |F| && F[i].order > 0 && Maximal(F, H, i) && j + 1 < MAX_ORDER
    requires var k := F[i].order - 1; var u := i + Pow2(k);
      && XorBit(i, k) == u && FreeHead(F', H', h, j, u) && XorBit(XorBit(h, j), j) == h
      && forall h, j :: FreeHead(F', H', h, j, u) <==> FreeHead(F, H, h, j, i) || (h == i && j == k)
    ensures !FreeHead(F', H', XorBit(h, j), j, i + Pow2(F[i].order - 1))
  {
    hide Pow2, XorBit;
    var b := XorBit(h, j);
    assert FreeHead(F, H, h, j, i) ==> !FreeHead(F, H, b, j, i);
  }

  /** Line 255: the block in hand becomes a block in use. */
  lemma Use(F: seq<Frame>, H: Heads, L: Queues, i: nat)
    requires PoolInv(F, H, L, i)
    ensures var F' := F[i := F[i].(used := true)];
      && PoolInv(F', H, L, -1)
      && FreePages(F', H) == FreePages(F, H) - Run(i, F[i].order)
      && Run(i, F[i].order) <= FreePages(F, H)
  {
    var F' := F[i := F[i].(used := true)];
    assert BlockOk(F, H, i);
    assert forall h :: Head(H, h) ==> BlockOk(F, H, h) && BlockOk(F', H, h);
    assert forall p | 0 <= p < |H| :: InBlock(p, i, F[i].order) <==> H[p] == i;
    assert forall h, k :: FreeHead(F', H, h, k, -1) <==> FreeHead(F, H, h, k, i);
  }

  // ---- Maximality: the free blocks are determined by the free pages ----

  lemma NotBuddies(F: seq<Frame>, H: Heads, i: nat, k: nat)
    requires |F| == |H| && Maximal(F, H, -1) && FreeHead(F, H, i, k, -1) && k + 1 < MAX_ORDER
    ensures !FreeHead(F, H, XorBit(i, k), k, -1)
  {
  }

  /** Two free blocks of order k never fill the two halves of one aligned run. */
  lemma NoFreePair(F: seq<Frame>, H: Heads, i: nat, k: nat)
    requires Partition(F, H) && Maximal(F, H, -1)
    requires k + 1 < MAX_ORDER && Aligned(i, k + 1) && i + Pow2(k) < |H|
    requires F[H[i]].Free() && F[H[i]].order >= k
    requires F[H[i + Pow2(k)]].Free() && F[H[i + Pow2(k)]].order >= k
    ensures F[H[i]].order > k
  {
    hide Maximal;
    var m: nat := i + Pow2(k);
    Halves(i, k);
    if F[H[m]].order > k {
      SameBlock(F, H, i, k + 1, m, i);
    } else if F[H[i]].order == k {
      AlignedIsHead(F, H, i, k);
      AlignedIsHead(F, H, m, k);
      NotBuddies(F, H, i, k);
    }
  }

  /** Every page of the run belongs to a free block. */
  ghost predicate RunFree(F: seq<Frame>, H: Heads, i: nat, k: nat) {
    i + Pow2(k) <= |H| && forall p :: i <= p < i + Pow2(k) ==> H[p] < |F| && F[H[p]].Free()
  }

  lemma RunFreeParts(F: seq<Frame>, H: Heads, i: nat, k: nat)
    requires RunFree(F, H, i, k)
    ensures i < |H| && H[i] < |F| && F[H[i]].Free()
    ensures k > 0 ==> i + Pow2(k - 1) < |H| && RunFree(F, H, i, k - 1) && RunFree(F, H, i + Pow2(k - 1), k - 1)
  {
  }

  /** The block that holds an aligned run of free pages is free and has at least its order. */
  lemma {:induction false} FreeRunCovered(F: seq<Frame>, H: Heads, i: nat, k: nat)
    requires Partition(F, H) && Maximal(F, H, -1)
    requires k < MAX_ORDER && Aligned(i, k) && RunFree(F, H, i, k)
    ensures i < |H| && F[H[i]].order >= k && F[H[i]].Free()
    decreases k
  {
    hide *;
    RunFreeParts(F, H, i, k);
    if k > 0 {
      Halves(i, k - 1);
      FreeRunCovered(F, H, i, k - 1);
      FreeRunCovered(F, H, i + Pow2(k - 1), k - 1);
      NoFreePair(F, H, i, k - 1);
    }
  }

  /** Two maximal pools with the same free pages have the same free blocks. */
  lemma FreeBlocksCanonical(F: seq<Frame>, H: Heads, F': seq<Frame>, H': Heads, h: nat, k: nat)
    requires Partition(F, H) && Maximal(F, H, -1) && Partition(F', H') && Maximal(F', H', -1)
    requires |F| == |F'| && FreePages(F, H) == FreePages(F', H')
    requires FreeHead(F, H, h, k, -1)
    ensures FreeHead(F', H', h, k, -1)
  {
    var g, j := FreeBlockAbove(F, H, F', H', h, k);
    var d, l := FreeBlockAbove(F', H', F, H, g, j);
    assert BlockOk(F, H, d) && BlockOk(F, H, h);
    assert InBlock(h, d, l);
  }

  /** A free block of one pool lies inside a free block of the other. */
  lemma FreeBlockAbove(F: seq<Frame>, H: Heads, F': seq<Frame>, H': Heads, h: nat, k: nat) returns (g: nat, j: nat)
    requires Partition(F, H) && Partition(F', H') && Maximal(F', H', -1)
    requires |F| == |F'| && FreePages(F, H) == FreePages(F', H')
    requires FreeHead(F, H, h, k, -1)
    ensures FreeHead(F', H', g, j, -1)
    ensures g <= h && h + Pow2(k) <= g + Pow2(j) && k <= j && (j == k ==> g == h)
  {
    assert BlockOk(F, H, h);
    forall p | h <= p < h + Pow2(k)
      ensures F'[H'[p]].Free()
    {
      assert InBlock(p, h, k);
      assert p in FreePages(F, H);
    }
    FreeRunCovered(F', H', h, k);
    g := H'[h];
    j := F'[g].order;
    assert BlockOk(F', H', g);
    assert InBlock(h, h, k);
    Nested(h, k, g, j, h);
  }

  /** So the contents of every queue are determined by the set of free pages. */
  lemma QueuesCanonical(F: seq<Frame>, H: Heads, L: Queues, F': seq<Frame>, H': Heads, L': Queues)
    requires PoolInv(F, H, L, -1) && PoolInv(F', H', L', -1)
    requires |F| == |F'| && FreePages(F, H) == FreePages(F', H')
    ensures forall k, h :: 0 <= k < MAX_ORDER ==> (h in L[k] <==> h in L'[k])
    ensures forall k :: 0 <= k < MAX_ORDER ==> |L[k]| == |L'[k]|
  {
    forall k | 0 <= k < MAX_ORDER
      ensures forall h :: h in L[k] <==> h in L'[k]
      ensures |L[k]| == |L'[k]|
    {
      assert QueueOk(F, H, L[k], k, -1) && QueueOk(F', H', L'[k], k, -1);
      forall h: nat
        ensures h in L[k] <==> h in L'[k]
      {
        if h in L[k] { FreeBlocksCanonical(F, H, F', H', h, k); }
        if h in L'[k] { FreeBlocksCanonical(F', H', F, H, h, k); }
      }
      NoLonger(L[k], L'[k]);
      NoLonger(L'[k], L[k]);
    }
  }

  // ---- Counting the free pages ----

  /** The pages of free blocks of order below k. */
  ghost function FreeBelow(F: seq<Frame>, H: Heads, k: nat): set<nat>
    requires Partition(F, H)
  {
    set p: nat | p < |H| && F[H[p]].Free() && F[H[p]].order < k
  }

  ghost function PagesOf(H: Heads, q: seq<nat>): set<nat> {
    set p: nat | p < |H| && H[p] in q
  }

  lemma {:induction false} IntervalSize(i: nat, n: nat, s: set<nat>)
    requires forall p: nat :: p in s <==> i <= p < i + n
    ensures |s| == n
  {
    if n == 0 {
      assert s == {};
    } else {
      IntervalSize(i, n - 1, s - {i + n - 1});
    }
  }

  lemma BlockPages(F: seq<Frame>, H: Heads, h: nat, p: nat)
    requires Partition(F, H) && Head(H, h)
    ensures p in Run(h, F[h].order) <==> p < |H| && H[p] == h
  {
    assert BlockOk(F, H, h);
    assert p < |H| ==> InBlock(p, H[p], F[H[p]].order);
  }

  lemma AddBlock(H: Heads, rest: seq<nat>, h: nat, k: nat)
    requires h !in rest && forall p: nat :: p in Run(h, k) <==> p < |H| && H[p] == h
    ensures |PagesOf(H, rest + [h])| == |PagesOf(H, rest)| + Pow2(k)
  {
    assert PagesOf(H, rest + [h]) == PagesOf(H, rest) + Run(h, k);
    assert PagesOf(H, rest) !! Run(h, k);
    IntervalSize(h, Pow2(k), Run(h, k));
  }

  /** The pages of distinct blocks of order k number 2^k for each block. */
  lemma {:induction false} PagesOfSize(F: seq<Frame>, H: Heads, q: seq<nat>, k: nat)
    requires Partition(F, H) && |F| == |H| && NoDup(q)
    requires forall h :: h in q ==> Head(H, h) && F[h].order == k
    ensures |PagesOf(H, q)| == |q| * Pow2(k)
  {
    hide Partition, Run;
    if q == [] {
      assert PagesOf(H, q) == {};
    } else {
      var n := |q| - 1;
      var h, rest := q[n], q[..n];
      assert q == rest + [h];
      assert h in q;
      PagesOfSize(F, H, rest, k);
      forall p: nat
        ensures p in Run(h, k) <==> p < |H| && H[p] == h
      {
        BlockPages(F, H, h, p);
      }
      AddBlock(H, rest, h, k);
      assert (n + 1) * Pow2(k) == n * Pow2(k) + Pow2(k);
    }
  }

  lemma CountQueue(F: seq<Frame>, H: Heads, L: Queues, k: nat)
    requires PoolInv(F, H, L, -1) && k < MAX_ORDER
    ensures |FreeBelow(F, H, k + 1)| == |FreeBelow(F, H, k)| + |L[k]| * Pow2(k)
  {
    var q := L[k];
    assert QueueOk(F, H, q, k, -1);
    PagesOfSize(F, H, q, k);
    forall p: nat | p < |H|
      ensures H[p] in q <==> F[H[p]].Free() && F[H[p]].order == k
    {
      assert Head(H, H[p]);
    }
    assert FreeBelow(F, H, k + 1) == FreeBelow(F, H, k) + PagesOf(H, q);
    assert FreeBelow(F, H, k) !! PagesOf(H, q);
  }

  lemma CountAll(F: seq<Frame>, H: Heads)
    requires Partition(F, H)
    ensures FreeBelow(F, H, 0) == {} && FreeBelow(F, H, MAX_ORDER) == FreePages(F, H)
  {
    forall p: nat | p < |H|
      ensures F[H[p]].order < MAX_ORDER
    {
      assert BlockOk(F, H, H[p]);
    }
  }

  // ---- The pool before any page is released into it ----

  lemma Fresh(F: seq<Frame>, H: Heads, L: Queues)
    requires |F| == |H| && |L| == MAX_ORDER
    requires forall p :: 0 <= p < |F| ==> F[p].order == 0 && !F[p].Free() && H[p] == p
    requires forall k :: 0 <= k < MAX_ORDER ==> L[k] == []
    ensures PoolInv(F, H, L, -1) && FreePages(F, H) == {}
  {
    forall h | Head(H, h)
      ensures BlockOk(F, H, h)
    {
      assert Pow2(0) == 1;
    }
    forall k | 0 <= k < MAX_ORDER
      ensures QueueOk(F, H, L[k], k, -1)
    {
      assert NoDup([]);
    }
  }

  // ---- What allocation and release do to the queues ----

  /** The part that is left after the upper half of the block at `page` has been kept, from order `from` down to k. */
  function Upper(page: nat, from: nat, k: nat): nat
    requires k <= from
  {
    Pow2Mono(k, from);
    page + Pow2(from) - Pow2(k)
  }

  /** Every lower half on the way down went to the tail of its queue. */
  ghost predicate Halved(L: Queues, L': Queues, page: nat, from: nat, to: nat) {
    && |L| == |L'| && to <= from < |L|
    && forall k :: 0 <= k < |L| ==> L'[k] == if to <= k < from then L[k] + [Upper(page, from, k + 1)] else L[k]
  }

  lemma HalvedStep(L: Queues, L1: Queues, L2: Queues, page: nat, from: nat, to: nat)
    requires Halved(L, L1, page, from, to + 1) && L2 == L1[to := L1[to] + [Upper(page, from, to + 1)]]
    ensures Halved(L, L2, page, from, to)
    ensures Upper(page, from, to) == Upper(page, from, to + 1) + Pow2(to)
  {
  }

  /** The block handed out at i comes from the first block of the least order that suffices. */
  ghost predicate Served(F: seq<Frame>, H: Heads, L: Queues, L': Queues, order: nat, i: nat) {
    && |F| == |H| && |L| == MAX_ORDER && i < |H| && H[i] < |F|
    && var h := H[i]; var from := F[h].order;
       && order <= from < MAX_ORDER && L[from] != [] && L[from][0] == h
       && (forall k :: order <= k < from ==> L[k] == [])
       && i == Upper(h, from, order) && Halved(L[from := L[from][1..]], L', h, from, order)
  }

  lemma ServedBy(F: seq<Frame>, H: Heads, L: Queues, L': Queues, order: nat, from: nat, i: nat)
    requires Partition(F, H) && |L| == MAX_ORDER && order <= from < MAX_ORDER && L[from] != []
    requires Head(H, L[from][0]) && F[L[from][0]].order == from && i == Upper(L[from][0], from, order)
    requires forall k :: order <= k < from ==> L[k] == []
    requires Halved(L[from := L[from][1..]], L', L[from][0], from, order)
    ensures Served(F, H, L, L', order, i)
  {
    var h := L[from][0];
    assert BlockOk(F, H, h);
    Pow2Mono(order, from);
    assert InBlock(i, h, from);
  }

  /** The buddies of the block at idx, from order o up to m, have left their queues. */
  ghost predicate Merged(L: Queues, L': Queues, idx: nat, o: nat, m: nat) {
    && |L| == |L'| && o <= m < |L|
    && forall k :: 0 <= k < |L| ==> L'[k] == if o <= k < m then Remove(L[k], XorBit(ClearLow(idx, k), k)) else L[k]
  }

  /** The block at idx has merged with its buddies from order o up to m and gone to the tail of that queue. */
  ghost predicate Joined(L: Queues, L': Queues, idx: nat, o: nat, m: nat) {
    && |L| == |L'| && o <= m < |L|
    && forall k :: 0 <= k < |L| ==>
         L'[k] == if o <= k < m then Remove(L[k], XorBit(ClearLow(idx, k), k))
                  else if k == m then L[k] + [ClearLow(idx, m)] else L[k]
  }

  lemma MergedStep(L: Queues, L1: Queues, L2: Queues, idx: nat, o: nat, m: nat)
    requires Merged(L, L1, idx, o, m) && m + 1 < |L|
    requires L2 == L1[m := Remove(L1[m], XorBit(ClearLow(idx, m), m))]
    ensures Merged(L, L2, idx, o, m + 1)
  {
  }

  lemma MergedDone(L: Queues, L1: Queues, L2: Queues, idx: nat, o: nat, m: nat)
    requires Merged(L, L1, idx, o, m) && L2 == L1[m := L1[m] + [ClearLow(idx, m)]]
    ensures Joined(L, L2, idx, o, m)
  {
  }

  lemma MergedNone(L: Queues, idx: nat, o: nat)
    requires o < |L|
    ensures Merged(L, L, idx, o, o)
  {
  }
}
