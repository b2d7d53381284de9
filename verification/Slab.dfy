/** Slab caches on top of the buddy pool. */
module Slab {
  import opened Common
  import opened Blocks
  import opened BuddySpec
  import opened SlabLayout

  /** A slab, identified by the index of its first page; `objects` lists its free objects. */
  datatype SlabState = SlabState(count: nat, objects: seq<nat>, color: nat)

  datatype Cache = Cache(layout: Layout, slabs: map<nat, SlabState>, partial: seq<nat>, full: seq<nat>, free: seq<nat>,
                         slabCount: int, colorNext: nat, limits: nat)

  ghost predicate SlabOk(l: Layout, s: SlabState) {
    && s.count + |s.objects| == l.objs
    && NoDup(s.objects) && (forall i :: i in s.objects ==> i < l.objs)
    && ColorOk(l, s.color)
  }

  /** The queue holds exactly the slabs with a count from lo to hi. */
  ghost predicate QueueIs(q: seq<nat>, slabs: map<nat, SlabState>, lo: int, hi: int) {
    NoDup(q) && forall s :: s in q <==> s in slabs && lo <= slabs[s].count <= hi
  }

  /** A slab with all its objects taken is full; a slab that holds none never is. */
  function FullFrom(l: Layout): nat { if l.objs == 0 then 1 else l.objs }

  /** free, partial and full slabs, exactly according to their counts */
  ghost predicate QueuesOk(c: Cache) {
    && QueueIs(c.free, c.slabs, 0, 0)
    && QueueIs(c.partial, c.slabs, 1, c.layout.objs - 1)
    && QueueIs(c.full, c.slabs, FullFrom(c.layout), c.layout.objs)
  }

  ghost predicate CacheOk(c: Cache) {
    && Laid(c.layout)
    && (forall s :: s in c.slabs ==> SlabOk(c.layout, c.slabs[s]))
    && QueuesOk(c)
    && c.slabCount == |c.slabs|
    && ColorOk(c.layout, c.colorNext)
  }

  /** The objects handed out and not returned. */
  ghost predicate Live(c: Cache, s: nat, i: nat) {
    s in c.slabs && i < c.layout.objs && i !in c.slabs[s].objects
  }

  /** The address of object i of slab s; page p starts at p * PAGE. */
  function Addr(c: Cache, s: nat, i: nat): nat
    requires s in c.slabs && c.layout.align > 0
  {
    s * PAGE + ObjStart(c.layout, c.slabs[s].color, i)
  }

  // ---- Pure steps on one cache ----

  /** The queue after the state of slab s has become sl. */
  ghost function Moved(q: seq<nat>, slabs: map<nat, SlabState>, lo: int, hi: int, s: nat, sl: SlabState): seq<nat>
    requires s in slabs
  {
    var was, now := lo <= slabs[s].count <= hi, lo <= sl.count <= hi;
    if was && !now then Remove(q, s) else if !was && now then q + [s] else q
  }

  lemma QueueMoved(q: seq<nat>, slabs: map<nat, SlabState>, lo: int, hi: int, s: nat, sl: SlabState)
    requires QueueIs(q, slabs, lo, hi) && s in slabs
    ensures QueueIs(Moved(q, slabs, lo, hi, s, sl), slabs[s := sl], lo, hi)
  {
    RemoveProps(q, s);
  }

  lemma {:induction false} RemoveAppended(q: seq<nat>, s: nat)
    requires s !in q
    ensures Remove(q + [s], s) == q
  {
    if q != [] {
      assert (q + [s])[1..] == q[1..] + [s];
      RemoveAppended(q[1..], s);
    }
  }

  /** A fresh slab enters the free queue (kmem_cache_grow_nolock). */
  function WithSlab(c: Cache, s: nat, color: nat): Cache {
    c.(slabs := c.slabs[s := SlabState(0, seq(c.layout.objs, i => i), color)],
       free := c.free + [s], slabCount := c.slabCount + 1)
  }

  lemma WithSlabQueues(c: Cache, s: nat, color: nat)
    requires QueuesOk(c) && s !in c.slabs
    ensures QueuesOk(WithSlab(c, s, color))
  {
    hide Laid, SlabOk;
    var c' := WithSlab(c, s, color);
    assert forall t :: t in c.slabs ==> c'.slabs[t] == c.slabs[t];
  }

  lemma WithSlabOk(c: Cache, s: nat, color: nat)
    requires CacheOk(c) && s !in c.slabs && ColorOk(c.layout, color)
    ensures CacheOk(WithSlab(c, s, color))
    ensures forall s': nat, i: nat :: Live(WithSlab(c, s, color), s', i) <==> Live(c, s', i)
  {
    hide Laid, QueuesOk;
    var c' := WithSlab(c, s, color);
    WithSlabQueues(c, s, color);
    assert c'.slabs.Keys == c.slabs.Keys + {s};
    var all := c'.slabs[s].objects;
    forall i: nat | i < c.layout.objs
      ensures i in all
    {
      assert all[i] == i;
    }
  }

  /** Object taken from slab s (kmem_cache_alloc, after the slab has been chosen). */
  function Taken(c: Cache, s: nat): Cache
    requires s in c.slabs && c.slabs[s].objects != []
  {
    var sl := c.slabs[s];
    var c1 := c.(slabs := c.slabs[s := sl.(count := sl.count + 1, objects := sl.objects[1..])]);
    var c2 := if sl.count == 0 then c1.(free := Remove(c.free, s), partial := c.partial + [s]) else c1;
    if sl.count + 1 == c.layout.objs then c2.(partial := Remove(c2.partial, s), full := c2.full + [s]) else c2
  }

  lemma TakenQueues(c: Cache, s: nat)
    requires QueuesOk(c) && s in c.slabs && c.slabs[s].count < c.layout.objs && c.slabs[s].objects != []
    ensures QueuesOk(Taken(c, s))
  {
    var sl := Taken(c, s).slabs[s];
    QueueMoved(c.free, c.slabs, 0, 0, s, sl);
    QueueMoved(c.partial, c.slabs, 1, c.layout.objs - 1, s, sl);
    QueueMoved(c.full, c.slabs, FullFrom(c.layout), c.layout.objs, s, sl);
    if c.slabs[s].count == 0 { RemoveAppended(c.partial, s); }
  }

  lemma TakenSlab(l: Layout, sl: SlabState)
    requires SlabOk(l, sl) && sl.count < l.objs
    ensures sl.objects != [] && sl.objects[0] < l.objs
    ensures SlabOk(l, SlabState(sl.count + 1, sl.objects[1..], sl.color))
    ensures forall i: nat :: i in sl.objects <==> i == sl.objects[0] || i in sl.objects[1..]
    ensures sl.objects[0] !in sl.objects[1..]
  {
    var i, rest := sl.objects[0], sl.objects[1..];
    assert i in sl.objects;
    assert sl.objects == [i] + rest;
    assert forall j :: 0 <= j < |rest| ==> rest[j] == sl.objects[j + 1];
    assert forall j :: j in rest ==> j in sl.objects;
  }

  lemma TakenOk(c: Cache, s: nat)
    requires CacheOk(c) && s in c.slabs && c.slabs[s].count < c.layout.objs
    ensures c.slabs[s].objects != [] && CacheOk(Taken(c, s))
    ensures Taken(c, s).slabs.Keys == c.slabs.Keys && Taken(c, s).layout == c.layout
    ensures var i := c.slabs[s].objects[0]; i < c.layout.objs && !Live(c, s, i)
    ensures forall s': nat, i': nat :: Live(Taken(c, s), s', i') <==>
      Live(c, s', i') || (s' == s && i' == c.slabs[s].objects[0])
  {
    hide Laid, QueueIs, Remove;
    var sl := c.slabs[s];
    assert SlabOk(c.layout, sl);
    TakenQueues(c, s);
    hide QueuesOk;
    TakenSlab(c.layout, sl);
    var i, rest := sl.objects[0], sl.objects[1..];
    hide SlabOk;
    assert Taken(c, s).slabs == c.slabs[s := SlabState(sl.count + 1, rest, sl.color)];
    assert Taken(c, s).slabs.Keys == c.slabs.Keys;
  }

  /** Object i returned to slab s (kmem_cache_free). */
  function Returned(c: Cache, s: nat, i: nat): Cache
    requires s in c.slabs && c.slabs[s].count > 0
  {
    var sl := c.slabs[s];
    var c1 := c.(slabs := c.slabs[s := sl.(count := sl.count - 1, objects := sl.objects + [i])]);
    var c2 := if sl.count == c.layout.objs then c1.(full := Remove(c.full, s), partial := c.partial + [s]) else c1;
    if sl.count == 1 then c2.(partial := Remove(c2.partial, s), free := c2.free + [s]) else c2
  }

  lemma ReturnedQueues(c: Cache, s: nat, i: nat)
    requires QueuesOk(c) && s in c.slabs && 0 < c.slabs[s].count <= c.layout.objs
    ensures QueuesOk(Returned(c, s, i))
  {
    var sl := Returned(c, s, i).slabs[s];
    QueueMoved(c.free, c.slabs, 0, 0, s, sl);
    QueueMoved(c.partial, c.slabs, 1, c.layout.objs - 1, s, sl);
    QueueMoved(c.full, c.slabs, FullFrom(c.layout), c.layout.objs, s, sl);
    if c.slabs[s].count == c.layout.objs { RemoveAppended(c.partial, s); }
  }

  /** A slab with a live object has a positive count. */
  lemma LiveCount(l: Layout, s: SlabState, i: nat)
    requires SlabOk(l, s) && i < l.objs && i !in s.objects
    ensures s.count > 0
  {
    var all := seq(l.objs, k => k);
    if s.count == 0 {
      forall k: nat | k in s.objects + [i]
        ensures k in all
      {
        assert all[k] == k;
      }
      NoDupAppend(s.objects, i);
      NoLonger(s.objects + [i], all);
    }
  }

  lemma ReturnedOk(c: Cache, s: nat, i: nat)
    requires CacheOk(c) && Live(c, s, i)
    ensures c.slabs[s].count > 0 && CacheOk(Returned(c, s, i))
    ensures Returned(c, s, i).slabs.Keys == c.slabs.Keys && Returned(c, s, i).layout == c.layout
    ensures forall s': nat, i': nat :: Live(Returned(c, s, i), s', i') <==> Live(c, s', i') && !(s' == s && i' == i)
  {
    hide Laid, QueueIs, Remove;
    var sl := c.slabs[s];
    assert SlabOk(c.layout, sl);
    LiveCount(c.layout, sl, i);
    ReturnedQueues(c, s, i);
    NoDupAppend(sl.objects, i);
    assert Returned(c, s, i).slabs == c.slabs[s := SlabState(sl.count - 1, sl.objects + [i], sl.color)];
    assert Returned(c, s, i).slabs.Keys == c.slabs.Keys;
  }

  /** An empty slab leaves the cache (kmem_cache_reap). */
  function WithoutSlab(c: Cache, s: nat): Cache {
    c.(slabs := c.slabs - {s}, free := Remove(c.free, s), slabCount := c.slabCount - 1)
  }

  lemma WithoutSlabQueues(c: Cache, s: nat)
    requires QueuesOk(c) && s in c.free
    ensures QueuesOk(WithoutSlab(c, s))
  {
    hide Laid, SlabOk;
    RemoveProps(c.free, s);
  }

  lemma WithoutSlabOk(c: Cache, s: nat)
    requires CacheOk(c) && s in c.free
    ensures CacheOk(WithoutSlab(c, s))
    ensures forall s': nat, i: nat :: Live(WithoutSlab(c, s), s', i) <==> Live(c, s', i)
  {
    hide Laid, Remove, ColorOk;
    WithoutSlabQueues(c, s);
    var sl := c.slabs[s];
    assert sl.count == 0 && SlabOk(c.layout, sl);
    hide QueuesOk, QueueIs;
    assert WithoutSlab(c, s).slabs.Keys == c.slabs.Keys - {s};
    forall i: nat | i < c.layout.objs
      ensures i in sl.objects
    {
      if i !in sl.objects { LiveCount(c.layout, sl, i); }
    }
  }

  // ---- Slabs and the pages they occupy ----

  /** Slab s occupies a block of the pool that is in use, and each of its pages points back to it. */
  ghost predicate SlabPlaced(F: seq<Frame>, start: nat, owner: map<nat, nat>, s: nat, order: nat) {
    && start <= s < start + |F|
    && F[s - start].used && !F[s - start].reserved && F[s - start].order == order
    && (forall p :: s <= p < s + Pow2(order) ==> p in owner && owner[p] == s)
  }

  /** Every slab of every cache is placed, and no slab belongs to two caches. */
  ghost predicate Placed(F: seq<Frame>, start: nat, owner: map<nat, nat>, caches: map<nat, Cache>) {
    && (forall k, s: nat :: k in caches && s in caches[k].slabs ==>
          SlabPlaced(F, start, owner, s, caches[k].layout.order))
    && (forall k, k', s: nat :: k in caches && k' in caches && s in caches[k].slabs && s in caches[k'].slabs ==>
          k == k')
  }

  /** Two blocks in use share no page. */
  lemma BlocksApart(F: seq<Frame>, H: Heads, a: nat, b: nat)
    requires Partition(F, H) && a < |F| && b < |F| && a < b && F[a].used && F[b].used
    ensures a + Pow2(F[a].order) <= b && b + Pow2(F[b].order) <= |F|
  {
    assert Head(H, a) && Head(H, b);
    assert BlockOk(F, H, a) && BlockOk(F, H, b);
    assert !InBlock(b, a, F[a].order);
  }

  lemma SlabsApart(F: seq<Frame>, H: Heads, start: nat, owner: map<nat, nat>, s: nat, o: nat, s': nat, o': nat)
    requires Partition(F, H) && SlabPlaced(F, start, owner, s, o) && SlabPlaced(F, start, owner, s', o')
    ensures s < s' ==> s + Pow2(o) <= s'
    ensures s' < s ==> s' + Pow2(o') <= s
  {
    if s < s' { BlocksApart(F, H, s - start, s' - start); }
    if s' < s { BlocksApart(F, H, s' - start, s - start); }
  }

  /** Object and slab lie in the pages of the slab. */
  lemma InsideSlab(c: Cache, s: nat, i: nat)
    requires CacheOk(c) && s in c.slabs && i < c.layout.objs
    ensures s * PAGE + SLAB_HEAD <= Addr(c, s, i)
    ensures Addr(c, s, i) + c.layout.objSize <= (s + Pow2(c.layout.order)) * PAGE
  {
    assert SlabOk(c.layout, c.slabs[s]);
    hide QueuesOk, SlabOk;
    LayoutSound(c.layout, c.slabs[s].color, i, i);
    hide Laid, DataSize, AlignOffset, Pow2;
  }

  /** Any two live objects of any caches occupy disjoint bytes. */
  lemma LiveDisjoint(F: seq<Frame>, H: Heads, start: nat, owner: map<nat, nat>, caches: map<nat, Cache>,
                     k: nat, s: nat, i: nat, k': nat, s': nat, i': nat)
    requires Partition(F, H) && Placed(F, start, owner, caches) && k in caches && k' in caches
    requires CacheOk(caches[k]) && CacheOk(caches[k'])
    requires Live(caches[k], s, i) && Live(caches[k'], s', i') && (k, s, i) != (k', s', i')
    ensures var a, a' := Addr(caches[k], s, i), Addr(caches[k'], s', i');
      a + caches[k].layout.objSize <= a' || a' + caches[k'].layout.objSize <= a
  {
    var c, c' := caches[k], caches[k'];
    hide CacheOk;
    if s != s' {
      SlabsApart(F, H, start, owner, s, c.layout.order, s', c'.layout.order);
      InsideSlab(c, s, i);
      InsideSlab(c', s', i');
      hide *;
    } else {
      assert k == k';
      SameSlab(c, s, i, i');
    }
  }

  /** No byte of a live object lies on a free page of the pool. */
  lemma LiveNotFree(F: seq<Frame>, H: Heads, start: nat, owner: map<nat, nat>, caches: map<nat, Cache>, k: nat,
                    s: nat, i: nat, b: nat)
    requires Partition(F, H) && Placed(F, start, owner, caches) && k in caches && CacheOk(caches[k])
    requires Live(caches[k], s, i)
    requires Addr(caches[k], s, i) <= b < Addr(caches[k], s, i) + caches[k].layout.objSize
    ensures start <= b / PAGE < start + |F| && b / PAGE - start !in FreePages(F, H)
    ensures b / PAGE in owner && owner[b / PAGE] == s
  {
    hide Partition, SlabPlaced, FreePages, CacheOk;
    var c := caches[k];
    InsideSlab(c, s, i);
    PageOf(b, s, Pow2(c.layout.order));
    SlabPage(F, H, start, owner, s, c.layout.order, b / PAGE);
  }

  /** The pages of a slab are not free, and lead back to it. */
  lemma SlabPage(F: seq<Frame>, H: Heads, start: nat, owner: map<nat, nat>, s: nat, order: nat, p: nat)
    requires Partition(F, H) && SlabPlaced(F, start, owner, s, order) && s <= p < s + Pow2(order)
    ensures start <= p < start + |F| && p - start !in FreePages(F, H)
    ensures p in owner && owner[p] == s
  {
    var h := s - start;
    assert Head(H, h) && BlockOk(F, H, h);
    assert InBlock(p - start, h, F[h].order);
  }

  lemma PageOf(b: nat, s: nat, n: nat)
    requires s * PAGE <= b < (s + n) * PAGE
    ensures s <= b / PAGE < s + n
  {
  }

  lemma SameSlab(c: Cache, s: nat, i: nat, j: nat)
    requires CacheOk(c) && s in c.slabs && i < c.layout.objs && j < c.layout.objs && i != j
    ensures var a, a' := Addr(c, s, i), Addr(c, s, j);
      a + c.layout.objSize <= a' || a' + c.layout.objSize <= a
  {
    assert SlabOk(c.layout, c.slabs[s]);
    hide QueuesOk, SlabOk;
    LayoutSound(c.layout, c.slabs[s].color, i, j);
    LayoutSound(c.layout, c.slabs[s].color, j, i);
  }

  /** Where the header of slab s starts. */
  function HeadAddr(c: Cache, s: nat): nat
    requires s in c.slabs
  {
    s * PAGE + c.slabs[s].color * CACHE_LINE
  }

  /** Where the header of object i of slab s, with its free-list link, starts. */
  function CellAddr(c: Cache, s: nat, i: nat): nat
    requires s in c.slabs && c.layout.align > 0
  {
    s * PAGE + CellStart(c.layout, c.slabs[s].color, i)
  }

  predicate Disjoint(a: nat, n: nat, b: nat, m: nat) { a + n <= b || b + m <= a }

  /** No byte of an object lies in the header of a slab or of an object of any cache. */
  lemma ApartFromHeaders(F: seq<Frame>, H: Heads, start: nat, owner: map<nat, nat>, caches: map<nat, Cache>,
                         k: nat, s: nat, i: nat, k': nat, s': nat, i': nat)
    requires Partition(F, H) && Placed(F, start, owner, caches) && k in caches && k' in caches
    requires CacheOk(caches[k]) && CacheOk(caches[k'])
    requires s in caches[k].slabs && i < caches[k].layout.objs && s' in caches[k'].slabs && i' < caches[k'].layout.objs
    ensures var c, c' := caches[k], caches[k']; var a, n := Addr(c, s, i), c.layout.objSize;
      Disjoint(a, n, HeadAddr(c', s'), SLAB_HEAD) && Disjoint(a, n, CellAddr(c', s', i'), OBJ_HEAD)
  {
    var c, c' := caches[k], caches[k'];
    hide CacheOk;
    InsideSlab(c, s, i);
    InsideSlab(c', s', i');
    if s != s' {
      SlabsApart(F, H, start, owner, s, c.layout.order, s', c'.layout.order);
      HeadersInside(c', s', i');
      hide *;
    } else {
      assert k == k';
      HeadersApart(c, s, i, i');
    }
  }

  lemma HeadersInside(c: Cache, s: nat, i: nat)
    requires CacheOk(c) && s in c.slabs && i < c.layout.objs
    ensures s * PAGE <= HeadAddr(c, s) && HeadAddr(c, s) + SLAB_HEAD <= CellAddr(c, s, i)
    ensures CellAddr(c, s, i) + OBJ_HEAD <= (s + Pow2(c.layout.order)) * PAGE
  {
    assert SlabOk(c.layout, c.slabs[s]);
    hide QueuesOk, SlabOk;
    LayoutSound(c.layout, c.slabs[s].color, i, i);
    hide Laid, AlignOffset, Pow2;
  }

  lemma HeadersApart(c: Cache, s: nat, i: nat, j: nat)
    requires CacheOk(c) && s in c.slabs && i < c.layout.objs && j < c.layout.objs
    ensures HeadAddr(c, s) + SLAB_HEAD <= Addr(c, s, i)
    ensures Disjoint(Addr(c, s, i), c.layout.objSize, CellAddr(c, s, j), OBJ_HEAD)
  {
    assert SlabOk(c.layout, c.slabs[s]);
    hide QueuesOk, SlabOk;
    LayoutSound(c.layout, c.slabs[s].color, i, j);
    LayoutSound(c.layout, c.slabs[s].color, j, i);
    hide Laid, AlignOffset;
  }
}
