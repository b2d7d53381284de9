/** The slab caches of a page pool: growing, allocating, freeing and reaping. */
module SlabCache {
  import opened Common
  import opened Blocks
  import opened BuddySpec
  import opened Buddy
  import opened SlabLayout
  import opened Slab

  /** Outside the pages from lo to hi the back pointers are the same. */
  ghost predicate SameOwner(owner: map<nat, nat>, owner': map<nat, nat>, lo: nat, hi: nat) {
    forall p: nat :: !(lo <= p < hi) ==>
      (p in owner <==> p in owner') && (p in owner && p in owner' ==> owner[p] == owner'[p])
  }

  /** A slab stays placed while another block is taken or returned. */
  lemma StaysPlaced(F: seq<Frame>, F': seq<Frame>, start: nat, owner: map<nat, nat>, owner': map<nat, nat>,
                    s: nat, order: nat, x: nat, hi: nat)
    requires SlabPlaced(F, start, owner, s, order)
    requires start <= x && s != x && SameInUse(F, F', x - start) && SameOwner(owner, owner', x, hi)
    requires s + Pow2(order) <= x || hi <= s
    ensures SlabPlaced(F', start, owner', s, order)
  {
  }

  /** Growing: the block the pool hands out was no slab, and every slab stays placed. */
  lemma GrowPlaced(F: seq<Frame>, F': seq<Frame>, H': Heads, start: nat, owner: map<nat, nat>, owner': map<nat, nat>,
                   caches: map<nat, Cache>, k: nat, s: nat, color: nat)
    requires Placed(F, start, owner, caches) && Partition(F', H') && k in caches
    requires start <= s < start + |F| && F[s - start].Free() && SameInUse(F, F', s - start)
    requires SlabPlaced(F', start, owner', s, caches[k].layout.order)
    requires SameOwner(owner, owner', s, s + Pow2(caches[k].layout.order))
    ensures forall j :: j in caches ==> s !in caches[j].slabs
    ensures Placed(F', start, owner', caches[k := WithSlab(caches[k], s, color)])
  {
    hide Partition, Pow2, SlabPlaced, SameInUse, SameOwner;
    forall j, t: nat | j in caches && t in caches[j].slabs
      ensures t != s && SlabPlaced(F', start, owner', t, caches[j].layout.order)
    {
      GrowBeside(F, F', H', start, owner, owner', s, caches[k].layout.order, t, caches[j].layout.order);
    }
  }

  /** A slab beside the new one. */
  lemma GrowBeside(F: seq<Frame>, F': seq<Frame>, H': Heads, start: nat, owner: map<nat, nat>, owner': map<nat, nat>,
                   s: nat, o: nat, t: nat, oj: nat)
    requires SlabPlaced(F, start, owner, t, oj) && Partition(F', H')
    requires start <= s < start + |F| && F[s - start].Free() && SameInUse(F, F', s - start)
    requires SlabPlaced(F', start, owner', s, o) && SameOwner(owner, owner', s, s + Pow2(o))
    ensures t != s && SlabPlaced(F', start, owner', t, oj)
  {
    hide Partition, Pow2;
    assert F'[t - start].used;
    if t < s { BlocksApart(F', H', t - start, s - start); } else { BlocksApart(F', H', s - start, t - start); }
    StaysPlaced(F, F', start, owner, owner', t, oj, s, s + Pow2(o));
  }

  /** Reaping: the other slabs stay placed. */
  lemma ReapPlaced(F: seq<Frame>, H: Heads, F': seq<Frame>, start: nat, owner: map<nat, nat>, owner': map<nat, nat>,
                   caches: map<nat, Cache>, k: nat, s: nat)
    requires Placed(F, start, owner, caches) && Partition(F, H) && k in caches && s in caches[k].slabs
    requires SameInUse(F, F', s - start)
    requires SameOwner(owner, owner', s, s + Pow2(caches[k].layout.order))
    ensures Placed(F', start, owner', caches[k := WithoutSlab(caches[k], s)])
  {
    hide Partition, Pow2;
    var caches' := caches[k := WithoutSlab(caches[k], s)];
    var o := caches[k].layout.order;
    assert SlabPlaced(F, start, owner, s, o);
    forall j, t: nat | j in caches' && t in caches'[j].slabs
      ensures SlabPlaced(F', start, owner', t, caches'[j].layout.order)
    {
      var oj := caches[j].layout.order;
      assert t in caches[j].slabs && SlabPlaced(F, start, owner, t, oj);
      assert t != s;
      SlabsApart(F, H, start, owner, s, o, t, oj);
      StaysPlaced(F, F', start, owner, owner', t, oj, s, s + Pow2(o));
    }
  }

  /** Replacing a cache by one with the same slabs changes no placement. */
  lemma SamePlaced(F: seq<Frame>, start: nat, owner: map<nat, nat>, caches: map<nat, Cache>, k: nat, c: Cache)
    requires Placed(F, start, owner, caches) && k in caches
    requires c.layout == caches[k].layout && c.slabs.Keys == caches[k].slabs.Keys
    ensures Placed(F, start, owner, caches[k := c])
  {
    forall j, s: nat | j in caches && s in caches[k := c][j].slabs
      ensures s in caches[j].slabs
    {
    }
  }

  /** A cache without slabs is consistent. */
  lemma EmptyCache(l: Layout, limits: nat)
    requires Laid(l)
    ensures CacheOk(Cache(l, map[], [], [], [], 0, 0, limits))
  {
    hide Laid;
  }

  /** update_color_offset */
  function NextColor(l: Layout, color: nat): nat {
    if l.colors == 0 then color else (color + 1) % l.colors
  }

  /** The colour of the slab after n more growths. */
  function ColorAfter(l: Layout, color: nat, n: nat): nat {
    if n == 0 then color else NextColor(l, ColorAfter(l, color, n - 1))
  }

  /** The colours follow each other round the cycle. */
  lemma {:induction false} ColorsCycle(l: Layout, color: nat, n: nat)
    requires color < l.colors
    ensures ColorAfter(l, color, n) == (color + n) % l.colors
  {
    hide NextColor;
    if n > 0 {
      ColorsCycle(l, color, n - 1);
      NextCycle(l, color + (n - 1), color + n);
    }
  }

  lemma NextCycle(l: Layout, x: nat, y: nat)
    requires l.colors > 0 && y == x + 1
    ensures NextColor(l, x % l.colors) == y % l.colors
  {
    ModNext(l.colors, x);
  }

  lemma ModNext(a: nat, x: nat)
    requires a > 0
    ensures (x % a + 1) % a == (x + 1) % a
  {
    DivMod(x, a);
    var q, r := x / a, x % a;
    if r + 1 < a {
      ModSame(a, 0, q, r + 1, x + 1);
    } else {
      ModSame(a, 1, q + 1, 0, x + 1);
    }
  }

  lemma ModSame(a: nat, p: nat, q: nat, r: nat, y: nat)
    requires r < a && y == q * a + r
    ensures (p * a + r) % a == r == y % a
  {
    Unique(a, p, r);
    Unique(a, q, r);
    assert a * q == q * a && a * p == p * a;
  }

  /** Slabs that are created one after the other get different colours until all have been used. */
  lemma ColorsDiffer(l: Layout, color: nat, m: nat, n: nat)
    requires color < l.colors && m < n < m + l.colors
    ensures ColorAfter(l, color, m) != ColorAfter(l, color, n)
  {
    ColorsCycle(l, color, m);
    ColorsCycle(l, color, n);
    ModDiffer(l.colors, color + m, color + n);
  }

  lemma ModDiffer(a: nat, x: nat, y: nat)
    requires x < y < x + a
    ensures x % a != y % a
  {
    DivMod(x, a);
    var q, r, d := x / a, x % a, y - x;
    if r + d < a {
      assert y == a * q + (r + d);
      Unique(a, q, r + d);
    } else {
      assert y == a * (q + 1) + (r + d - a);
      Unique(a, q + 1, r + d - a);
    }
  }

  /** Every cache is consistent and its slabs are placed. */
  ghost predicate World(F: seq<Frame>, start: nat, owner: map<nat, nat>, caches: map<nat, Cache>) {
    (forall k :: k in caches ==> CacheOk(caches[k])) && Placed(F, start, owner, caches)
  }

  function Grown(c: Cache, s: nat): Cache {
    WithSlab(c, s, c.colorNext).(colorNext := NextColor(c.layout, c.colorNext))
  }

  lemma GrowWorld(F: seq<Frame>, F': seq<Frame>, H': Heads, start: nat, owner: map<nat, nat>, owner': map<nat, nat>,
                  caches: map<nat, Cache>, k: nat, s: nat)
    requires World(F, start, owner, caches) && Partition(F', H') && k in caches
    requires start <= s < start + |F| && F[s - start].Free() && SameInUse(F, F', s - start)
    requires SlabPlaced(F', start, owner', s, caches[k].layout.order)
    requires SameOwner(owner, owner', s, s + Pow2(caches[k].layout.order))
    ensures forall j :: j in caches ==> s !in caches[j].slabs
    ensures World(F', start, owner', caches[k := Grown(caches[k], s)])
    ensures SameLive(caches[k], Grown(caches[k], s))
  {
    hide Partition, SlabPlaced, SameInUse, SameOwner, Pow2, Placed, CacheOk, WithSlab, Grown;
    var c := caches[k];
    GrowPlaced(F, F', H', start, owner, owner', caches, k, s, c.colorNext);
    assert CacheOk(c);
    GrownOk(c, s);
    GrownPlaced(F', start, owner', caches, k, s);
  }

  /** A grown cache is consistent and has the same live objects. */
  lemma GrownOk(c: Cache, s: nat)
    requires CacheOk(c) && s !in c.slabs
    ensures CacheOk(Grown(c, s)) && SameLive(c, Grown(c, s))
  {
    hide Laid, SlabOk, QueueIs, Live;
    WithSlabOk(c, s, c.colorNext);
    NextColorOk(c.layout, c.colorNext);
    LiveIgnoresColor(WithSlab(c, s, c.colorNext), NextColor(c.layout, c.colorNext));
  }

  lemma NextColorOk(l: Layout, color: nat)
    requires ColorOk(l, color)
    ensures ColorOk(l, NextColor(l, color))
  {
  }

  lemma LiveIgnoresColor(c: Cache, color: nat)
    ensures forall s: nat, i: nat :: Live(c.(colorNext := color), s, i) <==> Live(c, s, i)
  {
  }

  lemma GrownPlaced(F: seq<Frame>, start: nat, owner: map<nat, nat>, caches: map<nat, Cache>, k: nat, s: nat)
    requires k in caches && Placed(F, start, owner, caches[k := WithSlab(caches[k], s, caches[k].colorNext)])
    ensures Placed(F, start, owner, caches[k := Grown(caches[k], s)])
  {
    hide Placed;
    var c' := WithSlab(caches[k], s, caches[k].colorNext);
    SamePlaced(F, start, owner, caches[k := c'], k, Grown(caches[k], s));
    assert caches[k := c'][k := Grown(caches[k], s)] == caches[k := Grown(caches[k], s)];
  }

  lemma TakeWorld(F: seq<Frame>, start: nat, owner: map<nat, nat>, caches: map<nat, Cache>, k: nat, s: nat)
    requires World(F, start, owner, caches) && k in caches && s in caches[k].slabs
    requires caches[k].slabs[s].count < caches[k].layout.objs
    ensures caches[k].slabs[s].objects != []
    ensures World(F, start, owner, caches[k := Taken(caches[k], s)])
    ensures Taken(caches[k], s).slabs.Keys == caches[k].slabs.Keys && Taken(caches[k], s).layout == caches[k].layout
    ensures GainsObject(caches[k], Taken(caches[k], s), s, caches[k].slabs[s].objects[0])
  {
    hide Placed, Taken, Live, CacheOk;
    assert CacheOk(caches[k]);
    TakenOk(caches[k], s);
    SamePlaced(F, start, owner, caches, k, Taken(caches[k], s));
  }

  lemma ReturnWorld(F: seq<Frame>, start: nat, owner: map<nat, nat>, caches: map<nat, Cache>, k: nat, s: nat, i: nat)
    requires World(F, start, owner, caches) && k in caches && s in caches[k].slabs && Live(caches[k], s, i)
    ensures caches[k].slabs[s].count > 0
    ensures World(F, start, owner, caches[k := Returned(caches[k], s, i)])
    ensures Returned(caches[k], s, i).slabs.Keys == caches[k].slabs.Keys
    ensures Returned(caches[k], s, i).layout == caches[k].layout
    ensures GainsObject(Returned(caches[k], s, i), caches[k], s, i)
  {
    hide Placed, Returned, Live, CacheOk;
    assert CacheOk(caches[k]);
    ReturnedOk(caches[k], s, i);
    SamePlaced(F, start, owner, caches, k, Returned(caches[k], s, i));
  }

  lemma ReapWorld(F: seq<Frame>, H: Heads, F': seq<Frame>, start: nat, owner: map<nat, nat>, owner': map<nat, nat>,
                  caches: map<nat, Cache>, k: nat, s: nat)
    requires World(F, start, owner, caches) && Partition(F, H) && k in caches && s in caches[k].free
    requires s in caches[k].slabs ==> start <= s && SameInUse(F, F', s - start)
    requires SameOwner(owner, owner', s, s + Pow2(caches[k].layout.order))
    ensures World(F', start, owner', caches[k := WithoutSlab(caches[k], s)])
    ensures SameLive(caches[k], WithoutSlab(caches[k], s))
  {
    hide Placed, Partition, SameInUse, SameOwner;
    assert CacheOk(caches[k]);
    WithoutSlabOk(caches[k], s);
    assert s in caches[k].slabs;
    hide CacheOk;
    ReapPlaced(F, H, F', start, owner, owner', caches, k, s);
  }

  ghost predicate SameLive(c: Cache, c': Cache) {
    forall s: nat, i: nat :: Live(c, s, i) <==> Live(c', s, i)
  }

  /** c' has the live objects of c and one more. */
  ghost predicate GainsObject(c: Cache, c': Cache, s: nat, i: nat) {
    !Live(c, s, i) && forall t: nat, j: nat :: Live(c', t, j) <==> Live(c, t, j) || (t == s && j == i)
  }

  /** One object has been taken from slab s, and the slab has moved to the tail of the queue its new count asks for. */
  ghost predicate TookFrom(c: Cache, c': Cache, s: nat) {
    && s in c.slabs && c.slabs[s].objects != []
    && var n, objs := c.slabs[s].count, c.layout.objs;
       && c'.slabs == c.slabs[s := SlabState(n + 1, c.slabs[s].objects[1..], c.slabs[s].color)]
       && c'.free == (if n == 0 then Remove(c.free, s) else c.free)
       && c'.full == (if n + 1 == objs then c.full + [s] else c.full)
       && c'.partial == (if n + 1 == objs then Remove(c.partial, s) else if n == 0 then c.partial + [s] else c.partial)
       && c'.slabCount == c.slabCount && c'.colorNext == c.colorNext && c'.limits == c.limits
  }

  lemma TakenShape(c: Cache, s: nat)
    requires s in c.slabs && c.slabs[s].objects != [] && (c.slabs[s].count == 0 ==> s !in c.partial)
    ensures TookFrom(c, Taken(c, s), s)
  {
    if c.slabs[s].count == 0 && c.layout.objs == 1 {
      RemoveAppended(c.partial, s);
      RemoveAbsent(c.partial, s);
    }
  }

  lemma {:induction false} RemoveAbsent(q: seq<nat>, s: nat)
    requires s !in q
    ensures Remove(q, s) == q
  {
    if q != [] {
      RemoveAbsent(q[1..], s);
      assert q == [q[0]] + q[1..];
    }
  }

  /** Object i is back at the tail of slab s, and the slab has moved to the tail of the queue its new count asks for. */
  ghost predicate PutBack(c: Cache, c': Cache, s: nat, i: nat) {
    && s in c.slabs && c.slabs[s].count > 0
    && var n, objs := c.slabs[s].count, c.layout.objs;
       && c'.slabs == c.slabs[s := SlabState(n - 1, c.slabs[s].objects + [i], c.slabs[s].color)]
       && c'.full == (if n == objs then Remove(c.full, s) else c.full)
       && c'.free == (if n == 1 then c.free + [s] else c.free)
       && c'.partial == (if n == 1 then Remove(c.partial, s) else if n == objs then c.partial + [s] else c.partial)
       && c'.slabCount == c.slabCount && c'.colorNext == c.colorNext && c'.limits == c.limits
  }

  lemma ReturnedShape(c: Cache, s: nat, i: nat)
    requires s in c.slabs && c.slabs[s].count > 0 && (c.slabs[s].count == c.layout.objs ==> s !in c.partial)
    ensures PutBack(c, Returned(c, s, i), s, i)
  {
    if c.slabs[s].count == 1 && c.layout.objs == 1 {
      RemoveAppended(c.partial, s);
      RemoveAbsent(c.partial, s);
    }
  }

  /** Where the next object of the cache comes from: a partly used slab, else an empty one, else a new one. */
  ghost predicate ServedFrom(c: Cache, c': Cache, s: nat, i: nat) {
    if c.partial != [] then s == c.partial[0] && TookFrom(c, c', s) && i == c.slabs[s].objects[0]
    else if c.free != [] then s == c.free[0] && TookFrom(c, c', s) && i == c.slabs[s].objects[0]
    else s !in c.slabs && TookFrom(Grown(c, s), c', s) && i == 0
  }

  ghost predicate PartlyUsed(c: Cache) {
    exists t :: t in c.slabs && 0 < c.slabs[t].count < c.layout.objs
  }

  ghost predicate HasRoom(c: Cache) {
    exists t :: t in c.slabs && c.slabs[t].count < c.layout.objs
  }

  /** `Halted` stands for the failed assertion that the chosen slab has room. */
  datatype AllocAddr = Null | Obj(addr: nat) | Halted

  class Caches {
    const pool: Pool
    var caches: map<nat, Cache>
    var owner: map<nat, nat>

    ghost predicate Valid()
      reads this, pool, pool.frames, pool.pageList, pool.freeNr
    {
      pool.Valid() && World(pool.frames[..], pool.startPfn, owner, caches)
    }

    constructor (pool: Pool)
      requires pool.Valid()
      ensures Valid() && this.pool == pool && caches == map[]
    {
      this.pool := pool;
      caches, owner := map[], map[];
    }

    /** kmem_cache_init; a name in use is refused, and the cache can hold objects exactly when one fits into a slab */
    method Init(k: nat, objSize: nat, align: nat, limits: nat) returns (busy: bool)
      requires Valid() && objSize > 0 && align > 0
      modifies this`caches
      ensures Valid() && busy == (k in old(caches))
      ensures busy ==> caches == old(caches)
      ensures !busy ==> k in caches && caches == old(caches)[k := caches[k]]
      ensures !busy ==> var c := caches[k];
        && c.layout.objSize == objSize && c.layout.align == align && c.slabs == map[] && c.limits == limits
        && (c.layout.objs >= 1 <==> Fits(objSize, align))
    {
      hide CacheOk, PoolInv, Laid, Fits, SlabPlaced;
      var l := InitLayout(objSize, align);
      EmptyCache(l, limits);
      busy := k in caches;
      if busy { return; }
      caches := caches[k := Cache(l, map[], [], [], [], 0, 0, limits)];
    }

    /** kmem_cache_grow_nolock */
    method Grow(k: nat) returns (ok: bool, ghost s: nat)
      requires Valid() && k in caches
      modifies this`caches, this`owner, pool`heads, pool.frames, pool.pageList, pool.freeNr
      ensures Valid()
      ensures !ok ==> caches == old(caches) && owner == old(owner) && pool.FreeSet() == old(pool.FreeSet())
      ensures !ok ==>
        forall i: nat :: Aligned(i, caches[k].layout.order) ==> !(Run(i, caches[k].layout.order) <= pool.FreeSet())
      ensures ok ==>
        && pool.startPfn <= s && (forall j :: j in old(caches) ==> s !in old(caches)[j].slabs)
        && caches == old(caches)[k := Grown(old(caches)[k], s)] && SameLive(old(caches)[k], caches[k])
        && var run := Run(s - pool.startPfn, old(caches)[k].layout.order);
           run <= old(pool.FreeSet()) && pool.FreeSet() == old(pool.FreeSet()) - run
    {
      hide Partition, Queued, Maximal, FreePages, CacheOk, WithSlab, Placed, SameInUse, Run, World;
      ghost var F := pool.frames[..];
      var layout := caches[k].layout;
      var order := CalcPageOrder(SlabSize(layout.order));
      CacheOrder(F, pool.startPfn, owner, caches, k);
      SlabOrder(layout.order, order);
      s := 0;
      var r := pool.Dequeue(order);
      if !r.Allocated? { return false, 0; }
      ghost var F', H' := pool.frames[..], pool.heads;
      assert Partition(F', H') && SameInUse(F, F', r.pfn - pool.startPfn);
      var kvaddr := r.pfn;
      var pp := kvaddr;
      while pp < kvaddr + Pow2(order)
        modifies this`owner
        invariant kvaddr <= pp <= kvaddr + Pow2(order)
        invariant SameOwner(old(owner), owner, kvaddr, kvaddr + Pow2(order))
        invariant forall p :: kvaddr <= p < pp ==> p in owner && owner[p] == kvaddr
      {
        owner := owner[pp := kvaddr];
        pp := pp + 1;
      }
      assert pool.frames[..] == F';
      GrowWorld(F, F', H', pool.startPfn, old(owner), owner, caches, k, kvaddr);
      caches := caches[k := Grown(caches[k], kvaddr)];
      return true, kvaddr;
    }

    /** kmem_cache_alloc */
    method Alloc(k: nat) returns (r: AllocAddr, ghost s: nat, ghost i: nat)
      requires Valid() && k in caches
      modifies this`caches, this`owner, pool`heads, pool.frames, pool.pageList, pool.freeNr
      ensures Valid() && caches.Keys == old(caches.Keys) && caches == old(caches)[k := caches[k]]
      ensures r.Halted? ==> old(caches[k].layout.objs) == 0
      ensures r.Obj? ==> old(caches[k].layout.objs) > 0 && Live(caches[k], s, i) && r.addr == Addr(caches[k], s, i)
      ensures r.Obj? ==> caches[k].layout == old(caches[k].layout) && GainsObject(old(caches[k]), caches[k], s, i)
      ensures r.Obj? ==> ServedFrom(old(caches[k]), caches[k], s, i)
      ensures r.Obj? && PartlyUsed(old(caches[k])) ==>
        s in old(caches[k].slabs) && 0 < old(caches[k].slabs)[s].count
      ensures r.Obj? && HasRoom(old(caches[k])) ==>
        && owner == old(owner) && pool.FreeSet() == old(pool.FreeSet())
        && caches[k].slabs.Keys == old(caches[k].slabs.Keys)
      ensures r.Null? ==> caches == old(caches) && owner == old(owner) && pool.FreeSet() == old(pool.FreeSet())
      ensures r.Null? ==>
        && (forall t :: t in caches[k].slabs ==> caches[k].slabs[t].count == caches[k].layout.objs)
        && (forall p: nat :: Aligned(p, caches[k].layout.order) ==> !(Run(p, caches[k].layout.order) <= pool.FreeSet()))
    {
      hide Partition, Queued, Maximal, FreePages, CacheOk, Grown, Taken, Placed, Run, World, Live, TookFrom;
      hide PartlyUsed, HasRoom;
      var slabp;
      s, i := 0, 0;
      QueueTops(pool.frames[..], pool.startPfn, owner, caches, k);
      if caches[k].partial != [] {
        slabp := caches[k].partial[0];
      } else {
        if caches[k].free == [] {
          var ok;
          ok, s := Grow(k);
          if !ok { return Null, 0, 0; }
          QueueTops(pool.frames[..], pool.startPfn, owner, caches, k);
          GrownFree(old(caches[k]), s);
        }
        slabp := caches[k].free[0];
      }
      ghost var c := caches[k];
      if caches[k].slabs[slabp].count >= caches[k].layout.objs { return Halted, 0, 0; }
      TakeWorld(pool.frames[..], pool.startPfn, owner, caches, k, slabp);
      var hp := caches[k].slabs[slabp].objects[0];
      TakenShape(c, slabp);
      s, i := slabp, hp;
      caches := caches[k := Taken(caches[k], slabp)];
      AddrSane(pool.frames[..], pool.startPfn, owner, caches, k);
      r := Obj(Addr(caches[k], slabp, hp));
    }

    /** kmem_cache_free: the slab is found through the page, the object through its header address */
    method Free(k: nat, addr: nat, ghost s: nat, ghost i: nat)
      requires Valid() && k in caches && s in caches[k].slabs && Live(caches[k], s, i)
      requires caches[k].layout.align > 0 && addr == Addr(caches[k], s, i)
      modifies this`caches
      ensures Valid() && caches.Keys == old(caches.Keys) && caches == old(caches)[k := caches[k]]
      ensures GainsObject(caches[k], old(caches[k]), s, i) && PutBack(old(caches[k]), caches[k], s, i)
      ensures caches[k].layout == old(caches[k].layout) && caches[k].slabs.Keys == old(caches[k].slabs.Keys)
    {
      hide Partition, Queued, Maximal, FreePages, CacheOk, Returned, Placed, World, Live;
      hide DataSize, AlignOffset, PutBack;
      Found(pool.frames[..], pool.heads, pool.startPfn, owner, caches, k, s, i);
      var slabp := owner[addr / PAGE];
      var layout, color := caches[k].layout, caches[k].slabs[slabp].color;
      var hp := addr - AlignOffset(layout.objSize, layout.align) - OBJ_HEAD;
      var index := (hp - slabp * PAGE - CellStart(layout, color, 0)) / DataSize(layout.objSize, layout.align);
      ReturnWorld(pool.frames[..], pool.startPfn, owner, caches, k, s, i);
      FullSlab(pool.frames[..], pool.startPfn, owner, caches, k, s);
      ReturnedShape(caches[k], s, i);
      caches := caches[k := Returned(caches[k], slabp, index)];
    }

    /** kmem_cache_reap: the first n slabs of the free queue go back to the pool */
    method Reap(k: nat, force: bool) returns (busy: bool, ghost n: nat)
      requires Valid() && k in caches
      modifies this`caches, this`owner, pool`heads, pool.frames, pool.pageList, pool.freeNr
      ensures Valid() && caches.Keys == old(caches.Keys) && caches == old(caches)[k := caches[k]]
      ensures SameLive(old(caches[k]), caches[k]) && Shrunk(old(caches[k]), caches[k], n)
      ensures busy <==> old(caches[k].free) == []
      ensures force ==> caches[k].free == []
      ensures !force ==> caches[k].free == [] || caches[k].slabCount < caches[k].limits
      ensures !force && n > 0 ==> caches[k].slabCount + 1 >= caches[k].limits
      ensures forall p: nat :: p in pool.FreeSet() <==>
        p in old(pool.FreeSet()) || InSlabs(p, Members(old(caches[k].free)[..n]), pool.startPfn, caches[k].layout.order)
    {
      hide Partition, Queued, Maximal, FreePages, CacheOk, WithoutSlab, Placed, World, Live, Shrunk, Members, InSlabs;
      n := 0;
      ShrunkNone(caches[k], pool.startPfn);
      if caches[k].free == [] { return true, 0; }
      while caches[k].free != []
        invariant Valid() && caches.Keys == old(caches.Keys) && caches == old(caches)[k := caches[k]]
        invariant SameLive(old(caches[k]), caches[k]) && Shrunk(old(caches[k]), caches[k], n)
        invariant n <= |old(caches[k].free)|
        invariant !force && n > 0 ==> caches[k].slabCount + 1 >= caches[k].limits
        invariant forall p: nat :: p in pool.FreeSet() <==>
          || p in old(pool.FreeSet())
          || InSlabs(p, Members(old(caches[k].free)[..n]), pool.startPfn, caches[k].layout.order)
        decreases |caches[k].free|
      {
        if !force && caches[k].slabCount < caches[k].limits { break; }
        ghost var c, s := caches[k], caches[k].free[0];
        ShrunkNext(old(caches[k]), c, n);
        Discard(k);
        AlsoIn(Members(old(caches[k].free)[..n]), s, pool.startPfn, c.layout.order);
        n := n + 1;
      }
      ShrunkSize(old(caches[k]), caches[k], n);
      return false, n;
    }

    /** One round of kmem_cache_reap: the top of the free queue goes back to the pool. */
    method Discard(k: nat)
      requires Valid() && k in caches && caches[k].free != []
      modifies this`caches, this`owner, pool`heads, pool.frames, pool.pageList, pool.freeNr
      ensures Valid()
      ensures caches == old(caches)[k := WithoutSlab(old(caches)[k], old(caches)[k].free[0])]
      ensures SameLive(old(caches[k]), caches[k])
      ensures var s := old(caches)[k].free[0];
        && pool.startPfn <= s
        && var run := Run(s - pool.startPfn, old(caches)[k].layout.order);
           run !! old(pool.FreeSet()) && pool.FreeSet() == old(pool.FreeSet()) + run
    {
      hide Partition, Queued, Maximal, FreePages, CacheOk, WithoutSlab, Placed, World, Live, Run;
      ghost var F, H := pool.frames[..], pool.heads;
      var slabp := caches[k].free[0];
      FreeSlab(F, pool.startPfn, owner, caches, k);
      var order := caches[k].layout.order;
      var pp := slabp;
      while pp < slabp + Pow2(order)
        modifies this`owner
        invariant slabp <= pp <= slabp + Pow2(order)
        invariant SameOwner(old(owner), owner, slabp, slabp + Pow2(order))
      {
        owner := owner - {pp};
        pp := pp + 1;
      }
      assert pool.frames[..] == F;
      pool.Enqueue(slabp);
      ReapWorld(F, H, pool.frames[..], pool.startPfn, old(owner), owner, caches, k, slabp);
      caches := caches[k := WithoutSlab(caches[k], slabp)];
    }
  }

  lemma CacheOrder(F: seq<Frame>, start: nat, owner: map<nat, nat>, caches: map<nat, Cache>, k: nat)
    requires World(F, start, owner, caches) && k in caches
    ensures caches[k].layout.order < MAX_ORDER
  {
  }

  /** What the tops of the partial and free queues offer; with both empty every slab is full. */
  lemma QueueTops(F: seq<Frame>, start: nat, owner: map<nat, nat>, caches: map<nat, Cache>, k: nat)
    requires World(F, start, owner, caches) && k in caches
    ensures var c := caches[k];
      && (c.partial != [] ==> c.partial[0] in c.slabs && 0 < c.slabs[c.partial[0]].count < c.layout.objs)
      && (c.free != [] ==> c.free[0] in c.slabs && c.slabs[c.free[0]].count == 0 && c.free[0] !in c.partial)
      && (PartlyUsed(c) <==> c.partial != [])
      && (HasRoom(c) ==> c.partial != [] || c.free != [])
      && (c.partial == [] && c.free == [] ==> forall t :: t in c.slabs ==> c.slabs[t].count == c.layout.objs)
  {
    var c := caches[k];
    hide Placed;
    assert CacheOk(c);
    forall t | t in c.slabs
      ensures c.slabs[t].count <= c.layout.objs
      ensures c.slabs[t].count < c.layout.objs ==> t in c.free || t in c.partial
    {
      assert SlabOk(c.layout, c.slabs[t]);
    }
  }

  /** A full slab is not on the partial queue. */
  lemma FullSlab(F: seq<Frame>, start: nat, owner: map<nat, nat>, caches: map<nat, Cache>, k: nat, s: nat)
    requires World(F, start, owner, caches) && k in caches && s in caches[k].slabs
    ensures caches[k].slabs[s].count == caches[k].layout.objs ==> s !in caches[k].partial
  {
    hide Placed;
    assert CacheOk(caches[k]);
  }

  lemma GrownFree(c: Cache, s: nat)
    ensures Grown(c, s).free == c.free + [s] && Grown(c, s).layout == c.layout && Grown(c, s).partial == c.partial
    ensures s in Grown(c, s).slabs && (c.layout.objs > 0 ==> Grown(c, s).slabs[s].objects[0] == 0)
  {
  }

  lemma AddrSane(F: seq<Frame>, start: nat, owner: map<nat, nat>, caches: map<nat, Cache>, k: nat)
    requires World(F, start, owner, caches) && k in caches
    ensures caches[k].layout.align > 0 && caches[k].layout.objSize > 0
  {
  }

  ghost predicate InSlabs(p: nat, S: set<nat>, start: nat, order: nat) {
    exists s :: s in S && start <= s && InBlock(p, s - start, order)
  }

  lemma AlsoIn(S: set<nat>, s: nat, start: nat, order: nat)
    requires start <= s
    ensures forall p: nat :: InSlabs(p, S + {s}, start, order) <==>
      InSlabs(p, S, start, order) || p in Run(s - start, order)
  {
    forall p: nat
      ensures InSlabs(p, S + {s}, start, order) <==> InSlabs(p, S, start, order) || p in Run(s - start, order)
    {
      if p in Run(s - start, order) { assert s in S + {s} && InBlock(p, s - start, order); }
      if InSlabs(p, S, start, order) {
        var t :| t in S && start <= t && InBlock(p, t - start, order);
        assert t in S + {s};
      }
    }
  }

  ghost function Members(q: seq<nat>): set<nat> { set x | x in q }

  /** The first n slabs of the free queue are gone. */
  ghost predicate Shrunk(c: Cache, c': Cache, n: nat) {
    && n <= |c.free| && c'.free == c.free[n..] && c'.slabs.Keys == c.slabs.Keys - Members(c.free[..n])
    && c'.slabCount == c.slabCount - n
    && c'.layout == c.layout && c'.limits == c.limits && c'.partial == c.partial && c'.full == c.full
  }

  lemma ShrunkNone(c: Cache, start: nat)
    ensures Shrunk(c, c, 0)
    ensures forall p: nat :: !InSlabs(p, Members(c.free[..0]), start, c.layout.order)
  {
  }

  lemma ShrunkSize(c: Cache, c': Cache, n: nat)
    requires Shrunk(c, c', n)
    ensures n <= |c.free| && c'.layout == c.layout && c'.limits == c.limits
  {
  }

  lemma ShrunkNext(c: Cache, c1: Cache, n: nat)
    requires Shrunk(c, c1, n) && c1.free != []
    ensures n < |c.free| && Members(c.free[..n + 1]) == Members(c.free[..n]) + {c1.free[0]}
    ensures c1.layout == c.layout && c1.limits == c.limits && c1.slabCount == c.slabCount - n
    ensures var c2 := WithoutSlab(c1, c1.free[0]);
      && Shrunk(c, c2, n + 1) && |c2.free| < |c1.free|
      && c2.slabCount == c1.slabCount - 1 && c2.limits == c1.limits && c2.layout == c1.layout
  {
    assert c.free[..n + 1] == c.free[..n] + [c.free[n]];
  }

  /** The slab at the top of the free queue is empty and placed. */
  lemma FreeSlab(F: seq<Frame>, start: nat, owner: map<nat, nat>, caches: map<nat, Cache>, k: nat)
    requires World(F, start, owner, caches) && k in caches && caches[k].free != []
    ensures var s := caches[k].free[0]; s in caches[k].slabs && SlabPlaced(F, start, owner, s, caches[k].layout.order)
  {
    assert CacheOk(caches[k]);
  }

  /** An object's address leads back to its slab and its index. */
  lemma Found(F: seq<Frame>, H: Heads, start: nat, owner: map<nat, nat>, caches: map<nat, Cache>, k: nat, s: nat,
              i: nat)
    requires Partition(F, H) && World(F, start, owner, caches) && k in caches && s in caches[k].slabs
    requires Live(caches[k], s, i)
    requires caches[k].layout.align > 0
    ensures var c, a := caches[k], Addr(caches[k], s, i); var l := c.layout; var data := DataSize(l.objSize, l.align);
      && a / PAGE in owner && owner[a / PAGE] == s
      && a == s * PAGE + CellStart(l, c.slabs[s].color, 0) + i * data + OBJ_HEAD + AlignOffset(l.objSize, l.align)
      && DataSize(l.objSize, l.align) > 0
      && (i * DataSize(l.objSize, l.align)) / DataSize(l.objSize, l.align) == i
  {
    AddrSane(F, start, owner, caches, k);
    var c := caches[k];
    assert CacheOk(c);
    hide CacheOk;
    LiveNotFree(F, H, start, owner, caches, k, s, i, Addr(c, s, i));
    hide Placed, Partition, AlignOffset;
    DivExact(i, DataSize(c.layout.objSize, c.layout.align));
  }

  lemma DivExact(i: nat, d: nat)
    requires d > 0
    ensures (i * d) / d == i
  {
    var q := (i * d) / d;
    DivMod(i * d, d);
    MulMono(q + 1, if q < i then i else q + 1, d);
    MulMono(i + 1, if i < q then q else i + 1, d);
  }

  /** In every reachable state, two live objects of any caches share no byte. */
  lemma AllLiveDisjoint(cs: Caches, k: nat, s: nat, i: nat, k': nat, s': nat, i': nat)
    requires cs.Valid() && k in cs.caches && k' in cs.caches
    requires Live(cs.caches[k], s, i) && Live(cs.caches[k'], s', i') && (k, s, i) != (k', s', i')
    ensures var c, c' := cs.caches[k], cs.caches[k'];
      && c.layout.align > 0 && c'.layout.align > 0
      && (Addr(c, s, i) + c.layout.objSize <= Addr(c', s', i') || Addr(c', s', i') + c'.layout.objSize <= Addr(c, s, i))
  {
    hide Partition, Queued, Maximal, CacheOk, Placed;
    var F, start := cs.pool.frames[..], cs.pool.startPfn;
    AddrSane(F, start, cs.owner, cs.caches, k);
    AddrSane(F, start, cs.owner, cs.caches, k');
    LiveDisjoint(F, cs.pool.heads, start, cs.owner, cs.caches, k, s, i, k', s', i');
  }

  /** In every reachable state no byte of a live object lies in a slab header or an object header of any cache. */
  lemma AllHeadersApart(cs: Caches, k: nat, s: nat, i: nat, k': nat, s': nat, i': nat)
    requires cs.Valid() && k in cs.caches && k' in cs.caches && Live(cs.caches[k], s, i)
    requires s' in cs.caches[k'].slabs && i' < cs.caches[k'].layout.objs
    ensures var c, c' := cs.caches[k], cs.caches[k'];
      && c.layout.align > 0 && c'.layout.align > 0
      && Disjoint(Addr(c, s, i), c.layout.objSize, HeadAddr(c', s'), SLAB_HEAD)
      && Disjoint(Addr(c, s, i), c.layout.objSize, CellAddr(c', s', i'), OBJ_HEAD)
  {
    hide Partition, Queued, Maximal, CacheOk, Placed;
    var F, start := cs.pool.frames[..], cs.pool.startPfn;
    AddrSane(F, start, cs.owner, cs.caches, k);
    AddrSane(F, start, cs.owner, cs.caches, k');
    ApartFromHeaders(F, cs.pool.heads, start, cs.owner, cs.caches, k, s, i, k', s', i');
  }
}
