/** Copying between two address spaces through the kernel's view of physical memory. */
module PagedCopy {
  import opened Common

  /** Page number to frame number. */
  type Space = map<nat, nat>

  /** What the code finds for a page that is not mapped: no region, a region without access rights, no frame
      to supply, or a fresh frame that it maps. */
  datatype Hole = NoRegion | NoAccess | NoFrame | Supplied

  /** The count on success, an error code, 0, or `Stale`: the code goes on copying, but through the kernel
      address of another page, since it does not take over the address of the page it has supplied. */
  datatype CopyResult = Copied(n: nat) | Error | Zero | Stale

  predicate Has(s: Space, base: nat, k: nat) { (base + k) / PAGE in s }

  /** Where byte k from a mapped user address on lies in memory. */
  function Phys(s: Space, base: nat, k: nat): nat
    requires Has(s, base, k)
  {
    s[(base + k) / PAGE] * PAGE + (base + k) % PAGE
  }

  /** The n bytes from base on are mapped. */
  ghost predicate Mapped(s: Space, base: nat, n: nat) {
    forall k: nat :: k < n ==> Has(s, base, k)
  }

  /** Frames lie inside memory. */
  ghost predicate Inside(s: Space, size: nat) {
    forall p :: p in s ==> (s[p] + 1) * PAGE <= size
  }

  /** No two pages share a frame. */
  ghost predicate Injective(s: Space) {
    forall p, q :: p in s && q in s && s[p] == s[q] ==> p == q
  }

  /** The destination frames are not shared, with each other or with the source. */
  ghost predicate Separate(d: Space, s: Space) {
    Injective(d) && forall p, q :: p in d && q in s ==> d[p] != s[q]
  }

  /** Address x of memory is not one of the first n destination bytes. */
  ghost predicate Untouched(s: Space, dst: nat, n: nat, x: int) {
    forall k: nat :: k < n && Has(s, dst, k) ==> x != Phys(s, dst, k)
  }

  lemma PhysInside(s: Space, base: nat, k: nat, size: nat)
    requires Has(s, base, k) && Inside(s, size)
    ensures Phys(s, base, k) < size
  {
  }

  lemma PhysApart(d: Space, s: Space, dst: nat, src: nat, j: nat, k: nat)
    requires Has(d, dst, j) && Has(s, src, k) && Separate(d, s)
    ensures Phys(d, dst, j) != Phys(s, src, k)
  {
    assert d[(dst + j) / PAGE] != s[(src + k) / PAGE];
  }

  lemma PhysInjective(d: Space, dst: nat, j: nat, k: nat)
    requires Has(d, dst, j) && Has(d, dst, k) && Injective(d) && j != k
    ensures Phys(d, dst, j) != Phys(d, dst, k)
  {
    if (dst + j) / PAGE != (dst + k) / PAGE {
      assert d[(dst + j) / PAGE] != d[(dst + k) / PAGE];
    }
  }

  /** The first n bytes have arrived, and nothing else has changed. */
  ghost predicate Arrived(was: seq<int>, now: seq<int>, d: Space, s: Space, dst: nat, src: nat, n: nat) {
    && |now| == |was| && Mapped(d, dst, n) && Mapped(s, src, n)
    && (forall k: nat :: k < n ==>
          Phys(d, dst, k) < |was| && Phys(s, src, k) < |was| && now[Phys(d, dst, k)] == was[Phys(s, src, k)])
    && (forall x :: 0 <= x < |was| && Untouched(d, dst, n, x) ==> now[x] == was[x])
  }

  /** One more byte. */
  lemma OneByte(was: seq<int>, now: seq<int>, d: Space, s: Space, dst: nat, src: nat, n: nat)
    requires Arrived(was, now, d, s, dst, src, n) && Has(d, dst, n) && Has(s, src, n)
    requires Inside(d, |was|) && Inside(s, |was|) && Separate(d, s)
    ensures Phys(d, dst, n) < |now| && Phys(s, src, n) < |now|
    ensures Arrived(was, now[Phys(d, dst, n) := now[Phys(s, src, n)]], d, s, dst, src, n + 1)
  {
    var a, b := Phys(d, dst, n), Phys(s, src, n);
    PhysInside(d, dst, n, |was|);
    PhysInside(s, src, n, |was|);
    Fresh(d, s, dst, src, n);
    ArrivedAt(was, now, d, s, dst, src, n);
    StillUntouched(d, dst, n);
    hide Phys, Has, Inside, Separate, Untouched;
    assert forall k: nat :: k < n ==> now[a := now[b]][Phys(d, dst, k)] == now[Phys(d, dst, k)];
  }

  /** The next destination byte is new, and the next source byte is no destination byte. */
  lemma Fresh(d: Space, s: Space, dst: nat, src: nat, n: nat)
    requires Mapped(d, dst, n) && Has(d, dst, n) && Has(s, src, n) && Separate(d, s)
    ensures forall k: nat :: k < n ==> Phys(d, dst, k) != Phys(d, dst, n)
    ensures Untouched(d, dst, n, Phys(s, src, n))
  {
    forall k: nat | k < n
      ensures Phys(s, src, n) != Phys(d, dst, k) && Phys(d, dst, n) != Phys(d, dst, k)
    {
      PhysApart(d, s, dst, src, k, n);
      PhysInjective(d, dst, k, n);
    }
  }

  lemma ArrivedAt(was: seq<int>, now: seq<int>, d: Space, s: Space, dst: nat, src: nat, n: nat)
    requires Arrived(was, now, d, s, dst, src, n) && Has(s, src, n)
    requires Phys(s, src, n) < |was| && Untouched(d, dst, n, Phys(s, src, n))
    ensures now[Phys(s, src, n)] == was[Phys(s, src, n)]
  {
  }

  lemma StillUntouched(d: Space, dst: nat, n: nat)
    requires Has(d, dst, n)
    ensures forall x: int :: Untouched(d, dst, n + 1, x) ==> Untouched(d, dst, n, x) && x != Phys(d, dst, n)
  {
    forall x: int | Untouched(d, dst, n + 1, x)
      ensures Untouched(d, dst, n, x) && x != Phys(d, dst, n)
    {
    }
  }

  function Min(a: nat, b: nat): nat { if a <= b then a else b }

  /** The part of the page from va on. */
  function ToPageEnd(va: nat): (r: nat)
    ensures r > 0
  {
    (va / PAGE + 1) * PAGE - va
  }

  /** n is the offset of the first byte for which one of the two addresses is not mapped, or count. */
  ghost predicate FirstHole(d: Space, s: Space, dst: nat, src: nat, count: nat, n: nat) {
    n <= count && Mapped(d, dst, n) && Mapped(s, src, n) && (n < count ==> !Has(d, dst, n) || !Has(s, src, n))
  }

  /** Lines 139-163 for the source page, lines 172-196 for the destination page. */
  function FaultResult(h: Hole): CopyResult {
    match h
    case NoAccess => Zero
    case Supplied => Stale
    case _ => Error
  }

  /** What the code finds for an address that is not mapped. */
  function HoleAt(s: Space, va: nat, h: nat -> Hole): Option<Hole> {
    if va / PAGE in s then None else Some(h(va / PAGE))
  }

  /** The hole that decides: that of the source, unless a page is supplied for it, else that of the destination. */
  function Deciding(source: Option<Hole>, destination: Option<Hole>): Option<Hole> {
    if source.Some? && !source.value.Supplied? then source else destination
  }

  /** inter_user_copy; `kernel` says that one of the spaces is that of the kernel */
  method InterUserCopy(mem: array<int>, d: Space, s: Space, dst: nat, src: nat, count: nat, kernBase: nat,
                       kernel: bool, dh: nat -> Hole, sh: nat -> Hole)
    returns (r: CopyResult, ghost n: nat)
    requires Inside(d, mem.Length) && Inside(s, mem.Length) && Separate(d, s)
    modifies mem
    ensures src >= kernBase || dst >= kernBase || kernel ==> r.Error? && n == 0
    ensures src < kernBase && dst < kernBase && !kernel ==>
      && FirstHole(d, s, dst, src, count, n)
      && (n == count ==> r == Copied(count))
      && (n < count ==>
            var hole := Deciding(HoleAt(s, src + n, sh), HoleAt(d, dst + n, dh));
            && (r.Error? <==> hole == Some(NoRegion) || hole == Some(NoFrame))
            && (r.Zero? <==> hole == Some(NoAccess))
            && (r.Stale? <==> hole == Some(Supplied) || hole == None))
      && (r == Copied(count) <==> Mapped(d, dst, count) && Mapped(s, src, count))
    ensures Arrived(old(mem[..]), mem[..], d, s, dst, src, n)
  {
    hide Mapped, Untouched, Inside, Separate, Arrived;
    n := 0;
    NoneYet(mem[..], d, s, dst, src);
    if src >= kernBase || dst >= kernBase { return Error, 0; }
    if kernel { return Error, 0; }
    var saddr, daddr, len := src, dst, count;
    while len > 0
      invariant n == count - len && saddr == src + n && daddr == dst + n
      invariant Arrived(old(mem[..]), mem[..], d, s, dst, src, n)
    {
      ArrivedMapped(old(mem[..]), mem[..], d, s, dst, src, n);
      if saddr / PAGE !in s && !sh(saddr / PAGE).Supplied? {
        FullyMapped(d, s, dst, src, count, n);
        return FaultResult(sh(saddr / PAGE)), n;
      }
      if daddr / PAGE !in d {
        FullyMapped(d, s, dst, src, count, n);
        return FaultResult(dh(daddr / PAGE)), n;
      }
      if saddr / PAGE !in s {
        FullyMapped(d, s, dst, src, count, n);
        return Stale, n;
      }
      var cpyLen := Min(Min(ToPageEnd(saddr), ToPageEnd(daddr)), len);
      CopyChunk(mem, s[saddr / PAGE] * PAGE, d[daddr / PAGE] * PAGE, saddr, daddr, cpyLen, d, s, dst, src, n,
                old(mem[..]));
      n := n + cpyLen;
      len, saddr, daddr := len - cpyLen, saddr + cpyLen, daddr + cpyLen;
    }
    ArrivedMapped(old(mem[..]), mem[..], d, s, dst, src, n);
    return Copied(count), n;
  }

  /** The inner loop: a chunk that stays on one page on both sides. */
  method CopyChunk(mem: array<int>, srcKv: nat, dstKv: nat, saddr0: nat, daddr0: nat, cpyLen0: nat,
                   ghost d: Space, ghost s: Space, ghost dst: nat, ghost src: nat, ghost n0: nat, ghost was: seq<int>)
    requires |was| == mem.Length && Inside(d, |was|) && Inside(s, |was|) && Separate(d, s)
    requires Arrived(was, mem[..], d, s, dst, src, n0) && Has(d, dst, n0) && Has(s, src, n0)
    requires saddr0 == src + n0 && daddr0 == dst + n0
    requires dstKv == d[(dst + n0) / PAGE] * PAGE && srcKv == s[(src + n0) / PAGE] * PAGE
    requires cpyLen0 <= ToPageEnd(src + n0) && cpyLen0 <= ToPageEnd(dst + n0)
    modifies mem
    ensures Arrived(was, mem[..], d, s, dst, src, n0 + cpyLen0)
  {
    hide Mapped, Untouched, Inside, Separate, Arrived, Injective;
    var saddr, daddr, cpyLen := saddr0, daddr0, cpyLen0;
    ghost var n := n0;
    ArrivedMapped(was, mem[..], d, s, dst, src, n);
    while cpyLen > 0
      invariant n == n0 + cpyLen0 - cpyLen && saddr == src + n && daddr == dst + n
      invariant Arrived(was, mem[..], d, s, dst, src, n)
    {
      SamePage(saddr0, saddr);
      SamePage(daddr0, daddr);
      OneByte(was, mem[..], d, s, dst, src, n);
      ghost var m := mem[..];
      mem[dstKv + daddr % PAGE] := mem[srcKv + saddr % PAGE];
      assert mem[..] == m[Phys(d, dst, n) := m[Phys(s, src, n)]];
      n := n + 1;
      cpyLen, saddr, daddr := cpyLen - 1, saddr + 1, daddr + 1;
    }
  }

  lemma NoneYet(m: seq<int>, d: Space, s: Space, dst: nat, src: nat)
    ensures Arrived(m, m, d, s, dst, src, 0) && Mapped(d, dst, 0) && Mapped(s, src, 0)
  {
  }

  lemma ArrivedMapped(was: seq<int>, now: seq<int>, d: Space, s: Space, dst: nat, src: nat, n: nat)
    requires Arrived(was, now, d, s, dst, src, n)
    ensures Mapped(d, dst, n) && Mapped(s, src, n)
  {
  }

  lemma SamePage(a: nat, b: nat)
    requires a <= b < a + ToPageEnd(a)
    ensures b / PAGE == a / PAGE
  {
  }

  /** Every byte is copied exactly when both ranges are mapped. */
  lemma FullyMapped(d: Space, s: Space, dst: nat, src: nat, count: nat, n: nat)
    requires FirstHole(d, s, dst, src, count, n)
    ensures n == count <==> Mapped(d, dst, count) && Mapped(s, src, count)
  {
  }

  /** A destination region without access rights: nothing is copied, and the result is 0 like a count. */
  method NoAccessGivesZero(mem: array<int>) returns (r: CopyResult, ghost n: nat)
    requires mem.Length == PAGE
    modifies mem
    ensures r == Zero && n == 0
  {
    var d: Space := map[];
    assert !Has(d, 0, 0) && Has(map[0 := 0], 0, 0);
    r, n := InterUserCopy(mem, d, map[0 := 0], 0, 0, 10, PAGE, false, _ => NoAccess, _ => NoRegion);
  }

  /** A destination page that has to be supplied: the copy goes on through the address of another page. */
  method SuppliedGivesStale(mem: array<int>) returns (r: CopyResult, ghost n: nat)
    requires mem.Length == PAGE
    modifies mem
    ensures r == Stale && n == 0
  {
    var d: Space := map[];
    assert !Has(d, 0, 0) && Has(map[0 := 0], 0, 0);
    r, n := InterUserCopy(mem, d, map[0 := 0], 0, 0, 10, PAGE, false, _ => Supplied, _ => NoRegion);
  }

  /** A source address in no region is an error, whatever the destination. */
  method NoRegionGivesError(mem: array<int>, d: Space, dh: nat -> Hole) returns (r: CopyResult, ghost n: nat)
    requires Inside(d, mem.Length) && Injective(d)
    modifies mem
    ensures r == Error && n == 0 && mem[..] == old(mem[..])
  {
    var s: Space := map[];
    assert !Has(s, 0, 0);
    r, n := InterUserCopy(mem, d, s, 0, 0, 10, PAGE, false, dh, _ => NoRegion);
    assert forall x :: 0 <= x < mem.Length ==> Untouched(d, 0, 0, x);
  }
}
