/** Sizes and offsets inside a slab: header, colour offset, objects. */
module SlabLayout {
  import opened Common
  import opened Blocks
  import opened BuddySpec

  const SLAB_HEAD := 248     // sizeof(slab)
  const OBJ_HEAD := 16       // sizeof(slab_obj_head)
  const CACHE_LINE := 64     // DEFAULT_L1_CACHE_BYTE
  const TYPE_DIVISOR := 8    // KM_SLAB_TYPE_DIVISOR

  datatype Layout = Layout(objSize: nat, align: nat, order: nat, objs: nat, colors: nat)

  /** _kmem_calc_align_offset */
  function AlignOffset(objSize: nat, align: nat): nat
    requires align > 0
  {
    if objSize % align != 0 then align - objSize % align else 0
  }

  /** calc_slab_data_size: object header, alignment gap, object */
  function DataSize(objSize: nat, align: nat): nat
    requires align > 0
  {
    OBJ_HEAD + AlignOffset(objSize, align) + objSize
  }

  function SlabSize(order: nat): nat { PAGE * Pow2(order) }

  /** What is left of a slab of the given order after the header and whole objects. */
  function Remainder(order: nat, data: nat): nat
    requires data > 0
  {
    (SlabSize(order) - SLAB_HEAD) % data
  }

  predicate BitSet(n: nat, k: nat) {
    if k == 0 then n % 2 == 1 else BitSet(n / 2, k - 1)
  }

  /** The highest bit of the page count, among the orders the pool knows; 0 when none is set. */
  ghost predicate PageOrder(size: nat, order: nat) {
    var pages := (size + PAGE - 1) / PAGE;
    || (order < MAX_ORDER && BitSet(pages, order) && forall k :: order < k < MAX_ORDER ==> !BitSet(pages, k))
    || (order == 0 && forall k :: 0 <= k < MAX_ORDER ==> !BitSet(pages, k))
  }

  /** calc_page_order, with the result preset to 0 as both callers do */
  method CalcPageOrder(size: nat) returns (order: nat)
    ensures PageOrder(size, order) && order < MAX_ORDER
  {
    if size == 0 {
      forall k: nat ensures !BitSet(0, k) { ZeroBits(k); }
      return 0;
    }
    var pages := (if size % PAGE == 0 then size else (size / PAGE + 1) * PAGE) / PAGE;
    assert pages == (size + PAGE - 1) / PAGE;
    var o := MAX_ORDER;
    while o > 0
      invariant 0 <= o <= MAX_ORDER
      invariant forall k :: o <= k < MAX_ORDER ==> !BitSet(pages, k)
    {
      if BitSet(pages, o - 1) { return o - 1; }
      o := o - 1;
    }
    return 0;
  }

  lemma PageOrderUnique(size: nat, j: nat, k: nat)
    requires PageOrder(size, j) && PageOrder(size, k)
    ensures j == k
  {
  }

  /** For a slab, a power of two of pages, the order is exact. */
  lemma SlabOrder(k: nat, order: nat)
    requires k < MAX_ORDER && PageOrder(SlabSize(k), order)
    ensures order == k
  {
    assert (SlabSize(k) + PAGE - 1) / PAGE == Pow2(k);
    PowerBits(k, order);
    PowerBits(k, k);
    assert order < k ==> BitSet(Pow2(k), k);
  }

  lemma {:induction false} PowerBits(k: nat, j: nat)
    ensures BitSet(Pow2(k), j) <==> j == k
  {
    if j > 0 {
      if k > 0 { PowerBits(k - 1, j - 1); } else { ZeroBits(j - 1); }
    }
  }

  lemma {:induction false} ZeroBits(j: nat)
    ensures !BitSet(0, j)
  {
    if j > 0 { ZeroBits(j - 1); }
  }

  /** calc_off_slab_size: among the orders from the minimal one up, the first with the least waste. */
  method CalcOffSlabOrder(data: nat, minOrder: nat) returns (order: nat)
    requires data > 0 && minOrder < MAX_ORDER
    ensures minOrder <= order < MAX_ORDER
    ensures forall k :: minOrder <= k < MAX_ORDER ==> Remainder(order, data) <= Remainder(k, data)
    ensures forall k :: minOrder <= k < order ==> Remainder(order, data) < Remainder(k, data)
  {
    order := minOrder;
    var k := minOrder;
    while k < MAX_ORDER
      invariant minOrder <= k <= MAX_ORDER && minOrder <= order < MAX_ORDER && (order < k || order == minOrder)
      invariant forall j :: minOrder <= j < k ==> Remainder(order, data) <= Remainder(j, data)
      invariant forall j :: minOrder <= j < order ==> Remainder(order, data) < Remainder(j, data)
      invariant k == minOrder ==> order == minOrder
    {
      if Remainder(k, data) < Remainder(order, data) {
        order := k;
      }
      k := k + 1;
    }
  }

  /** The colour area: what setup_color_param may shift the slab header by. */
  function ColorArea(l: Layout): int
    requires l.align > 0
  {
    SlabSize(l.order) - SLAB_HEAD - l.objs * DataSize(l.objSize, l.align)
  }

  /** The parameters kmem_cache_init leaves in a cache. */
  ghost predicate Laid(l: Layout) {
    && l.objSize > 0 && l.align > 0 && l.order < MAX_ORDER
    && l.objs == (SlabSize(l.order) - SLAB_HEAD) / DataSize(l.objSize, l.align)
    && l.colors == if ColorArea(l) < CACHE_LINE then 0 else ColorArea(l) / CACHE_LINE + 1
  }

  predicate OffSlab(objSize: nat) { PAGE / TYPE_DIVISOR <= objSize }

  /** At least one object fits: the order that calc_page_order rounds down to is large enough
      after all, or some larger order wastes less than that whole slab. */
  ghost predicate Fits(objSize: nat, align: nat)
    requires align > 0
  {
    var data := DataSize(objSize, align);
    if !OffSlab(objSize) then SLAB_HEAD + data <= PAGE
    else exists m :: PageOrder(SLAB_HEAD + data, m) && WorthIt(data, m)
  }

  ghost predicate WorthIt(data: nat, m: nat)
    requires data > 0
  {
    || SLAB_HEAD + data <= SlabSize(m)
    || exists k :: m < k < MAX_ORDER && Remainder(k, data) < SlabSize(m) - SLAB_HEAD
  }

  /** m is what calc_page_order gives, and `order` is the first order from m up with the least waste of all. */
  ghost predicate LeastFrom(data: nat, m: nat, order: nat)
    requires data > 0
  {
    && PageOrder(SLAB_HEAD + data, m) && m <= order < MAX_ORDER
    && (forall k :: m <= k < MAX_ORDER ==> Remainder(order, data) <= Remainder(k, data))
    && (forall k :: m <= k < order ==> Remainder(order, data) < Remainder(k, data))
  }

  ghost predicate LeastWaste(data: nat, order: nat)
    requires data > 0
  {
    exists m: nat :: LeastFrom(data, m, order)
  }

  /** calc_slab_param and setup_color_param */
  method InitLayout(objSize: nat, align: nat) returns (l: Layout)
    requires objSize > 0 && align > 0
    ensures Laid(l) && l.objSize == objSize && l.align == align
    ensures !OffSlab(objSize) ==> l.order == 0
    ensures OffSlab(objSize) ==> LeastWaste(DataSize(objSize, align), l.order)
    ensures l.objs >= 1 <==> Fits(objSize, align)
  {
    var order := 0;
    var data := DataSize(objSize, align);
    if OffSlab(objSize) {
      var minOrder := CalcPageOrder(SLAB_HEAD + data);
      order := CalcOffSlabOrder(data, minOrder);
      assert LeastFrom(data, minOrder, order);
      WorthItExact(data, minOrder, order);
      if Fits(objSize, align) {
        ghost var m :| PageOrder(SLAB_HEAD + data, m) && WorthIt(data, m);
        PageOrderUnique(SLAB_HEAD + data, m, minOrder);
      }
    }
    l := Shares(objSize, align, order);
  }

  lemma WorthItExact(data: nat, minOrder: nat, order: nat)
    requires data > 0 && minOrder <= order < MAX_ORDER
    requires forall k :: minOrder <= k < MAX_ORDER ==> Remainder(order, data) <= Remainder(k, data)
    requires forall k :: minOrder <= k < order ==> Remainder(order, data) < Remainder(k, data)
    ensures SLAB_HEAD + data <= SlabSize(order) <==> WorthIt(data, minOrder)
  {
    if SLAB_HEAD + data > SlabSize(minOrder) { WholeSlab(data, minOrder); }
    if SLAB_HEAD + data > SlabSize(order) { WholeSlab(data, order); }
    Pow2Mono(minOrder, order);
    hide Pow2, Remainder;
    assert SlabSize(minOrder) <= SlabSize(order);
    assert order > minOrder ==> Remainder(order, data) < Remainder(minOrder, data);
  }

  /** A slab too small for one object is all waste. */
  lemma WholeSlab(data: nat, k: nat)
    requires data > 0 && SLAB_HEAD + data > SlabSize(k)
    ensures Remainder(k, data) == SlabSize(k) - SLAB_HEAD
  {
    Pow2Mono(0, k);
    hide Pow2;
    DivMod(SlabSize(k) - SLAB_HEAD, data);
  }

  /** calc_slab_param, lines 344-345, and setup_color_param */
  method Shares(objSize: nat, align: nat, order: nat) returns (l: Layout)
    requires objSize > 0 && align > 0 && order < MAX_ORDER
    ensures Laid(l) && l.objSize == objSize && l.align == align && l.order == order
    ensures l.objs >= 1 <==> SlabSize(order) >= SLAB_HEAD + DataSize(objSize, align)
  {
    Pow2Mono(0, order);
    hide AlignOffset, Pow2;
    var data := DataSize(objSize, align);
    var area := SlabSize(order) - SLAB_HEAD;
    var objs := area / data;
    DivMod(area, data);
    var left := area - objs * data;
    l := Layout(objSize, align, order, objs, if left < CACHE_LINE then 0 else left / CACHE_LINE + 1);
  }

  lemma DivMod(a: nat, d: nat)
    requires d > 0
    ensures (a / d) * d + a % d == a
    ensures a / d >= 1 <==> a >= d
  {
    assert a == d * (a / d) + a % d;
    if a >= d { assert a / d >= 1; }
    if a / d >= 1 { assert d * (a / d) >= d; }
  }

  // ---- Addresses inside a slab ----

  /** update_color_offset and refer_object_head: where the cell of object i starts. */
  function CellStart(l: Layout, color: nat, i: nat): nat
    requires l.align > 0
  {
    color * CACHE_LINE + SLAB_HEAD + i * DataSize(l.objSize, l.align)
  }

  /** Where the caller's object starts. */
  function ObjStart(l: Layout, color: nat, i: nat): nat
    requires l.align > 0
  {
    CellStart(l, color, i) + OBJ_HEAD + AlignOffset(l.objSize, l.align)
  }

  predicate ColorOk(l: Layout, color: nat) { color == 0 || color < l.colors }

  /** For every colour, header and objects lie inside the slab and objects do not touch. */
  lemma LayoutSound(l: Layout, color: nat, i: nat, j: nat)
    requires Laid(l) && ColorOk(l, color) && i < l.objs && j < l.objs
    ensures ColorArea(l) >= 0 && color * CACHE_LINE <= ColorArea(l)
    ensures color * CACHE_LINE + SLAB_HEAD <= CellStart(l, color, i)
    ensures ObjStart(l, color, i) + l.objSize == CellStart(l, color, i) + DataSize(l.objSize, l.align)
    ensures CellStart(l, color, i) + DataSize(l.objSize, l.align) <= SlabSize(l.order)
    ensures i < j ==> CellStart(l, color, i) + DataSize(l.objSize, l.align) <= CellStart(l, color, j)
  {
    Pow2Mono(0, l.order);
    hide AlignOffset, Pow2;
    var d := DataSize(l.objSize, l.align);
    DivMod(SlabSize(l.order) - SLAB_HEAD, d);
    Shifted(ColorArea(l), color, l.colors);
    Cells(d, l.objs, i, j);
  }

  lemma Shifted(area: nat, color: nat, colors: nat)
    requires colors == if area < CACHE_LINE then 0 else area / CACHE_LINE + 1
    requires color == 0 || color < colors
    ensures color * CACHE_LINE <= area
  {
  }

  lemma Cells(d: nat, objs: nat, i: nat, j: nat)
    requires i < objs && j < objs
    ensures 0 <= i * d && i * d + d <= objs * d
    ensures i < j ==> i * d + d <= j * d
  {
    assert i * d + d == (i + 1) * d;
    MulMono(i + 1, objs, d);
    if i < j { MulMono(i + 1, j, d); }
  }

  lemma MulMono(a: nat, b: nat, d: nat)
    requires a <= b
    ensures a * d <= b * d
  {
  }

  /** An object size for which no object fits: the page order is rounded down, and no larger order wastes less. */
  lemma NoObjectFits()
    ensures !Fits(8176, 8)
  {
    assert AlignOffset(8176, 8) == 0 && DataSize(8176, 8) == 8192;
    assert Pow2(0) == 1 && Pow2(1) == 2;
    var m := 1;
    assert PageOrder(SLAB_HEAD + 8192, m) by {
      assert BitSet(3, 1) && 3 / 2 == 1;
      forall k | 1 < k < MAX_ORDER ensures !BitSet(3, k) { ZeroBits(k - 2); }
    }
    forall k | m < k < MAX_ORDER
      ensures Remainder(k, 8192) == SlabSize(m) - SLAB_HEAD
    {
      var p := Pow2(k - 1);
      assert SlabSize(k) - SLAB_HEAD == 8192 * (p - 1) + 7944;
    }
    assert !WorthIt(8192, m);
    if Fits(8176, 8) {
      var m' :| PageOrder(SLAB_HEAD + 8192, m') && WorthIt(8192, m');
      PageOrderUnique(SLAB_HEAD + 8192, m', m);
    }
  }

  // ---- Alignment ----

  /** What the address of an object leaves modulo an alignment that divides a page, before reduction. */
  function Skew(l: Layout, color: nat, i: nat): nat
    requires l.align > 0
  {
    color * CACHE_LINE + SLAB_HEAD + OBJ_HEAD + i * OBJ_HEAD + AlignOffset(l.objSize, l.align)
  }

  /** For every alignment that divides a page: an object is aligned if and only if its skew is a multiple.
      The gap in front of an object aligns the end of its cell, and neither header is a multiple of 16. */
  lemma AlignedExactly(l: Layout, page: nat, color: nat, i: nat)
    requires l.align > 0 && PAGE % l.align == 0
    ensures (page * PAGE + ObjStart(l, color, i)) % l.align == Skew(l, color, i) % l.align
  {
    var a := l.align;
    DivMod(PAGE, a);
    var e := PAGE / a;
    var q := Rounded(l.objSize, a);
    hide AlignOffset;
    assert DataSize(l.objSize, a) == OBJ_HEAD + a * q;
    assert i * (OBJ_HEAD + a * q) == i * OBJ_HEAD + a * (i * q);
    assert page * (e * a) == a * (page * e);
    var m := page * e + i * q;
    assert a * m == a * (page * e) + a * (i * q);
    assert page * PAGE + ObjStart(l, color, i) == a * m + Skew(l, color, i);
    ModShift(a, m, Skew(l, color, i));
  }

  lemma Rounded(size: nat, a: nat) returns (q: nat)
    requires a > 0
    ensures AlignOffset(size, a) + size == a * q && AlignOffset(size, a) < a
    ensures AlignOffset(size, a) == 0 <==> size % a == 0
  {
    DivMod(size, a);
    q := size / a + if size % a == 0 then 0 else 1;
  }

  /** Quotient and remainder are unique. */
  lemma Unique(a: nat, q: nat, r: nat)
    requires r < a
    ensures (a * q + r) % a == r
  {
    var x := a * q + r;
    DivMod(x, a);
    SameQuotient(a, x / a, x % a, q, r);
  }

  lemma SameQuotient(a: nat, q: nat, r: nat, q': nat, r': nat)
    requires r < a && r' < a && q * a + r == a * q' + r'
    ensures q == q' && r == r'
  {
    MulMono(q + 1, if q < q' then q' else q + 1, a);
    MulMono(q' + 1, if q' < q then q else q' + 1, a);
  }

  lemma ModShift(a: nat, m: nat, r: nat)
    requires a > 0
    ensures (a * m + r) % a == r % a
  {
    DivMod(r, a);
    var q, s := r / a, r % a;
    assert a * m + r == a * (m + q) + s;
    Unique(a, m + q, s);
  }

  /** An alignment of at most 8 is met exactly by the sizes that are a multiple of it. */
  lemma SmallAlignment(l: Layout, page: nat, color: nat, i: nat)
    requires l.align > 0 && 8 % l.align == 0
    ensures (page * PAGE + ObjStart(l, color, i)) % l.align == 0 <==> l.objSize % l.align == 0
  {
    var a, off := l.align, AlignOffset(l.objSize, l.align);
    DivMod(8, a);
    var e := 8 / a;
    assert PAGE == a * (512 * e) + 0;
    Unique(a, 512 * e, 0);
    AlignedExactly(l, page, color, i);
    var m := color * (8 * e) + 33 * e + i * (2 * e);
    Eights(a, e, color, i, m);
    var q := Rounded(l.objSize, a);
    Unique(a, m, off);
  }

  lemma Eights(a: nat, e: nat, color: nat, i: nat, m: nat)
    requires a * e == 8 && m == color * (8 * e) + 33 * e + i * (2 * e)
    ensures color * CACHE_LINE + SLAB_HEAD + OBJ_HEAD + i * OBJ_HEAD == a * m
  {
    assert color * CACHE_LINE == a * (color * (8 * e));
    assert i * OBJ_HEAD == a * (i * (2 * e));
    assert SLAB_HEAD + OBJ_HEAD == a * (33 * e);
  }

  /** An alignment to 16 is met exactly by the sizes that are 8 more than a multiple of it. */
  lemma SixteenAlignment(l: Layout, page: nat, color: nat, i: nat)
    requires l.align == 16
    ensures (page * PAGE + ObjStart(l, color, i)) % 16 == 0 <==> l.objSize % 16 == 8
  {
    AlignedExactly(l, page, color, i);
  }

  /** An alignment to 32 or more is never met by two neighbours. */
  lemma LargeAlignment(l: Layout, page: nat, color: nat, i: nat)
    requires l.align > 0 && PAGE % l.align == 0 && l.align % 32 == 0
    ensures (page * PAGE + ObjStart(l, color, i)) % l.align == 0
      ==> (page * PAGE + ObjStart(l, color, i + 1)) % l.align == 16
  {
    var a, r := l.align, Skew(l, color, i);
    AlignedExactly(l, page, color, i);
    AlignedExactly(l, page, color, i + 1);
    hide AlignOffset;
    assert Skew(l, color, i + 1) == r + 16;
    if r % a == 0 {
      DivMod(r, a);
      assert a >= 32;
      Unique(a, r / a, 16);
    }
  }

  /** Objects of 12 bytes asked to be aligned to 8 are never aligned. */
  lemma Misaligned(page: nat, color: nat, i: nat, l: Layout)
    requires l.objSize == 12 && l.align == 8
    ensures (page * PAGE + ObjStart(l, color, i)) % 8 == 4
  {
    AlignedExactly(l, page, color, i);
  }
}
