/** Splay trees as values: trees of node identities, and the two accumulators of
    the top-down splay as trees with a hole at the end of one spine. */
module SplaySpec {
  import opened Sides

  /** A caller-owned node; the tree only changes its two links. */
  class Item {
    const key: int
    var left: Item?
    var right: Item?

    constructor (key: int)
      ensures this.key == key && left == null && right == null
    {
      this.key := key;
      left, right := null, null;
    }
  }

  datatype Links = Links(left: Item?, right: Item?) {
    function Child(d: Dir): Item? { if d.L? then left else right }
    function SetChild(d: Dir, p: Item?): Links { if d.L? then this.(left := p) else this.(right := p) }
  }

  type Mem = map<Item, Links>

  datatype Tree = E | T(l: Tree, n: Item, r: Tree)

  /** The spine collected on one side: every node keeps the subtree away from the spine; the newest comes first. */
  datatype Acc = Nil | Cons(sub: Tree, n: Item, up: Acc)

  /** The tree of n whose d-side subtree is t. */
  ghost function Mk(d: Dir, t: Tree, n: Item, other: Tree): Tree {
    if d.L? then T(t, n, other) else T(other, n, t)
  }

  ghost function Sub(t: Tree, d: Dir): Tree
    requires t.T?
  {
    if d.L? then t.l else t.r
  }

  /** The accumulator with t hung into its hole. */
  ghost function Fill(d: Dir, a: Acc, t: Tree): Tree {
    if a.Nil? then t else Fill(d, a.up, Mk(d, t, a.n, a.sub))
  }

  ghost function Ptr(t: Tree): Item? { if t.E? then null else t.n }

  /** The node whose d link is the hole; the stack node `base` when nothing has been collected. */
  ghost function Last(a: Acc, base: Item): Item { if a.Nil? then base else a.n }

  ghost function Set(t: Tree): set<Item> {
    if t.E? then {} else {t.n} + Set(t.l) + Set(t.r)
  }

  ghost function ASet(a: Acc): set<Item> {
    if a.Nil? then {} else {a.n} + Set(a.sub) + ASet(a.up)
  }

  ghost predicate Distinct(t: Tree) {
    t.T? ==> t.n !in Set(t.l) && t.n !in Set(t.r) && Set(t.l) !! Set(t.r) && Distinct(t.l) && Distinct(t.r)
  }

  ghost predicate ADistinct(a: Acc) {
    a.Cons? ==>
      && a.n !in Set(a.sub) && a.n !in ASet(a.up) && Set(a.sub) !! ASet(a.up)
      && Distinct(a.sub) && ADistinct(a.up)
  }

  // ---- Representation ----

  ghost function LinksD(d: Dir, t: Item?, other: Item?): Links {
    if d.L? then Links(t, other) else Links(other, t)
  }

  ghost predicate Rep(h: Mem, t: Tree) {
    t.T? ==> t.n in h && h[t.n] == Links(Ptr(t.l), Ptr(t.r)) && Rep(h, t.l) && Rep(h, t.r)
  }

  /** The spine starts at the d link of `base`; its last d link holds `hole`. */
  ghost predicate ARep(h: Mem, d: Dir, a: Acc, base: Item, hole: Item?) {
    match a
    case Nil => base in h && h[base].Child(d) == hole
    case Cons(sub, n, up) => n in h && h[n] == LinksD(d, hole, Ptr(sub)) && Rep(h, sub) && ARep(h, d, up, base, n)
  }

  ghost predicate Spine(h: Mem, d: Dir, a: Acc, base: Item) {
    Last(a, base) in h && ARep(h, d, a, base, h[Last(a, base)].Child(d))
  }

  /** The state inside the splay loop: what is left of the tree, and the two accumulators. */
  ghost predicate Parts(h: Mem, base: Item, root: Item?, t: Tree, al: Acc, ar: Acc) {
    && Distinct(t) && ADistinct(al) && ADistinct(ar)
    && Set(t) !! ASet(al) && Set(t) !! ASet(ar) && ASet(al) !! ASet(ar)
    && base !in Set(t) && base !in ASet(al) && base !in ASet(ar)
    && root == Ptr(t) && Rep(h, t) && Spine(h, L, al, base) && Spine(h, R, ar, base)
  }

  /** The same with the direction chosen: `ad` is the accumulator that grows along d, `ao` the other one. */
  ghost predicate PartsD(h: Mem, d: Dir, base: Item, root: Item?, t: Tree, ad: Acc, ao: Acc) {
    if d.L? then Parts(h, base, root, t, ad, ao) else Parts(h, base, root, t, ao, ad)
  }

  lemma MkFacts(h: Mem, d: Dir, t: Tree, n: Item, other: Tree)
    ensures Ptr(Mk(d, t, n, other)) == n && Set(Mk(d, t, n, other)) == {n} + Set(t) + Set(other)
    ensures Distinct(Mk(d, t, n, other)) <==>
      n !in Set(t) && n !in Set(other) && Set(t) !! Set(other) && Distinct(t) && Distinct(other)
    ensures Rep(h, Mk(d, t, n, other)) <==>
      n in h && h[n] == LinksD(d, Ptr(t), Ptr(other)) && Rep(h, t) && Rep(h, other)
  {
  }

  /** The links of the nodes of s are the same. */
  ghost predicate Same(h: Mem, h': Mem, s: set<Item>) {
    forall n :: n in s && n in h ==> n in h' && h'[n] == h[n]
  }

  /** h' differs from h only at the nodes of ns. */
  ghost predicate Only(h: Mem, h': Mem, ns: set<Item>) {
    h'.Keys == h.Keys && forall n :: n in h && n !in ns ==> h'[n] == h[n]
  }

  lemma {:induction false} RepFrame(h: Mem, h': Mem, t: Tree)
    requires Rep(h, t) && Same(h, h', Set(t))
    ensures Rep(h', t)
  {
    if t.T? { RepFrame(h, h', t.l); RepFrame(h, h', t.r); }
  }

  lemma {:induction false} ARepFrame(h: Mem, h': Mem, d: Dir, a: Acc, base: Item, hole: Item?)
    requires ARep(h, d, a, base, hole) && Same(h, h', ASet(a))
    requires base in h && base in h' && h'[base].Child(d) == h[base].Child(d)
    ensures ARep(h', d, a, base, hole)
  {
    if a.Cons? {
      RepFrame(h, h', a.sub);
      ARepFrame(h, h', d, a.up, base, a.n);
    }
  }

  /** Writing the hole. */
  lemma ARepWrite(h: Mem, h': Mem, d: Dir, a: Acc, base: Item, hole: Item?, p: Item?)
    requires ARep(h, d, a, base, hole) && ADistinct(a) && base in h && base !in ASet(a)
    requires Same(h, h', ASet(a) - {Last(a, base)}) && base in h'
    requires Last(a, base) in h && Last(a, base) in h' && h'[Last(a, base)].Child(d) == p
    requires a.Cons? ==> h'[a.n] == h[a.n].SetChild(d, p) && h'[base].Child(d) == h[base].Child(d)
    ensures ARep(h', d, a, base, p)
  {
    if a.Cons? {
      RepFrame(h, h', a.sub);
      ARepFrame(h, h', d, a.up, base, a.n);
    }
  }

  lemma {:induction false} ARepBase(h: Mem, d: Dir, a: Acc, base: Item, hole: Item?)
    requires ARep(h, d, a, base, hole)
    ensures base in h
  {
    if a.Cons? { ARepBase(h, d, a.up, base, a.n); }
  }

  /** Once the hole holds t, the d link of `base` holds the filled spine. */
  lemma {:induction false} FillRep(h: Mem, d: Dir, a: Acc, base: Item, t: Tree)
    requires ARep(h, d, a, base, Ptr(t)) && Rep(h, t) && ADistinct(a) && Distinct(t) && ASet(a) !! Set(t)
    ensures base in h && h[base].Child(d) == Ptr(Fill(d, a, t))
    ensures Rep(h, Fill(d, a, t)) && Distinct(Fill(d, a, t)) && Set(Fill(d, a, t)) == ASet(a) + Set(t)
  {
    if a.Cons? {
      MkFacts(h, d, t, a.n, a.sub);
      FillRep(h, d, a.up, base, Mk(d, t, a.n, a.sub));
    }
  }

  // ---- The three moves of the loop ----

  /** SPLAY_ROTATE_RIGHT when d is L, SPLAY_ROTATE_LEFT when d is R */
  lemma RotateParts(h: Mem, h': Mem, d: Dir, base: Item, a: Tree, y: Item, b: Tree, x: Item, c: Tree, ad: Acc, ao: Acc)
    requires PartsD(h, d, base, x, Mk(d, Mk(d, a, y, b), x, c), ad, ao)
    requires Only(h, h', {x, y}) && x in h && y in h
    requires h'[x] == LinksD(d, Ptr(b), Ptr(c)) && h'[y] == LinksD(d, Ptr(a), x)
    ensures PartsD(h', d, base, y, Mk(d, a, y, Mk(d, b, x, c)), ad, ao)
  {
    hide Rep, ARep, Distinct, ADistinct, Mk, Set, ASet;
    MkFacts(h, d, Mk(d, a, y, b), x, c);
    MkFacts(h, d, a, y, b);
    RepFrame(h, h', a);
    RepFrame(h, h', b);
    RepFrame(h, h', c);
    MkFacts(h', d, b, x, c);
    MkFacts(h', d, a, y, Mk(d, b, x, c));
    SpineFrame(h, h', d, ad, base, {x, y});
    SpineFrame(h, h', d.Opp(), ao, base, {x, y});
  }

  lemma SpineFrame(h: Mem, h': Mem, d: Dir, a: Acc, base: Item, ns: set<Item>)
    requires Spine(h, d, a, base) && Only(h, h', ns) && ns !! ASet(a) && base !in ns
    ensures Spine(h', d, a, base)
  {
    var hole := h[Last(a, base)].Child(d);
    ARepBase(h, d, a, base, hole);
    ARepFrame(h, h', d, a, base, hole);
  }

  /** SPLAY_LINKLEFT when d is L, SPLAY_LINKRIGHT when d is R */
  lemma LinkParts(h: Mem, h': Mem, d: Dir, base: Item, u: Tree, x: Item, c: Tree, ad: Acc, ao: Acc)
    requires PartsD(h, d, base, x, Mk(d, u, x, c), ad, ao)
    requires Only(h, h', {Last(ad, base)}) && Last(ad, base) in h
    requires h'[Last(ad, base)] == h[Last(ad, base)].SetChild(d, x)
    ensures PartsD(h', d, base, Ptr(u), u, Cons(c, x, ad), ao)
  {
    hide Rep, ARep, Distinct, Mk, Set, ASet, ADistinct;
    ConsFacts(h', d, c, x, ad, base);
    MkFacts(h, d, u, x, c);
    RepFrame(h, h', u);
    RepFrame(h, h', c);
    var last := Last(ad, base);
    ARepBase(h, d, ad, base, h[last].Child(d));
    ARepWrite(h, h', d, ad, base, h[last].Child(d), x);
    var e := d.Opp();
    var hole := h[Last(ao, base)].Child(e);
    ConsFacts(h, e, c, x, ao, base);
    ARepFrame(h, h', e, ao, base, hole);
  }

  lemma ConsFacts(h: Mem, d: Dir, c: Tree, x: Item, a: Acc, base: Item)
    ensures ADistinct(Cons(c, x, a)) <==>
      x !in Set(c) && x !in ASet(a) && Set(c) !! ASet(a) && Distinct(c) && ADistinct(a)
    ensures ASet(Cons(c, x, a)) == {x} + Set(c) + ASet(a)
    ensures a.Cons? ==> a.n in ASet(a)
    ensures Spine(h, d, Cons(c, x, a), base) <==>
      x in h && h[x].Child(d.Opp()) == Ptr(c) && Rep(h, c) && ARep(h, d, a, base, x)
  {
  }

  /** SPLAY_ASSEMBLE, the first two assignments for one side: the hole of the spine takes a subtree of the root. */
  lemma AssembleSide(h: Mem, h': Mem, d: Dir, base: Item, a: Acc, t: Tree)
    requires Spine(h, d, a, base) && ADistinct(a) && Distinct(t) && ASet(a) !! Set(t) && base !in ASet(a)
    requires base !in Set(t)
    requires Rep(h, t) && Same(h, h', ASet(a) + Set(t) - {Last(a, base)}) && base in h'
    requires Last(a, base) in h' && h'[Last(a, base)].Child(d) == Ptr(t)
    requires a.Cons? ==> h'[a.n] == h[a.n].SetChild(d, Ptr(t)) && base in h && h'[base].Child(d) == h[base].Child(d)
    ensures h'[base].Child(d) == Ptr(Fill(d, a, t))
    ensures Rep(h', Fill(d, a, t)) && Distinct(Fill(d, a, t)) && Set(Fill(d, a, t)) == ASet(a) + Set(t)
  {
    var hole := h[Last(a, base)].Child(d);
    ARepBase(h, d, a, base, hole);
    ARepWrite(h, h', d, a, base, hole, Ptr(t));
    RepFrame(h, h', t);
    FillRep(h', d, a, base, t);
  }

  /** All of SPLAY_ASSEMBLE. */
  lemma AssembleParts(h: Mem, h1: Mem, h': Mem, base: Item, t: Tree, al: Acc, ar: Acc)
    requires t.T? && Parts(h, base, t.n, t, al, ar)
    requires Last(ar, base) in h && Last(al, base) in h && base in h
    requires h1 == var g := h[Last(ar, base) := h[Last(ar, base)].SetChild(R, Ptr(t.l))];
                   g[Last(al, base) := g[Last(al, base)].SetChild(L, Ptr(t.r))]
    requires h' == h1[t.n := Links(h1[base].right, h1[base].left)]
    ensures var t' := T(Fill(R, ar, t.l), t.n, Fill(L, al, t.r));
      Rep(h', t') && Distinct(t') && Set(t') == Set(t) + ASet(al) + ASet(ar)
  {
    hide ARep, ADistinct, Fill, Rep, Distinct, Set;
    assert t == Mk(L, t.l, t.n, t.r);
    MkFacts(h, L, t.l, t.n, t.r);
    MkFacts(h', L, Fill(R, ar, t.l), t.n, Fill(L, al, t.r));
    AssembleSide(h, h1, R, base, ar, t.l);
    AssembleSide(h, h1, L, base, al, t.r);
    RepFrame(h1, h', Fill(R, ar, t.l));
    RepFrame(h1, h', Fill(L, al, t.r));
  }

  // ---- In-order sequence ----

  ghost function Inorder(t: Tree): seq<Item> {
    if t.E? then [] else Inorder(t.l) + [t.n] + Inorder(t.r)
  }

  /** What the accumulator growing along left links has put to the right of the hole. */
  ghost function After(a: Acc): seq<Item> {
    if a.Nil? then [] else [a.n] + Inorder(a.sub) + After(a.up)
  }

  /** What the accumulator growing along right links has put to the left of the hole. */
  ghost function Before(a: Acc): seq<Item> {
    if a.Nil? then [] else Before(a.up) + Inorder(a.sub) + [a.n]
  }

  ghost function Around(al: Acc, t: Tree, ar: Acc): seq<Item> {
    Before(ar) + Inorder(t) + After(al)
  }

  ghost function AroundD(d: Dir, ad: Acc, t: Tree, ao: Acc): seq<Item> {
    if d.L? then Around(ad, t, ao) else Around(ao, t, ad)
  }

  lemma {:induction false} FillLeft(a: Acc, t: Tree)
    ensures Inorder(Fill(L, a, t)) == Inorder(t) + After(a)
  {
    if a.Cons? { FillLeft(a.up, Mk(L, t, a.n, a.sub)); }
  }

  lemma {:induction false} FillRight(a: Acc, t: Tree)
    ensures Inorder(Fill(R, a, t)) == Before(a) + Inorder(t)
  {
    if a.Cons? { FillRight(a.up, Mk(R, t, a.n, a.sub)); }
  }

  lemma RotateInorder(d: Dir, a: Tree, y: Item, b: Tree, x: Item, c: Tree)
    ensures Inorder(Mk(d, a, y, Mk(d, b, x, c))) == Inorder(Mk(d, Mk(d, a, y, b), x, c))
  {
    var p, q, r := Inorder(a), Inorder(b), Inorder(c);
    if d.L? {
      assert Inorder(T(b, x, c)) == q + [x] + r && Inorder(T(a, y, b)) == p + [y] + q;
    } else {
      assert Inorder(T(c, x, b)) == r + [x] + q && Inorder(T(b, y, a)) == q + [y] + p;
    }
  }

  lemma LinkInorder(d: Dir, u: Tree, x: Item, c: Tree, ad: Acc, ao: Acc)
    ensures AroundD(d, Cons(c, x, ad), u, ao) == AroundD(d, ad, Mk(d, u, x, c), ao)
  {
    var p, q := Inorder(u), Inorder(c);
    if d.L? {
      assert After(Cons(c, x, ad)) == [x] + q + After(ad) && Inorder(T(u, x, c)) == p + [x] + q;
      Regroup(Before(ao), p, [x], q, After(ad));
    } else {
      assert Before(Cons(c, x, ad)) == Before(ad) + q + [x] && Inorder(T(c, x, u)) == q + [x] + p;
      Regroup(Before(ad), q, [x], p, After(ao));
    }
  }

  lemma Regroup(a: seq<Item>, b: seq<Item>, c: seq<Item>, d: seq<Item>, e: seq<Item>)
    ensures a + b + (c + d + e) == a + (b + c + d) + e
    ensures (a + b + c) + d + e == a + (b + c + d) + e
  {
  }

  ghost predicate Ordered(s: seq<Item>) {
    forall i, j :: 0 <= i < j < |s| ==> s[i].key < s[j].key
  }

  ghost predicate Below(s: seq<Item>, k: int) { forall n :: n in s ==> n.key < k }
  ghost predicate Above(s: seq<Item>, k: int) { forall n :: n in s ==> k < n.key }

  lemma Middle(p: seq<Item>, x: Item, q: seq<Item>)
    requires Ordered(p + [x] + q)
    ensures Below(p, x.key) && Above(q, x.key) && Ordered(p) && Ordered(q)
  {
    var s := p + [x] + q;
    assert s[|p|] == x;
    assert forall i :: 0 <= i < |p| ==> s[i] == p[i];
    assert forall i :: 0 <= i < |q| ==> s[|p| + 1 + i] == q[i];
  }

  lemma Insertion(p: seq<Item>, x: Item, q: seq<Item>)
    requires Ordered(p) && Ordered(q) && Below(p, x.key) && Above(q, x.key)
    ensures Ordered(p + [x] + q)
  {
  }

  lemma Joined(p: seq<Item>, q: seq<Item>, k: int)
    requires Ordered(p) && Ordered(q) && Below(p, k) && Above(q, k)
    ensures Ordered(p + q)
  {
  }

  /** Everything collected is on its side of the key. */
  ghost predicate Sided(k: int, al: Acc, ar: Acc) {
    Below(Before(ar), k) && Above(After(al), k)
  }

  ghost predicate SidedD(k: int, d: Dir, ad: Acc, ao: Acc) {
    if d.L? then Sided(k, ad, ao) else Sided(k, ao, ad)
  }

  /** k lies on the d side of x. */
  predicate Towards(d: Dir, k: int, x: Item) {
    if d.L? then k < x.key else x.key < k
  }

  lemma LinkSided(k: int, d: Dir, u: Tree, x: Item, c: Tree, ad: Acc, ao: Acc)
    requires Ordered(AroundD(d, ad, Mk(d, u, x, c), ao)) && SidedD(k, d, ad, ao) && Towards(d, k, x)
    ensures SidedD(k, d, Cons(c, x, ad), ao)
  {
    if d.L? {
      RootOrder(ad, T(u, x, c), ao);
    } else {
      RootOrder(ao, T(c, x, u), ad);
    }
  }

  /** In an ordered whole, what is left of the root is below it and what is right of it above. */
  lemma RootOrder(al: Acc, t: Tree, ar: Acc)
    requires t.T? && Ordered(Around(al, t, ar))
    ensures Below(Inorder(t.l), t.n.key) && Above(Inorder(t.r), t.n.key)
  {
    var p, q := Before(ar) + Inorder(t.l), Inorder(t.r) + After(al);
    assert Around(al, t, ar) == p + [t.n] + q;
    Middle(p, t.n, q);
  }

  /** The root is the node with the key, or a neighbour of the place where the key belongs. */
  ghost predicate Pivot(t: Tree, k: int) {
    t.T? && Below(Inorder(t.l), k) && Above(Inorder(t.r), k)
  }

  /** The loop has stopped: the key is found, or there is nothing on its side of the root. */
  ghost predicate Stopped(t: Tree, k: int) {
    t.T? && (t.n.key == k || (k < t.n.key && t.l.E?) || (t.n.key < k && t.r.E?))
  }

  lemma AssembleOrder(k: int, t: Tree, al: Acc, ar: Acc)
    requires Stopped(t, k) && Sided(k, al, ar) && Ordered(Around(al, t, ar))
    ensures var t' := T(Fill(R, ar, t.l), t.n, Fill(L, al, t.r));
      Pivot(t', k) && Inorder(t') == Around(al, t, ar)
  {
    FillLeft(al, t.r);
    FillRight(ar, t.l);
    var p, q := Before(ar) + Inorder(t.l), Inorder(t.r) + After(al);
    assert Around(al, t, ar) == p + [t.n] + q;
    Middle(p, t.n, q);
  }

  lemma {:induction false} InorderSet(t: Tree)
    ensures Set(t) == set n | n in Inorder(t)
  {
    if t.T? { InorderSet(t.l); InorderSet(t.r); }
  }

  /** A pivot finds the key exactly when it occurs. */
  lemma PivotFinds(t: Tree, k: int)
    requires Pivot(t, k)
    ensures t.n.key == k <==> exists n :: n in Set(t) && n.key == k
  {
    InorderSet(t.l);
    InorderSet(t.r);
  }

  // ---- The splay operation as a recursive function ----

  /** The tree after a splay for k.  Going twice to the same side, the upper node is put below the lower one. */
  ghost function Splayed(t: Tree, k: int): (r: Tree)
    requires t.T?
    ensures r.T?
  {
    if k < t.n.key && t.l.T? then
      var y := t.l.n;
      if k >= y.key then
        var p := Splayed(t.l, k);
        T(p.l, p.n, T(p.r, t.n, t.r))
      else
        var below := T(t.l.r, t.n, t.r);
        if t.l.l.E? then T(E, y, below)
        else
          var p := Splayed(t.l.l, k);
          T(p.l, p.n, T(p.r, y, below))
    else if t.n.key < k && t.r.T? then
      var y := t.r.n;
      if k <= y.key then
        var p := Splayed(t.r, k);
        T(T(t.l, t.n, p.l), p.n, p.r)
      else
        var below := T(t.l, t.n, t.r.l);
        if t.r.r.E? then T(below, y, E)
        else
          var p := Splayed(t.r.r, k);
          T(T(below, y, p.l), p.n, p.r)
    else t
  }

  /** What SPLAY_ASSEMBLE makes of the parts. */
  ghost function WholeD(d: Dir, ad: Acc, t: Tree, ao: Acc): Tree
    requires t.T?
  {
    Mk(d, Fill(d.Opp(), ao, Sub(t, d)), t.n, Fill(d, ad, Sub(t, d.Opp())))
  }

  ghost function Rotated(d: Dir, t: Tree): Tree
    requires t.T? && Sub(t, d).T?
  {
    var y := Sub(t, d);
    Mk(d, Sub(y, d), y.n, Mk(d, Sub(y, d.Opp()), t.n, Sub(t, d.Opp())))
  }

  /** The tree that one round goes on with, before its root is collected. */
  ghost function Turned(d: Dir, t: Tree, k: int): Tree
    requires t.T? && Sub(t, d).T?
  {
    if Towards(d, k, Sub(t, d).n) then Rotated(d, t) else t
  }

  lemma SplayedStop(d: Dir, t: Tree, k: int)
    requires t.T? && Towards(d, k, t.n)
    ensures Sub(t, d).E? ==> Splayed(t, k) == t
    ensures Sub(t, d).T? ==> Turned(d, t, k).T?
    ensures Sub(t, d).T? && Sub(Turned(d, t, k), d).E? ==> Splayed(t, k) == Turned(d, t, k)
  {
  }

  /** Collecting the root of the turned tree and going on below it comes to the same whole. */
  lemma SplayedLink(d: Dir, t: Tree, k: int, ad: Acc, ao: Acc)
    requires t.T? && Towards(d, k, t.n) && Sub(t, d).T?
    requires var u := Turned(d, t, k); u.T? && Sub(u, d).T?
    ensures var u := Turned(d, t, k);
      WholeD(d, ad, Splayed(t, k), ao) == WholeD(d, Cons(Sub(u, d.Opp()), u.n, ad), Splayed(Sub(u, d), k), ao)
  {
    var u := Turned(d, t, k);
    var p := Splayed(Sub(u, d), k);
    assert Splayed(t, k) == Mk(d, Sub(p, d), p.n, Mk(d, Sub(p, d.Opp()), u.n, Sub(u, d.Opp())));
  }

  // ---- Insertion and removal at the root ----

  /** The new node takes the pivot's subtree on side d and the rest on the other side. */
  ghost function Crowned(d: Dir, t: Tree, x: Item): Tree
    requires t.T?
  {
    Mk(d, Sub(t, d), x, Mk(d, E, t.n, Sub(t, d.Opp())))
  }

  /** The tree after the insertion of x, whose key it does not have. */
  ghost function Entered(t: Tree, x: Item): Tree {
    if t.E? then T(E, x, E)
    else
      var p := Splayed(t, x.key);
      if x.key < p.n.key then T(p.l, x, T(E, p.n, p.r)) else T(T(p.l, p.n, E), x, p.r)
  }

  /** The tree after the removal of its node with the key k. */
  ghost function Departed(t: Tree, k: int): Tree
    requires t.T?
  {
    var p := Splayed(t, k);
    if p.l.E? then p.r
    else
      var q := Splayed(p.l, k);
      T(q.l, q.n, p.r)
  }

  lemma CrownRep(h: Mem, h': Mem, d: Dir, t: Tree, x: Item)
    requires t.T? && Rep(h, t) && Distinct(t) && x !in Set(t)
    requires x in h' && t.n in h' && Same(h, h', Set(t) - {t.n})
    requires h'[x] == LinksD(d, Ptr(Sub(t, d)), t.n) && h'[t.n] == LinksD(d, null, Ptr(Sub(t, d.Opp())))
    ensures Rep(h', Crowned(d, t, x)) && Distinct(Crowned(d, t, x)) && Set(Crowned(d, t, x)) == Set(t) + {x}
  {
    var a, b := Sub(t, d), Sub(t, d.Opp());
    assert t == Mk(d, a, t.n, b);
    hide Rep, Distinct, Set, Mk;
    MkFacts(h, d, a, t.n, b);
    RepFrame(h, h', a);
    RepFrame(h, h', b);
    Empty(h');
    MkFacts(h', d, E, t.n, b);
    MkFacts(h', d, a, x, Mk(d, E, t.n, b));
  }

  lemma Empty(h: Mem)
    ensures Rep(h, E) && Distinct(E) && Set(E) == {} && Inorder(E) == []
  {
  }

  lemma CrownOrder(d: Dir, t: Tree, x: Item)
    requires Pivot(t, x.key) && Towards(d, x.key, t.n) && Ordered(Inorder(t))
    ensures Ordered(Inorder(Crowned(d, t, x))) && Inserted(Inorder(t), x, Inorder(Crowned(d, t, x)))
  {
    hide Ordered, Inserted, Below, Above, Inorder;
    var p, n, q := Inorder(t.l), t.n, Inorder(t.r);
    assert t == T(t.l, n, t.r);
    InorderT(t.l, n, t.r);
    if d.L? {
      InorderT(E, n, t.r);
      InorderT(t.l, x, T(E, n, t.r));
      AboveCons(n, q, x.key);
      assert p + [n] + q == p + ([n] + q);
      PutIn(p, x, [n] + q);
    } else {
      InorderT(t.l, n, E);
      InorderT(T(t.l, n, E), x, t.r);
      BelowSnoc(p, n, x.key);
      PutIn(p + [n], x, q);
    }
  }

  lemma InorderT(l: Tree, n: Item, r: Tree)
    ensures Inorder(T(l, n, r)) == Inorder(l) + [n] + Inorder(r)
    ensures l.E? ==> Inorder(T(l, n, r)) == [n] + Inorder(r)
    ensures r.E? ==> Inorder(T(l, n, r)) == Inorder(l) + [n]
  {
  }

  lemma AboveCons(n: Item, q: seq<Item>, k: int)
    requires k < n.key && Above(q, k)
    ensures Above([n] + q, k)
  {
  }

  lemma BelowSnoc(p: seq<Item>, n: Item, k: int)
    requires n.key < k && Below(p, k)
    ensures Below(p + [n], k)
  {
  }

  lemma PutIn(p: seq<Item>, x: Item, q: seq<Item>)
    requires Ordered(p + q) && Below(p, x.key) && Above(q, x.key)
    ensures Ordered(p + [x] + q) && Inserted(p + q, x, p + [x] + q)
  {
    var s := p + q;
    assert forall i :: 0 <= i < |p| ==> s[i] == p[i];
    assert forall i :: 0 <= i < |q| ==> s[|p| + i] == q[i];
    Insertion(p, x, q);
    Placed(p, x, q, s);
  }

  lemma Placed(p: seq<Item>, x: Item, q: seq<Item>, s: seq<Item>)
    requires s == p + q
    ensures Inserted(s, x, p + [x] + q)
  {
    var i := |p|;
    assert s[..i] == p && s[i..] == q;
  }

  /** s' is s with x put in at one place. */
  ghost predicate Inserted(s: seq<Item>, x: Item, s': seq<Item>) {
    exists i :: 0 <= i <= |s| && s' == s[..i] + [x] + s[i..]
  }

  lemma RootListed(t: Tree)
    requires t.T?
    ensures t.n in Inorder(t)
  {
  }

  /** After the left subtree has been splayed for a key above all of it, its root has no right child. */
  lemma NoRight(t: Tree, k: int)
    requires Pivot(t, k) && Below(Inorder(t), k)
    ensures t.r.E?
  {
    assert forall n :: n in Inorder(t.r) ==> n in Inorder(t);
    if t.r.T? { RootListed(t.r); }
  }

  lemma JoinRep(h: Mem, h': Mem, t: Tree, r: Tree)
    requires t.T? && t.r.E? && Rep(h, t) && Rep(h, r) && Distinct(t) && Distinct(r) && Set(t) !! Set(r)
    requires Same(h, h', Set(t) + Set(r) - {t.n}) && t.n in h' && h'[t.n] == Links(Ptr(t.l), Ptr(r))
    ensures Rep(h', T(t.l, t.n, r)) && Distinct(T(t.l, t.n, r)) && Set(T(t.l, t.n, r)) == Set(t) + Set(r)
    ensures Inorder(T(t.l, t.n, r)) == Inorder(t) + Inorder(r)
  {
    RepFrame(h, h', t.l);
    RepFrame(h, h', r);
  }

  lemma UprootOrder(t: Tree, k: int)
    requires Pivot(t, k) && Ordered(Inorder(t))
    ensures Ordered(Inorder(t.l)) && Ordered(Inorder(t.r)) && Ordered(Inorder(t.l) + Inorder(t.r))
    ensures Inserted(Inorder(t.l) + Inorder(t.r), t.n, Inorder(t))
    ensures t.l.E? ==> Inorder(t.l) + Inorder(t.r) == Inorder(t.r)
  {
    var p, q := Inorder(t.l), Inorder(t.r);
    Middle(p, t.n, q);
    Joined(p, q, k);
    Placed(p, t.n, q, p + q);
  }
}
