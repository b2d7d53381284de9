/** Red-black trees as values: trees of node identities, one-hole contexts, and
    what it means for the link fields of a set of nodes to represent a tree. */
module RbSpec {
  import opened Blocks
  import opened Sides

  datatype Color = Red | Black

  /** A caller-owned node; the tree only changes its link fields. */
  class Node {
    const key: int
    var left: Node?
    var right: Node?
    var parent: Node?
    var color: Color

    constructor (key: int)
      ensures this.key == key
    {
      this.key := key;
      left, right, parent, color := null, null, null, Red;
    }
  }

  /** The link fields of one node. */
  datatype Cell = Cell(left: Node?, right: Node?, parent: Node?, color: Color) {
    function Child(d: Dir): Node? { if d.L? then left else right }
    function SetChild(d: Dir, p: Node?): Cell { if d.L? then this.(left := p) else this.(right := p) }
  }

  type Cells = map<Node, Cell>

  datatype Tree = E | T(c: Color, l: Tree, n: Node, r: Tree)

  /** A tree with a hole: the path from the hole up to the root. */
  datatype Ctx = Top | Step(d: Dir, c: Color, n: Node, sib: Tree, up: Ctx)

  /** The tree of n whose d-side subtree is t. */
  ghost function Mk(d: Dir, c: Color, t: Tree, n: Node, sib: Tree): Tree {
    if d.L? then T(c, t, n, sib) else T(c, sib, n, t)
  }

  ghost function Sub(t: Tree, d: Dir): Tree
    requires t.T?
  {
    if d.L? then t.l else t.r
  }

  ghost function Plug(z: Ctx, t: Tree): Tree {
    if z.Top? then t else Plug(z.up, Mk(z.d, z.c, t, z.n, z.sib))
  }

  ghost function Depth(z: Ctx): nat { if z.Top? then 0 else 1 + Depth(z.up) }

  ghost function Ptr(t: Tree): Node? { if t.E? then null else t.n }
  ghost function Parent(z: Ctx): Node? { if z.Top? then null else z.n }

  ghost function Set(t: Tree): set<Node> {
    if t.E? then {} else {t.n} + Set(t.l) + Set(t.r)
  }

  ghost function CSet(z: Ctx): set<Node> {
    if z.Top? then {} else {z.n} + Set(z.sib) + CSet(z.up)
  }

  ghost predicate Distinct(t: Tree) {
    t.T? ==> t.n !in Set(t.l) && t.n !in Set(t.r) && Set(t.l) !! Set(t.r) && Distinct(t.l) && Distinct(t.r)
  }

  ghost predicate CDistinct(z: Ctx) {
    z.Step? ==>
      && z.n !in Set(z.sib) && z.n !in CSet(z.up) && Set(z.sib) !! CSet(z.up)
      && Distinct(z.sib) && CDistinct(z.up)
  }

  // ---- Representation ----

  ghost function CellD(d: Dir, t: Node?, s: Node?, p: Node?, c: Color): Cell {
    if d.L? then Cell(t, s, p, c) else Cell(s, t, p, c)
  }

  /** The cells of the nodes of t are linked as t says, below `up`. */
  ghost predicate Rep(h: Cells, t: Tree, up: Node?) {
    t.T? ==> t.n in h && h[t.n] == Cell(Ptr(t.l), Ptr(t.r), up, t.c) && Rep(h, t.l, t.n) && Rep(h, t.r, t.n)
  }

  /** The cells of the context are linked as z says, with `hole` in the hole. */
  ghost predicate CRep(h: Cells, root: Node?, z: Ctx, hole: Node?) {
    match z
    case Top => root == hole
    case Step(d, c, n, sib, up) =>
      && n in h && h[n] == CellD(d, hole, Ptr(sib), Parent(up), c)
      && Rep(h, sib, n) && CRep(h, root, up, n)
  }

  /** The whole structure represents t. */
  ghost predicate Whole(h: Cells, root: Node?, t: Tree) {
    Distinct(t) && root == Ptr(t) && Rep(h, t, null)
  }

  /** ... seen from a position in it. */
  ghost predicate At(h: Cells, root: Node?, z: Ctx, t: Tree) {
    && CDistinct(z) && Distinct(t) && CSet(z) !! Set(t)
    && Rep(h, t, Parent(z)) && CRep(h, root, z, Ptr(t))
  }

  lemma MkFacts(d: Dir, c: Color, t: Tree, n: Node, sib: Tree)
    ensures Ptr(Mk(d, c, t, n, sib)) == n
    ensures Set(Mk(d, c, t, n, sib)) == {n} + Set(t) + Set(sib)
    ensures Distinct(Mk(d, c, t, n, sib)) <==>
      n !in Set(t) && n !in Set(sib) && Set(t) !! Set(sib) && Distinct(t) && Distinct(sib)
  {
  }

  lemma MkRep(h: Cells, d: Dir, c: Color, t: Tree, n: Node, sib: Tree, up: Node?)
    ensures Rep(h, Mk(d, c, t, n, sib), up) <==>
      n in h && h[n] == CellD(d, Ptr(t), Ptr(sib), up, c) && Rep(h, t, n) && Rep(h, sib, n)
  {
  }

  lemma {:induction false} PlugAt(h: Cells, root: Node?, z: Ctx, t: Tree)
    ensures Whole(h, root, Plug(z, t)) <==> At(h, root, z, t)
    ensures Set(Plug(z, t)) == CSet(z) + Set(t)
  {
    if z.Step? {
      MkFacts(z.d, z.c, t, z.n, z.sib);
      MkRep(h, z.d, z.c, t, z.n, z.sib, Parent(z.up));
      PlugAt(h, root, z.up, Mk(z.d, z.c, t, z.n, z.sib));
    }
  }

  ghost function One(p: Node?): set<Node> { if p == null then {} else {p} }

  /** The cells of the nodes of s are the same. */
  ghost predicate Same(h: Cells, h': Cells, s: set<Node>) {
    forall n :: n in s && n in h ==> n in h' && h'[n] == h[n]
  }

  lemma {:induction false} RepFrame(h: Cells, h': Cells, t: Tree, up: Node?)
    requires Rep(h, t, up) && Same(h, h', Set(t))
    ensures Rep(h', t, up)
  {
    if t.T? {
      RepFrame(h, h', t.l, t.n);
      RepFrame(h, h', t.r, t.n);
    }
  }

  lemma {:induction false} CRepFrame(h: Cells, h': Cells, root: Node?, z: Ctx, hole: Node?)
    requires CRep(h, root, z, hole) && Same(h, h', CSet(z))
    ensures CRep(h', root, z, hole)
  {
    if z.Step? {
      RepFrame(h, h', z.sib, z.n);
      CRepFrame(h, h', root, z.up, z.n);
    }
  }

  lemma {:induction false} RepKeys(h: Cells, t: Tree, up: Node?)
    requires Rep(h, t, up)
    ensures Set(t) <= h.Keys
  {
    if t.T? { RepKeys(h, t.l, t.n); RepKeys(h, t.r, t.n); }
  }

  /** h' differs from h only at the nodes of ns. */
  ghost predicate Only(h: Cells, h': Cells, ns: set<Node>) {
    h'.Keys == h.Keys && forall n :: n in h && n !in ns ==> h'[n] == h[n]
  }

  /** The link into the hole of z now points to p. */
  ghost predicate Filled(h: Cells, root: Node?, h': Cells, root': Node?, z: Ctx, p: Node?) {
    match z
    case Top => root' == p
    case Step(d, _, n, _, _) => root' == root && n in h && n in h' && h'[n] == h[n].SetChild(d, p)
  }

  lemma FillCtx(h: Cells, root: Node?, h': Cells, root': Node?, z: Ctx, q: Node?, p: Node?)
    requires CRep(h, root, z, q) && CDistinct(z) && Filled(h, root, h', root', z, p)
    requires Same(h, h', CSet(z) - One(Parent(z)))
    ensures CRep(h', root', z, p)
  {
    if z.Step? {
      RepFrame(h, h', z.sib, z.n);
      CRepFrame(h, h', root, z.up, z.n);
    }
  }

  /** The subtree below the changed root keeps its shape under a new parent. */
  lemma Reparent(h: Cells, h': Cells, t: Tree, up: Node?, up': Node?)
    requires Rep(h, t, up) && Distinct(t)
    requires Same(h, h', Set(t) - One(Ptr(t)))
    requires t.T? ==> t.n in h && t.n in h' && h'[t.n] == h[t.n].(parent := up')
    ensures Rep(h', t, up')
  {
    if t.T? {
      RepFrame(h, h', t.l, t.n);
      RepFrame(h, h', t.r, t.n);
    }
  }

  // ---- The three kinds of pointer surgery ----

  lemma ColorAt(h: Cells, root: Node?, h': Cells, z: Ctx, t: Tree, c: Color)
    requires At(h, root, z, t) && t.T?
    requires Only(h, h', {t.n}) && h'[t.n] == h[t.n].(color := c)
    ensures At(h', root, z, t.(c := c))
  {
    RepKeys(h, t, Parent(z));
    RepFrame(h, h', t.l, t.n);
    RepFrame(h, h', t.r, t.n);
    CtxKeys(h, root, z, t.n);
    CRepFrame(h, h', root, z, t.n);
  }

  lemma {:induction false} CtxKeys(h: Cells, root: Node?, z: Ctx, hole: Node?)
    requires CRep(h, root, z, hole)
    ensures CSet(z) <= h.Keys
  {
    if z.Step? { RepKeys(h, z.sib, z.n); CtxKeys(h, root, z.up, z.n); }
  }

  lemma RotateAt(h: Cells, root: Node?, h': Cells, root': Node?, z: Ctx,
                 d: Dir, cx: Color, a: Tree, x: Node, cy: Color, b: Tree, y: Node, c: Tree)
    requires At(h, root, z, Mk(d, cx, a, x, Mk(d.Opp(), cy, c, y, b)))
    requires Only(h, h', {x, y} + One(Ptr(b)) + One(Parent(z)))
    requires x in h && y in h && h'[x] == CellD(d, Ptr(a), Ptr(b), y, cx)
    requires h'[y] == CellD(d, x, Ptr(c), Parent(z), cy)
    requires b.T? ==> b.n in h && h'[b.n] == h[b.n].(parent := x)
    requires Filled(h, root, h', root', z, y)
    ensures At(h', root', z, Mk(d, cy, Mk(d, cx, a, x, b), y, c))
  {
    var inner := Mk(d.Opp(), cy, c, y, b);
    MkFacts(d, cx, a, x, inner);
    MkFacts(d.Opp(), cy, c, y, b);
    MkFacts(d, cx, a, x, b);
    MkFacts(d, cy, Mk(d, cx, a, x, b), y, c);
    MkRep(h, d, cx, a, x, inner, Parent(z));
    MkRep(h, d.Opp(), cy, c, y, b, x);
    RepKeys(h, a, x);
    RepKeys(h, b, y);
    RepKeys(h, c, y);
    CtxKeys(h, root, z, x);
    RepFrame(h, h', a, x);
    RepFrame(h, h', c, y);
    Reparent(h, h', b, y, x);
    MkRep(h', d, cx, a, x, b, y);
    MkRep(h', d, cy, Mk(d, cx, a, x, b), y, c, Parent(z));
    FillCtx(h, root, h', root', z, x, y);
  }

  /** A new red leaf is linked into the hole. */
  lemma LinkAt(h: Cells, root: Node?, h': Cells, root': Node?, z: Ctx, x: Node)
    requires At(h, root, z, E) && x !in CSet(z)
    requires Only(h, h', {x} + One(Parent(z))) && x in h
    requires h'[x] == Cell(null, null, Parent(z), Red) && Filled(h, root, h', root', z, x)
    ensures At(h', root', z, T(Red, E, x, E))
  {
    CtxKeys(h, root, z, null);
    FillCtx(h, root, h', root', z, null, x);
  }

  /** A node with an empty side is replaced by the subtree k on the other side. */
  lemma SpliceAt(h: Cells, root: Node?, h': Cells, root': Node?, z: Ctx, d: Dir, c: Color, x: Node, k: Tree)
    requires At(h, root, z, Mk(d, c, E, x, k))
    requires Only(h, h', One(Ptr(k)) + One(Parent(z)))
    requires k.T? ==> k.n in h && h'[k.n] == h[k.n].(parent := Parent(z))
    requires Filled(h, root, h', root', z, Ptr(k))
    ensures At(h', root', z, k)
  {
    MkFacts(d, c, E, x, k);
    MkRep(h, d, c, E, x, k, Parent(z));
    CtxKeys(h, root, z, x);
    RepKeys(h, k, x);
    Reparent(h, h', k, x, Parent(z));
    FillCtx(h, root, h', root', z, x, Ptr(k));
  }

  /** The node y takes over the links of the node x. */
  lemma ReplaceAt(h: Cells, root: Node?, h': Cells, root': Node?, z: Ctx, c: Color, l: Tree, x: Node, r: Tree, y: Node)
    requires At(h, root, z, T(c, l, x, r)) && y !in CSet(z) && y !in Set(l) && y !in Set(r)
    requires Only(h, h', {y} + One(Ptr(l)) + One(Ptr(r)) + One(Parent(z)))
    requires x in h && y in h && h'[y] == h[x]
    requires l.T? ==> l.n in h && h'[l.n] == h[l.n].(parent := y)
    requires r.T? ==> r.n in h && h'[r.n] == h[r.n].(parent := y)
    requires Filled(h, root, h', root', z, y)
    ensures At(h', root', z, T(c, l, y, r))
  {
    CtxKeys(h, root, z, x);
    RepKeys(h, l, x);
    RepKeys(h, r, x);
    Reparent(h, h', l, x, y);
    Reparent(h, h', r, x, y);
    FillCtx(h, root, h', root', z, x, y);
  }

  // ---- In-order sequence ----

  ghost function Inorder(t: Tree): seq<Node> {
    if t.E? then [] else Inorder(t.l) + [t.n] + Inorder(t.r)
  }

  ghost function Before(z: Ctx): seq<Node> {
    if z.Top? then [] else if z.d.L? then Before(z.up) else Before(z.up) + Inorder(z.sib) + [z.n]
  }

  ghost function After(z: Ctx): seq<Node> {
    if z.Top? then [] else if z.d.R? then After(z.up) else [z.n] + Inorder(z.sib) + After(z.up)
  }

  lemma {:induction false} PlugInorder(z: Ctx, t: Tree)
    ensures Inorder(Plug(z, t)) == Before(z) + Inorder(t) + After(z)
  {
    if z.Step? {
      PlugInorder(z.up, Mk(z.d, z.c, t, z.n, z.sib));
    }
  }

  lemma SameInorder(z: Ctx, t: Tree, t': Tree)
    requires Inorder(t) == Inorder(t')
    ensures Inorder(Plug(z, t)) == Inorder(Plug(z, t'))
  {
    PlugInorder(z, t);
    PlugInorder(z, t');
  }

  lemma RotateInorder(d: Dir, cx: Color, a: Tree, x: Node, cy: Color, b: Tree, y: Node, c: Tree)
    ensures Inorder(Mk(d, cy, Mk(d, cx, a, x, b), y, c)) == Inorder(Mk(d, cx, a, x, Mk(d.Opp(), cy, c, y, b)))
  {
    var p, q, r := Inorder(a), Inorder(b), Inorder(c);
    if d.L? {
      assert Inorder(T(cx, a, x, b)) == p + [x] + q && Inorder(T(cy, b, y, c)) == q + [y] + r;
      Between(p, x, q, y, r);
    } else {
      assert Inorder(T(cx, b, x, a)) == q + [x] + p && Inorder(T(cy, c, y, b)) == r + [y] + q;
      Between(r, y, q, x, p);
    }
  }

  lemma Between(p: seq<Node>, x: Node, q: seq<Node>, y: Node, r: seq<Node>)
    ensures (p + [x] + q) + [y] + r == p + [x] + (q + [y] + r)
  {
  }

  lemma {:induction false} InorderSet(t: Tree)
    ensures Set(t) == Elems(Inorder(t))
  {
    if t.T? { InorderSet(t.l); InorderSet(t.r); }
  }

  ghost function Elems(s: seq<Node>): set<Node> { set n | n in s }

  ghost predicate Ordered(s: seq<Node>) {
    forall i, j :: 0 <= i < j < |s| ==> s[i].key < s[j].key
  }

  /** Distinct keys: equal elements have equal indices. */
  lemma OneIndex(s: seq<Node>, i: nat, j: nat)
    requires Ordered(s) && i < |s| && j < |s| && s[i] == s[j]
    ensures i == j
  {
  }

  // ---- Balance ----

  ghost function Col(t: Tree): Color { if t.E? then Black else t.c }

  /** Every path has n black nodes and no red node has a red child. */
  ghost predicate RB(t: Tree, n: nat) {
    match t
    case E => n == 0
    case T(Red, l, _, r) => Col(l).Black? && Col(r).Black? && RB(l, n) && RB(r, n)
    case T(Black, l, _, r) => n > 0 && RB(l, n - 1) && RB(r, n - 1)
  }

  /** Filling the hole with a tree of black height n and root colour c gives a red-black tree with a black root. */
  ghost predicate Accepts(z: Ctx, n: nat, c: Color) {
    match z
    case Top => c.Black?
    case Step(_, Red, _, sib, up) => c.Black? && Col(sib).Black? && RB(sib, n) && Accepts(up, n, Red)
    case Step(_, Black, _, sib, up) => RB(sib, n) && Accepts(up, n + 1, Black)
  }

  ghost predicate RedBlack(t: Tree) {
    Col(t).Black? && exists n: nat :: RB(t, n)
  }

  lemma {:induction false} AcceptsBlack(z: Ctx, n: nat, c: Color)
    requires Accepts(z, n, c)
    ensures Accepts(z, n, Black)
  {
    if z.Step? && z.c.Red? { AcceptsBlack(z.up, n, Red); }
  }

  lemma {:induction false} PlugRB(z: Ctx, t: Tree, n: nat)
    requires RB(t, n) && Accepts(z, n, Col(t))
    ensures RedBlack(Plug(z, t))
  {
    if z.Step? {
      PlugRB(z.up, Mk(z.d, z.c, t, z.n, z.sib), if z.c.Red? then n else n + 1);
    }
  }

  // ---- Searching ----

  /** The key belongs into the hole: it is above all nodes before the hole and below all nodes after it. */
  ghost predicate Fits(z: Ctx, k: int) {
    && (forall n :: n in Before(z) ==> n.key < k)
    && (forall n :: n in After(z) ==> k < n.key)
  }

  ghost function Down(z: Ctx, t: Tree, d: Dir): Ctx
    requires t.T?
  {
    Step(d, t.c, t.n, Sub(t, d.Opp()), z)
  }

  /** One step of the search down the tree. */
  lemma SearchStep(z: Ctx, t: Tree, k: int, d: Dir)
    requires t.T? && Fits(z, k) && Ordered(Inorder(Plug(z, t)))
    requires if d.L? then k < t.n.key else t.n.key < k
    ensures Fits(Down(z, t, d), k) && Plug(Down(z, t, d), Sub(t, d)) == Plug(z, t)
  {
    PlugInorder(z, t);
    TreeOrder(Before(z), t, After(z));
  }

  /** In an ordered sequence the nodes of the left subtree are below the root, those of the right above. */
  lemma TreeOrder(a: seq<Node>, t: Tree, b: seq<Node>)
    requires t.T? && Ordered(a + Inorder(t) + b)
    ensures forall n :: n in Inorder(t.l) ==> n.key < t.n.key
    ensures forall n :: n in Inorder(t.r) ==> t.n.key < n.key
  {
    var s := a + Inorder(t) + b;
    var i := |a| + |Inorder(t.l)|;
    assert s[i] == t.n;
    forall n | n in Inorder(t.l)
      ensures n.key < t.n.key
    {
      var j :| 0 <= j < |Inorder(t.l)| && Inorder(t.l)[j] == n;
      assert s[|a| + j] == n;
    }
    forall n | n in Inorder(t.r)
      ensures t.n.key < n.key
    {
      var j :| 0 <= j < |Inorder(t.r)| && Inorder(t.r)[j] == n;
      assert s[i + 1 + j] == n;
    }
  }

  /** A key that fits an empty hole occurs nowhere in the tree. */
  lemma FitsAbsent(z: Ctx, k: int)
    requires Fits(z, k)
    ensures forall n :: n in Set(Plug(z, E)) ==> n.key != k
  {
    PlugInorder(z, E);
    InorderSet(Plug(z, E));
    assert Elems(Before(z) + [] + After(z)) == Elems(Before(z)) + Elems(After(z));
  }

  lemma OneMore(t: Tree, t': Tree, z: Ctx, x: Node)
    requires Inorder(t) == Before(z) + After(z) && Inorder(t') == Before(z) + [x] + After(z)
    ensures Set(t') == Set(t) + {x}
  {
    hide Inorder, Set;
    InorderSet(t);
    InorderSet(t');
  }

  /** Filling the hole with a node whose key fits keeps the order. */
  lemma FitsOrdered(z: Ctx, t: Tree, x: Node)
    requires Fits(z, x.key) && Ordered(Inorder(Plug(z, E))) && Inorder(t) == [x]
    ensures Ordered(Inorder(Plug(z, t)))
    ensures Inorder(Plug(z, t)) == Before(z) + [x] + After(z) && Inorder(Plug(z, E)) == Before(z) + After(z)
  {
    PlugInorder(z, E);
    PlugInorder(z, t);
    assert Before(z) + [] + After(z) == Before(z) + After(z);
    OrderedInsert(Before(z), x, After(z));
  }

  lemma OrderedInsert(a: seq<Node>, x: Node, b: seq<Node>)
    requires Ordered(a + b) && (forall n :: n in a ==> n.key < x.key) && (forall n :: n in b ==> x.key < n.key)
    ensures Ordered(a + [x] + b)
  {
    var s, s', k := a + b, a + [x] + b, |a|;
    forall i, j | 0 <= i < j < |s'|
      ensures s'[i].key < s'[j].key
    {
      var i', j' := if i < k then i else i - 1, if j < k then j else j - 1;
      if i == k {
        assert s'[j] == b[j - k - 1];
      } else if j == k {
        assert s'[i] == a[i];
      } else {
        assert s'[i] == s[i'] && s'[j] == s[j'];
      }
    }
  }

  // ---- The steps of the insertion fix-up ----

  /** The focus is red with black children; only the colour of its parent may be wrong. */
  ghost predicate InsertInv(z: Ctx, t: Tree, n: nat) {
    t.T? && t.c.Red? && RB(t, n) && Accepts(z, n, Black)
  }

  lemma LeafFits(z: Ctx, x: Node)
    requires Accepts(z, 0, Black)
    ensures InsertInv(z, T(Red, E, x, E), 0)
    ensures Inorder(T(Red, E, x, E)) == [x]
  {
  }

  lemma InsertDone(z: Ctx, t: Tree, n: nat)
    requires InsertInv(z, t, n)
    ensures z.Top? ==> RedBlack(Plug(z, t.(c := Black)))
    ensures z.Step? && z.c.Black? ==> RedBlack(Plug(z, t)) && Col(Plug(z, t)).Black?
  {
    if z.Top? {
      assert RB(t.(c := Black), n + 1);
    } else if z.c.Black? {
      PlugRB(z, t, n);
    }
  }

  /** A red parent is not the root, and the grandparent is black. */
  lemma RedParent(z: Ctx, t: Tree, n: nat)
    requires InsertInv(z, t, n) && z.Step? && z.c.Red?
    ensures z.up.Step? && z.up.c.Black? && RB(z.up.sib, n) && Accepts(z.up.up, n + 1, Black)
    ensures Depth(z) == 2 + Depth(z.up.up)
    ensures RB(z.sib, n) && Col(z.sib).Black?
  {
    assert Accepts(z.up, n, Red);
  }

  /** A red uncle: parent and uncle turn black, grandparent red, and the focus moves up. */
  lemma InsertRecolor(z: Ctx, t: Tree, n: nat)
    requires InsertInv(z, t, n) && z.Step? && z.c.Red? && z.up.Step? && Col(z.up.sib).Red?
    ensures InsertInv(z.up.up, Mk(z.up.d, Red, Mk(z.d, Black, t, z.n, z.sib), z.up.n, z.up.sib.(c := Black)), n + 1)
  {
    RedParent(z, t, n);
  }

  /** A black uncle: after the rotations the red focus hangs below a black parent. */
  lemma InsertRotate(d: Dir, t: Tree, p: Node, s: Tree, g: Node, u: Tree, up: Ctx, n: nat)
    requires t.T? && t.c.Red? && RB(t, n) && RB(s, n) && Col(s).Black? && RB(u, n) && Col(u).Black?
    requires Accepts(up, n + 1, Black)
    ensures InsertInv(Step(d, Black, p, Mk(d, Red, s, g, u), up), t, n)
  {
  }

  // ---- The steps of the removal fix-up ----

  /** The focus has black height n where the context expects n + 1; painting a red focus black would repair it. */
  ghost predicate RemoveInv(z: Ctx, t: Tree, n: nat) {
    && Accepts(z, n + 1, Black)
    && (if Col(t).Black? then RB(t, n) else RB(t.(c := Black), n + 1))
  }

  lemma RemoveDone(z: Ctx, t: Tree, n: nat)
    requires RemoveInv(z, t, n) && (z.Top? || Col(t).Red?)
    ensures RedBlack(Plug(z, if t.T? then t.(c := Black) else E))
  {
    if Col(t).Red? {
      PlugRB(z, t.(c := Black), n + 1);
    }
  }

  /** The focus of the loop has a sibling. */
  lemma Sibling(z: Ctx, t: Tree, n: nat)
    requires RemoveInv(z, t, n) && z.Step? && Col(t).Black?
    ensures RB(t, n) && z.sib.T? && RB(z.sib, n + 1)
    ensures Accepts(z.up, if z.c.Red? then n + 1 else n + 2, z.c)
    ensures Col(z.sib).Red? ==> z.c.Black?
    ensures Col(z.sib).Red? ==> RB(z.sib.l, n + 1) && Col(z.sib.l).Black? && z.sib.l.T?
    ensures Col(z.sib).Red? ==> RB(z.sib.r, n + 1) && Col(z.sib.r).Black? && z.sib.r.T?
    ensures Col(z.sib).Black? ==> RB(z.sib.l, n) && RB(z.sib.r, n)
  {
  }

  /** A red sibling is rotated above the parent, which leaves a black one. */
  lemma RemoveRedSibling(z: Ctx, t: Tree, n: nat)
    requires RemoveInv(z, t, n) && z.Step? && Col(t).Black? && Col(z.sib).Red?
    ensures z.sib.T?
    ensures
      var up := Step(z.d, Black, z.sib.n, Sub(z.sib, z.d.Opp()), z.up);
      RemoveInv(Step(z.d, Red, z.n, Sub(z.sib, z.d), up), t, n)
  {
    Sibling(z, t, n);
    var near, far := Sub(z.sib, z.d), Sub(z.sib, z.d.Opp());
    assert RB(far, n + 1) && Accepts(z.up, n + 2, Black);
    assert Accepts(Step(z.d, Black, z.sib.n, far, z.up), n + 1, Red);
    assert RB(near, n + 1) && Col(near).Black?;
  }

  /** A black sibling with black children turns red, and the parent becomes the focus. */
  lemma RemoveRecolor(z: Ctx, t: Tree, n: nat)
    requires RemoveInv(z, t, n) && z.Step? && Col(t).Black? && z.sib.T? && z.sib.c.Black?
    requires Col(z.sib.l).Black? && Col(z.sib.r).Black?
    ensures RemoveInv(z.up, Mk(z.d, z.c, t, z.n, z.sib.(c := Red)), if z.c.Red? then n else n + 1)
  {
    Sibling(z, t, n);
    AcceptsBlack(z.up, if z.c.Red? then n + 1 else n + 2, z.c);
    assert RB(z.sib.(c := Red), n);
  }

  /** A sibling with a red far child is rotated above the parent, which settles the tree. */
  lemma RemoveSettle(d: Dir, c: Color, t: Tree, p: Node, near: Tree, s: Node, far: Tree, up: Ctx, n: nat)
    requires RB(t, n) && Col(t).Black? && RB(near, n) && RB(far, n) && Col(far).Red?
    requires Accepts(up, if c.Red? then n + 1 else n + 2, c)
    ensures RedBlack(Plug(up, Mk(d, c, Mk(d, Black, t, p, near), s, far.(c := Black))))
  {
    assert RB(far.(c := Black), n + 1);
    assert RB(Mk(d, Black, t, p, near), n + 1);
    PlugRB(up, Mk(d, c, Mk(d, Black, t, p, near), s, far.(c := Black)), if c.Red? then n + 1 else n + 2);
  }

  // ---- Neighbours ----

  /** r follows x in s, or is null when x is the last element. */
  ghost predicate Follows(s: seq<Node>, x: Node, r: Node?) {
    exists i :: 0 <= i < |s| && s[i] == x && r == First(s[i + 1..])
  }

  ghost function First(s: seq<Node>): Node? { if s == [] then null else s[0] }

  lemma FollowsIs(a: seq<Node>, x: Node, b: seq<Node>)
    ensures Follows(a + [x] + b, x, First(b))
  {
    var s := a + [x] + b;
    assert s[|a|] == x && s[|a| + 1..] == b;
  }

  /** With distinct keys the follower is unique. */
  lemma FollowsUnique(a: seq<Node>, x: Node, b: seq<Node>, r: Node?)
    requires Ordered(a + [x] + b) && Follows(a + [x] + b, x, r)
    ensures r == First(b) && r != x
  {
    var s := a + [x] + b;
    if b != [] { assert s[|a| + 1] == b[0] && s[|a|].key < s[|a| + 1].key; }
    assert s[|a|] == x && s[|a| + 1..] == b;
    var i :| 0 <= i < |s| && s[i] == x && r == First(s[i + 1..]);
    OneIndex(s, i, |a|);
  }

  /** What follows a node: the first of its right subtree, else the first after the context. */
  lemma NodeFollows(z: Ctx, t: Tree)
    requires t.T?
    ensures Follows(Inorder(Plug(z, t)), t.n, First(Inorder(t.r) + After(z)))
  {
    hide Follows;
    PlugInorder(z, t);
    Around(Before(z), Inorder(t.l), t.n, Inorder(t.r), After(z));
    FollowsIs(Before(z) + Inorder(t.l), t.n, Inorder(t.r) + After(z));
  }

  lemma Around(a: seq<Node>, l: seq<Node>, n: Node, r: seq<Node>, b: seq<Node>)
    ensures a + (l + [n] + r) + b == (a + l) + [n] + (r + b)
  {
  }

  lemma LeftmostFirst(path: Ctx, t: Tree)
    requires Leftmost(path) && t.T? && t.l.E?
    ensures Inorder(Plug(path, t)) != [] && First(Inorder(Plug(path, t))) == t.n
  {
    LeftmostBefore(path);
    PlugInorder(path, t);
  }

  lemma FirstOfSum(a: seq<Node>, b: seq<Node>)
    ensures First(a + b) == if a == [] then First(b) else First(a)
  {
    if a == [] { assert a + b == b; }
  }

  lemma InorderEmpty(t: Tree)
    ensures t.E? ==> Inorder(t) == []
  {
  }

  lemma AfterStep(z: Ctx)
    ensures z.Top? ==> After(z) == []
    ensures z.Step? && z.d.R? ==> After(z) == After(z.up)
    ensures z.Step? && z.d.L? ==> After(z) != [] && First(After(z)) == z.n
  {
  }

  /** The first node after an empty hole is the least above a key that fits the hole. */
  lemma Ceiling(z: Ctx, k: int)
    requires Fits(z, k) && Ordered(Inorder(Plug(z, E)))
    ensures var r := First(After(z));
      && (r != null ==> r in Set(Plug(z, E)) && k <= r.key)
      && (r != null ==> forall n :: n in Set(Plug(z, E)) && k <= n.key ==> r.key <= n.key)
      && (r == null ==> forall n :: n in Set(Plug(z, E)) ==> n.key < k)
  {
    hide Inorder, Plug, Set, Ordered;
    var a, b := Before(z), After(z);
    PlugInorder(z, E);
    InorderSet(Plug(z, E));
    InorderEmpty(E);
    assert a + [] + b == a + b;
    LeastAbove(a, b, k);
  }

  lemma LeastAbove(a: seq<Node>, b: seq<Node>, k: int)
    requires Ordered(a + b) && (forall n :: n in a ==> n.key < k) && (forall n :: n in b ==> k < n.key)
    ensures var r := First(b);
      && (r != null ==> r in Elems(a + b) && k <= r.key)
      && (r != null ==> forall n :: n in Elems(a + b) && k <= n.key ==> r.key <= n.key)
      && (r == null ==> forall n :: n in Elems(a + b) ==> n.key < k)
  {
    if b != [] {
      assert b[0] in b && (a + b)[|a|] == b[0];
      forall n | n in b
        ensures b[0].key <= n.key
      {
        var i :| 0 <= i < |b| && b[i] == n;
        assert (a + b)[|a| + i] == n;
      }
    }
  }

  // ---- Positions ----

  /** Every node of a red-black tree has a position. */
  lemma {:induction false} Locate(z: Ctx, t: Tree, n: nat, x: Node) returns (z': Ctx, t': Tree, n': nat)
    requires x in Set(t) && RB(t, n) && Accepts(z, n, Col(t))
    ensures t'.T? && t'.n == x && Plug(z', t') == Plug(z, t) && RB(t', n') && Accepts(z', n', Col(t'))
    decreases t
  {
    z', t', n' := z, t, n;
    if t.n != x {
      var m := if t.c.Red? then n else n - 1;
      if x in Set(t.l) {
        z', t', n' := Locate(Down(z, t, L), t.l, m, x);
      } else {
        z', t', n' := Locate(Down(z, t, R), t.r, m, x);
      }
    }
  }

  /** The context z inside the hole of w. */
  ghost function App(z: Ctx, w: Ctx): Ctx {
    if z.Top? then w else z.(up := App(z.up, w))
  }

  lemma {:induction false} PlugApp(z: Ctx, w: Ctx, t: Tree)
    ensures Plug(App(z, w), t) == Plug(w, Plug(z, t))
  {
    if z.Step? { PlugApp(z.up, w, Mk(z.d, z.c, t, z.n, z.sib)); }
  }

  /** Acceptance depends on colours and heights only, not on which node stands where. */
  lemma {:induction false} AcceptsRenamed(z: Ctx, w: Ctx, x: Node, n: nat, c: Color)
    requires w.Step? && Accepts(App(z, w), n, c)
    ensures Accepts(App(z, w.(n := x)), n, c)
  {
    if z.Step? { AcceptsRenamed(z.up, w, x, if z.c.Red? then n else n + 1, z.c); }
  }

  lemma {:induction false} AppHas(z: Ctx, w: Ctx)
    requires w.Step?
    ensures w.n in CSet(App(z, w))
  {
    if z.Step? { AppHas(z.up, w); }
  }

  ghost predicate Leftmost(z: Ctx) { z.Step? ==> z.d.L? && Leftmost(z.up) }

  lemma {:induction false} LeftmostBefore(z: Ctx)
    requires Leftmost(z)
    ensures Before(z) == []
  {
    if z.Step? { LeftmostBefore(z.up); }
  }

  /** Dropping one element keeps the order. */
  lemma DropOrdered(a: seq<Node>, x: Node, b: seq<Node>)
    requires Ordered(a + [x] + b)
    ensures Ordered(a + b) && x !in a + b
  {
    var s, s' := a + [x] + b, a + b;
    forall i | 0 <= i < |s'|
      ensures s'[i] == s[if i < |a| then i else i + 1] && s'[i] != x
    {
      assert s[|a|] == x;
      assert s'[i] == s[if i < |a| then i else i + 1];
    }
  }

  /** s' is s without its element x. */
  ghost predicate Without(s: seq<Node>, x: Node, s': seq<Node>) {
    exists i :: 0 <= i < |s| && s[i] == x && s' == s[..i] + s[i + 1..]
  }

  lemma WithoutIs(a: seq<Node>, x: Node, b: seq<Node>)
    ensures Without(a + [x] + b, x, a + b)
  {
    var s := a + [x] + b;
    assert s[|a|] == x && s[..|a|] == a && s[|a| + 1..] == b;
  }

  lemma WithoutUnique(a: seq<Node>, x: Node, b: seq<Node>, s': seq<Node>)
    requires Ordered(a + [x] + b) && Without(a + [x] + b, x, s')
    ensures s' == a + b
  {
    var s := a + [x] + b;
    assert s[|a|] == x && s[..|a|] == a && s[|a| + 1..] == b;
    var i :| 0 <= i < |s| && s[i] == x && s' == s[..i] + s[i + 1..];
    OneIndex(s, i, |a|);
  }

  lemma OneLess(t: Tree, t': Tree, a: seq<Node>, x: Node, b: seq<Node>)
    requires Ordered(Inorder(t)) && Inorder(t) == a + [x] + b && Inorder(t') == a + b
    ensures Ordered(Inorder(t')) && Set(t') == Set(t) - {x}
  {
    hide Inorder, Set;
    DropOrdered(a, x, b);
    InorderSet(t);
    InorderSet(t');
    assert Elems(a + [x] + b) == Elems(a + b) + {x};
  }

  lemma SpliceInorder(z: Ctx, d: Dir, c: Color, x: Node, k: Tree) returns (a: seq<Node>, b: seq<Node>)
    ensures Inorder(Plug(z, Mk(d, c, E, x, k))) == a + [x] + b && Inorder(Plug(z, k)) == a + b
  {
    hide Inorder, Plug;
    PlugInorder(z, Mk(d, c, E, x, k));
    PlugInorder(z, k);
    OneSided(c, x, k);
    var p, q, s := Before(z), After(z), Inorder(k);
    if d.L? {
      a, b := p, s + q;
      assert p + ([x] + s) + q == p + [x] + (s + q) && p + s + q == p + (s + q);
    } else {
      a, b := p + s, q;
    }
  }

  lemma OneSided(c: Color, x: Node, k: Tree)
    ensures Inorder(T(c, E, x, k)) == [x] + Inorder(k) && Inorder(T(c, k, x, E)) == Inorder(k) + [x]
  {
  }

  /** The successor y of x moves up into the place of x. */
  lemma SuccessorInorder(z: Ctx, c: Color, l: Tree, x: Node, path: Ctx, cy: Color, y: Node, k: Tree)
    returns (a: seq<Node>, b: seq<Node>)
    requires Leftmost(path)
    ensures Inorder(Plug(z, T(c, l, x, Plug(path, T(cy, E, y, k))))) == a + [x] + b
    ensures Inorder(Plug(z, T(c, l, y, Plug(path, k)))) == a + b
  {
    hide Plug;
    var r, r' := Plug(path, T(cy, E, y, k)), Plug(path, k);
    var s := Inorder(k) + After(path);
    LeftmostBefore(path);
    PlugInorder(path, T(cy, E, y, k));
    PlugInorder(path, k);
    PlugInorder(z, T(c, l, x, r));
    PlugInorder(z, T(c, l, y, r'));
    assert Inorder(T(cy, E, y, k)) == [y] + Inorder(k);
    hide Inorder;
    Regroup(Before(z), Inorder(l), x, y, Inorder(k), After(path), After(z), Inorder(r), Inorder(r'));
    a, b := Before(z) + Inorder(l), [y] + Inorder(k) + After(path) + After(z);
  }

  lemma Regroup(p: seq<Node>, l: seq<Node>, x: Node, y: Node, k: seq<Node>, q: seq<Node>, e: seq<Node>, r: seq<Node>,
                r': seq<Node>)
    requires r == [] + ([y] + k) + q && r' == [] + k + q
    ensures p + (l + [x] + r) + e == (p + l) + [x] + ([y] + k + q + e)
    ensures p + (l + [y] + r') + e == (p + l) + ([y] + k + q + e)
  {
  }

  lemma {:induction false} RepShrink(h: Cells, root: Node?, h': Cells, t: Tree)
    requires Whole(h, root, t) && Same(h, h', Set(t))
    ensures Whole(h', root, t)
  {
    RepFrame(h, h', t, null);
  }

  /** The black height left behind by a removed black node. */
  lemma RemoveStart(z: Ctx, t: Tree, d: Dir, c: Color, x: Node, k: Tree, n: nat)
    requires t == Mk(d, c, E, x, k) && RB(t, n) && Accepts(z, n, c)
    ensures c.Black? ==> n == 1 && RemoveInv(z, k, 0)
    ensures c.Red? ==> k.E? && Accepts(z, 0, Black) && RedBlack(Plug(z, k))
  {
    if c.Black? {
      assert RB(k, 0);
    } else {
      AcceptsBlack(z, n, c);
      PlugRB(z, E, 0);
    }
  }

  ghost function Height(t: Tree): nat {
    if t.E? then 0 else if Height(t.l) > Height(t.r) then 1 + Height(t.l) else 1 + Height(t.r)
  }

  lemma {:induction false} BlackHeightBounds(t: Tree, n: nat)
    requires RB(t, n)
    ensures Height(t) <= 2 * n + (if Col(t).Red? then 1 else 0)
    ensures Pow2(n) <= |Inorder(t)| + 1
  {
    if t.T? {
      var m := if t.c.Red? then n else n - 1;
      BlackHeightBounds(t.l, m);
      BlackHeightBounds(t.r, m);
    }
  }

  lemma {:induction false} Pow2Double(k: nat)
    ensures Pow2(2 * k) == Pow2(k) * Pow2(k)
  {
    if k > 0 {
      Pow2Double(k - 1);
      assert Pow2(2 * k) == 2 * Pow2(2 * k - 1) == 4 * Pow2(2 * (k - 1));
    }
  }

  lemma Squares(p: nat, q: nat)
    requires p <= q
    ensures p * p <= q * q
  {
    assert p * p <= p * q;
    assert p * q <= q * q;
  }

  /** The height is at most 2 lg(n + 1). */
  lemma HeightBound(t: Tree)
    requires RedBlack(t)
    ensures Pow2(Height(t)) <= (|Inorder(t)| + 1) * (|Inorder(t)| + 1)
  {
    var n: nat :| RB(t, n);
    BlackHeightBounds(t, n);
    Pow2Mono(Height(t), 2 * n);
    Pow2Double(n);
    Squares(Pow2(n), |Inorder(t)| + 1);
  }
}
