/** The red-black tree macros over caller-owned nodes with parent links.  The
    mirror-image halves of the macros are one text with a direction. */
module RbTree {
  import opened Sides
  import opened RbSpec

  class Head {
    var root: Node?
    ghost var nodes: set<Node>
    ghost var tree: Tree

    ghost function H(): (h: Cells)
      reads this`nodes, nodes
      ensures h.Keys == nodes
    {
      map n: Node | n in nodes :: Cell(n.left, n.right, n.parent, n.color)
    }

    /** The links represent t. */
    ghost predicate Is(t: Tree)
      reads this`root, this`nodes, nodes
    {
      Whole(H(), root, t) && Set(t) <= nodes
    }

    ghost predicate Valid()
      reads this, nodes
    {
      Is(tree) && Set(tree) == nodes && RedBlack(tree) && Ordered(Inorder(tree))
    }

    /** RB_INIT */
    constructor ()
      ensures Valid() && nodes == {}
    {
      root, nodes, tree := null, {}, E;
      new;
      assert RB(E, 0);
    }

    // ---- Field access ----

    method SetChild(x: Node, d: Dir, p: Node?)
      requires x in nodes
      modifies x
      ensures H() == old(H())[x := old(H())[x].SetChild(d, p)]
    {
      if d.L? { x.left := p; } else { x.right := p; }
    }

    method SetParent(x: Node, p: Node?)
      requires x in nodes
      modifies x
      ensures H() == old(H())[x := old(H())[x].(parent := p)]
    {
      x.parent := p;
    }

    method SetColor(x: Node, c: Color)
      requires x in nodes
      modifies x
      ensures H() == old(H())[x := old(H())[x].(color := c)]
    {
      x.color := c;
    }

    function Child(x: Node, d: Dir): (p: Node?)
      requires x in nodes
      reads this`nodes, nodes
      ensures p == H()[x].Child(d)
    {
      if d.L? then x.left else x.right
    }

    function ParentOf(x: Node): (p: Node?)
      requires x in nodes
      reads this`nodes, nodes
      ensures p == H()[x].parent
    {
      x.parent
    }

    /** Paint the node at the focus. */
    method Paint(x: Node, c: Color, ghost z: Ctx, ghost t: Tree)
      requires Is(Plug(z, t)) && Ptr(t) == x
      modifies nodes
      ensures Is(Plug(z, t.(c := c))) && Inorder(Plug(z, t.(c := c))) == Inorder(Plug(z, t))
    {
      SameInorder(z, t, t.(c := c));
      PlugAt(H(), root, z, t);
      ghost var h := H();
      SetColor(x, c);
      ColorAt(h, root, H(), z, t, c);
      PlugAt(H(), root, z, t.(c := c));
    }

    /** Make the link that pointed to `x` from above point to `p`. */
    method Redirect(x: Node, parent: Node?, p: Node?, ghost z: Ctx)
      requires CRep(H(), root, z, x) && CDistinct(z) && x !in CSet(z) && CSet(z) <= nodes && parent == Parent(z)
      modifies this`root, nodes
      ensures Filled(old(H()), old(root), H(), root, z, p) && Only(old(H()), H(), One(parent))
    {
      if parent != null {
        if parent.left == x { SetChild(parent, L, p); } else { SetChild(parent, R, p); }
      } else {
        root := p;
      }
    }

    /** RB_ROTATE_LEFT when d is L, RB_ROTATE_RIGHT when d is R: the link assignments. */
    method RotateLinks(elm: Node, d: Dir, ghost z: Ctx, ghost y: Node, ghost b: Node?)
      requires elm in nodes && y in nodes && elm != y && b != elm && b != y
      requires (b != null ==> b in nodes && b !in CSet(z))
      requires H()[elm].Child(d.Opp()) == y && H()[y].Child(d) == b && H()[elm].parent == Parent(z)
      requires CRep(H(), root, z, elm) && CDistinct(z) && CSet(z) <= nodes && elm !in CSet(z) && y !in CSet(z)
      modifies this`root, nodes
      ensures Only(old(H()), H(), {elm, y} + One(b) + One(Parent(z)))
      ensures H()[elm] == old(H())[elm].SetChild(d.Opp(), b).(parent := y)
      ensures H()[y] == old(H())[y].SetChild(d, elm).(parent := Parent(z))
      ensures b != null ==> H()[b] == old(H())[b].(parent := elm)
      ensures Filled(old(H()), old(root), H(), root, z, y)
    {
      assert Parent(z) != null ==> Parent(z) in CSet(z);
      hide CRep, CDistinct, H, CSet, Filled, Only, Same;
      ghost var h, rt := H(), root;
      var up := ParentOf(elm);
      var tmp := Child(elm, d.Opp());
      MoveMiddle(elm, tmp, d, up, b);
      ghost var h1 := H();
      OnlySame(h, h1, {elm, tmp} + One(b), CSet(z));
      CRepFrame(h, h1, root, z, elm);
      ghost var h2 := MoveTop(elm, tmp, d, up, z);
      LinksMoved(h, h1, h2, H(), rt, root, z, d, elm, tmp, b);
    }

    /** The link from above moves from `elm` to `tmp`, and `elm` goes below `tmp`. */
    method MoveTop(elm: Node, tmp: Node, d: Dir, up: Node?, ghost z: Ctx) returns (ghost h2: Cells)
      requires elm in nodes && tmp in nodes && up == Parent(z)
      requires CRep(H(), root, z, elm) && CDistinct(z) && elm !in CSet(z) && CSet(z) <= nodes
      modifies this`root, nodes
      ensures Only(old(H()), h2, One(up)) && Filled(old(H()), old(root), h2, root, z, tmp)
      ensures elm in h2 && tmp in h2
      ensures H() == var g := h2[tmp := h2[tmp].SetChild(d, elm)]; g[elm := g[elm].(parent := tmp)]
    {
      hide CRep, CDistinct, H, CSet, Filled;
      Redirect(elm, up, tmp, z);
      h2 := H();
      SetChild(tmp, d, elm);
      SetParent(elm, tmp);
    }

    lemma OnlySame(h: Cells, h': Cells, ns: set<Node>, s: set<Node>)
      requires Only(h, h', ns) && ns !! s
      ensures Same(h, h', s)
    {
    }

    lemma LinksMoved(h: Cells, h1: Cells, h2: Cells, h3: Cells, rt: Node?, rt': Node?, z: Ctx, d: Dir, x: Node,
                     y: Node, b: Node?)
      requires x in h && y in h && x != y && b != x && b != y && (b != null ==> b in h) && Parent(z) !in {x, y}
      requires b != null ==> b != Parent(z)
      requires Parent(z) != null ==> Parent(z) in h
      requires Only(h, h1, {x, y} + One(b)) && Only(h1, h2, One(Parent(z))) && Filled(h1, rt, h2, rt', z, y)
      requires h1[x] == h[x].SetChild(d.Opp(), b) && h1[y] == h[y].(parent := Parent(z))
      requires b != null ==> h1[b] == h[b].(parent := x)
      requires h3 == var g := h2[y := h2[y].SetChild(d, x)]; g[x := g[x].(parent := y)]
      ensures Only(h, h3, {x, y} + One(b) + One(Parent(z))) && Filled(h, rt, h3, rt', z, y)
      ensures h3[x] == h[x].SetChild(d.Opp(), b).(parent := y) && h3[y] == h[y].SetChild(d, x).(parent := Parent(z))
      ensures b != null ==> h3[b] == h[b].(parent := x)
    {
    }

    /** The middle subtree of a rotation changes its parent, and `tmp` takes over the parent of `elm`. */
    method MoveMiddle(elm: Node, tmp: Node, d: Dir, up: Node?, ghost b: Node?)
      requires elm in nodes && tmp in nodes && elm != tmp && b != elm && b != tmp && (b != null ==> b in nodes)
      requires H()[tmp].Child(d) == b
      modifies nodes
      ensures Only(old(H()), H(), {elm, tmp} + One(b))
      ensures H()[elm] == old(H())[elm].SetChild(d.Opp(), b) && H()[tmp] == old(H())[tmp].(parent := up)
      ensures b != null ==> H()[b] == old(H())[b].(parent := elm)
    {
      hide H;
      var m := Child(tmp, d);
      SetChild(elm, d.Opp(), m);
      if m != null { SetParent(m, elm); }
      SetParent(tmp, up);
    }

    /** A rotation keeps the in-order sequence and moves y above elm. */
    method Rotate(elm: Node, d: Dir, ghost z: Ctx, ghost cx: Color, ghost a: Tree, ghost cy: Color, ghost b: Tree,
                  ghost y: Node, ghost c: Tree)
      requires Is(Plug(z, Mk(d, cx, a, elm, Mk(d.Opp(), cy, c, y, b))))
      modifies this`root, nodes
      ensures Is(Plug(z, Mk(d, cy, Mk(d, cx, a, elm, b), y, c)))
      ensures Inorder(Plug(z, Mk(d, cy, Mk(d, cx, a, elm, b), y, c)))
        == Inorder(Plug(z, Mk(d, cx, a, elm, Mk(d.Opp(), cy, c, y, b))))
    {
      hide Inorder, Rep, CRep, Distinct, CDistinct, Plug, Mk, H, At, Whole, Set, CSet;
      RotateInorder(d, cx, a, elm, cy, b, y, c);
      SameInorder(z, Mk(d, cy, Mk(d, cx, a, elm, b), y, c), Mk(d, cx, a, elm, Mk(d.Opp(), cy, c, y, b)));
      ghost var h, rt := H(), root;
      RotateLook(h, rt, z, d, cx, a, elm, cy, b, y, c);
      RotateLinks(elm, d, z, y, Ptr(b));
      RotateAt(h, rt, H(), root, z, d, cx, a, elm, cy, b, y, c);
      PlugAt(H(), root, z, Mk(d, cy, Mk(d, cx, a, elm, b), y, c));
      MkFacts(d, cx, a, elm, b);
      MkFacts(d, cy, Mk(d, cx, a, elm, b), y, c);
    }

    /** What a rotation finds. */
    lemma RotateLook(h: Cells, rt: Node?, z: Ctx, d: Dir, cx: Color, a: Tree, x: Node, cy: Color, b: Tree, y: Node,
                     c: Tree)
      requires Whole(h, rt, Plug(z, Mk(d, cx, a, x, Mk(d.Opp(), cy, c, y, b))))
      requires Set(Plug(z, Mk(d, cx, a, x, Mk(d.Opp(), cy, c, y, b)))) <= h.Keys
      ensures At(h, rt, z, Mk(d, cx, a, x, Mk(d.Opp(), cy, c, y, b)))
      ensures x in h && y in h && x != y && Ptr(b) != x && Ptr(b) != y
      ensures Ptr(b) != null ==> Ptr(b) in h && Ptr(b) !in CSet(z)
      ensures h[x] == CellD(d, Ptr(a), y, Parent(z), cx) && h[y] == CellD(d, Ptr(b), Ptr(c), x, cy)
      ensures CRep(h, rt, z, x) && CDistinct(z) && CSet(z) <= h.Keys && x !in CSet(z) && y !in CSet(z)
      ensures CSet(z) + Set(a) + Set(b) + Set(c) <= h.Keys
    {
      hide Rep, CRep, Distinct, CDistinct, Plug, Mk, Inorder;
      var inner := Mk(d.Opp(), cy, c, y, b);
      PlugAt(h, rt, z, Mk(d, cx, a, x, inner));
      MkFacts(d, cx, a, x, inner);
      MkFacts(d.Opp(), cy, c, y, b);
      MkRep(h, d, cx, a, x, inner, Parent(z));
      MkRep(h, d.Opp(), cy, c, y, b, x);
      assert b.T? ==> b.n in Set(b);
    }

    /** What the code reads at a position of the tree. */
    lemma Look(z: Ctx, t: Tree)
      requires Is(Plug(z, t))
      ensures At(H(), root, z, t) && CSet(z) + Set(t) <= nodes
      ensures t.T? ==>
        t.n in nodes && t.n.left == Ptr(t.l) && t.n.right == Ptr(t.r) && t.n.parent == Parent(z) && t.n.color == t.c
      ensures z.Step? ==> z.n in nodes && z.n.color == z.c && z.n.parent == Parent(z.up)
      ensures z.Step? ==> Child(z.n, z.d) == Ptr(t) && Child(z.n, z.d.Opp()) == Ptr(z.sib)
      ensures z.Step? && Ptr(t) != null ==> Ptr(t) != Ptr(z.sib)
      ensures z.Top? ==> root == Ptr(t)
    {
      PlugAt(H(), root, z, t);
    }

    /** Lines 154-161 and their mirror image: rotate the red focus and its red parent below a black node. */
    method InsertTurn(elm: Node, par: Node, gparent: Node, d: Dir,
                      ghost t: Tree, ghost s: Tree, ghost e: Dir, ghost u: Tree, ghost up: Ctx, ghost n: nat)
      returns (x: Node, ghost z': Ctx, ghost t': Tree)
      requires Is(Plug(Step(e, Red, par, s, Step(d, Black, gparent, u, up)), t)) && Ptr(t) == elm
      requires t.T? && t.c.Red? && RB(t, n) && RB(s, n) && Col(s).Black? && RB(u, n) && Col(u).Black?
      requires Accepts(up, n + 1, Black)
      modifies this`root, nodes
      ensures Is(Plug(z', t')) && Ptr(t') == x && InsertInv(z', t', n) && Depth(z') == 1 + Depth(up)
      ensures Inorder(Plug(z', t')) == Inorder(Plug(Step(e, Red, par, s, Step(d, Black, gparent, u, up)), t))
    {
      hide Inorder, Accepts, Whole;
      ghost var zg := Step(d, Black, gparent, u, up);
      Look(Step(e, Red, par, s, zg), t);
      x := elm;
      var parent := par;
      ghost var s' := s;
      t' := t;
      if Child(parent, d.Opp()) == x {
        ghost var b, c := Sub(t, d), Sub(t, d.Opp());
        assert e == d.Opp();
        assert Mk(e, Red, t, par, s) == Mk(d, Red, s, par, Mk(d.Opp(), Red, c, elm, b));
        Rotate(parent, d, zg, Red, s, Red, b, elm, c);
        parent, x := elm, par;
        t', s' := Mk(d, Red, s, par, b), c;
      }
      assert Is(Plug(zg, Mk(d, Red, t', parent, s')));
      Paint(parent, Black, zg, Mk(d, Red, t', parent, s'));
      ghost var p := Mk(d, Black, t', parent, s');
      Paint(gparent, Red, up, Mk(d, Black, p, gparent, u));
      assert Mk(d, Red, p, gparent, u) == Mk(d.Opp(), Red, u, gparent, Mk(d.Opp().Opp(), Black, t', parent, s'));
      Rotate(gparent, d.Opp(), up, Red, u, Black, s', parent, t');
      z' := Step(d, Black, parent, Mk(d, Red, s', gparent, u), up);
      assert Plug(z', t') == Plug(up, Mk(d, Black, t', parent, Mk(d, Red, s', gparent, u)));
      InsertRotate(d, t', parent, s', gparent, u, up, n);
    }

    /** Lines 149-152 and their mirror image: move the red colour of parent and uncle to the grandparent. */
    method InsertFlip(par: Node, gparent: Node, uncle: Node, d: Dir, ghost p: Tree, ghost u: Tree, ghost up: Ctx)
      returns (ghost t': Tree)
      requires Is(Plug(Step(d, Black, gparent, u, up), p)) && Ptr(p) == par && Ptr(u) == uncle
      modifies this`root, nodes
      ensures t' == Mk(d, Red, p.(c := Black), gparent, u.(c := Black))
      ensures Is(Plug(up, t')) && Inorder(Plug(up, t')) == Inorder(Plug(Step(d, Black, gparent, u, up), p))
    {
      hide Inorder, Whole, Set;
      assert Mk(d.Opp(), Black, u, gparent, p) == Mk(d, Black, p, gparent, u);
      Paint(uncle, Black, Step(d.Opp(), Black, gparent, p, up), u);
      assert Mk(d.Opp(), Black, u.(c := Black), gparent, p) == Mk(d, Black, p, gparent, u.(c := Black));
      Paint(par, Black, Step(d, Black, gparent, u.(c := Black), up), p);
      Paint(gparent, Red, up, Mk(d, Black, p.(c := Black), gparent, u.(c := Black)));
      t' := Mk(d, Red, p.(c := Black), gparent, u.(c := Black));
    }

    /** The body of the loop of RB_INSERT_COLOR. */
    method InsertRound(elm: Node, ghost z: Ctx, ghost t: Tree, ghost n: nat)
      returns (x: Node, ghost z': Ctx, ghost t': Tree, ghost n': nat)
      requires Is(Plug(z, t)) && Ptr(t) == elm && InsertInv(z, t, n) && z.Step? && z.c.Red?
      modifies this`root, nodes
      ensures Is(Plug(z', t')) && Ptr(t') == x && InsertInv(z', t', n') && Depth(z') < Depth(z)
      ensures Inorder(Plug(z', t')) == Inorder(Plug(z, t))
    {
      hide Inorder, Accepts, Whole, RedBlack, Set, RB, H;
      Look(z, t);
      var parent := elm.parent;
      RedParent(z, t, n);
      ghost var up, u, p := z.up.up, z.up.sib, Mk(z.d, z.c, t, z.n, z.sib);
      Look(z.up, p);
      var gparent := parent.parent;
      var d := if parent == gparent.left then L else R;
      var tmp := Child(gparent, d.Opp());
      assert Plug(Step(d.Opp(), Black, gparent, p, up), u) == Plug(z, t);
      Look(Step(d.Opp(), Black, gparent, p, up), u);
      if tmp != null && tmp.color.Red? {
        InsertRecolor(z, t, n);
        x, z', n' := gparent, up, n + 1;
        t' := InsertFlip(parent, gparent, tmp, d, p, u, up);
      } else {
        x, z', t' := InsertTurn(elm, parent, gparent, d, t, z.sib, z.d, u, up, n);
        n' := n;
      }
    }

    /** RB_INSERT_COLOR */
    method InsertColor(elm: Node, ghost z0: Ctx, ghost t0: Tree, ghost n0: nat)
      requires Is(Plug(z0, t0)) && Ptr(t0) == elm && InsertInv(z0, t0, n0)
      modifies this`root, this`tree, nodes
      ensures Is(tree) && RedBlack(tree) && Inorder(tree) == Inorder(Plug(z0, t0))
    {
      hide Inorder, Accepts, Whole, RedBlack, Set, RB, H;
      var x := elm;
      ghost var z, t, n := z0, t0, n0;
      Look(z, t);
      while x.parent != null && x.parent.color.Red?
        invariant Is(Plug(z, t)) && Ptr(t) == x && InsertInv(z, t, n) && Inorder(Plug(z, t)) == Inorder(Plug(z0, t0))
        invariant x in nodes && x.parent == Parent(z) && (z.Step? ==> z.n in nodes && z.n.color == z.c)
        decreases Depth(z)
      {
        x, z, t, n := InsertRound(x, z, t, n);
        Look(z, t);
      }
      InsertDone(z, t, n);
      RootOf(z, t);
      Paint(root, Black, Top, Plug(z, t));
      tree := Plug(z, t).(c := Black);
    }

    predicate BlackOrNull(x: Node?)
      reads x
    {
      x == null || x.color.Black?
    }

    /** Lines 204-220 and their mirror image: rotations that settle the tree when the sibling has a red child. */
    method RemoveTurn(parent: Node, d: Dir, ghost t: Tree, ghost s: Tree, ghost c: Color, ghost up: Ctx, ghost n: nat)
      returns (ghost q: Tree)
      requires Is(Plug(Step(d, c, parent, s, up), t)) && s.T? && s.c.Black?
      requires RB(t, n) && Col(t).Black? && RB(s.l, n) && RB(s.r, n) && (Col(s.l).Red? || Col(s.r).Red?)
      requires Accepts(up, if c.Red? then n + 1 else n + 2, c)
      modifies this`root, nodes
      ensures q.T? && Is(Plug(up, q)) && RedBlack(Plug(up, q))
      ensures Inorder(Plug(up, q)) == Inorder(Plug(Step(d, c, parent, s, up), t))
    {
      hide Inorder, Accepts, Whole, RedBlack, Set, H;
      var e := d.Opp();
      ghost var near, far, sn := Sub(s, d), Sub(s, e), s.n;
      Look(Step(d, c, parent, s, up), t);
      var tmp := Child(parent, e);
      ghost var zs := Step(e, c, parent, t, up);
      assert Plug(zs, s) == Plug(Step(d, c, parent, s, up), t);
      Look(zs, s);
      Look(Down(zs, s, e), far);
      if BlackOrNull(Child(tmp, e)) {
        Look(Down(zs, s, d), near);
        var oleft := Child(tmp, d);
        if oleft != null {
          Paint(oleft, Black, Down(zs, s, d), near);
        }
        ghost var near' := near.(c := Black);
        ghost var s1 := Mk(d, Black, near', sn, far);
        assert Plug(Down(zs, s, d), near') == Plug(zs, s1);
        Paint(tmp, Red, zs, s1);
        ghost var b, y, k := Sub(near, e), near.n, Sub(near, d);
        assert Mk(d, Red, near', sn, far) == Mk(e, Red, far, sn, Mk(e.Opp(), Black, k, y, b));
        Rotate(tmp, e, zs, Red, far, Black, b, y, k);
        near, far, sn := k, Mk(e, Red, far, sn, b), y;
        Look(zs, Mk(e, Black, far, sn, near));
        tmp := Child(parent, e);
      }
      assert Is(Plug(zs, Mk(e, Black, far, sn, near)));
      q := RemoveLast(parent, tmp, d, t, near, far, c, up, n);
    }

    method RemoveLast(parent: Node, tmp: Node, d: Dir, ghost t: Tree, ghost near: Tree, ghost far: Tree,
                      ghost c: Color, ghost up: Ctx, ghost n: nat)
      returns (ghost q: Tree)
      requires Is(Plug(Step(d.Opp(), c, parent, t, up), Mk(d.Opp(), Black, far, tmp, near)))
      requires RB(t, n) && Col(t).Black? && RB(near, n) && RB(far, n) && Col(far).Red?
      requires Accepts(up, if c.Red? then n + 1 else n + 2, c)
      modifies this`root, nodes
      ensures q.T? && Is(Plug(up, q)) && RedBlack(Plug(up, q))
      ensures Inorder(Plug(up, q)) == Inorder(Plug(Step(d.Opp(), c, parent, t, up), Mk(d.Opp(), Black, far, tmp, near)))
    {
      hide Inorder, Accepts, Whole, RedBlack, Set, H;
      var e := d.Opp();
      ghost var zs := Step(e, c, parent, t, up);
      ghost var s := Mk(e, Black, far, tmp, near);
      Look(up, Mk(e, c, s, parent, t));
      Paint(tmp, parent.color, zs, s);
      ghost var s1 := Mk(e, c, far, tmp, near);
      Paint(parent, Black, up, Mk(e, c, s1, parent, t));
      ghost var zf := Down(Step(e, Black, parent, t, up), s1, e);
      assert Plug(zf, far) == Plug(up, Mk(e, Black, s1, parent, t));
      Look(Step(e, Black, parent, t, up), s1);
      var f := Child(tmp, e);
      if f != null {
        Paint(f, Black, zf, far);
      }
      ghost var far' := far.(c := Black);
      assert Plug(zf, far') == Plug(up, Mk(d, Black, t, parent, Mk(e, c, far', tmp, near)));
      Rotate(parent, d, up, Black, t, c, near, tmp, far');
      q := Mk(d, c, Mk(d, Black, t, parent, near), tmp, far');
      RemoveSettle(d, c, t, parent, near, tmp, far, up, n);
    }

    /** Lines 191-195 and their mirror image: a red sibling is rotated above the parent. */
    method RemoveRaise(parent: Node, tmp: Node, d: Dir, ghost t: Tree, ghost s: Tree, ghost up: Ctx)
      returns (ghost z: Ctx)
      requires Is(Plug(Step(d, Black, parent, s, up), t)) && s.T? && s.c.Red? && s.n == tmp
      modifies this`root, nodes
      ensures z == Step(d, Red, parent, Sub(s, d), Step(d, Black, tmp, Sub(s, d.Opp()), up))
      ensures Is(Plug(z, t)) && Inorder(Plug(z, t)) == Inorder(Plug(Step(d, Black, parent, s, up), t))
    {
      hide Inorder, Whole, Set, H;
      var e := d.Opp();
      ghost var near, far := Sub(s, d), Sub(s, e);
      assert Plug(Step(e, Black, parent, t, up), s) == Plug(Step(d, Black, parent, s, up), t);
      Paint(tmp, Black, Step(e, Black, parent, t, up), s);
      ghost var s1 := s.(c := Black);
      assert Plug(Step(e, Black, parent, t, up), s1) == Plug(up, Mk(d, Black, t, parent, s1));
      Paint(parent, Red, up, Mk(d, Black, t, parent, s1));
      assert Mk(d, Red, t, parent, s1) == Mk(d, Red, t, parent, Mk(d.Opp(), Black, far, tmp, near));
      Rotate(parent, d, up, Red, t, Black, near, tmp, far);
      z := Step(d, Red, parent, near, Step(d, Black, tmp, far, up));
    }

    /** The colour of the focus is the last thing to set. */
    ghost predicate Settled(z: Ctx, t: Tree) {
      RedBlack(Plug(z, if t.T? then t.(c := Black) else E))
    }

    /** The body of the loop of RB_REMOVE_COLOR. */
    method RemoveRound(parent: Node, elm: Node?, ghost z: Ctx, ghost t: Tree, ghost n: nat)
      returns (parent': Node?, elm': Node?, settled: bool, ghost z': Ctx, ghost t': Tree, ghost n': nat)
      requires Is(Plug(z, t)) && Ptr(t) == elm && Parent(z) == parent && RemoveInv(z, t, n) && Col(t).Black?
      modifies this`root, nodes
      ensures Is(Plug(z', t')) && Ptr(t') == elm' && Inorder(Plug(z', t')) == Inorder(Plug(z, t))
      ensures settled ==> Settled(z', t')
      ensures !settled ==> Parent(z') == parent' && RemoveInv(z', t', n')
      ensures !settled ==> if Col(t').Red? then true else Depth(z') < Depth(z)
    {
      hide Inorder, Accepts, Whole, RedBlack, Set, RB, H;
      z', t', n' := z, t, n;
      Look(z, t);
      Sibling(z, t, n);
      LookSibling(z, t);
      var d := if Child(parent, L) == elm then L else R;
      var tmp := Child(parent, d.Opp());
      if tmp.color.Red? {
        RemoveRedSibling(z, t, n);
        z' := RemoveRaise(parent, tmp, d, t, z.sib, z.up);
        Look(z', t);
        Sibling(z', t, n);
        LookSibling(z', t);
        tmp := Child(parent, d.Opp());
      }
      if BlackOrNull(Child(tmp, L)) && BlackOrNull(Child(tmp, R)) {
        RemoveRecolor(z', t, n);
        z', t', n' := RemoveFade(parent, tmp, d, z', t, n);
        elm' := parent;
        Look(z', t');
        parent' := ParentOf(parent);
        settled := false;
      } else {
        ghost var up := z'.up;
        ghost var q := RemoveTurn(parent, d, t, z'.sib, z'.c, up, n);
        RootOf(up, q);
        BlackRoot(Plug(up, q));
        z', t' := Top, Plug(up, q);
        elm', parent', settled := root, null, true;
      }
    }

    /** RB_REMOVE_COLOR */
    method RemoveColor(parent0: Node?, elm0: Node?, ghost z0: Ctx, ghost t0: Tree, ghost n0: nat)
      requires Is(Plug(z0, t0)) && Ptr(t0) == elm0 && Parent(z0) == parent0 && RemoveInv(z0, t0, n0)
      modifies this`root, this`tree, nodes
      ensures Is(tree) && RedBlack(tree) && Inorder(tree) == Inorder(Plug(z0, t0))
    {
      hide Inorder, RemoveInv, Whole, RedBlack, Set, H, Settled;
      var parent, elm := parent0, elm0;
      var settled := false;
      ghost var z, t, n := z0, t0, n0;
      ghost var s := Inorder(Plug(z0, t0));
      Look(z, t);
      RootLook(z, t);
      while !settled && BlackOrNull(elm) && elm != root
        invariant Is(Plug(z, t)) && Ptr(t) == elm && Inorder(Plug(z, t)) == s
        invariant settled ==> Settled(z, t)
        invariant !settled ==> Parent(z) == parent && RemoveInv(z, t, n)
        invariant elm == root <==> z.Top?
        invariant elm != null ==> elm in nodes && elm.color == t.c
        decreases !settled, if Col(t).Red? then 0 else 1 + Depth(z)
      {
        Look(z, t);
        parent, elm, settled, z, t, n := RemoveRound(parent, elm, z, t, n);
        Look(z, t);
        RootLook(z, t);
      }
      if !settled { RemoveDone(z, t, n); }
      SettledIs(z, t);
      if elm != null {
        Paint(elm, Black, z, t);
        t := t.(c := Black);
      }
      tree := Plug(z, t);
    }

    lemma SettledIs(z: Ctx, t: Tree)
      ensures Settled(z, t) <==> RedBlack(Plug(z, if t.T? then t.(c := Black) else E))
    {
    }

    method RemoveFade(parent: Node, tmp: Node, d: Dir, ghost z: Ctx, ghost t: Tree, ghost n: nat)
      returns (ghost z': Ctx, ghost t': Tree, ghost n': nat)
      requires Is(Plug(z, t)) && z.Step? && z.sib.T? && z.sib.n == tmp && z.n == parent
      requires RemoveInv(z.up, Mk(z.d, z.c, t, z.n, z.sib.(c := Red)), if z.c.Red? then n else n + 1)
      modifies this`root, nodes
      ensures z' == z.up && t' == Mk(z.d, z.c, t, z.n, z.sib.(c := Red)) && n' == if z.c.Red? then n else n + 1
      ensures Is(Plug(z', t')) && Inorder(Plug(z', t')) == Inorder(Plug(z, t))
    {
      hide Inorder, Whole, Set, H;
      ghost var zs := Step(z.d.Opp(), z.c, parent, t, z.up);
      assert Plug(zs, z.sib) == Plug(z, t);
      Paint(tmp, Red, zs, z.sib);
      z', t', n' := z.up, Mk(z.d, z.c, t, z.n, z.sib.(c := Red)), if z.c.Red? then n else n + 1;
      assert Plug(zs, z.sib.(c := Red)) == Plug(z', t');
    }

    lemma LookSibling(z: Ctx, t: Tree)
      requires Is(Plug(z, t)) && z.Step? && z.sib.T?
      ensures z.sib.n in nodes && z.sib.n.color == z.sib.c
      ensures BlackOrNull(z.sib.n.left) <==> Col(z.sib.l).Black?
      ensures BlackOrNull(z.sib.n.right) <==> Col(z.sib.r).Black?
    {
      var zs := Step(z.d.Opp(), z.c, z.n, t, z.up);
      assert Plug(zs, z.sib) == Plug(z, t);
      Look(zs, z.sib);
      Look(Down(zs, z.sib, L), z.sib.l);
      Look(Down(zs, z.sib, R), z.sib.r);
    }

    lemma RootLook(z: Ctx, t: Tree)
      requires Is(Plug(z, t))
      ensures Ptr(t) == root <==> z.Top?
    {
      PlugAt(H(), root, z, t);
      if z.Step? { RootOf(z.up, Mk(z.d, z.c, t, z.n, z.sib)); RootIn(z, t); }
    }

    lemma RootIn(z: Ctx, t: Tree)
      requires Is(Plug(z, t)) && z.Step?
      ensures root in CSet(z)
    {
      PlugAt(H(), root, z, t);
      CtxRoot(z, t);
    }

    /** The search loop of RB_INSERT, lines 335-345: an equal node, or the place where the key belongs. */
    method Descend(key: int) returns (tmp: Node?, parent: Node?, comp: int, ghost z: Ctx)
      requires Valid()
      ensures tmp != null ==> tmp in nodes && tmp.key == key
      ensures tmp == null ==> Plug(z, E) == tree && Parent(z) == parent && Fits(z, key) && Accepts(z, 0, Black)
      ensures tmp == null && z.Step? ==> (comp < 0 <==> z.d.L?)
    {
      tmp := root;
      parent := null;
      comp := 0;
      ghost var t, n: nat;
      z, t := Top, tree;
      n :| RB(tree, n);
      Look(z, t);
      hide Ordered, Inorder, RedBlack, Whole;
      while tmp != null
        invariant Plug(z, t) == tree && Ptr(t) == tmp && Parent(z) == parent
        invariant Fits(z, key) && RB(t, n) && Accepts(z, n, Col(t))
        invariant z.Step? ==> (comp < 0 <==> z.d.L?)
        decreases t
      {
        Look(z, t);
        parent := tmp;
        comp := key - parent.key;
        if comp < 0 {
          SearchStep(z, t, key, L);
          tmp := tmp.left;
          z, t, n := Down(z, t, L), t.l, if t.c.Red? then n else n - 1;
        } else if comp > 0 {
          SearchStep(z, t, key, R);
          tmp := tmp.right;
          z, t, n := Down(z, t, R), t.r, if t.c.Red? then n else n - 1;
        } else {
          return;
        }
      }
    }

    /** RB_INSERT: link a new red leaf where its key belongs and fix the colours; an equal node is left alone. */
    method Insert(elm: Node) returns (found: Node?)
      requires Valid()
      modifies this, nodes, elm
      ensures Valid()
      ensures found != null <==> exists n :: n in old(nodes) && n.key == elm.key
      ensures found != null ==> found in nodes && found.key == elm.key && nodes == old(nodes) && tree == old(tree)
      ensures found == null ==> nodes == old(nodes) + {elm}
    {
      var parent, comp;
      ghost var z;
      found, parent, comp, z := Descend(elm.key);
      if found != null { return; }
      hide RB, Accepts, Fits, Rep, CRep, Distinct, CDistinct, Whole, Ordered, RedBlack, Plug, Inorder, Set, H;
      ghost var leaf, was := T(Red, E, elm, E), tree;
      FitsAbsent(z, elm.key);
      FitsOrdered(z, leaf, elm);
      LeafFits(z, elm);
      Link(elm, parent, comp, z);
      InsertColor(elm, z, leaf, 0);
      OneMore(was, tree, z, elm);
    }

    /** RB_FIND */
    method Find(key: int) returns (r: Node?)
      requires Valid()
      ensures r != null ==> r in nodes && r.key == key
      ensures r == null ==> forall n :: n in nodes ==> n.key != key
    {
      hide Ordered, Inorder, RedBlack, Whole, RB, Set, H, Accepts;
      r := root;
      ghost var z, t := Top, tree;
      Look(z, t);
      while r != null
        invariant Plug(z, t) == tree && Ptr(t) == r && Fits(z, key)
        decreases t
      {
        Look(z, t);
        if key < r.key {
          SearchStep(z, t, key, L);
          r := r.left;
          z, t := Down(z, t, L), t.l;
        } else if key > r.key {
          SearchStep(z, t, key, R);
          r := r.right;
          z, t := Down(z, t, R), t.r;
        } else {
          return;
        }
      }
      FitsAbsent(z, key);
    }

    /** RB_NFIND: the node with the least key not below `key` */
    method NFind(key: int) returns (res: Node?)
      requires Valid()
      ensures res != null ==>
        res in nodes && key <= res.key && forall n :: n in nodes && key <= n.key ==> res.key <= n.key
      ensures res == null ==> forall n :: n in nodes ==> n.key < key
    {
      hide Ordered, Inorder, RedBlack, Whole, RB, Set, H, Accepts;
      var tmp := root;
      res := null;
      ghost var z, t := Top, tree;
      Look(z, t);
      while tmp != null
        invariant Plug(z, t) == tree && Ptr(t) == tmp && Fits(z, key) && res == First(After(z))
        decreases t
      {
        Look(z, t);
        if key < tmp.key {
          SearchStep(z, t, key, L);
          res := tmp;
          tmp := tmp.left;
          z, t := Down(z, t, L), t.l;
        } else if key > tmp.key {
          SearchStep(z, t, key, R);
          tmp := tmp.right;
          z, t := Down(z, t, R), t.r;
        } else {
          return tmp;
        }
      }
      Ceiling(z, key);
    }

    /** RB_MIN, the loop of RB_MINMAX with a negative argument */
    method Min() returns (parent: Node?)
      requires Valid()
      ensures parent == First(Inorder(tree)) && (parent != null ==> parent in nodes)
    {
      var tmp := root;
      parent := null;
      ghost var z, t := Top, tree;
      Look(z, t);
      while tmp != null
        invariant Plug(z, t) == tree && Ptr(t) == tmp && Leftmost(z) && Parent(z) == parent
        invariant z.Step? ==> z.n in nodes
        decreases t
      {
        Look(z, t);
        parent := tmp;
        tmp := tmp.left;
        z, t := Down(z, t, L), t.l;
      }
      if z.Step? { LeftmostFirst(z.up, T(z.c, E, z.n, z.sib)); }
    }

    /** RB_NEXT */
    method Next(elm: Node) returns (r: Node?)
      requires Valid() && elm in nodes
      ensures Follows(Inorder(tree), elm, r) && (r != null ==> r in nodes)
    {
      ghost var n0: nat :| RB(tree, n0);
      ghost var z, t, n := Locate(Top, tree, n0, elm);
      hide Inorder, Whole, RedBlack, RB, Accepts, Ordered, H, Follows;
      NodeFollows(z, t);
      Look(z, t);
      if elm.right != null {
        r := LeftmostOf(elm.right, Down(z, t, R), t.r);
        FirstOfSum(Inorder(t.r), After(z));
      } else {
        InorderEmpty(t.r);
        FirstOfSum(Inorder(t.r), After(z));
        r := NextAbove(elm, z, t);
      }
    }

    /** RB_NEXT, lines 403-405 */
    method LeftmostOf(start: Node, ghost w: Ctx, ghost t: Tree) returns (x: Node)
      requires Is(Plug(w, t)) && Ptr(t) == start
      ensures x in nodes && Inorder(t) != [] && First(Inorder(t)) == x
    {
      hide Inorder, Whole, Set, H;
      x := start;
      ghost var path, s := Top, t;
      Look(w, s);
      while x.left != null
        invariant Plug(path, s) == t && Leftmost(path) && s.T? && s.n == x && x in nodes && x.left == Ptr(s.l)
        decreases s
      {
        path, s := Down(path, s, L), s.l;
        x := x.left;
        PlugApp(path, w, s);
        Look(App(path, w), s);
      }
      LeftmostFirst(path, s);
    }

    /** RB_NEXT, lines 407-415 */
    method NextAbove(elm: Node, ghost z: Ctx, ghost t: Tree) returns (r: Node?)
      requires Is(Plug(z, t)) && Ptr(t) == elm
      ensures r == First(After(z)) && (r != null ==> r in nodes)
    {
      hide Inorder, Whole, Set, H, After;
      Look(z, t);
      var x := elm;
      if x.parent != null && x == x.parent.left {
        AfterStep(z);
        r := x.parent;
      } else {
        ghost var y, s := z, t;
        while x.parent != null && x == x.parent.right
          invariant Is(Plug(y, s)) && s.T? && s.n == x && After(y) == After(z) && x in nodes
          invariant x.parent == Parent(y) && (y.Step? ==> y.n in nodes && (x == y.n.right <==> y.d.R?))
          decreases y
        {
          AfterStep(y);
          x := x.parent;
          y, s := y.up, Mk(y.d, y.c, s, y.n, y.sib);
          Look(y, s);
        }
        AfterStep(y);
        r := x.parent;
      }
    }

    /** RB_REMOVE, lines 310-321: a node with an empty side gives its place to its other child. */
    method Splice(elm: Node, child: Node?, ghost z: Ctx, ghost d: Dir, ghost c: Color, ghost k: Tree)
      returns (parent: Node?)
      requires Is(Plug(z, Mk(d, c, E, elm, k))) && Ptr(k) == child
      modifies this`root, nodes
      ensures parent == Parent(z) && Is(Plug(z, k)) && Set(Plug(z, k)) == Set(Plug(z, Mk(d, c, E, elm, k))) - {elm}
      ensures Only(old(H()), H(), One(child) + One(parent)) && elm in nodes && elm != child && elm != parent
    {
      hide Inorder, Rep, CRep, Distinct, CDistinct, Plug, Mk, H;
      ghost var h, rt := H(), root;
      PlugAt(h, root, z, Mk(d, c, E, elm, k));
      MkFacts(d, c, E, elm, k);
      MkRep(h, d, c, E, elm, k, Parent(z));
      assert child != null ==> child in Set(k) && child in nodes;
      assert Parent(z) != null ==> Parent(z) in CSet(z);
      parent := ParentOf(elm);
      if child != null { SetParent(child, parent); }
      CRepFrame(h, H(), root, z, elm);
      Redirect(elm, parent, child, z);
      SpliceAt(h, rt, H(), root, z, d, c, elm, k);
      PlugAt(H(), root, z, k);
    }

    /** RB_REMOVE, lines 290-301: `y` takes over the links and the colour of `x`. */
    method TakeOver(x: Node, y: Node, ghost z: Ctx, ghost c: Color, ghost l: Tree, ghost r: Tree)
      requires Is(Plug(z, T(c, l, x, r))) && y in nodes && y !in Set(Plug(z, T(c, l, x, r))) && l.T?
      modifies this`root, nodes
      ensures Is(Plug(z, T(c, l, y, r)))
    {
      hide Inorder, Rep, CRep, Distinct, CDistinct, Plug, H;
      ghost var h, rt := H(), root;
      PlugAt(h, root, z, T(c, l, x, r));
      MkFacts(L, c, l, x, r);
      MkRep(h, L, c, l, x, r, Parent(z));
      assert h[x] == Cell(Ptr(l), Ptr(r), Parent(z), c);
      assert l.n in Set(l) && (r.T? ==> r.n in Set(r));
      assert Parent(z) != null ==> Parent(z) in CSet(z);
      assert x != y && l.n != x && l.n != y && Ptr(r) != x && Ptr(r) != y && Ptr(r) != l.n;
      assert Parent(z) != x && Parent(z) != y && Parent(z) != l.n && (r.T? ==> Parent(z) != r.n);
      CopyLinks(x, y);
      CRepFrame(h, H(), root, z, x);
      Redirect(x, ParentOf(x), y, z);
      Adopt(Child(x, L), Child(x, R), y);
      ReplaceAt(h, rt, H(), root, z, c, l, x, r, y);
      PlugAt(H(), root, z, T(c, l, y, r));
      MkFacts(L, c, l, y, r);
    }

    method Adopt(l: Node, r: Node?, y: Node)
      requires l in nodes && (r != null ==> r in nodes) && l != r
      modifies nodes
      ensures Only(old(H()), H(), {l} + One(r)) && H()[l] == old(H())[l].(parent := y)
      ensures r != null ==> H()[r] == old(H())[r].(parent := y)
    {
      SetParent(l, y);
      if r != null { SetParent(r, y); }
    }

    method CopyLinks(x: Node, y: Node)
      requires x in nodes && y in nodes
      modifies y
      ensures H() == old(H())[y := old(H())[x]]
    {
      y.left, y.right, y.parent, y.color := x.left, x.right, x.parent, x.color;
    }

    /** RB_REMOVE of a node with an empty side. */
    method RemoveOneSided(elm: Node, child: Node?, ghost z: Ctx, ghost d: Dir, ghost c: Color, ghost k: Tree,
                          ghost n: nat)
      returns (ghost a: seq<Node>, ghost b: seq<Node>)
      requires Is(Plug(z, Mk(d, c, E, elm, k))) && Ptr(k) == child
      requires RB(Mk(d, c, E, elm, k), n) && Accepts(z, n, c)
      modifies this`root, this`tree, nodes
      ensures Is(tree) && RedBlack(tree) && Inorder(tree) == a + b
      ensures Inorder(Plug(z, Mk(d, c, E, elm, k))) == a + [elm] + b
    {
      hide Inorder, RemoveInv, Whole, RedBlack, Set, H, Plug, RB, Accepts;
      a, b := SpliceInorder(z, d, c, elm, k);
      RemoveStart(z, Mk(d, c, E, elm, k), d, c, elm, k, n);
      Look(z, Mk(d, c, E, elm, k));
      var color := elm.color;
      var parent := Splice(elm, child, z, d, c, k);
      if color.Black? {
        RemoveColor(parent, child, z, k, 0);
      } else {
        tree := Plug(z, k);
      }
    }

    /** RB_REMOVE of a node with two children: its successor is unlinked and takes its place. */
    method RemoveTwoSided(elm: Node, ghost z: Ctx, ghost c: Color, ghost l: Tree, ghost r: Tree, ghost n: nat)
      returns (ghost a: seq<Node>, ghost b: seq<Node>)
      requires Is(Plug(z, T(c, l, elm, r))) && l.T? && r.T?
      requires RB(T(c, l, elm, r), n) && Accepts(z, n, c)
      modifies this`root, this`tree, nodes
      ensures Is(tree) && RedBlack(tree) && Inorder(tree) == a + b
      ensures Inorder(Plug(z, T(c, l, elm, r))) == a + [elm] + b
    {
      hide Inorder, RemoveInv, Whole, RedBlack, Set, H;
      Look(z, T(c, l, elm, r));
      ghost var w := Down(z, T(c, l, elm, r), R);
      ghost var path, m: nat := Top, if c.Red? then n else n - 1;
      ghost var t := r;
      var y := elm.right;
      Look(w, r);
      while y.left != null
        invariant Plug(path, t) == r && Leftmost(path) && t.T? && t.n == y && y in nodes && y.left == Ptr(t.l)
        invariant RB(t, m) && Accepts(App(path, w), m, Col(t))
        modifies {}
        decreases t
      {
        path, t, m := Down(path, t, L), t.l, if t.c.Red? then m else m - 1;
        y := y.left;
        PlugApp(path, w, t);
        Look(App(path, w), t);
      }
      a, b := RemoveSuccessor(elm, y, z, c, l, path, t.c, t.r, m);
    }

    method RemoveSuccessor(elm: Node, y: Node, ghost z: Ctx, ghost c: Color, ghost l: Tree, ghost path: Ctx,
                           ghost cy: Color, ghost k: Tree, ghost m: nat)
      returns (ghost a: seq<Node>, ghost b: seq<Node>)
      requires Is(Plug(z, T(c, l, elm, Plug(path, T(cy, E, y, k))))) && Leftmost(path) && l.T?
      requires RB(T(cy, E, y, k), m) && Accepts(App(path, Step(R, c, elm, l, z)), m, cy)
      modifies this`root, this`tree, nodes
      ensures Is(tree) && RedBlack(tree) && Inorder(tree) == a + b
      ensures Inorder(Plug(z, T(c, l, elm, Plug(path, T(cy, E, y, k))))) == a + [elm] + b
    {
      hide Inorder, RemoveInv, Whole, RedBlack, Set, H, RB, Accepts;
      ghost var w, w' := Step(R, c, elm, l, z), Step(R, c, y, l, z);
      a, b := SuccessorInorder(z, c, l, elm, path, cy, y, k);
      PlugApp(path, w, T(cy, E, y, k));
      PlugApp(path, w, k);
      PlugApp(path, w', k);
      Look(App(path, w), T(cy, E, y, k));
      var child := Child(y, R);
      var color := y.color;
      if path.Step? { AppHas(path.up, w); }
      assert ParentOf(y) == Parent(App(path, w)) && (ParentOf(y) == elm <==> path.Top?);
      var parent := Splice(y, child, App(path, w), L, cy, k);
      if ParentOf(y) == elm { parent := y; }
      TakeOver(elm, y, z, c, l, Plug(path, k));
      AcceptsRenamed(path, w, y, m, cy);
      RemoveStart(App(path, w'), T(cy, E, y, k), L, cy, y, k, m);
      if color.Black? {
        RemoveColor(parent, child, App(path, w'), k, 0);
      } else {
        tree := Plug(App(path, w'), k);
      }
    }

    /** RB_REMOVE */
    method Remove(elm: Node)
      requires Valid() && elm in nodes
      modifies this, nodes
      ensures Valid() && nodes == old(nodes) - {elm}
      ensures Without(old(Inorder(tree)), elm, Inorder(tree))
    {
      ghost var n0: nat :| RB(tree, n0);
      ghost var z, t, n := Locate(Top, tree, n0, elm);
      ghost var was := tree;
      ghost var a, b;
      hide Inorder, Whole, RedBlack, Set, RB, Accepts, Ordered, Rep, Distinct, H;
      Look(z, t);
      if elm.left == null {
        a, b := RemoveOneSided(elm, elm.right, z, L, t.c, t.r, n);
      } else if elm.right == null {
        a, b := RemoveOneSided(elm, elm.left, z, R, t.c, t.l, n);
      } else {
        a, b := RemoveTwoSided(elm, z, t.c, t.l, t.r, n);
      }
      OneLess(was, tree, a, elm, b);
      Forget(elm);
      WithoutIs(a, elm, b);
    }

    /** A node outside the tree is dropped from the footprint. */
    ghost method Forget(x: Node)
      requires Is(tree) && x !in Set(tree)
      modifies this`nodes
      ensures nodes == old(nodes) - {x} && Is(tree)
    {
      var h := H();
      nodes := nodes - {x};
      RepShrink(h, root, H(), tree);
    }

    /** RB_SET and the link from the parent (or the root) to the new node. */
    method Link(elm: Node, parent: Node?, comp: int, ghost z: Ctx)
      requires Is(Plug(z, E)) && elm !in nodes && Parent(z) == parent
      requires z.Step? ==> (comp < 0 <==> z.d.L?)
      modifies this`root, this`nodes, nodes, elm
      ensures nodes == old(nodes) + {elm} && Is(Plug(z, T(Red, E, elm, E)))
    {
      Look(z, E);
      ghost var h0 := H();
      elm.parent, elm.left, elm.right, elm.color := parent, null, null, Red;
      nodes := nodes + {elm};
      ghost var h, rt := H(), root;
      CRepFrame(h0, h, root, z, null);
      if parent != null {
        SetChild(parent, if comp < 0 then L else R, elm);
      } else {
        root := elm;
      }
      LinkAt(h, rt, H(), root, z, elm);
      PlugAt(H(), root, z, T(Red, E, elm, E));
    }

    lemma RootOf(z: Ctx, t: Tree)
      requires Is(Plug(z, t)) && t.T?
      ensures Plug(z, t).T? && root == Ptr(Plug(z, t))
    {
      PlugAt(H(), root, z, t);
      PlugT(z, t);
    }
  }

  lemma {:induction false} CtxRoot(z: Ctx, t: Tree)
    requires z.Step?
    ensures Ptr(Plug(z, t)) != null && Ptr(Plug(z, t)) in CSet(z)
  {
    if z.up.Step? { CtxRoot(z.up, Mk(z.d, z.c, t, z.n, z.sib)); }
  }

  lemma BlackRoot(t: Tree)
    requires RedBlack(t) && t.T?
    ensures t.(c := Black) == t
  {
  }

  lemma {:induction false} PlugT(z: Ctx, t: Tree)
    requires t.T?
    ensures Plug(z, t).T?
  {
    if z.Step? { PlugT(z.up, Mk(z.d, z.c, t, z.n, z.sib)); }
  }
}
