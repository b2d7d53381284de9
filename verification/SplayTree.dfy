/** The top-down splay tree macros over caller-owned nodes.  The mirror-image
    halves of the loop are one text with a direction. */
module SplayTree {
  import opened Sides
  import opened SplaySpec

  class SplayHead {
    var root: Item?
    ghost var nodes: set<Item>
    ghost var tree: Tree

    ghost function H(): (h: Mem)
      reads this`nodes, nodes
      ensures h.Keys == nodes
    {
      map n: Item | n in nodes :: Links(n.left, n.right)
    }

    ghost predicate Is(t: Tree)
      reads this`root, this`nodes, nodes
    {
      root == Ptr(t) && Rep(H(), t) && Distinct(t) && Set(t) == nodes
    }

    ghost predicate Valid()
      reads this, nodes
    {
      Is(tree) && Ordered(Inorder(tree))
    }

    /** SPLAY_INIT */
    constructor ()
      ensures Valid() && nodes == {}
    {
      root, nodes, tree := null, {}, E;
    }

    method SetChild(x: Item, d: Dir, p: Item?)
      requires x in nodes
      modifies x
      ensures H() == old(H())[x := old(H())[x].SetChild(d, p)]
    {
      if d.L? { x.left := p; } else { x.right := p; }
    }

    function Child(x: Item, d: Dir): (p: Item?)
      requires x in nodes
      reads this`nodes, nodes
      ensures p == H()[x].Child(d)
    {
      if d.L? then x.left else x.right
    }

    ghost predicate State(d: Dir, base: Item, t: Tree, ad: Acc, ao: Acc)
      reads this`root, this`nodes, nodes
    {
      t.T? && PartsD(H(), d, base, root, t, ad, ao) && nodes == Set(t) + ASet(ad) + ASet(ao) + {base}
    }

    /** SPLAY_ROTATE_RIGHT when d is L, SPLAY_ROTATE_LEFT when d is R */
    method Rotate(d: Dir, tmp: Item, ghost base: Item, ghost t: Tree, ghost ad: Acc, ghost ao: Acc)
      returns (ghost t': Tree)
      requires State(d, base, t, ad, ao) && Ptr(Sub(t, d)) == tmp
      modifies this`root, nodes
      ensures State(d, base, t', ad, ao) && Inorder(t') == Inorder(t) && root == tmp && t' == Rotated(d, t)
    {
      hide Rep, ARep, Distinct, ADistinct, Inorder, Spine, H, Set, ASet;
      ghost var h, x, c, y := H(), t.n, Sub(t, d.Opp()), Sub(t, d);
      ghost var p, q := Sub(y, d), Sub(y, d.Opp());
      LookBelow(d, base, t, ad, ao);
      assert t == Mk(d, Mk(d, p, tmp, q), x, c);
      MkFacts(h, d, p, tmp, q);
      MkFacts(h, d, Mk(d, p, tmp, q), x, c);
      SetChild(root, d, Child(tmp, d.Opp()));
      SetChild(tmp, d.Opp(), root);
      root := tmp;
      RotateParts(h, H(), d, base, p, tmp, q, x, c, ad, ao);
      RotateInorder(d, p, tmp, q, x, c);
      t' := Mk(d, p, tmp, Mk(d, q, x, c));
      MkFacts(h, d, q, x, c);
      MkFacts(h, d, p, tmp, Mk(d, q, x, c));
    }

    /** SPLAY_LINKLEFT when d is L, SPLAY_LINKRIGHT when d is R */
    method Link(d: Dir, last: Item, ghost base: Item, ghost t: Tree, ghost ad: Acc, ghost ao: Acc)
      returns (last': Item, ghost t': Tree, ghost ad': Acc)
      requires State(d, base, t, ad, ao) && Sub(t, d).T? && last == Last(ad, base)
      modifies this`root, nodes
      ensures t' == Sub(t, d) && ad' == Cons(Sub(t, d.Opp()), t.n, ad)
      ensures State(d, base, t', ad', ao) && last' == Last(ad', base)
    {
      hide Rep, ARep, Distinct, ADistinct, Spine, H, Set, ASet, Mk;
      ghost var h, u, x, c := H(), Sub(t, d), t.n, Sub(t, d.Opp());
      Look(d, base, t, ad, ao);
      Rebuilt(d, t);
      MkFacts(h, d, u, x, c);
      ConsFacts(h, d, c, x, ad, base);
      SetChild(last, d, root);
      LinkParts(h, H(), d, base, u, x, c, ad, ao);
      last' := root;
      t', ad' := u, Cons(c, x, ad);
      root := Child(root, d);
    }

    lemma Rebuilt(d: Dir, t: Tree)
      requires t.T?
      ensures t == Mk(d, Sub(t, d), t.n, Sub(t, d.Opp()))
    {
    }

    lemma LookBelow(d: Dir, base: Item, t: Tree, ad: Acc, ao: Acc)
      requires State(d, base, t, ad, ao) && Sub(t, d).T?
      ensures root == t.n && Sub(t, d).n in nodes
      ensures Child(Sub(t, d).n, d.Opp()) == Ptr(Sub(Sub(t, d), d.Opp()))
    {
      hide ARep, ADistinct;
      assert Rep(H(), Sub(t, d));
    }

    /** What the code reads at the root and at the hole. */
    lemma Look(d: Dir, base: Item, t: Tree, ad: Acc, ao: Acc)
      requires State(d, base, t, ad, ao)
      ensures t.T? && root == t.n && t.n in nodes && base in nodes && Last(ad, base) in nodes
      ensures t.n != base && t.n != Last(ad, base)
      ensures Child(t.n, d) == Ptr(Sub(t, d))
      ensures Sub(t, d).T? ==> Sub(t, d).n in nodes
    {
      hide ARep, ADistinct;
    }
  
    /** One round of the loop in SPLAY; `stop` where the loop breaks out. */
    method Round(key: int, d: Dir, last: Item, ghost base: Item, ghost t: Tree, ghost ad: Acc, ghost ao: Acc)
      returns (stop: bool, last': Item, ghost t': Tree, ghost ad': Acc)
      requires State(d, base, t, ad, ao) && last == Last(ad, base)
      requires Ordered(AroundD(d, ad, t, ao)) && SidedD(key, d, ad, ao) && Towards(d, key, t.n)
      modifies this`root, nodes
      ensures State(d, base, t', ad', ao) && last' == Last(ad', base)
      ensures AroundD(d, ad', t', ao) == AroundD(d, ad, t, ao) && SidedD(key, d, ad', ao)
      ensures if stop then Stopped(t', key) else |Inorder(t')| < |Inorder(t)|
      ensures WholeD(d, ad', if stop then t' else Splayed(t', key), ao) == WholeD(d, ad, Splayed(t, key), ao)
    {
      hide State, Around, Inorder, Ordered, Sided, H, Splayed, WholeD, Rotated;
      last', t', ad' := last, t, ad;
      Look(d, base, t, ad, ao);
      SplayedStop(d, t, key);
      var tmp := Child(root, d);
      if tmp == null { return true, last', t', ad'; }
      if Towards(d, key, tmp) {
        t' := Rotate(d, tmp, base, t, ad, ao);
        SameAround(d, t, t', ad, ao);
        Look(d, base, t', ad, ao);
        if Child(root, d) == null { return true, last', t', ad'; }
      }
      ghost var u, x, c := Sub(t', d), t'.n, Sub(t', d.Opp());
      assert t' == Mk(d, u, x, c);
      LinkInorder(d, u, x, c, ad, ao);
      LinkSided(key, d, u, x, c, ad, ao);
      SplayedLink(d, t, key, ad, ao);
      Smaller(t', d);
      last', t', ad' := Link(d, last, base, t', ad, ao);
      stop := false;
    }

    lemma SameAround(d: Dir, t: Tree, t': Tree, ad: Acc, ao: Acc)
      requires Inorder(t) == Inorder(t')
      ensures AroundD(d, ad, t', ao) == AroundD(d, ad, t, ao)
    {
    }

    lemma Smaller(t: Tree, d: Dir)
      requires t.T?
      ensures |Inorder(Sub(t, d))| < |Inorder(t)|
    {
    }

    /** SPLAY */
    method Splay(key: int)
      requires Valid() && root != null
      modifies this, nodes
      ensures Valid() && nodes == old(nodes) && Inorder(tree) == old(Inorder(tree)) && Pivot(tree, key)
      ensures tree == Splayed(old(tree), key)
    {
      hide Rep, ARep, Distinct, ADistinct, Around, Inorder, Ordered, Sided, H, Splayed;
      ghost var s, t, al, ar := Inorder(tree), tree, Nil, Nil;
      var node := StackNode();
      var left, right := node, node;
      var stop := false;
      while !stop && key != root.key
        invariant State(L, node, t, al, ar) && right == Last(al, node) && left == Last(ar, node)
        invariant Around(al, t, ar) == s && Sided(key, al, ar) && root == t.n && nodes == old(nodes) + {node}
        invariant stop ==> Stopped(t, key)
        invariant WholeD(L, al, if stop then t else Splayed(t, key), ar) == Splayed(old(tree), key)
        decreases !stop, |Inorder(t)|
      {
        if key < root.key {
          stop, right, t, al := Round(key, L, right, node, t, al, ar);
        } else {
          stop, left, t, ar := Round(key, R, left, node, t, ar, al);
        }
      }
      SplayedFound(t, key);
      Assemble(key, node, left, right, t, al, ar);
    }

    lemma SplayedFound(t: Tree, key: int)
      ensures t.T? && key == t.n.key ==> Splayed(t, key) == t
    {
    }

    /** The stack node of SPLAY, on which both accumulators start. */
    method StackNode() returns (node: Item)
      requires Valid() && root != null
      modifies this`nodes
      ensures fresh(node) && nodes == old(nodes) + {node}
      ensures State(L, node, tree, Nil, Nil) && Around(Nil, tree, Nil) == Inorder(tree)
      ensures forall key :: Sided(key, Nil, Nil)
    {
      node := new Item(0);
      ghost var h := H();
      nodes := nodes + {node};
      RepFrame(h, H(), tree);
    }

    /** SPLAY_ASSEMBLE; the stack node is gone afterwards. */
    method Assemble(key: int, node: Item, left: Item, right: Item, ghost t: Tree, ghost al: Acc, ghost ar: Acc)
      requires State(L, node, t, al, ar) && right == Last(al, node) && left == Last(ar, node)
      requires Ordered(Around(al, t, ar)) && Sided(key, al, ar) && Stopped(t, key)
      modifies this, nodes
      ensures Valid() && nodes == old(nodes) - {node} && Inorder(tree) == Around(al, t, ar) && Pivot(tree, key)
      ensures tree == WholeD(L, al, t, ar)
    {
      hide Rep, ARep, Distinct, ADistinct, Around, Inorder, Ordered, Sided, H, Fill, Set, ASet;
      Look(L, node, t, al, ar);
      Look(R, node, t, ar, al);
      ghost var h := H();
      assert node !in Set(t) + ASet(al) + ASet(ar);
      ghost var h1 := AssembleLinks(node, left, right);
      AssembleParts(h, h1, H(), node, t, al, ar);
      AssembleOrder(key, t, al, ar);
      tree := T(Fill(R, ar, t.l), t.n, Fill(L, al, t.r));
      Forget(node);
    }

    method AssembleLinks(node: Item, left: Item, right: Item) returns (ghost h1: Mem)
      requires root != null && {root, node, left, right} <= nodes && root !in {node, left, right}
      modifies nodes
      ensures h1 == var h := old(H()); var g := h[left := h[left].SetChild(R, h[root].left)];
                    g[right := g[right].SetChild(L, h[root].right)]
      ensures H() == h1[root := Links(h1[node].right, h1[node].left)]
    {
      hide H;
      SetChild(left, R, Child(root, L));
      SetChild(right, L, Child(root, R));
      h1 := H();
      SetChild(root, L, Child(node, R));
      SetChild(root, R, Child(node, L));
    }

    ghost method Forget(node: Item)
      requires node in nodes && node !in Set(tree) && Rep(H(), tree)
      modifies this`nodes
      ensures nodes == old(nodes) - {node} && Rep(H(), tree)
    {
      var h := H();
      nodes := nodes - {node};
      RepFrame(h, H(), tree);
    }
  
    /** SPLAY_FIND */
    method Find(key: int) returns (r: Item?)
      requires Valid()
      modifies this, nodes
      ensures Valid() && nodes == old(nodes) && Inorder(tree) == old(Inorder(tree))
      ensures r != null ==> r in nodes && r.key == key && r == root
      ensures r == null ==> forall n :: n in nodes ==> n.key != key
      ensures tree == if old(tree).E? then E else Splayed(old(tree), key)
    {
      hide Rep, Inorder, Ordered, Distinct, Pivot, Splayed;
      if root == null { return null; }
      Splay(key);
      PivotFinds(tree, key);
      return if key == root.key then root else null;
    }

    /** SPLAY_INSERT: the pivot and one of its subtrees go below the new root; an equal node is left alone. */
    method Insert(elm: Item) returns (found: Item?)
      requires Valid()
      modifies this, nodes, elm
      ensures Valid()
      ensures found != null ==>
        && found in nodes && found.key == elm.key && nodes == old(nodes) && Inorder(tree) == old(Inorder(tree))
        && old(tree).T? && tree == Splayed(old(tree), elm.key)
      ensures found == null ==> nodes == old(nodes) + {elm} && (forall n :: n in old(nodes) ==> n.key != elm.key)
      ensures found == null ==> Inserted(old(Inorder(tree)), elm, Inorder(tree)) && tree == Entered(old(tree), elm)
    {
      hide Rep, Inorder, Ordered, Distinct, Pivot, Inserted, Splayed;
      if root == null {
        elm.left, elm.right := null, null;
        nodes := nodes + {elm};
        tree := T(E, elm, E);
        Single(H(), elm);
      } else {
        Splay(elm.key);
        PivotFinds(tree, elm.key);
        if elm.key == root.key { return root; }
        Crown(elm, if elm.key < root.key then L else R);
      }
      root := elm;
      return null;
    }

    lemma Single(h: Mem, x: Item)
      requires x in h && h[x] == Links(null, null)
      ensures Rep(h, T(E, x, E)) && Distinct(T(E, x, E)) && Set(T(E, x, E)) == {x} && Inorder(T(E, x, E)) == [x]
      ensures Ordered([x]) && Inserted([], x, [x]) && Inorder(E) == []
    {
      assert [][..0] + [x] + [][0..] == [x];
    }

    lemma RootLinks(h: Mem, t: Tree, d: Dir)
      requires t.T? && Rep(h, t)
      ensures t.n in Set(t) && t.n in h && h[t.n] == LinksD(d, Ptr(Sub(t, d)), Ptr(Sub(t, d.Opp())))
      ensures forall x :: Ptr(Crowned(d, t, x)) == x
    {
    }

    lemma PivotRoot(t: Tree, k: int)
      requires Pivot(t, k)
      ensures t.T?
    {
    }

    /** Lines 170-172 of SPLAY_INSERT when d is L, lines 174-176 when d is R. */
    method Crown(elm: Item, d: Dir)
      requires Valid() && elm !in nodes && Pivot(tree, elm.key) && Towards(d, elm.key, tree.n)
      modifies this`nodes, this`tree, nodes, elm
      ensures nodes == old(nodes) + {elm} && Rep(H(), tree) && Distinct(tree) && Set(tree) == nodes && Ptr(tree) == elm
      ensures Ordered(Inorder(tree)) && Inserted(old(Inorder(tree)), elm, Inorder(tree))
      ensures tree == Crowned(d, old(tree), elm)
    {
      hide Inorder, Ordered, Inserted, Rep, Distinct, Set, Mk, Crowned, Pivot;
      ghost var h, t := H(), tree;
      PivotRoot(t, elm.key);
      RootLinks(h, t, d);
      nodes := nodes + {elm};
      SetChild(elm, d, Child(root, d));
      SetChild(elm, d.Opp(), root);
      SetChild(root, d, null);
      CrownRep(h, H(), d, t, elm);
      CrownOrder(d, t, elm);
      tree := Crowned(d, t, elm);
    }

    /** SPLAY_REMOVE: the key is splayed to the root, and again to the top of the left subtree. */
    method Remove(elm: Item) returns (r: Item?)
      requires Valid()
      modifies this, nodes
      ensures Valid()
      ensures r == null ==>
        && nodes == old(nodes) && Inorder(tree) == old(Inorder(tree)) && (forall n :: n in nodes ==> n.key != elm.key)
        && tree == if old(tree).E? then E else Splayed(old(tree), elm.key)
      ensures r != null ==> r == elm && old(tree).T? && tree == Departed(old(tree), elm.key)
      ensures r != null ==>
        exists x :: x in old(nodes) && x.key == elm.key
                    && nodes == old(nodes) - {x} && Inserted(Inorder(tree), x, old(Inorder(tree)))
    {
      hide Rep, Inorder, Ordered, Distinct, Pivot, Inserted, Splayed;
      if root == null { return null; }
      Splay(elm.key);
      PivotFinds(tree, elm.key);
      if elm.key != root.key { return null; }
      ghost var x := root;
      Uproot(elm.key);
      return elm;
    }

    /** Lines 192-199 of SPLAY_REMOVE. */
    method Uproot(key: int)
      requires Valid() && root != null && Pivot(tree, key)
      modifies this, nodes
      ensures Valid() && nodes == old(nodes) - {old(root)} && Inserted(Inorder(tree), old(root), old(Inorder(tree)))
      ensures var p := old(tree);
        tree == if p.l.E? then p.r else var q := Splayed(p.l, key); T(q.l, q.n, p.r)
    {
      hide Inorder, Ordered, Inserted, Splayed;
      ghost var h, t := H(), tree;
      UprootOrder(t, key);
      var tmp := root.right;
      root := root.left;
      if root == null {
        root := tmp;
        nodes, tree := nodes - {t.n}, t.r;
        RepFrame(h, H(), t.r);
      } else {
        nodes, tree := Set(t.l), t.l;
        RepFrame(h, H(), t.l);
        Splay(key);
        Rejoin(tmp, key, t.r, h);
      }
    }
  
    /** The right subtree goes below the maximum of the left one. */
    method Rejoin(tmp: Item?, key: int, ghost r: Tree, ghost h: Mem)
      requires Valid() && root != null && Pivot(tree, key) && Below(Inorder(tree), key)
      requires Ordered(Inorder(tree) + Inorder(r))
      requires tmp == Ptr(r) && Rep(h, r) && Distinct(r) && Set(r) !! nodes && Set(r) <= h.Keys
      requires forall n :: n in Set(r) ==> n in h && h[n] == Links(n.left, n.right)
      modifies this, nodes
      ensures Valid() && nodes == old(nodes) + Set(r) && Inorder(tree) == old(Inorder(tree)) + Inorder(r)
      ensures tree == T(old(tree).l, old(tree).n, r)
    {
      hide Inorder, Ordered, Distinct;
      ghost var t := tree;
      NoRight(t, key);
      nodes := nodes + Set(r);
      RepFrame(h, H(), r);
      RepFrame(old(H()), H(), t);
      ghost var g := H();
      SetChild(root, R, tmp);
      JoinRep(g, H(), t, r);
      tree := T(t.l, t.n, r);
    }
  }
}
