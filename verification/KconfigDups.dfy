/** Removal of duplicate and redundant operands.  The passes of the source walk
    one tree with two pointers into it; here both pointers are paths from the
    root the two of them share, so the aliasing is part of the model. */
module KconfigDups {
  import opened Common
  import opened KconfigExpr

  // ---- expr_join_or, expr_join_and ----

  predicate IsComparison(e: Expr) { e.Equal? || e.Unequal? }

  /** The symbol the first operand is about: a comparison or symbol, possibly negated. */
  function FirstSymbol(e: Expr): Option<Symbol> {
    match e
    case Sym(s) => Some(s)
    case Equal(a, _) => Some(a)
    case Unequal(a, _) => Some(a)
    case Not(c) => if c.Sym? then Some(c.s) else if IsComparison(c) then Some(c.a) else None
    case Bin(_, _, _) => None
  }

  /** The symbol the second operand is about: only a symbol may be negated. */
  function SecondSymbol(e: Expr): Option<Symbol> {
    match e
    case Not(c) => if c.Sym? then Some(c.s) else None
    case _ => FirstSymbol(e)
  }

  /** The symbol both operands are about, when it is a boolean or tristate one. */
  function CommonSymbol(a: Expr, b: Expr): Option<Symbol> {
    var s := FirstSymbol(a);
    if s.Some? && s == SecondSymbol(b) && (s.value.Type() == Boolean || s.value.Type() == Tristate) then s else None
  }

  predicate Pair(x: Symbol, y: Symbol, s: Symbol, t: Symbol) {
    (x == s && y == t) || (x == t && y == s)
  }

  /** expr_join_or */
  function JoinOr(a: Expr, b: Expr): (r: Option<Expr>)
    ensures r.Some? ==> r.value == a || !r.value.Bin?
    ensures r.Some? ==> Size(r.value) <= Size(a)
  {
    if ExprEq(a, b) then Some(a)
    else
      var c := CommonSymbol(a, b);
      if c.None? then None
      else
        var s := c.value;
        if s.Type() == Tristate && a.Equal? && b.Equal? then
          if Pair(a.b, b.b, SymYes, SymMod) then Some(Unequal(s, SymNo))
          else if Pair(a.b, b.b, SymYes, SymNo) then Some(Unequal(s, SymMod))
          else if Pair(a.b, b.b, SymMod, SymNo) then Some(Unequal(s, SymYes))
          else None
        else if s.Type() == Boolean && ((a.Not? && a.e.Sym? && b.Sym?) || (b.Not? && b.e.Sym? && a.Sym?)) then
          Some(Sym(SymYes))
        else None
  }

  /** One operand is the symbol itself, the other compares it with `c`. */
  predicate SymAndEqual(a: Expr, b: Expr, c: Symbol) {
    (a.Sym? && b.Equal? && b.b == c) || (b.Sym? && a.Equal? && a.b == c)
  }

  predicate SymAndUnequal(a: Expr, b: Expr, c: Symbol) {
    (a.Sym? && b.Unequal? && b.b == c) || (b.Sym? && a.Unequal? && a.b == c)
  }

  /** s = c together with s != d, for two constants. */
  function EqualUnequal(s: Symbol, c: Symbol, d: Symbol): Expr {
    if c != d then Equal(s, c) else Sym(SymNo)
  }

  /** expr_join_and */
  function JoinAnd(a: Expr, b: Expr): (r: Option<Expr>)
    ensures r.Some? ==> r.value == a || !r.value.Bin?
    ensures r.Some? ==> Size(r.value) <= Size(a)
  {
    if ExprEq(a, b) then Some(a)
    else
      var c := CommonSymbol(a, b);
      if c.None? then None
      else
        var s := c.value;
        if SymAndEqual(a, b, SymYes) then Some(Equal(s, SymYes))
        else if SymAndUnequal(a, b, SymNo) then Some(Sym(s))
        else if SymAndUnequal(a, b, SymMod) then Some(Equal(s, SymYes))
        else if s.Type() != Tristate then None
        else if a.Equal? && b.Unequal? && b.b.IsConst() && a.b.IsConst() then Some(EqualUnequal(s, a.b, b.b))
        else if a.Unequal? && b.Equal? && a.b.IsConst() && b.b.IsConst() then Some(EqualUnequal(s, b.b, a.b))
        else if a.Unequal? && b.Unequal? && Pair(a.b, b.b, SymYes, SymNo) then Some(Equal(s, SymMod))
        else if a.Unequal? && b.Unequal? && Pair(a.b, b.b, SymYes, SymMod) then Some(Equal(s, SymNo))
        else if a.Unequal? && b.Unequal? && Pair(a.b, b.b, SymMod, SymNo) then Some(Equal(s, SymYes))
        else None
  }

  function Join(t: Op, a: Expr, b: Expr): (r: Option<Expr>)
    ensures r.Some? ==> r.value == a || !r.value.Bin?
    ensures r.Some? ==> Size(r.value) <= Size(a)
  {
    if t.OrOp? then JoinOr(a, b) else JoinAnd(a, b)
  }

  lemma JoinOrValue(a: Expr, b: Expr, v: Valuation)
    requires Coherent(v) && JoinOr(a, b).Some?
    ensures Val(JoinOr(a, b).value, v) == Fold(OrOp, Val(a, v), Val(b, v))
  {
    if ExprEq(a, b) {
      ExprEqSound(a, b, v);
    } else {
      var s := CommonSymbol(a, b).value;
      assert v.str(s) == TriName(v.tri(s));
    }
  }

  lemma JoinAndValue(a: Expr, b: Expr, v: Valuation)
    requires Coherent(v) && JoinAnd(a, b).Some?
    ensures Val(JoinAnd(a, b).value, v) == Fold(AndOp, Val(a, v), Val(b, v))
  {
    if ExprEq(a, b) {
      ExprEqSound(a, b, v);
    } else {
      var s := CommonSymbol(a, b).value;
      assert v.str(s) == TriName(v.tri(s));
    }
  }

  /** A joined operand has the value of the two operands it replaces. */
  lemma JoinValue(t: Op, a: Expr, b: Expr, v: Valuation)
    requires Coherent(v) && Join(t, a, b).Some?
    ensures Val(Join(t, a, b).value, v) == Fold(t, Val(a, v), Val(b, v))
  {
    if t.OrOp? { JoinOrValue(a, b, v); } else { JoinAndValue(a, b, v); }
  }

  // ---- Paths through nodes of one operator ----

  type Path = seq<bool>

  predicate On(t: Op, e: Expr, p: Path) {
    p == [] || (IsOp(e, t) && On(t, if p[0] then e.r else e.l, p[1..]))
  }

  function Get(t: Op, e: Expr, p: Path): Expr
    requires On(t, e, p)
  {
    if p == [] then e else Get(t, if p[0] then e.r else e.l, p[1..])
  }

  function Put(t: Op, e: Expr, p: Path, x: Expr): Expr
    requires On(t, e, p)
  {
    if p == [] then x
    else if p[0] then Bin(t, e.l, Put(t, e.r, p[1..], x))
    else Bin(t, Put(t, e.l, p[1..], x), e.r)
  }

  /** An operand of the flattened t-expression e. */
  predicate Leaf(t: Op, e: Expr, p: Path) {
    On(t, e, p) && !IsOp(Get(t, e, p), t)
  }

  /** Same tree of t-nodes; operands may differ. */
  predicate SameShape(t: Op, a: Expr, b: Expr) {
    && (IsOp(a, t) <==> IsOp(b, t))
    && (IsOp(a, t) ==> SameShape(t, a.l, b.l) && SameShape(t, a.r, b.r))
  }

  function Nodes(t: Op, e: Expr): nat {
    if IsOp(e, t) then 1 + Nodes(t, e.l) + Nodes(t, e.r) else 1
  }

  lemma {:induction false} ShapeRefl(t: Op, e: Expr)
    ensures SameShape(t, e, e)
  {
    if IsOp(e, t) { ShapeRefl(t, e.l); ShapeRefl(t, e.r); }
  }

  lemma {:induction false} ShapeTrans(t: Op, a: Expr, b: Expr, c: Expr)
    requires SameShape(t, a, b) && SameShape(t, b, c)
    ensures SameShape(t, a, c)
  {
    if IsOp(a, t) { ShapeTrans(t, a.l, b.l, c.l); ShapeTrans(t, a.r, b.r, c.r); }
  }

  lemma {:induction false} ShapeOn(t: Op, a: Expr, b: Expr, p: Path)
    requires SameShape(t, a, b) && On(t, a, p)
    ensures On(t, b, p) && Nodes(t, Get(t, b, p)) == Nodes(t, Get(t, a, p))
    ensures IsOp(Get(t, a, p), t) <==> IsOp(Get(t, b, p), t)
  {
    if p == [] {
      if IsOp(a, t) { ShapeOn(t, a.l, b.l, []); ShapeOn(t, a.r, b.r, []); }
    } else if p[0] { ShapeOn(t, a.r, b.r, p[1..]); } else { ShapeOn(t, a.l, b.l, p[1..]); }
  }

  lemma {:induction false} OnChild(t: Op, e: Expr, p: Path, d: bool)
    requires On(t, e, p) && IsOp(Get(t, e, p), t)
    ensures On(t, e, p + [d])
    ensures Get(t, e, p + [d]) == if d then Get(t, e, p).r else Get(t, e, p).l
  {
    if p != [] {
      assert (p + [d])[1..] == p[1..] + [d];
      OnChild(t, if p[0] then e.r else e.l, p[1..], d);
    } else {
      assert (p + [d])[1..] == [];
    }
  }

  lemma {:induction false} PutLeaf(t: Op, e: Expr, p: Path, x: Expr)
    requires Leaf(t, e, p) && !IsOp(x, t)
    ensures SameShape(t, e, Put(t, e, p, x))
    ensures On(t, Put(t, e, p, x), p) && Get(t, Put(t, e, p, x), p) == x
    ensures Size(Put(t, e, p, x)) == Size(e) - Size(Get(t, e, p)) + Size(x)
    ensures p != [] ==> Size(Get(t, e, p)) < Size(e)
  {
    if p != [] {
      PutLeaf(t, if p[0] then e.r else e.l, p[1..], x);
      ShapeRefl(t, if p[0] then e.l else e.r);
    }
  }

  /** Two different operands do not overlap. */
  lemma {:induction false} PutOther(t: Op, e: Expr, p: Path, x: Expr, q: Path)
    requires Leaf(t, e, p) && Leaf(t, e, q) && p != q && !IsOp(x, t)
    ensures p != [] && q != []
    ensures Leaf(t, Put(t, e, p, x), q) && Get(t, Put(t, e, p, x), q) == Get(t, e, q)
  {
    if p != [] && q != [] && p[0] == q[0] {
      assert p == [p[0]] + p[1..] && q == [q[0]] + q[1..];
      PutOther(t, if p[0] then e.r else e.l, p[1..], x, q[1..]);
    }
  }

  // ---- expr_eliminate_dups1 ----

  /** An expression and the number of rewrites made so far. */
  datatype Rewritten = Rewritten(e: Expr, count: nat)

  /** The facts a recursive call needs about one step down a path. */
  lemma StepDown(t: Op, e: Expr, p: Path)
    requires On(t, e, p) && IsOp(Get(t, e, p), t)
    ensures On(t, e, p + [false]) && On(t, e, p + [true])
    ensures Nodes(t, Get(t, e, p)) == 1 + Nodes(t, Get(t, e, p + [false])) + Nodes(t, Get(t, e, p + [true]))
  {
    OnChild(t, e, p, false);
    OnChild(t, e, p, true);
  }

  /** expr_eliminate_dups1 on one pair of different operands. */
  function Dups1Leaf(t: Op, e: Expr, p1: Path, p2: Path, inner: Rewritten): (r: Rewritten)
    requires Leaf(t, e, p1) && Leaf(t, e, p2) && p1 != p2
    requires !IsOp(inner.e, t) && Size(inner.e) <= Size(Get(t, e, p1))
    ensures SameShape(t, e, r.e) && Size(r.e) <= Size(e)
  {
    var e' := Put(t, e, p1, inner.e);
    PutLeaf(t, e, p1, inner.e);
    PutOther(t, e, p1, inner.e, p2);
    var j := Join(t, inner.e, Get(t, e', p2));
    if j.None? then Rewritten(e', inner.count)
    else
      var unit := Sym(Unit(t));
      PutLeaf(t, e, p1, unit);
      PutOther(t, e, p1, unit, p2);
      var e'' := Put(t, e, p1, unit);
      PutLeaf(t, e'', p2, j.value);
      ShapeTrans(t, e, e'', Put(t, e'', p2, j.value));
      Rewritten(Put(t, e'', p2, j.value), inner.count + 1)
  }

  /** expr_eliminate_dups1(t, &e[p1], &e[p2]) */
  function Dups1(t: Op, e: Expr, p1: Path, p2: Path, n: nat): (r: Rewritten)
    requires On(t, e, p1) && On(t, e, p2)
    ensures SameShape(t, e, r.e) && Size(r.e) <= Size(e)
    decreases Size(e), Nodes(t, Get(t, e, p1)) + Nodes(t, Get(t, e, p2))
  {
    var e1 := Get(t, e, p1);
    var e2 := Get(t, e, p2);
    if IsOp(e1, t) then
      StepDown(t, e, p1);
      var r := Dups1(t, e, p1 + [false], p2, n);
      ShapeOn(t, e, r.e, p1 + [true]);
      ShapeOn(t, e, r.e, p2);
      var r' := Dups1(t, r.e, p1 + [true], p2, r.count);
      ShapeTrans(t, e, r.e, r'.e);
      r'
    else if IsOp(e2, t) then
      StepDown(t, e, p2);
      var r := Dups1(t, e, p1, p2 + [false], n);
      ShapeOn(t, e, r.e, p1);
      ShapeOn(t, e, r.e, p2 + [true]);
      var r' := Dups1(t, r.e, p1, p2 + [true], r.count);
      ShapeTrans(t, e, r.e, r'.e);
      r'
    else if p1 == p2 then
      ShapeRefl(t, e);
      Rewritten(e, n)
    else
      PutOther(t, e, p1, e1, p2);
      PutLeaf(t, e, p1, e1);
      var inner := if e1.Bin? then Dups1(e1.op, e1, [], [], n) else Rewritten(e1, n);
      Dups1Leaf(t, e, p1, p2, inner)
  }

  // ---- expr_eliminate_dups2 ----

  /** The operand e1 is contradicted by e2: every operand of its negation occurs in e2. */
  predicate Contradicts(t: Op, e1: Expr, e2: Expr) {
    var tmp1 := Transform(Not(e1));
    var (acc, a, b) := ExtractEq(t, None, tmp1, e2);
    (if acc.Some? then EliminateYn(a) else a) == Sym(Unit(t))
  }

  function Dups2Leaf(t: Op, e: Expr, p1: Path, p2: Path, inner: Rewritten): (r: Rewritten)
    requires Leaf(t, e, p1) && On(t, e, p2)
    requires !IsOp(inner.e, t) && Size(inner.e) <= Size(Get(t, e, p1))
    ensures SameShape(t, e, r.e) && Size(r.e) <= Size(e)
  {
    var e' := Put(t, e, p1, inner.e);
    PutLeaf(t, e, p1, inner.e);
    ShapeOn(t, e, e', p2);
    if Contradicts(t, inner.e, Get(t, e', p2)) then
      PutLeaf(t, e, p1, Sym(Zero(t)));
      Rewritten(Put(t, e, p1, Sym(Zero(t))), inner.count + 1)
    else Rewritten(e', inner.count)
  }

  /** expr_eliminate_dups2(t, &e[p1], &e[p2]); after the operands of e2 the whole of e2 is tried too. */
  function Dups2(t: Op, e: Expr, p1: Path, p2: Path, n: nat): (r: Rewritten)
    requires On(t, e, p1) && On(t, e, p2)
    ensures SameShape(t, e, r.e) && Size(r.e) <= Size(e)
    decreases Size(e), Nodes(t, Get(t, e, p1)) + Nodes(t, Get(t, e, p2))
  {
    var e1 := Get(t, e, p1);
    var e2 := Get(t, e, p2);
    if IsOp(e1, t) then
      StepDown(t, e, p1);
      var r := Dups2(t, e, p1 + [false], p2, n);
      ShapeOn(t, e, r.e, p1 + [true]);
      ShapeOn(t, e, r.e, p2);
      var r' := Dups2(t, r.e, p1 + [true], p2, r.count);
      ShapeTrans(t, e, r.e, r'.e);
      r'
    else
      var r := Dups2Operands(t, e, p1, p2, n);
      ShapeOn(t, e, r.e, p1);
      ShapeOn(t, e, r.e, p2);
      var e1' := Get(t, r.e, p1);
      if p1 == p2 || !e1'.Bin? then r
      else
        PutLeaf(t, r.e, p1, e1');
        NotRoot(t, e, p1, p2);
        var inner := Dups2(e1'.op, e1', [], [], r.count);
        var r' := Dups2Leaf(t, r.e, p1, p2, inner);
        ShapeTrans(t, e, r.e, r'.e);
        r'
  }

  /** The two calls for the operands of e2, when e2 is a t-node. */
  function Dups2Operands(t: Op, e: Expr, p1: Path, p2: Path, n: nat): (r: Rewritten)
    requires Leaf(t, e, p1) && On(t, e, p2)
    ensures SameShape(t, e, r.e) && Size(r.e) <= Size(e)
    decreases Size(e), Nodes(t, Get(t, e, p1)) + Nodes(t, Get(t, e, p2)), 0
  {
    if IsOp(Get(t, e, p2), t) then
      StepDown(t, e, p2);
      var r := Dups2(t, e, p1, p2 + [false], n);
      ShapeOn(t, e, r.e, p1);
      ShapeOn(t, e, r.e, p2 + [true]);
      var r' := Dups2(t, r.e, p1, p2 + [true], r.count);
      ShapeTrans(t, e, r.e, r'.e);
      r'
    else
      ShapeRefl(t, e);
      Rewritten(e, n)
  }

  lemma NotRoot(t: Op, e: Expr, p1: Path, p2: Path)
    requires Leaf(t, e, p1) && On(t, e, p2) && p1 != p2
    ensures p1 != []
  {
  }

  // ---- What the passes do to the value ----

  lemma {:induction false} PutValue(t: Op, e: Expr, p: Path, x: Expr, v: Valuation)
    requires On(t, e, p) && Val(x, v) == Val(Get(t, e, p), v)
    ensures Val(Put(t, e, p, x), v) == Val(e, v)
  {
    if p != [] { PutValue(t, if p[0] then e.r else e.l, p[1..], x, v); }
  }

  /** The value of all operands but the one at p. */
  function Rest(t: Op, e: Expr, p: Path, v: Valuation): Tri
    requires On(t, e, p)
  {
    if p == [] then Neutral(t)
    else if p[0] then Fold(t, Val(e.l, v), Rest(t, e.r, p[1..], v))
    else Fold(t, Rest(t, e.l, p[1..], v), Val(e.r, v))
  }

  lemma {:induction false} PutRest(t: Op, e: Expr, p: Path, x: Expr, v: Valuation)
    requires On(t, e, p)
    ensures Val(Put(t, e, p, x), v) == Fold(t, Val(x, v), Rest(t, e, p, v))
    ensures Val(e, v) == Fold(t, Val(Get(t, e, p), v), Rest(t, e, p, v))
  {
    hide Fold;
    if p == [] {
      FoldUnit(t, Val(x, v));
      FoldUnit(t, Val(e, v));
    } else {
      var sub, other := if p[0] then e.r else e.l, Val(if p[0] then e.l else e.r, v);
      PutRest(t, sub, p[1..], x, v);
      var rest := Rest(t, sub, p[1..], v);
      FoldMove(t, other, Val(x, v), rest);
      FoldMove(t, other, Val(Get(t, sub, p[1..]), v), rest);
    }
  }

  lemma FoldUnit(t: Op, x: Tri)
    ensures Fold(t, x, Neutral(t)) == x
  {
  }

  lemma FoldMove(t: Op, a: Tri, x: Tri, r: Tri)
    ensures Fold(t, a, Fold(t, x, r)) == Fold(t, x, Fold(t, a, r))
    ensures Fold(t, Fold(t, x, r), a) == Fold(t, x, Fold(t, r, a))
  {
  }

  /** Replacing two operands by two others of the same joint value keeps the value of the whole. */
  lemma {:induction false} PutTwo(t: Op, e: Expr, p: Path, x: Expr, q: Path, y: Expr, v: Valuation)
    requires Leaf(t, e, p) && Leaf(t, e, q) && p != q && !IsOp(x, t)
    requires Fold(t, Val(x, v), Val(y, v)) == Fold(t, Val(Get(t, e, p), v), Val(Get(t, e, q), v))
    ensures On(t, Put(t, e, p, x), q) && Val(Put(t, Put(t, e, p, x), q, y), v) == Val(e, v)
  {
    hide Fold;
    PutOther(t, e, p, x, q);
    if p[0] == q[0] {
      assert p == [p[0]] + p[1..] && q == [q[0]] + q[1..];
      PutTwo(t, if p[0] then e.r else e.l, p[1..], x, q[1..], y, v);
    } else {
      var c, d := if p[0] then e.r else e.l, if q[0] then e.r else e.l;
      PutRest(t, c, p[1..], x, v);
      PutRest(t, d, q[1..], y, v);
      FoldSwap(t, Val(Get(t, c, p[1..]), v), Val(Get(t, d, q[1..]), v), Val(x, v), Val(y, v),
               Rest(t, c, p[1..], v), Rest(t, d, q[1..], v));
    }
  }

  lemma FoldSwap(t: Op, a: Tri, b: Tri, x: Tri, y: Tri, c: Tri, d: Tri)
    requires Fold(t, a, b) == Fold(t, x, y)
    ensures Fold(t, Fold(t, a, c), Fold(t, b, d)) == Fold(t, Fold(t, x, c), Fold(t, y, d))
    ensures Fold(t, Fold(t, b, d), Fold(t, a, c)) == Fold(t, Fold(t, y, d), Fold(t, x, c))
  {
  }

  lemma Dups1LeafValue(t: Op, e: Expr, p1: Path, p2: Path, inner: Rewritten, v: Valuation)
    requires Leaf(t, e, p1) && Leaf(t, e, p2) && p1 != p2
    requires !IsOp(inner.e, t) && Size(inner.e) <= Size(Get(t, e, p1))
    requires Coherent(v) && Val(inner.e, v) == Val(Get(t, e, p1), v)
    ensures Val(Dups1Leaf(t, e, p1, p2, inner).e, v) == Val(e, v)
  {
    var e' := Put(t, e, p1, inner.e);
    PutLeaf(t, e, p1, inner.e);
    PutOther(t, e, p1, inner.e, p2);
    var j := Join(t, inner.e, Get(t, e', p2));
    if j.None? {
      PutValue(t, e, p1, inner.e, v);
    } else {
      JoinValue(t, inner.e, Get(t, e', p2), v);
      PutTwo(t, e, p1, Sym(Unit(t)), p2, j.value, v);
    }
  }

  /** The aliased first pass keeps the value of the whole expression, for every tristate valuation. */
  lemma {:induction false} Dups1Value(t: Op, e: Expr, p1: Path, p2: Path, n: nat, v: Valuation)
    requires On(t, e, p1) && On(t, e, p2) && Coherent(v)
    ensures Val(Dups1(t, e, p1, p2, n).e, v) == Val(e, v)
    decreases Size(e), Nodes(t, Get(t, e, p1)) + Nodes(t, Get(t, e, p2))
  {
    hide Coherent;
    var e1 := Get(t, e, p1);
    var e2 := Get(t, e, p2);
    if IsOp(e1, t) {
      StepDown(t, e, p1);
      var r := Dups1(t, e, p1 + [false], p2, n);
      Dups1Value(t, e, p1 + [false], p2, n, v);
      ShapeOn(t, e, r.e, p1 + [true]);
      ShapeOn(t, e, r.e, p2);
      Dups1Value(t, r.e, p1 + [true], p2, r.count, v);
    } else if IsOp(e2, t) {
      StepDown(t, e, p2);
      var r := Dups1(t, e, p1, p2 + [false], n);
      Dups1Value(t, e, p1, p2 + [false], n, v);
      ShapeOn(t, e, r.e, p1);
      ShapeOn(t, e, r.e, p2 + [true]);
      Dups1Value(t, r.e, p1, p2 + [true], r.count, v);
    } else if p1 != p2 {
      PutOther(t, e, p1, e1, p2);
      PutLeaf(t, e, p1, e1);
      if e1.Bin? { Dups1Value(e1.op, e1, [], [], n, v); }
      Dups1LeafValue(t, e, p1, p2, if e1.Bin? then Dups1(e1.op, e1, [], [], n) else Rewritten(e1, n), v);
    }
  }

  /** x is m or equals y: y says no less than x. */
  predicate Sharpens(x: Tri, y: Tri) { x == 1 || x == y }

  lemma {:induction false} PutSharpens(t: Op, e: Expr, p: Path, x: Expr, v: Valuation)
    requires On(t, e, p) && Sharpens(Val(Get(t, e, p), v), Val(x, v))
    ensures Sharpens(Val(e, v), Val(Put(t, e, p, x), v))
  {
    if p != [] { PutSharpens(t, if p[0] then e.r else e.l, p[1..], x, v); }
  }

  /** A contradicted operand is bounded by the negation it is tested against. */
  lemma ContradictsSound(t: Op, e1: Expr, e2: Expr, v: Valuation)
    requires Coherent(v) && Contradicts(t, e1, e2)
    ensures Fold(t, Val(e2, v), 2 - Val(e1, v)) == Val(e2, v)
  {
    hide Transform, ExtractEq, EliminateYn, Coherent, Val, Fold;
    UnitAndNot(t, e1, v);
    var tmp1 := Transform(Not(e1));
    TransformValue(Not(e1), v);
    var (acc, a, b) := ExtractEq(t, None, tmp1, e2);
    var c := ExtractEqSound(t, None, tmp1, e2, v);
    EliminateYnValue(a, v);
    Absorb(t, Val(a, v), Val(b, v), c);
  }

  lemma UnitAndNot(t: Op, e: Expr, v: Valuation)
    requires Coherent(v)
    ensures Val(Sym(Unit(t)), v) == Neutral(t) && Val(Not(e), v) == 2 - Val(e, v)
  {
  }

  function Neutral(t: Op): Tri { if t.AndOp? then 2 else 0 }

  lemma Absorb(t: Op, a: Tri, b: Tri, c: Tri)
    ensures a == Neutral(t) ==> Fold(t, Fold(t, b, c), Fold(t, a, c)) == Fold(t, b, c)
  {
  }

  /** Dropping a contradicted operand makes the whole the zero of the operator.  It was that
      already, or it was m: the value is kept exactly when the whole is not m. */
  lemma DropExact(t: Op, e: Expr, p1: Path, p2: Path, v: Valuation)
    requires Coherent(v) && On(t, e, p1) && On(t, e, p2)
    requires Contradicts(t, Get(t, e, p1), Get(t, e, p2))
    ensures Val(Put(t, e, p1, Sym(Zero(t))), v) == v.tri(Zero(t))
    ensures Val(Put(t, e, p1, Sym(Zero(t))), v) == Val(e, v) <==> Val(e, v) != 1
  {
    hide Contradicts, Put, Get, On, Rest;
    ContradictsSound(t, Get(t, e, p1), Get(t, e, p2), v);
    PutRest(t, e, p1, Sym(Zero(t)), v);
    PutRest(t, e, p2, Sym(Zero(t)), v);
    assert Val(Sym(Zero(t)), v) == 2 - Neutral(t);
    Opposed(t, Val(Get(t, e, p1), v), Val(Get(t, e, p2), v), Rest(t, e, p1, v), Rest(t, e, p2, v));
  }

  lemma Opposed(t: Op, x: Tri, y: Tri, r: Tri, s: Tri)
    requires Fold(t, y, 2 - x) == y && Fold(t, x, r) == Fold(t, y, s)
    ensures Fold(t, 2 - Neutral(t), r) == 2 - Neutral(t)
    ensures Fold(t, x, r) == 1 || Fold(t, x, r) == 2 - Neutral(t)
  {
  }

  lemma Dups2LeafValue(t: Op, e: Expr, p1: Path, p2: Path, inner: Rewritten, v: Valuation)
    requires Leaf(t, e, p1) && On(t, e, p2) && Coherent(v)
    requires !IsOp(inner.e, t) && Size(inner.e) <= Size(Get(t, e, p1))
    requires Sharpens(Val(Get(t, e, p1), v), Val(inner.e, v))
    ensures Sharpens(Val(e, v), Val(Dups2Leaf(t, e, p1, p2, inner).e, v))
  {
    var e' := Put(t, e, p1, inner.e);
    PutLeaf(t, e, p1, inner.e);
    ShapeOn(t, e, e', p2);
    PutSharpens(t, e, p1, inner.e, v);
    if Contradicts(t, inner.e, Get(t, e', p2)) {
      DropExact(t, e', p1, p2, v);
      PutPut(t, e, p1, inner.e, Sym(Zero(t)));
    }
  }

  lemma {:induction false} PutPut(t: Op, e: Expr, p: Path, x: Expr, y: Expr)
    requires On(t, e, p) && On(t, Put(t, e, p, x), p)
    ensures Put(t, Put(t, e, p, x), p, y) == Put(t, e, p, y)
  {
    if p != [] { PutPut(t, if p[0] then e.r else e.l, p[1..], x, y); }
  }

  /** The second pass changes the value of the whole only where it was m. */
  lemma {:induction false} Dups2Value(t: Op, e: Expr, p1: Path, p2: Path, n: nat, v: Valuation)
    requires On(t, e, p1) && On(t, e, p2) && Coherent(v)
    ensures Sharpens(Val(e, v), Val(Dups2(t, e, p1, p2, n).e, v))
    decreases Size(e), Nodes(t, Get(t, e, p1)) + Nodes(t, Get(t, e, p2))
  {
    hide Coherent;
    if IsOp(Get(t, e, p1), t) {
      StepDown(t, e, p1);
      var r := Dups2(t, e, p1 + [false], p2, n);
      Dups2Value(t, e, p1 + [false], p2, n, v);
      ShapeOn(t, e, r.e, p1 + [true]);
      ShapeOn(t, e, r.e, p2);
      Dups2Value(t, r.e, p1 + [true], p2, r.count, v);
    } else {
      var r := Dups2Operands(t, e, p1, p2, n);
      Dups2OperandsValue(t, e, p1, p2, n, v);
      ShapeOn(t, e, r.e, p1);
      ShapeOn(t, e, r.e, p2);
      var e1' := Get(t, r.e, p1);
      if p1 != p2 && e1'.Bin? {
        PutLeaf(t, r.e, p1, e1');
        NotRoot(t, e, p1, p2);
        Dups2Value(e1'.op, e1', [], [], r.count, v);
        Dups2LeafValue(t, r.e, p1, p2, Dups2(e1'.op, e1', [], [], r.count), v);
      }
    }
  }

  lemma {:induction false} Dups2OperandsValue(t: Op, e: Expr, p1: Path, p2: Path, n: nat, v: Valuation)
    requires Leaf(t, e, p1) && On(t, e, p2) && Coherent(v)
    ensures Sharpens(Val(e, v), Val(Dups2Operands(t, e, p1, p2, n).e, v))
    decreases Size(e), Nodes(t, Get(t, e, p1)) + Nodes(t, Get(t, e, p2)), 0
  {
    hide Coherent;
    if IsOp(Get(t, e, p2), t) {
      StepDown(t, e, p2);
      var r := Dups2(t, e, p1, p2 + [false], n);
      Dups2Value(t, e, p1, p2 + [false], n, v);
      ShapeOn(t, e, r.e, p1);
      ShapeOn(t, e, r.e, p2 + [true]);
      Dups2Value(t, r.e, p1, p2 + [true], r.count, v);
    }
  }

  // ---- Why the passes reach a fixed point ----

  /** Either nothing was rewritten and the expression is the same, or eliminating constants now makes it smaller. */
  predicate Progress(e: Expr, n: nat, r: Rewritten) {
    && r.count >= n
    && (r.count == n ==> r.e == e)
    && (r.count > n ==> Size(EliminateYn(r.e)) < Size(e))
  }

  lemma {:induction false} YnPut(t: Op, e: Expr, p: Path, x: Expr)
    requires On(t, e, p)
    ensures Size(EliminateYn(Put(t, e, p, x))) <= Size(e) - Size(Get(t, e, p)) + Size(EliminateYn(x))
  {
    hide EliminateYn;
    if p != [] {
      YnPut(t, if p[0] then e.r else e.l, p[1..], x);
      var e' := Put(t, e, p, x);
      YnBin(t, e'.l, e'.r);
    }
  }

  lemma YnBin(t: Op, l: Expr, r: Expr)
    ensures Size(EliminateYn(Bin(t, l, r))) <= 1 + Size(EliminateYn(l)) + Size(EliminateYn(r))
    ensures Size(EliminateYn(l)) <= Size(l) && Size(EliminateYn(r)) <= Size(r)
  {
  }

  lemma {:induction false} PutSame(t: Op, e: Expr, p: Path)
    requires On(t, e, p)
    ensures Put(t, e, p, Get(t, e, p)) == e
  {
    if p != [] { PutSame(t, if p[0] then e.r else e.l, p[1..]); }
  }

  lemma {:induction false} YnConstant(t: Op, e: Expr, p: Path)
    requires On(t, e, p) && p != [] && (Get(t, e, p) == Sym(SymYes) || Get(t, e, p) == Sym(SymNo))
    ensures Size(EliminateYn(e)) < Size(e)
  {
    if |p| > 1 { YnConstant(t, if p[0] then e.r else e.l, p[1..]); }
  }

  lemma Dups1LeafProgress(t: Op, e: Expr, p1: Path, p2: Path, n: nat, inner: Rewritten)
    requires Leaf(t, e, p1) && Leaf(t, e, p2) && p1 != p2
    requires !IsOp(inner.e, t) && Size(inner.e) <= Size(Get(t, e, p1))
    requires Progress(Get(t, e, p1), n, inner)
    ensures Progress(e, n, Dups1Leaf(t, e, p1, p2, inner))
  {
    var e' := Put(t, e, p1, inner.e);
    PutLeaf(t, e, p1, inner.e);
    PutOther(t, e, p1, inner.e, p2);
    YnPut(t, e, p1, inner.e);
    PutSame(t, e, p1);
    var j := Join(t, inner.e, Get(t, e', p2));
    if j.Some? {
      var unit := Sym(Unit(t));
      PutLeaf(t, e, p1, unit);
      PutOther(t, e, p1, unit, p2);
      var e'' := Put(t, e, p1, unit);
      PutLeaf(t, e'', p2, j.value);
      PutOther(t, e'', p2, j.value, p1);
      YnConstant(t, Put(t, e'', p2, j.value), p1);
    }
  }

  lemma {:induction false} Dups1Progress(t: Op, e: Expr, p1: Path, p2: Path, n: nat)
    requires On(t, e, p1) && On(t, e, p2)
    ensures Progress(e, n, Dups1(t, e, p1, p2, n))
    decreases Size(e), Nodes(t, Get(t, e, p1)) + Nodes(t, Get(t, e, p2))
  {
    var e1 := Get(t, e, p1);
    var e2 := Get(t, e, p2);
    if IsOp(e1, t) {
      StepDown(t, e, p1);
      var r := Dups1(t, e, p1 + [false], p2, n);
      Dups1Progress(t, e, p1 + [false], p2, n);
      ShapeOn(t, e, r.e, p1 + [true]);
      ShapeOn(t, e, r.e, p2);
      Dups1Progress(t, r.e, p1 + [true], p2, r.count);
    } else if IsOp(e2, t) {
      StepDown(t, e, p2);
      var r := Dups1(t, e, p1, p2 + [false], n);
      Dups1Progress(t, e, p1, p2 + [false], n);
      ShapeOn(t, e, r.e, p1);
      ShapeOn(t, e, r.e, p2 + [true]);
      Dups1Progress(t, r.e, p1, p2 + [true], r.count);
    } else if p1 != p2 {
      PutOther(t, e, p1, e1, p2);
      PutLeaf(t, e, p1, e1);
      if e1.Bin? { Dups1Progress(e1.op, e1, [], [], n); }
      Dups1LeafProgress(t, e, p1, p2, n, if e1.Bin? then Dups1(e1.op, e1, [], [], n) else Rewritten(e1, n));
    }
  }

  lemma Dups2LeafProgress(t: Op, e: Expr, p1: Path, p2: Path, n: nat, inner: Rewritten)
    requires Leaf(t, e, p1) && On(t, e, p2) && p1 != p2
    requires !IsOp(inner.e, t) && Size(inner.e) <= Size(Get(t, e, p1))
    requires Progress(Get(t, e, p1), n, inner)
    ensures Progress(e, n, Dups2Leaf(t, e, p1, p2, inner))
  {
    var e' := Put(t, e, p1, inner.e);
    PutLeaf(t, e, p1, inner.e);
    ShapeOn(t, e, e', p2);
    YnPut(t, e, p1, inner.e);
    PutSame(t, e, p1);
    NotRoot(t, e, p1, p2);
    PutLeaf(t, e, p1, Sym(Zero(t)));
    YnConstant(t, Put(t, e, p1, Sym(Zero(t))), p1);
  }

  lemma {:induction false} Dups2Progress(t: Op, e: Expr, p1: Path, p2: Path, n: nat)
    requires On(t, e, p1) && On(t, e, p2)
    ensures Progress(e, n, Dups2(t, e, p1, p2, n))
    decreases Size(e), Nodes(t, Get(t, e, p1)) + Nodes(t, Get(t, e, p2))
  {
    if IsOp(Get(t, e, p1), t) {
      StepDown(t, e, p1);
      var r := Dups2(t, e, p1 + [false], p2, n);
      Dups2Progress(t, e, p1 + [false], p2, n);
      ShapeOn(t, e, r.e, p1 + [true]);
      ShapeOn(t, e, r.e, p2);
      Dups2Progress(t, r.e, p1 + [true], p2, r.count);
    } else {
      var r := Dups2Operands(t, e, p1, p2, n);
      Dups2OperandsProgress(t, e, p1, p2, n);
      ShapeOn(t, e, r.e, p1);
      ShapeOn(t, e, r.e, p2);
      var e1' := Get(t, r.e, p1);
      if p1 != p2 && e1'.Bin? {
        PutLeaf(t, r.e, p1, e1');
        NotRoot(t, e, p1, p2);
        Dups2Progress(e1'.op, e1', [], [], r.count);
        Dups2LeafProgress(t, r.e, p1, p2, r.count, Dups2(e1'.op, e1', [], [], r.count));
      }
    }
  }

  lemma {:induction false} Dups2OperandsProgress(t: Op, e: Expr, p1: Path, p2: Path, n: nat)
    requires Leaf(t, e, p1) && On(t, e, p2)
    ensures Progress(e, n, Dups2Operands(t, e, p1, p2, n))
    decreases Size(e), Nodes(t, Get(t, e, p1)) + Nodes(t, Get(t, e, p2)), 0
  {
    if IsOp(Get(t, e, p2), t) {
      StepDown(t, e, p2);
      var r := Dups2(t, e, p1, p2 + [false], n);
      Dups2Progress(t, e, p1, p2 + [false], n);
      ShapeOn(t, e, r.e, p1);
      ShapeOn(t, e, r.e, p2 + [true]);
      Dups2Progress(t, r.e, p1, p2 + [true], r.count);
    }
  }
}
