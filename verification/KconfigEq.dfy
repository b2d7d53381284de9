/** When two expressions compare equal: each with itself, and any two of one operator that have
    the same operands. */
module KconfigEq {
  import opened Common
  import opened KconfigExpr
  import opened KconfigDups

  // ---- expr_eq is reflexive ----

  /** A constant that the pairwise elimination passes over. */
  predicate Inert(e: Expr) { e == Sym(SymYes) || e == Sym(SymNo) }

  predicate AllInert(t: Op, e: Expr) {
    if IsOp(e, t) then AllInert(t, e.l) && AllInert(t, e.r) else Inert(e)
  }

  /** Every operand that is no such constant replaced by the unit. */
  function Blank(t: Op, e: Expr): Expr {
    if IsOp(e, t) then Bin(t, Blank(t, e.l), Blank(t, e.r)) else if Inert(e) then e else Sym(Unit(t))
  }

  /** The operands left of the one at p are all such constants. */
  predicate InertBefore(t: Op, e: Expr, p: Path)
    requires On(t, e, p)
  {
    p != [] ==>
      && InertBefore(t, if p[0] then e.r else e.l, p[1..])
      && (p[0] ==> AllInert(t, e.l))
  }

  lemma {:induction false} BlankInert(t: Op, e: Expr)
    ensures AllInert(t, Blank(t, e))
  {
    if IsOp(e, t) { BlankInert(t, e.l); BlankInert(t, e.r); }
  }

  lemma {:induction false} InertYn(t: Op, e: Expr)
    requires AllInert(t, e)
    ensures Inert(EliminateYn(e))
  {
    if IsOp(e, t) { InertYn(t, e.l); InertYn(t, e.r); }
  }

  lemma {:induction false} ConstantKeeps(t: Op, c: Expr, b: Expr)
    requires Inert(c)
    ensures ElimPairs(t, c, b) == (c, b)
  {
    if IsOp(b, t) { ConstantKeeps(t, c, b.l); ConstantKeeps(t, c, b.r); }
  }

  lemma {:induction false} InertIgnored(t: Op, x: Expr, b: Expr)
    requires !IsOp(x, t) && !Inert(x) && AllInert(t, b)
    ensures ElimPairs(t, x, b) == (x, b)
  {
    if IsOp(b, t) { InertIgnored(t, x, b.l); InertIgnored(t, x, b.r); }
  }

  /** An operand is taken out together with its own occurrence when only constants come before that. */
  lemma {:induction false} FindsItself(t: Op, b: Expr, p: Path)
    requires Leaf(t, b, p) && InertBefore(t, b, p) && ExprEq(Get(t, b, p), Get(t, b, p))
    ensures ElimPairs(t, Get(t, b, p), b) == (Blank(t, Get(t, b, p)), Put(t, b, p, Blank(t, Get(t, b, p))))
  {
    var x := Get(t, b, p);
    if Inert(x) {
      ConstantKeeps(t, x, b);
      PutSame(t, b, p);
    } else if p != [] {
      if p[0] {
        InertIgnored(t, x, b.l);
        FindsItself(t, b.r, p[1..]);
      } else {
        FindsItself(t, b.l, p[1..]);
        ConstantKeeps(t, Sym(Unit(t)), b.r);
      }
    }
  }

  lemma {:induction false} PutChildren(t: Op, e: Expr, p: Path, x: Expr, y: Expr)
    requires On(t, e, p) && IsOp(Get(t, e, p), t)
    ensures On(t, e, p + [false]) && On(t, Put(t, e, p + [false], x), p + [true])
    ensures Get(t, Put(t, e, p + [false], x), p + [true]) == Get(t, e, p).r
    ensures Put(t, Put(t, e, p + [false], x), p + [true], y) == Put(t, e, p, Bin(t, x, y))
    ensures InertBefore(t, e, p) ==> InertBefore(t, e, p + [false])
    ensures InertBefore(t, e, p) && AllInert(t, x) ==> InertBefore(t, Put(t, e, p + [false], x), p + [true])
  {
    OnChild(t, e, p, false);
    if p == [] {
      assert (p + [false])[1..] == [] && (p + [true])[1..] == [];
    } else {
      assert (p + [false])[1..] == p[1..] + [false] && (p + [true])[1..] == p[1..] + [true];
      PutChildren(t, if p[0] then e.r else e.l, p[1..], x, y);
    }
  }

  predicate OperandsRefl(t: Op, e: Expr) {
    if IsOp(e, t) then OperandsRefl(t, e.l) && OperandsRefl(t, e.r) else ExprEq(e, e)
  }

  /** The part of b at p is taken out of b, operand by operand. */
  lemma {:induction false} ElimSelf(t: Op, b: Expr, p: Path)
    requires On(t, b, p) && InertBefore(t, b, p) && OperandsRefl(t, Get(t, b, p))
    ensures ElimPairs(t, Get(t, b, p), b) == (Blank(t, Get(t, b, p)), Put(t, b, p, Blank(t, Get(t, b, p))))
    decreases Nodes(t, Get(t, b, p))
  {
    var a := Get(t, b, p);
    if IsOp(a, t) {
      var l := Blank(t, a.l);
      OnChild(t, b, p, false);
      BlankInert(t, a.l);
      PutChildren(t, b, p, l, Blank(t, a.r));
      ElimSelf(t, b, p + [false]);
      ElimSelf(t, Put(t, b, p + [false], l), p + [true]);
    } else {
      FindsItself(t, b, p);
    }
  }

  lemma {:induction false} OperandsReflexive(t: Op, e: Expr)
    ensures OperandsRefl(t, e)
    decreases Size(e), if IsOp(e, t) then 0 else 2
  {
    if IsOp(e, t) {
      OperandsReflexive(t, e.l);
      OperandsReflexive(t, e.r);
    } else {
      ExprEqRefl(e);
    }
  }

  /** Every expression compares equal to itself. */
  lemma {:induction false} ExprEqRefl(e: Expr)
    ensures ExprEq(e, e)
    decreases Size(e), 1
  {
    match e
    case Not(c) => ExprEqRefl(c);
    case Bin(t, _, _) =>
      OperandsReflexive(t, e);
      ElimSelf(t, e, []);
      BlankInert(t, e);
      InertYn(t, Blank(t, e));
    case _ =>
  }

  /** Two equal expressions are taken out of each other: only constants are left, the same on both sides. */
  lemma EqualTakenOut(e: Expr)
    requires e.Bin?
    ensures ElimPairs(e.op, e, e) == (Blank(e.op, e), Blank(e.op, e))
    ensures Inert(EliminateEq(e, e).0) && EliminateEq(e, e).0 == EliminateEq(e, e).1
  {
    OperandsReflexive(e.op, e);
    ElimSelf(e.op, e, []);
    BlankInert(e.op, e);
    InertYn(e.op, Blank(e.op, e));
  }

  // ---- expr_eq does not depend on order or nesting ----

  /** The operands of the flattened t-expression e. */
  function Operands(t: Op, e: Expr): set<Expr> {
    if IsOp(e, t) then Operands(t, e.l) + Operands(t, e.r) else {e}
  }

  /** No two operands of e are equal. */
  ghost predicate Apart(t: Op, e: Expr) {
    forall p: Path, q: Path :: Leaf(t, e, p) && Leaf(t, e, q) && p != q ==>
      Get(t, e, p) != Get(t, e, q) && !ExprEq(Get(t, e, p), Get(t, e, q))
  }

  /** The same, along the tree. */
  predicate Separate(t: Op, e: Expr) {
    IsOp(e, t) ==>
      && Separate(t, e.l) && Separate(t, e.r)
      && Operands(t, e.l) !! Operands(t, e.r)
      && forall x, y :: x in Operands(t, e.l) && y in Operands(t, e.r) ==> !ExprEq(y, x)
  }

  lemma {:induction false} OperandAt(t: Op, e: Expr, x: Expr) returns (p: Path)
    requires x in Operands(t, e)
    ensures Leaf(t, e, p) && Get(t, e, p) == x
  {
    if IsOp(e, t) {
      var d := x !in Operands(t, e.l);
      p := OperandAt(t, if d then e.r else e.l, x);
      p := [d] + p;
    } else {
      p := [];
    }
  }

  lemma {:induction false} OperandOf(t: Op, e: Expr, p: Path)
    requires Leaf(t, e, p)
    ensures Get(t, e, p) in Operands(t, e)
  {
    if p != [] { OperandOf(t, if p[0] then e.r else e.l, p[1..]); }
  }

  lemma {:induction false} ApartBelow(t: Op, e: Expr, d: bool)
    requires IsOp(e, t) && Apart(t, e)
    ensures Apart(t, if d then e.r else e.l)
  {
    var c := if d then e.r else e.l;
    forall p: Path, q: Path | Leaf(t, c, p) && Leaf(t, c, q) && p != q
      ensures Get(t, c, p) != Get(t, c, q) && !ExprEq(Get(t, c, p), Get(t, c, q))
    {
      var p', q' := [d] + p, [d] + q;
      assert p'[1..] == p && q'[1..] == q;
      assert Leaf(t, e, p') && Leaf(t, e, q');
    }
  }

  lemma {:induction false} ApartSeparate(t: Op, e: Expr)
    requires Apart(t, e)
    ensures Separate(t, e)
  {
    if IsOp(e, t) {
      ApartBelow(t, e, false);
      ApartBelow(t, e, true);
      ApartSeparate(t, e.l);
      ApartSeparate(t, e.r);
      forall x, y | x in Operands(t, e.l) && y in Operands(t, e.r)
        ensures x != y && !ExprEq(y, x)
      {
        var p := OperandAt(t, e.l, x);
        var q := OperandAt(t, e.r, y);
        var p', q' := [false] + p, [true] + q;
        assert p'[1..] == p && q'[1..] == q;
        assert Leaf(t, e, p') && Leaf(t, e, q');
      }
    }
  }

  /** The operands in s replaced by the unit. */
  function CrossOut(t: Op, e: Expr, s: set<Expr>): Expr {
    if IsOp(e, t) then Bin(t, CrossOut(t, e.l, s), CrossOut(t, e.r, s))
    else if e in s then Sym(Unit(t)) else e
  }

  lemma {:induction false} CrossSame(t: Op, e: Expr, s: set<Expr>, s': set<Expr>)
    requires forall x :: x in Operands(t, e) ==> (x in s <==> x in s')
    ensures CrossOut(t, e, s) == CrossOut(t, e, s')
  {
    if IsOp(e, t) { CrossSame(t, e.l, s, s'); CrossSame(t, e.r, s, s'); }
  }

  lemma {:induction false} CrossNone(t: Op, e: Expr)
    ensures CrossOut(t, e, {}) == e
  {
    if IsOp(e, t) { CrossNone(t, e.l); CrossNone(t, e.r); }
  }

  lemma {:induction false} CrossMiss(t: Op, x: Expr, e: Expr, s: set<Expr>)
    requires !IsOp(x, t) && x != Sym(Unit(t)) && forall y :: y in Operands(t, e) ==> !ExprEq(x, y)
    ensures ElimPairs(t, x, CrossOut(t, e, s)) == (x, CrossOut(t, e, s))
  {
    if IsOp(e, t) { CrossMiss(t, x, e.l, s); CrossMiss(t, x, e.r, s); }
  }

  /** Among operands that all differ, an operand finds itself. */
  lemma {:induction false} CrossOne(t: Op, x: Expr, e: Expr, s: set<Expr>)
    requires x in Operands(t, e) && x !in s && !Inert(x) && !IsOp(x, t) && Separate(t, e)
    ensures ElimPairs(t, x, CrossOut(t, e, s)) == (Sym(Unit(t)), CrossOut(t, e, s + {x}))
  {
    if !IsOp(e, t) {
      ExprEqRefl(x);
    } else if x in Operands(t, e.l) {
      CrossOne(t, x, e.l, s);
      ConstantKeeps(t, Sym(Unit(t)), CrossOut(t, e.r, s));
      CrossSame(t, e.r, s, s + {x});
    } else {
      CrossMiss(t, x, e.l, s);
      CrossSame(t, e.l, s, s + {x});
      CrossOne(t, x, e.r, s);
    }
  }

  function Live(t: Op, e: Expr): set<Expr> {
    set x | x in Operands(t, e) && !Inert(x)
  }

  lemma {:induction false} CrossAll(t: Op, a: Expr, e: Expr, s: set<Expr>)
    requires Operands(t, a) <= Operands(t, e) && Operands(t, a) !! s && Separate(t, a) && Separate(t, e)
    ensures ElimPairs(t, a, CrossOut(t, e, s)) == (Blank(t, a), CrossOut(t, e, s + Live(t, a)))
  {
    hide ExprEq, CrossOut, Unit;
    if IsOp(a, t) {
      CrossAll(t, a.l, e, s);
      CrossAll(t, a.r, e, s + Live(t, a.l));
      assert s + Live(t, a.l) + Live(t, a.r) == s + Live(t, a);
    } else if Inert(a) {
      ConstantKeeps(t, a, CrossOut(t, e, s));
      CrossSame(t, e, s, s + Live(t, a));
    } else {
      CrossOne(t, a, e, s);
      assert s + Live(t, a) == s + {a};
    }
  }

  lemma {:induction false} CrossBlank(t: Op, e: Expr, s: set<Expr>)
    requires forall x :: x in Operands(t, e) ==> (x in s <==> !Inert(x))
    ensures CrossOut(t, e, s) == Blank(t, e)
  {
    if IsOp(e, t) { CrossBlank(t, e.l, s); CrossBlank(t, e.r, s); }
  }

  /** What is left of blanked operands is the zero if it was among them, and the unit otherwise. */
  lemma {:induction false} BlankYn(t: Op, e: Expr)
    ensures EliminateYn(Blank(t, e)) == Sym(if Sym(Zero(t)) in Operands(t, e) then Zero(t) else Unit(t))
  {
    if IsOp(e, t) { BlankYn(t, e.l); BlankYn(t, e.r); }
  }

  /** Expressions of one operator with the same operands compare equal, whatever their order and nesting. */
  lemma SameOperandsEqual(a: Expr, b: Expr)
    requires a.Bin? && IsOp(b, a.op) && Operands(a.op, a) == Operands(a.op, b) && Apart(a.op, a) && Apart(a.op, b)
    ensures ExprEq(a, b)
  {
    var t := a.op;
    ApartSeparate(t, a);
    ApartSeparate(t, b);
    CrossNone(t, b);
    CrossAll(t, a, b, {});
    CrossBlank(t, b, {} + Live(t, a));
    BlankYn(t, a);
    BlankYn(t, b);
  }
}
