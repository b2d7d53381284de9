/** What is left when the passes find nothing more: no operand occurs twice, no two operands join, and
    no operand is contradicted by the others. */
module KconfigClean {
  import opened Common
  import opened KconfigExpr
  import opened KconfigDups
  import opened KconfigEq

  // ---- What the first pass leaves ----

  /** Two operands that the tables of the source combine into one, on either side. */
  predicate Tabled(t: Op, a: Expr, b: Expr) {
    TabledOne(t, a, b) || TabledOne(t, b, a)
  }

  predicate TabledOne(t: Op, a: Expr, b: Expr) {
    match t
    case OrOp =>
      || (a.Equal? && b.Equal? && a.a == b.a && a.a.Type() == Tristate
          && a.b != b.b && a.b.IsBuiltin() && b.b.IsBuiltin())
      || (a.Sym? && a.s.Type() == Boolean && b == Not(a))
    case AndOp =>
      || (a.Sym? && (a.s.Type() == Boolean || a.s.Type() == Tristate)
          && (b == Equal(a.s, SymYes) || b == Unequal(a.s, SymNo) || b == Unequal(a.s, SymMod)))
      || (a.Equal? && b.Unequal? && a.a == b.a && a.a.Type() == Tristate && a.b.IsConst() && b.b.IsConst())
      || (a.Unequal? && b.Unequal? && a.a == b.a && a.a.Type() == Tristate
          && a.b != b.b && a.b.IsBuiltin() && b.b.IsBuiltin())
  }

  /** Two operands are combined exactly when they are equal or the tables name them. */
  lemma JoinExact(t: Op, a: Expr, b: Expr)
    ensures Join(t, a, b).Some? <==> ExprEq(a, b) || Tabled(t, a, b)
    ensures a == b ==> ExprEq(a, b)
  {
    if a == b { ExprEqRefl(a); }
    hide ExprEq, JoinOr, JoinAnd, Tabled;
    if t.OrOp? { JoinOrExact(a, b); } else { JoinAndExact(a, b); }
  }

  lemma JoinOrExact(a: Expr, b: Expr)
    ensures JoinOr(a, b).Some? <==> ExprEq(a, b) || Tabled(OrOp, a, b)
  {
    hide ExprEq;
  }

  lemma JoinAndExact(a: Expr, b: Expr)
    ensures JoinAnd(a, b).Some? <==> ExprEq(a, b) || Tabled(AndOp, a, b)
  {
    hide ExprEq;
  }

  /** No two operands of e are equal or combine. */
  ghost predicate Reduced(t: Op, e: Expr) {
    forall p: Path, q: Path :: Leaf(t, e, p) && Leaf(t, e, q) && p != q ==>
      var a, b := Get(t, e, p), Get(t, e, q);
      a != b && !ExprEq(a, b) && !Tabled(t, a, b)
  }

  lemma {:induction false} LeafBelow(t: Op, e: Expr, p: Path)
    requires Leaf(t, e, p) && IsOp(e, t)
    ensures p != [] && Size(Get(t, e, p)) < Size(e)
  {
    if |p| > 1 { LeafBelow(t, if p[0] then e.r else e.l, p[1..]); }
  }

  /** So at every level of conjunctions and disjunctions. */
  ghost predicate DupFree(e: Expr)
    decreases Size(e)
  {
    e.Bin? ==>
      && Reduced(e.op, e)
      && forall p: Path :: Leaf(e.op, e, p) ==> (LeafBelow(e.op, e, p); DupFree(Get(e.op, e, p)))
  }

  lemma {:induction false} LeafEnd(t: Op, e: Expr, p: Path, x: Path)
    requires On(t, e, p) && Leaf(t, e, p + x)
    ensures !IsOp(Get(t, e, p), t) <==> x == []
  {
    if p == [] {
      assert p + x == x;
    } else {
      assert (p + x)[1..] == p[1..] + x;
      LeafEnd(t, if p[0] then e.r else e.l, p[1..], x);
    }
  }

  /** A first pass that rewrites nothing has compared every operand below p1 with every other operand below p2. */
  lemma {:induction false} Dups1Clean(t: Op, e: Expr, p1: Path, p2: Path, n: nat, x: Path, y: Path)
    requires On(t, e, p1) && On(t, e, p2) && Dups1(t, e, p1, p2, n).count == n
    requires Leaf(t, e, p1 + x) && Leaf(t, e, p2 + y) && p1 + x != p2 + y
    ensures var a, b := Get(t, e, p1 + x), Get(t, e, p2 + y);
      a != b && !ExprEq(a, b) && !Tabled(t, a, b) && DupFree(a)
    decreases Size(e), Nodes(t, Get(t, e, p1)) + Nodes(t, Get(t, e, p2))
  {
    hide ExprEq, Tabled, Join;
    LeafEnd(t, e, p1, x);
    LeafEnd(t, e, p2, y);
    var e1 := Get(t, e, p1);
    var e2 := Get(t, e, p2);
    if IsOp(e1, t) {
      StepDown(t, e, p1);
      var r := Dups1(t, e, p1 + [false], p2, n);
      Dups1Progress(t, e, p1 + [false], p2, n);
      ShapeOn(t, e, r.e, p1 + [true]);
      ShapeOn(t, e, r.e, p2);
      Dups1Progress(t, r.e, p1 + [true], p2, r.count);
      assert p1 + x == (p1 + [x[0]]) + x[1..];
      if x[0] {
        Dups1Clean(t, e, p1 + [true], p2, n, x[1..], y);
      } else {
        Dups1Clean(t, e, p1 + [false], p2, n, x[1..], y);
      }
    } else if IsOp(e2, t) {
      StepDown(t, e, p2);
      var r := Dups1(t, e, p1, p2 + [false], n);
      Dups1Progress(t, e, p1, p2 + [false], n);
      ShapeOn(t, e, r.e, p1);
      ShapeOn(t, e, r.e, p2 + [true]);
      Dups1Progress(t, r.e, p1, p2 + [true], r.count);
      assert p2 + y == (p2 + [y[0]]) + y[1..];
      if y[0] {
        Dups1Clean(t, e, p1, p2 + [true], n, x, y[1..]);
      } else {
        Dups1Clean(t, e, p1, p2 + [false], n, x, y[1..]);
      }
    } else {
      assert p1 + x == p1 && p2 + y == p2;
      LeafClean(t, e, p1, p2, n);
      if e1.Bin? { InnerClean(e1, n); }
    }
  }

  lemma LeafClean(t: Op, e: Expr, p1: Path, p2: Path, n: nat)
    requires Leaf(t, e, p1) && Leaf(t, e, p2) && p1 != p2 && Dups1(t, e, p1, p2, n).count == n
    ensures var a, b := Get(t, e, p1), Get(t, e, p2);
      a != b && !ExprEq(a, b) && !Tabled(t, a, b) && Size(a) < Size(e)
    ensures var a := Get(t, e, p1); a.Bin? ==> Dups1(a.op, a, [], [], n).count == n
  {
    hide ExprEq, Tabled, Join;
    var a, b := Get(t, e, p1), Get(t, e, p2);
    PutOther(t, e, p1, a, p2);
    PutLeaf(t, e, p1, a);
    PutSame(t, e, p1);
    if a.Bin? { Dups1Progress(a.op, a, [], [], n); }
    JoinExact(t, a, b);
  }

  /** Every operand has another beside it. */
  lemma {:induction false} AnotherLeaf(t: Op, e: Expr, p: Path) returns (q: Path)
    requires IsOp(e, t) && Leaf(t, e, p)
    ensures Leaf(t, e, q) && q != p
  {
    var c := if p[0] then e.l else e.r;
    q := FirstLeaf(t, c);
    q := [!p[0]] + q;
  }

  lemma {:induction false} FirstLeaf(t: Op, e: Expr) returns (p: Path)
    ensures Leaf(t, e, p)
  {
    if IsOp(e, t) {
      p := FirstLeaf(t, e.l);
      p := [false] + p;
    } else {
      p := [];
    }
  }

  lemma {:induction false} InnerClean(e: Expr, n: nat)
    requires e.Bin? && Dups1(e.op, e, [], [], n).count == n
    ensures DupFree(e)
    decreases Size(e)
  {
    hide ExprEq, Tabled;
    var t := e.op;
    forall p: Path, q: Path | Leaf(t, e, p) && Leaf(t, e, q) && p != q
      ensures var a, b := Get(t, e, p), Get(t, e, q); a != b && !ExprEq(a, b) && !Tabled(t, a, b)
    {
      assert [] + p == p && [] + q == q;
      Dups1Clean(t, e, [], [], n, p, q);
    }
    forall p: Path | Leaf(t, e, p)
      ensures DupFree(Get(t, e, p))
    {
      var q := AnotherLeaf(t, e, p);
      assert [] + p == p && [] + q == q;
      Dups1Clean(t, e, [], [], n, p, q);
    }
  }

  // ---- What the second pass leaves ----

  /** The negation of an expression in normal form. */
  function Neg(e: Expr): Expr {
    match e
    case Sym(s) =>
      if s == SymYes then Sym(SymNo) else if s == SymNo then Sym(SymYes) else if s == SymMod then e else Not(e)
    case Not(c) => c
    case Bin(op, l, r) => Bin(Dual(op), Neg(l), Neg(r))
    case Equal(a, b) => Unequal(a, b)
    case Unequal(a, b) => Equal(a, b)
  }

  lemma {:induction false} NegTwice(e: Expr)
    requires NormalForm(e)
    ensures NormalForm(Neg(e)) && Neg(Neg(e)) == e
  {
    if e.Bin? { NegTwice(e.l); NegTwice(e.r); }
  }

  lemma {:induction false} TransformNeg(e: Expr)
    requires NormalForm(e)
    ensures Transform(Not(e)) == Neg(e)
  {
    NormalFixed(e);
    if e.Bin? { TransformNeg(e.l); TransformNeg(e.r); }
  }

  lemma {:induction false} NegOperands(t: Op, e: Expr)
    requires NormalForm(e)
    ensures Operands(t, Neg(e)) == set w | w in Operands(Dual(t), e) :: Neg(w)
    ensures forall w :: w in Operands(Dual(t), e) ==> NormalForm(w)
  {
    if IsOp(e, Dual(t)) { NegOperands(t, e.l); NegOperands(t, e.r); }
  }

  /** Operands that differ have negations that differ. */
  lemma {:induction false} NegDistinct(t: Op, e: Expr)
    requires NormalForm(e) && Distinct(Dual(t), e)
    ensures Distinct(t, Neg(e))
  {
    if IsOp(e, Dual(t)) {
      NegDistinct(t, e.l);
      NegDistinct(t, e.r);
      NegOperands(t, e.l);
      NegOperands(t, e.r);
      forall x | x in Operands(t, Neg(e.l)) && x in Operands(t, Neg(e.r))
        ensures false
      {
        var v :| v in Operands(Dual(t), e.l) && Neg(v) == x;
        var w :| w in Operands(Dual(t), e.r) && Neg(w) == x;
        NegTwice(v);
        NegTwice(w);
      }
    }
  }

  predicate Distinct(t: Op, e: Expr) {
    IsOp(e, t) ==> Distinct(t, e.l) && Distinct(t, e.r) && Operands(t, e.l) !! Operands(t, e.r)
  }

  lemma {:induction false} SeparateDistinct(t: Op, e: Expr)
    requires Separate(t, e)
    ensures Distinct(t, e)
  {
    if IsOp(e, t) { SeparateDistinct(t, e.l); SeparateDistinct(t, e.r); }
  }

  lemma {:induction false} ExtractUnit(t: Op, acc: Option<Expr>, b: Expr)
    ensures var (acc', a', b') := ExtractEq(t, acc, Sym(Unit(t)), b);
      a' == Sym(Unit(t)) && b' == b && (acc.Some? || Sym(Unit(t)) in Operands(t, b) ==> acc'.Some?)
    decreases b
  {
    if IsOp(b, t) {
      ExtractUnit(t, acc, b.l);
      ExtractUnit(t, ExtractEq(t, acc, Sym(Unit(t)), b.l).0, b.r);
    }
  }

  lemma {:induction false} ExtractMiss(t: Op, acc: Option<Expr>, x: Expr, e: Expr, s: set<Expr>)
    requires !IsOp(x, t) && x != Sym(Unit(t)) && forall y :: y in Operands(t, e) ==> !ExprEq(x, y)
    ensures ExtractEq(t, acc, x, CrossOut(t, e, s)) == (acc, x, CrossOut(t, e, s))
  {
    if IsOp(e, t) { ExtractMiss(t, acc, x, e.l, s); ExtractMiss(t, acc, x, e.r, s); }
  }

  lemma {:induction false} CrossUnit(t: Op, e: Expr, s: set<Expr>)
    ensures CrossOut(t, e, s + {Sym(Unit(t))}) == CrossOut(t, e, s)
    ensures Sym(Unit(t)) in Operands(t, e) ==> Sym(Unit(t)) in Operands(t, CrossOut(t, e, s))
  {
    if IsOp(e, t) { CrossUnit(t, e.l, s); CrossUnit(t, e.r, s); }
  }

  /** Among operands that all differ, an operand is extracted with its own occurrence. */
  lemma {:induction false} ExtractOne(t: Op, acc: Option<Expr>, x: Expr, e: Expr, s: set<Expr>)
    requires x in Operands(t, e) && x !in s && !IsOp(x, t) && Separate(t, e)
    ensures var (acc', a', b') := ExtractEq(t, acc, x, CrossOut(t, e, s));
      acc'.Some? && a' == Sym(Unit(t)) && b' == CrossOut(t, e, s + {x})
  {
    if x == Sym(Unit(t)) {
      CrossUnit(t, e, s);
      ExtractUnit(t, acc, CrossOut(t, e, s));
    } else if !IsOp(e, t) {
      ExprEqRefl(x);
    } else if x in Operands(t, e.l) {
      ExtractOne(t, acc, x, e.l, s);
      ExtractUnit(t, ExtractEq(t, acc, x, CrossOut(t, e.l, s)).0, CrossOut(t, e.r, s));
      CrossSame(t, e.r, s, s + {x});
    } else {
      ExtractMiss(t, acc, x, e.l, s);
      CrossSame(t, e.l, s, s + {x});
      ExtractOne(t, acc, x, e.r, s);
    }
  }

  lemma {:induction false} ExtractAll(t: Op, acc: Option<Expr>, a: Expr, e: Expr, s: set<Expr>)
    requires Operands(t, a) <= Operands(t, e) && Operands(t, a) !! s && Distinct(t, a) && Separate(t, e)
    ensures var (acc', a', b') := ExtractEq(t, acc, a, CrossOut(t, e, s));
      acc'.Some? && EliminateYn(a') == Sym(Unit(t)) && b' == CrossOut(t, e, s + Operands(t, a))
    decreases a
  {
    hide ExprEq, CrossOut, Separate;
    if IsOp(a, t) {
      ExtractAll(t, acc, a.l, e, s);
      ExtractAll(t, ExtractEq(t, acc, a.l, CrossOut(t, e, s)).0, a.r, e, s + Operands(t, a.l));
      assert s + Operands(t, a.l) + Operands(t, a.r) == s + Operands(t, a);
    } else {
      ExtractOne(t, acc, a, e, s);
    }
  }

  /** An operand is contradicted when the negation of each of its own operands is an operand beside it. */
  lemma ContradictsComplete(t: Op, x: Expr, e: Expr)
    requires NormalForm(x) && Separate(Dual(t), x) && Separate(t, e)
    requires forall w :: w in Operands(Dual(t), x) ==> Neg(w) in Operands(t, e)
    ensures Contradicts(t, x, e)
  {
    hide ExprEq, ExtractEq, EliminateYn, Transform, Neg;
    TransformNeg(x);
    NegOperands(t, x);
    SeparateDistinct(Dual(t), x);
    NegDistinct(t, x);
    CrossNone(t, e);
    ExtractAll(t, None, Neg(x), e, {});
  }

  /** Beside every operand of the other operator something is missing for a contradiction. */
  ghost predicate Unopposed(t: Op, e: Expr) {
    forall x :: x in Operands(t, e) && x.Bin? ==> exists w :: w in Operands(Dual(t), x) && Neg(w) !in Operands(t, e)
  }

  ghost predicate Resolved(e: Expr)
    decreases Size(e)
  {
    e.Bin? ==>
      && Unopposed(e.op, e)
      && forall p: Path :: Leaf(e.op, e, p) ==> (LeafBelow(e.op, e, p); Resolved(Get(e.op, e, p)))
  }

  /** A second pass that rewrites nothing has tested every operand below p1 against the one at p2. */
  lemma {:induction false} Dups2Clean(t: Op, e: Expr, p1: Path, p2: Path, n: nat, x: Path)
    requires On(t, e, p1) && On(t, e, p2) && Dups2(t, e, p1, p2, n).count == n
    requires Leaf(t, e, p1 + x) && Get(t, e, p1 + x).Bin? && p1 + x != p2
    ensures var a := Get(t, e, p1 + x); !Contradicts(t, a, Get(t, e, p2)) && Dups2(a.op, a, [], [], n).count == n
    decreases Size(e), Nodes(t, Get(t, e, p1))
  {
    hide Contradicts;
    LeafEnd(t, e, p1, x);
    if IsOp(Get(t, e, p1), t) {
      StepDown(t, e, p1);
      var r := Dups2(t, e, p1 + [false], p2, n);
      Dups2Progress(t, e, p1 + [false], p2, n);
      ShapeOn(t, e, r.e, p1 + [true]);
      ShapeOn(t, e, r.e, p2);
      Dups2Progress(t, r.e, p1 + [true], p2, r.count);
      assert p1 + x == (p1 + [x[0]]) + x[1..];
      if x[0] {
        Dups2Clean(t, e, p1 + [true], p2, n, x[1..]);
      } else {
        Dups2Clean(t, e, p1 + [false], p2, n, x[1..]);
      }
    } else {
      assert p1 + x == p1;
      Dups2LeafClean(t, e, p1, p2, n);
    }
  }

  lemma Dups2LeafClean(t: Op, e: Expr, p1: Path, p2: Path, n: nat)
    requires Leaf(t, e, p1) && On(t, e, p2) && p1 != p2 && Get(t, e, p1).Bin? && Dups2(t, e, p1, p2, n).count == n
    ensures var a := Get(t, e, p1); !Contradicts(t, a, Get(t, e, p2)) && Dups2(a.op, a, [], [], n).count == n
  {
    hide Contradicts;
    var a := Get(t, e, p1);
    var r := Dups2Operands(t, e, p1, p2, n);
    Dups2OperandsProgress(t, e, p1, p2, n);
    ShapeOn(t, e, r.e, p1);
    ShapeOn(t, e, r.e, p2);
    var a' := Get(t, r.e, p1);
    if a'.Bin? {
      PutLeaf(t, r.e, p1, a');
      NotRoot(t, e, p1, p2);
      Dups2Progress(a'.op, a', [], [], r.count);
    }
    PutSame(t, e, p1);
  }

  lemma {:induction false} GetNormal(t: Op, e: Expr, p: Path)
    requires On(t, e, p) && NormalForm(e)
    ensures NormalForm(Get(t, e, p))
  {
    if p != [] { GetNormal(t, if p[0] then e.r else e.l, p[1..]); }
  }

  lemma ReducedSeparate(e: Expr)
    requires e.Bin? && DupFree(e)
    ensures Separate(e.op, e)
  {
    assert Apart(e.op, e);
    ApartSeparate(e.op, e);
  }

  lemma OperandUnopposed(e: Expr, n: nat, x: Expr)
    requires e.Bin? && NormalForm(e) && DupFree(e) && Dups2(e.op, e, [], [], n).count == n
    requires x in Operands(e.op, e) && x.Bin?
    ensures exists w :: w in Operands(Dual(e.op), x) && Neg(w) !in Operands(e.op, e)
  {
    hide ExprEq, Contradicts, Dups2, Neg, Separate;
    var t := e.op;
    var p := OperandAt(t, e, x);
    assert [] + p == p;
    Dups2Clean(t, e, [], [], n, p);
    GetNormal(t, e, p);
    ReducedSeparate(e);
    ReducedSeparate(x);
    if forall w :: w in Operands(Dual(t), x) ==> Neg(w) in Operands(t, e) {
      ContradictsComplete(t, x, e);
    }
  }

  lemma {:induction false} InnerResolved(e: Expr, n: nat)
    requires NormalForm(e) && DupFree(e) && (e.Bin? ==> Dups2(e.op, e, [], [], n).count == n)
    ensures Resolved(e)
    decreases Size(e)
  {
    hide ExprEq, Contradicts, Neg;
    if e.Bin? {
      var t := e.op;
      forall x | x in Operands(t, e) && x.Bin?
        ensures exists w :: w in Operands(Dual(t), x) && Neg(w) !in Operands(t, e)
      {
        OperandUnopposed(e, n, x);
      }
      forall p: Path | Leaf(t, e, p)
        ensures Resolved(Get(t, e, p))
      {
        LeafBelow(t, e, p);
        GetNormal(t, e, p);
        assert [] + p == p;
        if Get(t, e, p).Bin? { Dups2Clean(t, e, [], [], n, p); }
        InnerResolved(Get(t, e, p), n);
      }
    }
  }

  // ---- The passes keep the normal form ----

  lemma {:induction false} PutNormal(t: Op, e: Expr, p: Path, x: Expr)
    requires On(t, e, p) && NormalForm(e) && NormalForm(x)
    ensures NormalForm(Put(t, e, p, x))
  {
    if p != [] { PutNormal(t, if p[0] then e.r else e.l, p[1..], x); }
  }

  lemma {:induction false} YnNormal(e: Expr)
    requires NormalForm(e)
    ensures NormalForm(EliminateYn(e))
  {
    if e.Bin? { YnNormal(e.l); YnNormal(e.r); }
  }

  lemma JoinNormal(t: Op, a: Expr, b: Expr)
    requires NormalForm(a) && NormalForm(b) && Join(t, a, b).Some?
    ensures NormalForm(Join(t, a, b).value)
  {
  }

  lemma {:induction false} Dups1Normal(t: Op, e: Expr, p1: Path, p2: Path, n: nat)
    requires On(t, e, p1) && On(t, e, p2) && NormalForm(e)
    ensures NormalForm(Dups1(t, e, p1, p2, n).e)
    decreases Size(e), Nodes(t, Get(t, e, p1)) + Nodes(t, Get(t, e, p2))
  {
    hide Join, NormalForm;
    var e1 := Get(t, e, p1);
    if IsOp(e1, t) {
      StepDown(t, e, p1);
      var r := Dups1(t, e, p1 + [false], p2, n);
      Dups1Normal(t, e, p1 + [false], p2, n);
      ShapeOn(t, e, r.e, p1 + [true]);
      ShapeOn(t, e, r.e, p2);
      Dups1Normal(t, r.e, p1 + [true], p2, r.count);
    } else if IsOp(Get(t, e, p2), t) {
      StepDown(t, e, p2);
      var r := Dups1(t, e, p1, p2 + [false], n);
      Dups1Normal(t, e, p1, p2 + [false], n);
      ShapeOn(t, e, r.e, p1);
      ShapeOn(t, e, r.e, p2 + [true]);
      Dups1Normal(t, r.e, p1, p2 + [true], r.count);
    } else if p1 != p2 {
      PutOther(t, e, p1, e1, p2);
      PutLeaf(t, e, p1, e1);
      GetNormal(t, e, p1);
      if e1.Bin? { Dups1Normal(e1.op, e1, [], [], n); }
      Dups1LeafNormal(t, e, p1, p2, if e1.Bin? then Dups1(e1.op, e1, [], [], n) else Rewritten(e1, n));
    }
  }

  lemma Dups1LeafNormal(t: Op, e: Expr, p1: Path, p2: Path, inner: Rewritten)
    requires Leaf(t, e, p1) && Leaf(t, e, p2) && p1 != p2 && NormalForm(e) && NormalForm(inner.e)
    requires !IsOp(inner.e, t) && Size(inner.e) <= Size(Get(t, e, p1))
    ensures NormalForm(Dups1Leaf(t, e, p1, p2, inner).e)
  {
    hide Join;
    var e' := Put(t, e, p1, inner.e);
    PutLeaf(t, e, p1, inner.e);
    PutOther(t, e, p1, inner.e, p2);
    PutNormal(t, e, p1, inner.e);
    var j := Join(t, inner.e, Get(t, e', p2));
    if j.Some? {
      GetNormal(t, e', p2);
      JoinNormal(t, inner.e, Get(t, e', p2));
      PutLeaf(t, e, p1, Sym(Unit(t)));
      PutOther(t, e, p1, Sym(Unit(t)), p2);
      PutNormal(t, e, p1, Sym(Unit(t)));
      PutNormal(t, Put(t, e, p1, Sym(Unit(t))), p2, j.value);
    }
  }

  lemma {:induction false} Dups2Normal(t: Op, e: Expr, p1: Path, p2: Path, n: nat)
    requires On(t, e, p1) && On(t, e, p2) && NormalForm(e)
    ensures NormalForm(Dups2(t, e, p1, p2, n).e)
    decreases Size(e), Nodes(t, Get(t, e, p1)) + Nodes(t, Get(t, e, p2))
  {
    hide NormalForm, Contradicts;
    if IsOp(Get(t, e, p1), t) {
      StepDown(t, e, p1);
      var r := Dups2(t, e, p1 + [false], p2, n);
      Dups2Normal(t, e, p1 + [false], p2, n);
      ShapeOn(t, e, r.e, p1 + [true]);
      ShapeOn(t, e, r.e, p2);
      Dups2Normal(t, r.e, p1 + [true], p2, r.count);
    } else {
      var r := Dups2Operands(t, e, p1, p2, n);
      Dups2OperandsNormal(t, e, p1, p2, n);
      ShapeOn(t, e, r.e, p1);
      ShapeOn(t, e, r.e, p2);
      var e1' := Get(t, r.e, p1);
      if p1 != p2 && e1'.Bin? {
        PutLeaf(t, r.e, p1, e1');
        NotRoot(t, e, p1, p2);
        GetNormal(t, r.e, p1);
        Dups2Normal(e1'.op, e1', [], [], r.count);
        Dups2LeafNormal(t, r.e, p1, p2, Dups2(e1'.op, e1', [], [], r.count));
      }
    }
  }

  lemma Dups2LeafNormal(t: Op, e: Expr, p1: Path, p2: Path, inner: Rewritten)
    requires Leaf(t, e, p1) && On(t, e, p2) && NormalForm(e) && NormalForm(inner.e)
    requires !IsOp(inner.e, t) && Size(inner.e) <= Size(Get(t, e, p1))
    ensures NormalForm(Dups2Leaf(t, e, p1, p2, inner).e)
  {
    hide Contradicts;
    PutNormal(t, e, p1, inner.e);
    PutNormal(t, e, p1, Sym(Zero(t)));
  }

  lemma {:induction false} Dups2OperandsNormal(t: Op, e: Expr, p1: Path, p2: Path, n: nat)
    requires Leaf(t, e, p1) && On(t, e, p2) && NormalForm(e)
    ensures NormalForm(Dups2Operands(t, e, p1, p2, n).e)
    decreases Size(e), Nodes(t, Get(t, e, p1)) + Nodes(t, Get(t, e, p2)), 0
  {
    if IsOp(Get(t, e, p2), t) {
      StepDown(t, e, p2);
      var r := Dups2(t, e, p1, p2 + [false], n);
      Dups2Normal(t, e, p1, p2 + [false], n);
      ShapeOn(t, e, r.e, p1);
      ShapeOn(t, e, r.e, p2 + [true]);
      Dups2Normal(t, r.e, p1, p2 + [true], r.count);
    }
  }

  // ---- expr_eliminate_dups ----

  /** Neither pass finds anything to rewrite. */
  predicate Settled(e: Expr) {
    e.Bin? ==> Dups1(e.op, e, [], [], 0) == Rewritten(e, 0) && Dups2(e.op, e, [], [], 0) == Rewritten(e, 0)
  }

  /** One round of both passes, starting from a zero count. */
  function Round(e: Expr): (r: Rewritten) {
    if e.Bin? then
      var r := Dups1(e.op, e, [], [], 0);
      Dups2(e.op, r.e, [], [], r.count)
    else Rewritten(e, 0)
  }

  lemma RoundProgress(e: Expr)
    ensures Progress(e, 0, Round(e))
    ensures Round(e).count == 0 ==> Settled(e)
  {
    if e.Bin? {
      var r := Dups1(e.op, e, [], [], 0);
      Dups1Progress(e.op, e, [], [], 0);
      Dups2Progress(e.op, r.e, [], [], r.count);
    }
  }

  lemma RoundValue(e: Expr, v: Valuation)
    requires Coherent(v)
    ensures Sharpens(Val(e, v), Val(Round(e).e, v))
  {
    if e.Bin? {
      hide Coherent;
      Dups1Value(e.op, e, [], [], 0, v);
      var r := Dups1(e.op, e, [], [], 0);
      Dups2Value(e.op, r.e, [], [], r.count, v);
    }
  }

  lemma RoundNormal(e: Expr)
    requires NormalForm(e)
    ensures NormalForm(EliminateYn(Round(e).e))
  {
    if e.Bin? {
      Dups1Normal(e.op, e, [], [], 0);
      var r := Dups1(e.op, e, [], [], 0);
      Dups2Normal(e.op, r.e, [], [], r.count);
    }
    YnNormal(Round(e).e);
  }

  /** What is left when neither pass finds anything. */
  lemma SettledClean(e: Expr)
    requires Settled(e)
    ensures DupFree(e)
    ensures NormalForm(e) ==> Resolved(e)
  {
    if e.Bin? { InnerClean(e, 0); }
    if NormalForm(e) { InnerResolved(e, 0); }
  }

  /** No symbol that e reads as a truth value is m; in particular the constant m does not occur. */
  predicate TwoValued(e: Expr, v: Valuation) {
    match e
    case Sym(s) => v.tri(s) != 1
    case Not(c) => TwoValued(c, v)
    case Bin(_, l, r) => TwoValued(l, v) && TwoValued(r, v)
    case _ => true
  }

  lemma {:induction false} TwoValuedVal(e: Expr, v: Valuation)
    requires TwoValued(e, v)
    ensures Val(e, v) != 1
  {
    match e
    case Not(c) => TwoValuedVal(c, v);
    case Bin(_, l, r) => TwoValuedVal(l, v); TwoValuedVal(r, v);
    case _ =>
  }

  /** Rounds of both passes followed by the removal of constants, until a round finds nothing. */
  function Fixpoint(e: Expr): Expr
    decreases Size(e)
  {
    RoundProgress(e);
    if Round(e).count == 0 then e else Fixpoint(EliminateYn(Round(e).e))
  }

  /** expr_eliminate_dups: the loop terminates, every value other than m is kept, and so is the value
      under every two-valued valuation.  At every level no two operands of the result are equal or
      combine; from an expression in normal form, none is contradicted by those beside it. */
  method EliminateDups(e: Expr) returns (r: Expr)
    ensures r == Fixpoint(e) && Settled(r) && Size(r) <= Size(e)
    ensures DupFree(r)
    ensures NormalForm(e) ==> NormalForm(r) && Resolved(r)
    ensures forall v :: Coherent(v) ==> Sharpens(Val(e, v), Val(r, v))
    ensures forall v :: Coherent(v) && TwoValued(e, v) ==> Val(r, v) == Val(e, v)
  {
    forall v | TwoValued(e, v)
      ensures Val(e, v) != 1
    {
      TwoValuedVal(e, v);
    }
    r := e;
    while true
      invariant Size(r) <= Size(e) && Fixpoint(r) == Fixpoint(e) && (NormalForm(e) ==> NormalForm(r))
      invariant forall v :: Coherent(v) ==> Sharpens(Val(e, v), Val(r, v))
      decreases Size(r)
    {
      var round := Round(r);
      RoundProgress(r);
      if round.count == 0 {
        SettledClean(r);
        break;
      }
      if NormalForm(r) { RoundNormal(r); }
      forall v | Coherent(v)
        ensures Sharpens(Val(e, v), Val(EliminateYn(round.e), v))
      {
        RoundValue(r, v);
        EliminateYnValue(round.e, v);
      }
      r := EliminateYn(round.e);
    }
  }
}
