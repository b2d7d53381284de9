/** The second pass of the duplicate elimination can lose the value m. */
module KconfigLoss {
  import opened Common
  import opened KconfigExpr
  import opened KconfigDups
  import opened KconfigClean

  const FOO := Entry(0, Tristate)
  const BAR := Entry(1, Tristate)

  /** FOO is m, every other configurable symbol is n. */
  function FooIsM(): Valuation {
    var tri: Symbol -> Tri := s => if s == SymYes then 2 else if s == SymMod || s == FOO then 1 else 0;
    Valuation(tri, (s: Symbol) =>
      match s
      case SymYes => "y" case SymMod => "m" case SymNo => "n"
      case Quoted(id) => seq(id + 2, _ => 'q')
      case Entry(_, _) => TriName(tri(s)))
  }

  lemma FooIsMCoherent()
    ensures Coherent(FooIsM())
  {
    forall s: Symbol, t: Symbol | s.IsConst() && t.IsConst() && s != t
      ensures FooIsM().str(s) != FooIsM().str(t)
    {
      assert s.Quoted? ==> |FooIsM().str(s)| == s.id + 2;
      assert t.Quoted? ==> |FooIsM().str(t)| == t.id + 2;
    }
  }

  // ---- When a pass leaves an operand alone ----

  /** No operand below p2 other than the one at p1 joins with it. */
  predicate Quiet(t: Op, e: Expr, p1: Path, p2: Path)
    requires Leaf(t, e, p1) && On(t, e, p2)
    decreases Nodes(t, Get(t, e, p2))
  {
    if IsOp(Get(t, e, p2), t) then
      StepDown(t, e, p2);
      Quiet(t, e, p1, p2 + [false]) && Quiet(t, e, p1, p2 + [true])
    else p1 == p2 || Join(t, Get(t, e, p1), Get(t, e, p2)).None?
  }

  lemma {:induction false} Dups1Quiet(t: Op, e: Expr, p1: Path, p2: Path, n: nat)
    requires Leaf(t, e, p1) && On(t, e, p2) && Quiet(t, e, p1, p2)
    requires var x := Get(t, e, p1); x.Bin? ==> Dups1(x.op, x, [], [], n) == Rewritten(x, n)
    ensures Dups1(t, e, p1, p2, n) == Rewritten(e, n)
    decreases Nodes(t, Get(t, e, p2))
  {
    hide Join;
    if IsOp(Get(t, e, p2), t) {
      StepDown(t, e, p2);
      Dups1Quiet(t, e, p1, p2 + [false], n);
      Dups1Quiet(t, e, p1, p2 + [true], n);
    } else if p1 != p2 {
      PutSame(t, e, p1);
    }
  }

  /** An operand that is no conjunction or disjunction is never dropped. */
  lemma {:induction false} Dups2Quiet(t: Op, e: Expr, p1: Path, p2: Path, n: nat)
    requires Leaf(t, e, p1) && On(t, e, p2) && !Get(t, e, p1).Bin?
    ensures Dups2(t, e, p1, p2, n) == Rewritten(e, n)
    decreases Nodes(t, Get(t, e, p2))
  {
    if IsOp(Get(t, e, p2), t) {
      StepDown(t, e, p2);
      Dups2Quiet(t, e, p1, p2 + [false], n);
      Dups2Quiet(t, e, p1, p2 + [true], n);
    }
  }

  /** An operand that the one at p2 does not contradict stays, once it has been compared with the operands of that
      one. */
  lemma Dups2Stays(t: Op, e: Expr, p1: Path, p2: Path, n: nat)
    requires Leaf(t, e, p1) && On(t, e, p2) && Dups2Operands(t, e, p1, p2, n) == Rewritten(e, n)
    requires var x := Get(t, e, p1); x.Bin? && Dups2(x.op, x, [], [], n) == Rewritten(x, n)
    requires p1 == p2 || !Contradicts(t, Get(t, e, p1), Get(t, e, p2))
    ensures Dups2(t, e, p1, p2, n) == Rewritten(e, n)
  {
    hide Contradicts, Dups2Operands;
    PutSame(t, e, p1);
  }

  // ---- (FOO || BAR) && !FOO && !BAR ----

  function O(): Expr { Bin(OrOp, Sym(FOO), Sym(BAR)) }
  function NF(): Expr { Not(Sym(FOO)) }
  function NB(): Expr { Not(Sym(BAR)) }
  function Whole(x: Expr): Expr { Bin(AndOp, Bin(AndOp, x, NF()), NB()) }

  lemma Facts()
    ensures ExprEq(NF(), NF()) && ExprEq(NB(), NB()) && !ExprEq(NF(), NB()) && !ExprEq(NB(), NF())
    ensures forall x, y: Expr :: (x == NF() || x == NB()) && (y == O() || y == Sym(SymYes)) ==>
      !ExprEq(x, y) && !ExprEq(y, x)
    ensures !ExprEq(Sym(FOO), Sym(BAR)) && !ExprEq(Sym(BAR), Sym(FOO))
  {
  }

  lemma NoJoins()
    ensures forall x, y :: x in {O(), NF(), NB()} && y in {O(), NF(), NB()} && x != y ==> Join(AndOp, x, y).None?
    ensures Join(OrOp, Sym(FOO), Sym(BAR)).None? && Join(OrOp, Sym(BAR), Sym(FOO)).None?
  {
    Facts();
    hide ExprEq;
  }

  /** The places of the three operands. */
  lemma Places(x: Expr)
    requires !IsOp(x, AndOp)
    ensures On(AndOp, Whole(x), []) && Get(AndOp, Whole(x), []) == Whole(x)
    ensures On(AndOp, Whole(x), [false]) && Get(AndOp, Whole(x), [false]) == Bin(AndOp, x, NF())
    ensures On(AndOp, Whole(x), [true]) && Get(AndOp, Whole(x), [true]) == NB()
    ensures On(AndOp, Whole(x), [false, false]) && Get(AndOp, Whole(x), [false, false]) == x
    ensures On(AndOp, Whole(x), [false, true]) && Get(AndOp, Whole(x), [false, true]) == NF()
  {
    var e := Whole(x);
    Steps();
    OnChild(AndOp, e, [], false);
    OnChild(AndOp, e, [], true);
    OnChild(AndOp, e, [false], false);
    OnChild(AndOp, e, [false], true);
  }

  lemma Steps()
    ensures forall b: bool :: [] + [b] == [b]
    ensures [false] + [false] == [false, false] && [false] + [true] == [false, true]
  {
  }

  lemma AllQuiet(p: Path)
    requires p == [false, false] || p == [false, true] || p == [true]
    ensures Leaf(AndOp, Whole(O()), p) && Quiet(AndOp, Whole(O()), p, [])
  {
    Places(O());
    Steps();
    NoJoins();
    hide Join, On, Get;
    assert Quiet(AndOp, Whole(O()), p, [false, false]) && Quiet(AndOp, Whole(O()), p, [false, true]);
    assert Quiet(AndOp, Whole(O()), p, [false]) && Quiet(AndOp, Whole(O()), p, [true]);
  }

  lemma InnerQuiet(n: nat)
    ensures Dups1(OrOp, O(), [], [], n) == Rewritten(O(), n) && Dups2(OrOp, O(), [], [], n) == Rewritten(O(), n)
  {
    var l, r: Path := [false], [true];
    assert l[1..] == [] && r[1..] == [];
    assert On(OrOp, O(), l) && On(OrOp, O(), r) && Get(OrOp, O(), l) == Sym(FOO) && Get(OrOp, O(), r) == Sym(BAR);
    Steps();
    NoJoins();
    hide Join, On, Get;
    assert Quiet(OrOp, O(), l, l) && Quiet(OrOp, O(), l, r) && Quiet(OrOp, O(), r, l) && Quiet(OrOp, O(), r, r);
    Dups1Quiet(OrOp, O(), l, [], n);
    Dups1Quiet(OrOp, O(), r, [], n);
    Dups2Quiet(OrOp, O(), l, [], n);
    Dups2Quiet(OrOp, O(), r, [], n);
  }

  /** The first pass finds nothing. */
  lemma FirstPass()
    ensures Dups1(AndOp, Whole(O()), [], [], 0) == Rewritten(Whole(O()), 0)
  {
    var e := Whole(O());
    Places(O());
    Steps();
    InnerQuiet(0);
    AllQuiet([false, false]);
    AllQuiet([false, true]);
    AllQuiet([true]);
    hide On, Get, Quiet;
    Dups1Quiet(AndOp, e, [false, false], [], 0);
    Dups1Quiet(AndOp, e, [false, true], [], 0);
    Dups1Quiet(AndOp, e, [true], [], 0);
    assert Dups1(AndOp, e, [false], [], 0) == Rewritten(e, 0);
  }

  /** Only the whole expression contradicts FOO || BAR: it has both !FOO and !BAR. */
  lemma Contradictions()
    ensures !Contradicts(AndOp, O(), NF()) && !Contradicts(AndOp, O(), NB())
    ensures !Contradicts(AndOp, O(), Bin(AndOp, O(), NF())) && Contradicts(AndOp, O(), Whole(O()))
  {
    var y, nf, nb, o := Sym(SymYes), NF(), NB(), O();
    var tn := Bin(AndOp, nf, nb);
    assert Transform(Not(o)) == tn;
    Facts();
    hide ExprEq, Transform;
    assert ExtractEq(AndOp, None, nf, nf) == (Some(nf), y, y);
    assert ExtractEq(AndOp, Some(nf), nb, y) == (Some(nf), nb, y);
    assert ExtractEq(AndOp, None, tn, nf).1 == Bin(AndOp, y, nb);
    assert ExtractEq(AndOp, None, nf, nb) == (None, nf, nb);
    assert ExtractEq(AndOp, None, tn, nb).1 == Bin(AndOp, nf, y);
    var on, oy := Bin(AndOp, o, nf), Bin(AndOp, o, y);
    assert ExtractEq(AndOp, None, nf, on) == (Some(nf), y, oy);
    assert ExtractEq(AndOp, Some(nf), nb, oy) == (Some(nf), nb, oy);
    assert ExtractEq(AndOp, None, tn, on).1 == Bin(AndOp, y, nb);
    assert ExtractEq(AndOp, None, nf, Whole(o)) == (Some(nf), y, Bin(AndOp, oy, nb));
    assert ExtractEq(AndOp, Some(nf), nb, Bin(AndOp, oy, nb)).1 == y;
    assert ExtractEq(AndOp, None, tn, Whole(o)).1 == Bin(AndOp, y, y);
  }

  /** The second pass drops FOO || BAR. */
  lemma SecondPass()
    ensures Dups2(AndOp, Whole(O()), [], [], 0) == Rewritten(Whole(Sym(SymNo)), 1)
  {
    var e, d := Whole(O()), Whole(Sym(SymNo));
    var ll: Path := [false, false];
    Places(O());
    Places(Sym(SymNo));
    Steps();
    InnerQuiet(0);
    Contradictions();
    PutSame(AndOp, e, ll);
    assert Put(AndOp, e, ll, Sym(SymNo)) == d by {
      assert ll[1..] == [false] && [false][1..] == [];
    }
    hide On, Get, Put, Contradicts;
    Dups2Stays(AndOp, e, ll, ll, 0);
    Dups2Stays(AndOp, e, ll, [false, true], 0);
    Dups2Stays(AndOp, e, ll, [false], 0);
    Dups2Stays(AndOp, e, ll, [true], 0);
    assert Dups2(AndOp, e, ll, [], 0) == Rewritten(d, 1);
    Dups2Quiet(AndOp, d, [false, true], [], 1);
    Dups2Quiet(AndOp, d, [true], [], 1);
    assert Dups2(AndOp, e, [false], [], 0) == Rewritten(d, 1);
  }

  /** With FOO = m the expression is m; the fixpoint of the duplicate elimination is n. */
  lemma MIsLost()
    ensures Coherent(FooIsM()) && Val(Whole(O()), FooIsM()) == 1
    ensures Fixpoint(Whole(O())) == Sym(SymNo) && Val(Fixpoint(Whole(O())), FooIsM()) == 0
  {
    FooIsMCoherent();
    FirstPass();
    SecondPass();
    hide Coherent, Dups1, Dups2;
    assert Round(Whole(O())) == Rewritten(Whole(Sym(SymNo)), 1);
    assert EliminateYn(Whole(Sym(SymNo))) == Sym(SymNo);
    assert Round(Sym(SymNo)).count == 0;
    assert Fixpoint(Sym(SymNo)) == Sym(SymNo);
  }
}
