/** Kconfig dependency expressions over the tristate n < m < y, their value,
    and the rewriting functions that do not alias their operands. */
module KconfigExpr {
  import opened Common

  type Tri = t: int | 0 <= t <= 2

  datatype SymType = Unknown | Boolean | Tristate | Int | Hex | Str | Other

  /** A symbol is identified by its address: the three built-in constants, the other
      (quoted) constants, which have no type, and the configurable symbols. */
  datatype Symbol = SymYes | SymMod | SymNo | Quoted(id: nat) | Entry(id: nat, typ: SymType)
  {
    function Type(): SymType { if Entry? then typ else Unknown }
    predicate IsConst() { !Entry? }
    predicate IsBuiltin() { SymYes? || SymMod? || SymNo? }
  }

  datatype Op = AndOp | OrOp

  datatype Expr =
    | Sym(s: Symbol)
    | Not(e: Expr)
    | Bin(op: Op, l: Expr, r: Expr)
    | Equal(a: Symbol, b: Symbol)
    | Unequal(a: Symbol, b: Symbol)

  /** What the symbols currently stand for. */
  datatype Valuation = Valuation(tri: Symbol -> Tri, str: Symbol -> string)

  function TriName(t: Tri): string {
    if t == 0 then "n" else if t == 1 then "m" else "y"
  }

  /** The facts about symbols that the symbol table guarantees. */
  ghost predicate Coherent(v: Valuation) {
    && v.tri(SymYes) == 2 && v.tri(SymMod) == 1 && v.tri(SymNo) == 0
    && v.str(SymYes) == "y" && v.str(SymMod) == "m" && v.str(SymNo) == "n"
    && (forall s: Symbol :: s.Type() == Boolean || s.Type() == Tristate ==> v.str(s) == TriName(v.tri(s)))
    && (forall s: Symbol :: s.Type() == Boolean ==> v.tri(s) != 1)
    && (forall s: Symbol, t: Symbol :: s.IsConst() && t.IsConst() && s != t ==> v.str(s) != v.str(t))
  }

  function Fold(op: Op, x: Tri, y: Tri): Tri {
    if op.AndOp? then (if x < y then x else y) else (if x > y then x else y)
  }

  lemma FoldMix(t: Op, l: Tri, r: Tri, c: Tri, d: Tri)
    ensures Fold(t, Fold(t, l, c), Fold(t, r, d)) == Fold(t, Fold(t, l, r), Fold(t, c, d))
    ensures Fold(t, Fold(t, l, d), c) == Fold(t, l, Fold(t, c, d))
    ensures Fold(t, Fold(t, l, c), d) == Fold(t, l, Fold(t, c, d))
  {
  }

  /** expr_calc_value */
  function Val(e: Expr, v: Valuation): Tri {
    match e
    case Sym(s) => v.tri(s)
    case Not(c) => 2 - Val(c, v)
    case Bin(op, l, r) => Fold(op, Val(l, v), Val(r, v))
    case Equal(a, b) => if v.str(a) == v.str(b) then 2 else 0
    case Unequal(a, b) => if v.str(a) == v.str(b) then 0 else 2
  }

  function Unit(op: Op): Symbol { if op.AndOp? then SymYes else SymNo }
  function Zero(op: Op): Symbol { if op.AndOp? then SymNo else SymYes }
  function Dual(op: Op): Op { if op.AndOp? then OrOp else AndOp }

  predicate IsOp(e: Expr, op: Op) { e.Bin? && e.op == op }

  function Size(e: Expr): (n: nat)
    ensures n >= 1
  {
    match e
    case Not(c) => 1 + Size(c)
    case Bin(_, l, r) => 1 + Size(l) + Size(r)
    case _ => 1
  }

  // ---- expr_eliminate_yn ----

  function EliminateYn(e: Expr): (r: Expr)
    ensures Size(r) <= Size(e)
  {
    match e
    case Bin(op, l, r) =>
      var l', r' := EliminateYn(l), EliminateYn(r);
      if l' == Sym(Zero(op)) then Sym(Zero(op))
      else if l' == Sym(Unit(op)) then r'
      else if r' == Sym(Zero(op)) then Sym(Zero(op))
      else if r' == Sym(Unit(op)) then l'
      else Bin(op, l', r')
    case _ => e
  }

  lemma {:induction false} EliminateYnValue(e: Expr, v: Valuation)
    requires Coherent(v)
    ensures Val(EliminateYn(e), v) == Val(e, v)
  {
    if e.Bin? {
      EliminateYnValue(e.l, v);
      EliminateYnValue(e.r, v);
    }
  }

  /** No operand of a conjunction or disjunction outside a negation is a y or n constant. */
  predicate YnFree(e: Expr) {
    e.Bin? ==>
      && YnFree(e.l) && YnFree(e.r)
      && e.l != Sym(SymYes) && e.l != Sym(SymNo) && e.r != Sym(SymYes) && e.r != Sym(SymNo)
  }

  lemma {:induction false} EliminateYnFree(e: Expr)
    ensures YnFree(EliminateYn(e))
  {
    if e.Bin? {
      EliminateYnFree(e.l);
      EliminateYnFree(e.r);
    }
  }

  lemma {:induction false} FreeFixed(e: Expr)
    requires YnFree(e)
    ensures EliminateYn(e) == e
  {
    if e.Bin? {
      FreeFixed(e.l);
      FreeFixed(e.r);
    }
  }

  /** An expression without such constants is left as it is, and no other is. */
  lemma EliminateYnExact(e: Expr)
    ensures YnFree(e) <==> EliminateYn(e) == e
  {
    EliminateYnFree(e);
    if YnFree(e) { FreeFixed(e); }
  }

  // ---- expr_eq and the pairwise elimination it is mutually recursive with ----

  /** expr_eq */
  predicate ExprEq(a: Expr, b: Expr)
    decreases Size(a) + Size(b), 3
  {
    match (a, b)
    case (Equal(a1, a2), Equal(b1, b2)) => a1 == b1 && a2 == b2
    case (Unequal(a1, a2), Unequal(b1, b2)) => a1 == b1 && a2 == b2
    case (Sym(s), Sym(t)) => s == t
    case (Not(x), Not(y)) => ExprEq(x, y)
    case (Bin(op, _, _), Bin(op', _, _)) =>
      op == op' &&
      var (a', b') := EliminateEq(a, b);
      a'.Sym? && b'.Sym? && a'.s == b'.s
    case _ => false
  }

  /** __expr_eliminate_eq: every operand of `a` that equals an operand of `b` is replaced, in both, by the unit. */
  function ElimPairs(t: Op, a: Expr, b: Expr): (r: (Expr, Expr))
    ensures Size(r.0) <= Size(a) && Size(r.1) <= Size(b)
    ensures a.Bin? && a.op == t ==> r.0.Bin? && r.0.op == t
    ensures b.Bin? && b.op == t ==> r.1.Bin? && r.1.op == t
    decreases Size(a) + Size(b), if IsOp(a, t) || IsOp(b, t) then 1 else 4
  {
    if IsOp(a, t) then
      var (l, b1) := ElimPairs(t, a.l, b);
      var (r, b2) := ElimPairs(t, a.r, b1);
      (Bin(t, l, r), b2)
    else if IsOp(b, t) then
      var (a1, l) := ElimPairs(t, a, b.l);
      var (a2, r) := ElimPairs(t, a1, b.r);
      (a2, Bin(t, l, r))
    else if a.Sym? && b.Sym? && a.s == b.s && (a.s == SymYes || a.s == SymNo) then (a, b)
    else if !ExprEq(a, b) then (a, b)
    else (Sym(Unit(t)), Sym(Unit(t)))
  }

  /** expr_eliminate_eq */
  function EliminateEq(a: Expr, b: Expr): (r: (Expr, Expr))
    ensures Size(r.0) <= Size(a) && Size(r.1) <= Size(b)
    decreases Size(a) + Size(b), 2
  {
    var (a1, b1) := if a.Bin? then ElimPairs(a.op, a, b) else (a, b);
    var (a2, b2) := if b1.Bin? && !IsOp(a1, b1.op) then ElimPairs(b1.op, a1, b1) else (a1, b1);
    (EliminateYn(a2), EliminateYn(b2))
  }

  /** Expressions that compare equal have the same value. */
  lemma {:induction false} ExprEqSound(a: Expr, b: Expr, v: Valuation)
    requires Coherent(v) && ExprEq(a, b)
    ensures Val(a, v) == Val(b, v)
    decreases Size(a) + Size(b), 3
  {
    match (a, b)
    case (Not(x), Not(y)) => ExprEqSound(x, y, v);
    case (Bin(op, _, _), Bin(_, _, _)) =>
      var (a1, b1) := ElimPairs(op, a, b);
      var c := ElimPairsSound(op, a, b, v);
      EliminateYnValue(a1, v);
      EliminateYnValue(b1, v);
    case _ =>
  }

  /** Both sides lose the same common part c. */
  lemma {:induction false} ElimPairsSound(t: Op, a: Expr, b: Expr, v: Valuation) returns (c: Tri)
    requires Coherent(v)
    ensures var (a', b') := ElimPairs(t, a, b);
      Val(a, v) == Fold(t, Val(a', v), c) && Val(b, v) == Fold(t, Val(b', v), c)
    decreases Size(a) + Size(b), if IsOp(a, t) || IsOp(b, t) then 1 else 4
  {
    c := v.tri(Unit(t));
    if IsOp(a, t) {
      hide Coherent, Fold;
      var (l, b1) := ElimPairs(t, a.l, b);
      var (r, b2) := ElimPairs(t, a.r, b1);
      var c1 := ElimPairsSound(t, a.l, b, v);
      var c2 := ElimPairsSound(t, a.r, b1, v);
      c := Fold(t, c1, c2);
      FoldMix(t, Val(l, v), Val(r, v), c1, c2);
      FoldMix(t, Val(b2, v), Val(b2, v), c1, c2);
    } else if IsOp(b, t) {
      hide Coherent, Fold;
      var (a1, l) := ElimPairs(t, a, b.l);
      var (a2, r) := ElimPairs(t, a1, b.r);
      var c1 := ElimPairsSound(t, a, b.l, v);
      var c2 := ElimPairsSound(t, a1, b.r, v);
      c := Fold(t, c1, c2);
      FoldMix(t, Val(l, v), Val(r, v), c1, c2);
      FoldMix(t, Val(a2, v), Val(a2, v), c1, c2);
    } else if ElimPairs(t, a, b) != (a, b) {
      ExprEqSound(a, b, v);
      c := Val(a, v);
    }
  }

  // ---- expr_extract_eq ----

  /** expr_extract_eq: like ElimPairs, but the common operands are collected in `acc`. */
  function ExtractEq(t: Op, acc: Option<Expr>, a: Expr, b: Expr): (r: (Option<Expr>, Expr, Expr))
    ensures Size(r.1) <= Size(a) && Size(r.2) <= Size(b)
    decreases Size(a) + Size(b)
  {
    if IsOp(a, t) then
      var (acc1, l, b1) := ExtractEq(t, acc, a.l, b);
      var (acc2, r, b2) := ExtractEq(t, acc1, a.r, b1);
      (acc2, Bin(t, l, r), b2)
    else if IsOp(b, t) then
      var (acc1, a1, l) := ExtractEq(t, acc, a, b.l);
      var (acc2, a2, r) := ExtractEq(t, acc1, a1, b.r);
      (acc2, a2, Bin(t, l, r))
    else if ExprEq(a, b) then
      (Some(if acc.Some? then Bin(t, acc.value, a) else a), Sym(Unit(t)), Sym(Unit(t)))
    else (acc, a, b)
  }

  function AccVal(t: Op, acc: Option<Expr>, v: Valuation): Tri {
    if acc.Some? then Val(acc.value, v) else v.tri(Unit(t))
  }

  /** The extracted part, put back, restores the value of both sides. */
  lemma {:induction false} ExtractEqSound(t: Op, acc: Option<Expr>, a: Expr, b: Expr, v: Valuation) returns (c: Tri)
    requires Coherent(v)
    ensures var (acc', a', b') := ExtractEq(t, acc, a, b);
      && Val(a, v) == Fold(t, Val(a', v), c) && Val(b, v) == Fold(t, Val(b', v), c)
      && AccVal(t, acc', v) == Fold(t, AccVal(t, acc, v), c)
    decreases Size(a) + Size(b)
  {
    c := v.tri(Unit(t));
    if IsOp(a, t) {
      hide Coherent, Fold;
      var (acc1, l, b1) := ExtractEq(t, acc, a.l, b);
      var (acc2, r, b2) := ExtractEq(t, acc1, a.r, b1);
      var c1 := ExtractEqSound(t, acc, a.l, b, v);
      var c2 := ExtractEqSound(t, acc1, a.r, b1, v);
      c := Fold(t, c1, c2);
      FoldMix(t, Val(l, v), Val(r, v), c1, c2);
      FoldMix(t, Val(b2, v), AccVal(t, acc, v), c1, c2);
      FoldMix(t, AccVal(t, acc, v), Val(b2, v), c1, c2);
    } else if IsOp(b, t) {
      hide Coherent, Fold;
      var (acc1, a1, l) := ExtractEq(t, acc, a, b.l);
      var (acc2, a2, r) := ExtractEq(t, acc1, a1, b.r);
      var c1 := ExtractEqSound(t, acc, a, b.l, v);
      var c2 := ExtractEqSound(t, acc1, a1, b.r, v);
      c := Fold(t, c1, c2);
      FoldMix(t, Val(l, v), Val(r, v), c1, c2);
      FoldMix(t, Val(a2, v), AccVal(t, acc, v), c1, c2);
      FoldMix(t, AccVal(t, acc, v), Val(a2, v), c1, c2);
    } else if ExprEq(a, b) {
      ExprEqSound(a, b, v);
      c := Val(a, v);
    }
  }

  // ---- expr_transform ----

  /** A weight that a De Morgan step decreases although it adds a node. */
  function Weight(e: Expr): (w: nat)
    ensures w >= 1
  {
    match e
    case Sym(_) => 1
    case Not(c) => 2 * Weight(c)
    case Bin(_, l, r) => 1 + Weight(l) + Weight(r)
    case _ => 2
  }

  lemma DeMorganLighter(op: Op, l: Expr, r: Expr)
    ensures Weight(Bin(Dual(op), Not(l), Not(r))) < 2 * Weight(Bin(op, l, r))
  {
    assert Weight(Not(l)) == 2 * Weight(l) && Weight(Not(r)) == 2 * Weight(r);
  }

  /** expr_transform */
  function Transform(e: Expr): (r: Expr)
    ensures Weight(r) <= Weight(e)
    decreases Weight(e)
  {
    match e
    case Sym(_) => e
    case Equal(a, b) =>
      if a.Type() != Boolean then e
      else if b == SymNo then Not(Sym(a))
      else if b == SymMod then Sym(SymNo)
      else if b == SymYes then Sym(a)
      else e
    case Unequal(a, b) =>
      if a.Type() != Boolean then e
      else if b == SymNo then Sym(a)
      else if b == SymMod then Sym(SymYes)
      else if b == SymYes then Not(Sym(a))
      else e
    case Bin(op, l, r) => Bin(op, Transform(l), Transform(r))
    case Not(c) =>
      match Transform(c)
      case Not(x) => Transform(x)
      case Equal(a, b) => Unequal(a, b)
      case Unequal(a, b) => Equal(a, b)
      case Bin(op, l, r) => DeMorganLighter(op, l, r); Transform(Bin(Dual(op), Not(l), Not(r)))
      case Sym(s) =>
        if s == SymYes then Sym(SymNo)
        else if s == SymMod then Sym(SymMod)
        else if s == SymNo then Sym(SymYes)
        else Not(Sym(s))
  }

  lemma {:induction false} TransformValue(e: Expr, v: Valuation)
    requires Coherent(v)
    ensures Val(Transform(e), v) == Val(e, v)
    decreases Weight(e)
  {
    match e
    case Bin(op, l, r) => TransformValue(l, v); TransformValue(r, v);
    case Not(c) =>
      TransformValue(c, v);
      match Transform(c) {
        case Not(x) => TransformValue(x, v);
        case Bin(op, l, r) => DeMorganLighter(op, l, r); TransformValue(Bin(Dual(op), Not(l), Not(r)), v);
        case _ =>
      }
    case _ =>
  }

  /** Negation only directly above a symbol that is not a constant y, m or n, and no
      comparison of a boolean symbol with such a constant. */
  predicate NormalForm(e: Expr) {
    match e
    case Sym(_) => true
    case Not(c) => c.Sym? && !c.s.IsBuiltin()
    case Bin(_, l, r) => NormalForm(l) && NormalForm(r)
    case Equal(a, b) => !(a.Type() == Boolean && b.IsBuiltin())
    case Unequal(a, b) => !(a.Type() == Boolean && b.IsBuiltin())
  }

  lemma {:induction false} TransformNormal(e: Expr)
    ensures NormalForm(Transform(e))
    decreases Weight(e)
  {
    match e
    case Bin(op, l, r) => TransformNormal(l); TransformNormal(r);
    case Not(c) =>
      TransformNormal(c);
      match Transform(c) {
        case Not(x) => TransformNormal(x);
        case Bin(op, l, r) => DeMorganLighter(op, l, r); TransformNormal(Bin(Dual(op), Not(l), Not(r)));
        case _ =>
      }
    case _ =>
  }

  lemma {:induction false} NormalFixed(e: Expr)
    requires NormalForm(e)
    ensures Transform(e) == e
  {
    if e.Bin? {
      NormalFixed(e.l);
      NormalFixed(e.r);
    }
  }

  /** Normal forms are exactly the results of the transformation. */
  lemma TransformExact(e: Expr)
    ensures NormalForm(e) <==> Transform(e) == e
  {
    TransformNormal(e);
    if NormalForm(e) { NormalFixed(e); }
  }
}
