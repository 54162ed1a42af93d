/** Removing what two expressions have in common: expr_eliminate_yn, expr_eq,
    expr_eliminate_eq and expr_extract_eq (package/config/expr.c).

    The program overwrites two separate trees through `struct expr **`; here the
    new contents of both trees are returned as a pair. */
module Factor {
  import opened Wrappers
  import opened Exprs

  // ---------- expr_eliminate_yn ----------

  predicate IsYN(e: Expr) {
    e == Symbol(SymYes) || e == Symbol(SymNo)
  }

  /** Some && or || that is not below a ! has a literal y or n as an operand. */
  predicate HasYN(e: Expr) {
    e.Bin? && (IsYN(e.left) || IsYN(e.right) || HasYN(e.left) || HasYN(e.right))
  }

  function EliminateYN(e: Expr): (r: Expr)
    ensures Size(r) <= Size(e)
    ensures HasYN(e) ==> Size(r) < Size(e)
    ensures !HasYN(r)
    ensures !HasYN(e) ==> r == e
  {
    if !e.Bin? then e else
    var l, r := EliminateYN(e.left), EliminateYN(e.right);
    if l == Symbol(Absorbing(e.op)) then l
    else if l == Symbol(Neutral(e.op)) then r
    else if r == Symbol(Absorbing(e.op)) then r
    else if r == Symbol(Neutral(e.op)) then l
    else Bin(e.op, l, r)
  }

  lemma {:induction false} EliminateYNExact(e: Expr, v: Valuation)
    requires Grounded(v)
    ensures Eval(EliminateYN(e), v) == Eval(e, v)
  {
    if e.Bin? {
      EliminateYNExact(e.left, v);
      EliminateYNExact(e.right, v);
    }
  }

  // ---------- expr_eq and __expr_eliminate_eq ----------

  /** __expr_eliminate_eq: every pair of operands of `op` that expr_eq accepts is
      replaced by the neutral constant on both sides. */
  function ElimSpine(op: Op, e1: Expr, e2: Expr): (r: (Expr, Expr))
    ensures Size(r.0) <= Size(e1) && Size(r.1) <= Size(e2)
    ensures IsOp(e1, op) ==> IsOp(r.0, op)
    ensures IsOp(e2, op) ==> IsOp(r.1, op)
    decreases Size(e1) + Size(e2), if IsOp(e1, op) || IsOp(e2, op) then 0 else 3
  {
    if IsOp(e1, op) then
      var a := ElimSpine(op, e1.left, e2);
      var b := ElimSpine(op, e1.right, a.1);
      (Bin(op, a.0, b.0), b.1)
    else if IsOp(e2, op) then
      var a := ElimSpine(op, e1, e2.left);
      var b := ElimSpine(op, a.0, e2.right);
      (b.0, Bin(op, a.1, b.1))
    else if e1 == e2 && IsYN(e1) then (e1, e2)
    else if ExprEq(e1, e2) then (Symbol(Neutral(op)), Symbol(Neutral(op)))
    else (e1, e2)
  }

  function EliminateEq(e1: Expr, e2: Expr): (r: (Expr, Expr))
    ensures Size(r.0) <= Size(e1) && Size(r.1) <= Size(e2)
    decreases Size(e1) + Size(e2), 1
  {
    var a := if e1.Bin? then ElimSpine(e1.op, e1, e2) else (e1, e2);
    var b := if a.1.Bin? && !IsOp(a.0, a.1.op) then ElimSpine(a.1.op, a.0, a.1) else a;
    (EliminateYN(b.0), EliminateYN(b.1))
  }

  predicate ExprEq(e1: Expr, e2: Expr)
    decreases Size(e1) + Size(e2), 2
  {
    match (e1, e2)
    case (Symbol(s), Symbol(t)) => s == t
    case (Cmp(_, _, _), Cmp(_, _, _)) => e1 == e2
    case (Not(a), Not(b)) => ExprEq(a, b)
    case (Bin(op, _, _), Bin(op', _, _)) =>
      op == op' &&
      var r := EliminateEq(e1, e2);
      r.0.Symbol? && r.1.Symbol? && r.0.sym == r.1.sym
    case _ => false
  }

  /** The operands that __expr_eliminate_eq takes out of both sides, joined by `op`. */
  ghost function Shared(op: Op, e1: Expr, e2: Expr): Expr
    decreases Size(e1) + Size(e2)
  {
    if IsOp(e1, op) then
      Bin(op, Shared(op, e1.left, e2), Shared(op, e1.right, ElimSpine(op, e1.left, e2).1))
    else if IsOp(e2, op) then
      Bin(op, Shared(op, e1, e2.left), Shared(op, ElimSpine(op, e1, e2.left).0, e2.right))
    else if !(e1 == e2 && IsYN(e1)) && ExprEq(e1, e2) then e1
    else Symbol(Neutral(op))
  }

  /** How many pairs __expr_eliminate_eq takes out, each of which it counts in trans_count. */
  ghost function Pairs(op: Op, e1: Expr, e2: Expr): nat
    decreases Size(e1) + Size(e2)
  {
    if IsOp(e1, op) then
      Pairs(op, e1.left, e2) + Pairs(op, e1.right, ElimSpine(op, e1.left, e2).1)
    else if IsOp(e2, op) then
      Pairs(op, e1, e2.left) + Pairs(op, ElimSpine(op, e1, e2.left).0, e2.right)
    else if !(e1 == e2 && IsYN(e1)) && ExprEq(e1, e2) then 1
    else 0
  }

  // the same for expr_eliminate_eq, which may factor twice
  ghost function AllPairs(e1: Expr, e2: Expr): nat {
    var a := if e1.Bin? then ElimSpine(e1.op, e1, e2) else (e1, e2);
    (if e1.Bin? then Pairs(e1.op, e1, e2) else 0)
      + if a.1.Bin? && !IsOp(a.0, a.1.op) then Pairs(a.1.op, a.0, a.1) else 0
  }

  lemma Regroup(op: Op, s: Tri, t: Tri, a: Tri, b: Tri)
    ensures Combine(op, Combine(op, s, a), Combine(op, t, b)) == Combine(op, Combine(op, s, t), Combine(op, a, b))
    ensures Combine(op, s, Combine(op, t, a)) == Combine(op, Combine(op, s, t), a)
  {
  }

  /** Both sides lose the same factor. */
  lemma {:induction false} CommonFactor(op: Op, e1: Expr, e2: Expr, v: Valuation)
    requires Grounded(v)
    ensures var r := ElimSpine(op, e1, e2); var s := Eval(Shared(op, e1, e2), v);
      Eval(e1, v) == Combine(op, s, Eval(r.0, v)) && Eval(e2, v) == Combine(op, s, Eval(r.1, v))
    decreases Size(e1) + Size(e2), if IsOp(e1, op) || IsOp(e2, op) then 0 else 3, 0
  {
    if IsOp(e1, op) {
      hide Combine, ExprEq;
      var a := ElimSpine(op, e1.left, e2);
      var b := ElimSpine(op, e1.right, a.1);
      CommonFactor(op, e1.left, e2, v);
      CommonFactor(op, e1.right, a.1, v);
      var s, t := Eval(Shared(op, e1.left, e2), v), Eval(Shared(op, e1.right, a.1), v);
      Regroup(op, s, t, Eval(a.0, v), Eval(b.0, v));
      Regroup(op, s, t, Eval(b.1, v), Eval(b.1, v));
    } else if IsOp(e2, op) {
      hide Combine, ExprEq;
      var a := ElimSpine(op, e1, e2.left);
      var b := ElimSpine(op, a.0, e2.right);
      CommonFactor(op, e1, e2.left, v);
      CommonFactor(op, a.0, e2.right, v);
      var s, t := Eval(Shared(op, e1, e2.left), v), Eval(Shared(op, a.0, e2.right), v);
      Regroup(op, s, t, Eval(a.1, v), Eval(b.1, v));
      Regroup(op, s, t, Eval(b.0, v), Eval(b.0, v));
    } else if !(e1 == e2 && IsYN(e1)) && ExprEq(e1, e2) {
      ExprEqSound(e1, e2, v);
    }
  }

  lemma {:induction false} SpineOrder(op: Op, e1: Expr, e2: Expr, v: Valuation)
    requires Grounded(v)
    ensures var r := ElimSpine(op, e1, e2);
      && (Eval(r.0, v) <= Eval(r.1, v) ==> Eval(e1, v) <= Eval(e2, v))
      && (Eval(r.0, v) >= Eval(r.1, v) ==> Eval(e1, v) >= Eval(e2, v))
    decreases Size(e1) + Size(e2), if IsOp(e1, op) || IsOp(e2, op) then 0 else 3, 1
  {
    hide Eval, ElimSpine, Shared;
    CommonFactor(op, e1, e2, v);
  }

  /** Order between the two remainders is order between the originals, whichever of
      && and || was factored, once or twice. */
  lemma {:induction false} EliminateEqOrder(e1: Expr, e2: Expr, v: Valuation)
    requires Grounded(v)
    ensures var r := EliminateEq(e1, e2);
      && (Eval(r.0, v) <= Eval(r.1, v) ==> Eval(e1, v) <= Eval(e2, v))
      && (Eval(r.0, v) >= Eval(r.1, v) ==> Eval(e1, v) >= Eval(e2, v))
    decreases Size(e1) + Size(e2), 1
  {
    var a := if e1.Bin? then ElimSpine(e1.op, e1, e2) else (e1, e2);
    if e1.Bin? {
      SpineOrder(e1.op, e1, e2, v);
    }
    var b := if a.1.Bin? && !IsOp(a.0, a.1.op) then ElimSpine(a.1.op, a.0, a.1) else a;
    if a.1.Bin? && !IsOp(a.0, a.1.op) {
      SpineOrder(a.1.op, a.0, a.1, v);
    }
    EliminateYNExact(b.0, v);
    EliminateYNExact(b.1, v);
  }

  /** What expr_eq accepts has the same value in every state. */
  lemma {:induction false} ExprEqSound(e1: Expr, e2: Expr, v: Valuation)
    requires Grounded(v)
    requires ExprEq(e1, e2)
    ensures Eval(e1, v) == Eval(e2, v)
    decreases Size(e1) + Size(e2), 2
  {
    match (e1, e2)
    case (Not(a), Not(b)) => ExprEqSound(a, b, v);
    case (Bin(_, _, _), Bin(_, _, _)) => EliminateEqOrder(e1, e2, v);
    case _ =>
  }

  /** The test menu_finalize makes: once the second expression has been used up, the
      first implies it. */
  lemma UsedUpIsImplied(e1: Expr, e2: Expr, v: Valuation)
    requires Grounded(v)
    requires EliminateEq(e1, e2).1 == Symbol(SymYes)
    ensures Eval(e1, v) <= Eval(e2, v)
  {
    EliminateEqOrder(e1, e2, v);
  }

  // ---------- expr_extract_eq ----------

  datatype Extraction = Extraction(shared: Option<Expr>, e1: Expr, e2: Expr)

  function ExtractEq(op: Op, shared: Option<Expr>, e1: Expr, e2: Expr): (r: Extraction)
    ensures Size(r.e1) <= Size(e1) && Size(r.e2) <= Size(e2)
    decreases Size(e1) + Size(e2)
  {
    if IsOp(e1, op) then
      var a := ExtractEq(op, shared, e1.left, e2);
      var b := ExtractEq(op, a.shared, e1.right, a.e2);
      Extraction(b.shared, Bin(op, a.e1, b.e1), b.e2)
    else if IsOp(e2, op) then
      var a := ExtractEq(op, shared, e1, e2.left);
      var b := ExtractEq(op, a.shared, a.e1, e2.right);
      Extraction(b.shared, b.e1, Bin(op, a.e2, b.e2))
    else if ExprEq(e1, e2) then
      Extraction(AllocTwo(op, shared, Some(e1)), Symbol(Neutral(op)), Symbol(Neutral(op)))
    else Extraction(shared, e1, e2)
  }

  // expr_extract_eq_and and expr_extract_eq_or
  function ExtractEqTop(op: Op, e1: Expr, e2: Expr): Extraction {
    var r := ExtractEq(op, None, e1, e2);
    if r.shared.Some? then Extraction(r.shared, EliminateYN(r.e1), EliminateYN(r.e2)) else r
  }

  // the collected expression, nothing collected yet counting as the neutral constant
  ghost function Collected(op: Op, shared: Option<Expr>, v: Valuation): Tri {
    if shared.None? then v.tri(Neutral(op)) else Eval(shared.value, v)
  }

  lemma {:induction false} ExtractEqFactor(op: Op, shared: Option<Expr>, e1: Expr, e2: Expr, v: Valuation)
    returns (f: Tri)
    requires Grounded(v)
    ensures var r := ExtractEq(op, shared, e1, e2);
      && Collected(op, r.shared, v) == Combine(op, Collected(op, shared, v), f)
      && Eval(e1, v) == Combine(op, f, Eval(r.e1, v))
      && Eval(e2, v) == Combine(op, f, Eval(r.e2, v))
    decreases Size(e1) + Size(e2)
  {
    if IsOp(e1, op) {
      hide Combine, ExprEq;
      var a := ExtractEq(op, shared, e1.left, e2);
      var b := ExtractEq(op, a.shared, e1.right, a.e2);
      var s := ExtractEqFactor(op, shared, e1.left, e2, v);
      var t := ExtractEqFactor(op, a.shared, e1.right, a.e2, v);
      f := Combine(op, s, t);
      Regroup(op, s, t, Eval(a.e1, v), Eval(b.e1, v));
      Regroup(op, s, t, Eval(b.e2, v), Eval(b.e2, v));
      CombineAC(op, Collected(op, shared, v), s, t);
    } else if IsOp(e2, op) {
      hide Combine, ExprEq;
      var a := ExtractEq(op, shared, e1, e2.left);
      var b := ExtractEq(op, a.shared, a.e1, e2.right);
      var s := ExtractEqFactor(op, shared, e1, e2.left, v);
      var t := ExtractEqFactor(op, a.shared, a.e1, e2.right, v);
      f := Combine(op, s, t);
      Regroup(op, s, t, Eval(a.e2, v), Eval(b.e2, v));
      Regroup(op, s, t, Eval(b.e1, v), Eval(b.e1, v));
      CombineAC(op, Collected(op, shared, v), s, t);
    } else if ExprEq(e1, e2) {
      ExprEqSound(e1, e2, v);
      f := Eval(e1, v);
    } else {
      f := v.tri(Neutral(op));
    }
  }

  /** The extracted expression is exactly the factor both originals lose. */
  lemma ExtractEqTopFactor(op: Op, e1: Expr, e2: Expr, v: Valuation)
    requires Grounded(v)
    ensures var r := ExtractEqTop(op, e1, e2); var s := Collected(op, r.shared, v);
      Eval(e1, v) == Combine(op, s, Eval(r.e1, v)) && Eval(e2, v) == Combine(op, s, Eval(r.e2, v))
  {
    var r := ExtractEq(op, None, e1, e2);
    var f := ExtractEqFactor(op, None, e1, e2, v);
    EliminateYNExact(r.e1, v);
    EliminateYNExact(r.e2, v);
  }
}
