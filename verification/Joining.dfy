/** Merging two operands of one && or || into a single one: expr_join_or and
    expr_join_and (package/config/expr.c). */
module Joining {
  import opened Wrappers
  import opened Exprs
  import opened Factor

  /** The symbol an operand is about. A comparison below a ! is looked through in the
      first operand only. */
  function OperandSym(e: Expr, first: bool): Option<Sym> {
    match e
    case Symbol(s) => Some(s)
    case Cmp(_, s, _) => Some(s)
    case Not(Symbol(s)) => Some(s)
    case Not(Cmp(_, s, _)) => if first then Some(s) else None
    case _ => None
  }

  // the boolean or tristate symbol that both operands are about, if there is one
  function CommonSym(e1: Expr, e2: Expr): Option<Sym> {
    var s1, s2 := OperandSym(e1, true), OperandSym(e2, false);
    if s1.Some? && s1 == s2 && (TypeOf(s1.value) == Boolean || TypeOf(s1.value) == Tristate) then s1 else None
  }

  predicate Either(a: Sym, b: Sym, x: Sym, y: Sym) {
    (a == x && b == y) || (a == y && b == x)
  }

  predicate IsCmp(e: Expr, equal: bool) {
    e.Cmp? && e.equal == equal
  }

  // one operand is the plain symbol, the other compares it
  predicate SymbolAndCmp(e1: Expr, e2: Expr, equal: bool, rhs: Sym) {
    || (e1.Symbol? && IsCmp(e2, equal) && e2.rhs == rhs)
    || (e2.Symbol? && IsCmp(e1, equal) && e1.rhs == rhs)
  }

  predicate BothCmp(e1: Expr, e2: Expr, equal: bool, x: Sym, y: Sym) {
    IsCmp(e1, equal) && IsCmp(e2, equal) && Either(e1.rhs, e2.rhs, x, y)
  }

  predicate NotSymbol(e: Expr) {
    e.Not? && e.arg.Symbol?
  }

  function JoinOr(e1: Expr, e2: Expr): Option<Expr> {
    if ExprEq(e1, e2) then Some(e1) else
    var c := CommonSym(e1, e2);
    if c.None? then None else
    var s := c.value;
    if TypeOf(s) == Tristate && BothCmp(e1, e2, true, SymYes, SymMod) then Some(Cmp(false, s, SymNo))
    else if TypeOf(s) == Tristate && BothCmp(e1, e2, true, SymYes, SymNo) then Some(Cmp(false, s, SymMod))
    else if TypeOf(s) == Tristate && BothCmp(e1, e2, true, SymMod, SymNo) then Some(Cmp(false, s, SymYes))
    else if TypeOf(s) == Boolean && ((NotSymbol(e1) && e2.Symbol?) || (NotSymbol(e2) && e1.Symbol?)) then
      Some(Symbol(SymYes))
    else None
  }

  function JoinAnd(e1: Expr, e2: Expr): Option<Expr> {
    if ExprEq(e1, e2) then Some(e1) else
    var c := CommonSym(e1, e2);
    if c.None? then None else
    var s := c.value;
    if SymbolAndCmp(e1, e2, true, SymYes) then Some(Cmp(true, s, SymYes))
    else if SymbolAndCmp(e1, e2, false, SymNo) then Some(Symbol(s))
    else if SymbolAndCmp(e1, e2, false, SymMod) then Some(Cmp(true, s, SymYes))
    else if TypeOf(s) != Tristate then None
    else if IsCmp(e1, true) && IsCmp(e2, false) && IsConst(e2.rhs) && IsConst(e1.rhs) then
      Some(if e1.rhs != e2.rhs then Cmp(true, s, e1.rhs) else Symbol(SymNo))
    else if IsCmp(e1, false) && IsCmp(e2, true) && IsConst(e1.rhs) && IsConst(e2.rhs) then
      Some(if e2.rhs != e1.rhs then Cmp(true, s, e2.rhs) else Symbol(SymNo))
    else if BothCmp(e1, e2, false, SymYes, SymNo) then Some(Cmp(true, s, SymMod))
    else if BothCmp(e1, e2, false, SymYes, SymMod) then Some(Cmp(true, s, SymNo))
    else if BothCmp(e1, e2, false, SymMod, SymNo) then Some(Cmp(true, s, SymYes))
    else None
  }

  function JoinTwo(op: Op, e1: Expr, e2: Expr): (r: Option<Expr>)
    ensures r.Some? ==> Size(r.value) < Size(e1) + Size(e2)
    ensures r.Some? && r.value.Bin? ==> r.value == e1
    ensures r.Some? && IsYN(e2) ==> r.value == e2
  {
    match op
    case AndOp => JoinAnd(e1, e2)
    case OrOp => JoinOr(e1, e2)
  }

  /** Distinct constants read as distinct strings. */
  lemma ConstStrings(a: Sym, b: Sym, v: Valuation)
    requires WellTyped(v) && IsConst(a) && IsConst(b)
    ensures v.str(a) == v.str(b) <==> a == b
  {
  }

  lemma JoinOrExact(e1: Expr, e2: Expr, v: Valuation)
    requires WellTyped(v) && JoinOr(e1, e2).Some?
    ensures Eval(JoinOr(e1, e2).value, v) == Combine(OrOp, Eval(e1, v), Eval(e2, v))
  {
    if ExprEq(e1, e2) {
      ExprEqSound(e1, e2, v);
    }
  }

  lemma JoinAndExact(e1: Expr, e2: Expr, v: Valuation)
    requires WellTyped(v) && JoinAnd(e1, e2).Some?
    ensures Eval(JoinAnd(e1, e2).value, v) == Combine(AndOp, Eval(e1, v), Eval(e2, v))
  {
    if ExprEq(e1, e2) {
      ExprEqSound(e1, e2, v);
    } else if e1.Cmp? && e2.Cmp? && IsConst(e1.rhs) && IsConst(e2.rhs) {
      ConstStrings(e1.rhs, e2.rhs, v);
    }
  }

  /** Whatever the joiners answer stands for both operands, in every state. */
  lemma JoinExact(op: Op, e1: Expr, e2: Expr, v: Valuation)
    requires WellTyped(v) && JoinTwo(op, e1, e2).Some?
    ensures Eval(JoinTwo(op, e1, e2).value, v) == Combine(op, Eval(e1, v), Eval(e2, v))
  {
    match op
    case AndOp => JoinAndExact(e1, e2, v);
    case OrOp => JoinOrExact(e1, e2, v);
  }
}
