/** expr_transform: pushing ! down to the symbols (package/config/expr.c). */
module Negation {
  import opened Exprs

  /** A ! counts double, so that moving it below && or || pays for the two copies. */
  function Weight(e: Expr): (w: nat)
    ensures w >= 1
  {
    match e
    case Symbol(_) => 1
    case Cmp(_, _, _) => 2
    case Not(a) => 2 * Weight(a)
    case Bin(_, l, r) => 1 + Weight(l) + Weight(r)
  }

  predicate BooleanTest(e: Expr) {
    e.Cmp? && TypeOf(e.lhs) == Boolean && IsYMN(e.rhs)
  }

  /** Negation normal form: ! only over a symbol other than y, m and n, and no boolean
      symbol compared with y, m or n. */
  predicate Nnf(e: Expr) {
    match e
    case Symbol(_) => true
    case Not(a) => a.Symbol? && !IsYMN(a.sym)
    case Bin(_, l, r) => Nnf(l) && Nnf(r)
    case Cmp(_, _, _) => !BooleanTest(e)
  }

  // the E_EQUAL and E_UNEQUAL cases
  function TransformCmp(e: Expr): (r: Expr)
    requires e.Cmp?
    ensures Weight(r) <= Weight(e) && Nnf(r)
  {
    if !BooleanTest(e) then e
    else if e.rhs == SymMod then Symbol(if e.equal then SymNo else SymYes)
    else if e.equal == (e.rhs == SymYes) then Symbol(e.lhs)
    else Not(Symbol(e.lhs))
  }

  // ! over a built-in symbol
  function NotYMN(s: Sym): Sym
    requires IsYMN(s)
  {
    if s == SymYes then SymNo else if s == SymNo then SymYes else SymMod
  }

  function Transform(e: Expr): (r: Expr)
    ensures Weight(r) <= Weight(e)
    ensures Nnf(r)
    decreases Weight(e)
  {
    match e
    case Symbol(_) => e
    case Cmp(_, _, _) => TransformCmp(e)
    case Bin(op, l, r) => Bin(op, Transform(l), Transform(r))
    case Not(a) =>
      var t := Transform(a);
      match t
      case Not(b) => Transform(b)
      case Cmp(eq, s, u) => Cmp(!eq, s, u)
      case Bin(op, b, c) =>
        assert Weight(Not(b)) == 2 * Weight(b) && Weight(Not(c)) == 2 * Weight(c);
        Transform(Bin(Dual(op), Not(b), Not(c)))
      case Symbol(s) => if IsYMN(s) then Symbol(NotYMN(s)) else Not(t)
  }

  /** The tristate value survives in every state the evaluator can report. */
  lemma {:induction false} TransformExact(e: Expr, v: Valuation)
    requires WellTyped(v)
    ensures Eval(Transform(e), v) == Eval(e, v)
    decreases Weight(e)
  {
    match e
    case Symbol(_) =>
    case Cmp(_, _, _) =>
    case Bin(_, l, r) =>
      TransformExact(l, v);
      TransformExact(r, v);
    case Not(a) =>
      var t := Transform(a);
      TransformExact(a, v);
      match t {
        case Not(b) => TransformExact(b, v);
        case Bin(op, b, c) =>
          assert Weight(Not(b)) == 2 * Weight(b) && Weight(Not(c)) == 2 * Weight(c);
          TransformExact(Bin(Dual(op), Not(b), Not(c)), v);
        case _ =>
      }
  }

  /** A normal form is left alone; with Nnf(Transform(e)), the transformation is
      idempotent. */
  lemma {:induction false} TransformIdempotent(e: Expr)
    ensures Nnf(e) ==> Transform(e) == e
    ensures Transform(Transform(e)) == Transform(e)
  {
    NnfFixed(Transform(e));
    if Nnf(e) {
      NnfFixed(e);
    }
  }

  lemma {:induction false} NnfFixed(e: Expr)
    requires Nnf(e)
    ensures Transform(e) == e
  {
    if e.Bin? {
      NnfFixed(e.left);
      NnfFixed(e.right);
    }
  }

  lemma NegatedBin(op: Op, a: Expr, b: Expr)
    requires Nnf(a) && Nnf(b)
    ensures Transform(Not(Bin(op, a, b))) == Bin(Dual(op), Transform(Not(a)), Transform(Not(b)))
  {
    NnfFixed(Bin(op, a, b));
    assert Weight(Not(a)) == 2 * Weight(a) && Weight(Not(b)) == 2 * Weight(b);
  }
}
