/** Tristate logic, symbols and dependency expressions (package/config/expr.h).

    An expression is a value here; a NULL `struct expr *`, which the program reads
    as "y", is `None` of `Option<Expr>` in the modules that meet one. */
module Exprs {
  import opened Wrappers

  // enum tristate: the order no < mod < yes is the order of the integers
  type Tri = t: int | 0 <= t <= 2
  const NO: Tri := 0
  const MOD: Tri := 1
  const YES: Tri := 2

  datatype SymType = Unknown | Boolean | Tristate | Int | Hex | Str

  // sym_lookup answers the three built-in symbols for these names, so no other
  // constant carries one of them
  type ConstName = s: string | s != "y" && s != "m" && s != "n" witness ""

  /** A symbol as expressions see it. Two symbols are the same C object exactly when
      they are the same value: constants are interned by name, configuration
      symbols are numbered. */
  datatype Sym =
    | SymYes
    | SymMod
    | SymNo
    | Const(name: ConstName)
    | Config(id: nat, ty: SymType)

  function TypeOf(s: Sym): SymType {
    if s.Config? then s.ty else Unknown
  }

  predicate IsConst(s: Sym) {
    !s.Config?
  }

  predicate IsYMN(s: Sym) {
    s.SymYes? || s.SymMod? || s.SymNo?
  }

  datatype Op = AndOp | OrOp

  datatype Expr =
    | Symbol(sym: Sym)
    | Not(arg: Expr)
    | Bin(op: Op, left: Expr, right: Expr)
    | Cmp(equal: bool, lhs: Sym, rhs: Sym)

  predicate IsOp(e: Expr, op: Op) {
    e.Bin? && e.op == op
  }

  predicate IsAtom(e: Expr) {
    e.Symbol? || e.Cmp?
  }

  // symbol_yes for AND, symbol_no for OR: what a factored-out operand becomes
  function Neutral(op: Op): Sym {
    if op.AndOp? then SymYes else SymNo
  }

  function Absorbing(op: Op): Sym {
    if op.AndOp? then SymNo else SymYes
  }

  function Dual(op: Op): Op {
    if op.AndOp? then OrOp else AndOp
  }

  function Size(e: Expr): (n: nat)
    ensures n >= 1
    ensures !IsAtom(e) ==> n >= 2
  {
    match e
    case Not(a) => 1 + Size(a)
    case Bin(_, l, r) => 1 + Size(l) + Size(r)
    case _ => 1
  }

  // ---------- values ----------

  /** One state of all symbols: the tristate and the string that the evaluator would
      report for each of them. */
  datatype Valuation = Valuation(tri: Sym -> Tri, str: Sym -> string)

  function TriString(t: Tri): string {
    if t == NO then "n" else if t == MOD then "m" else "y"
  }

  // the three built-in symbols hold their own values
  predicate Grounded(v: Valuation) {
    v.tri(SymYes) == YES && v.tri(SymMod) == MOD && v.tri(SymNo) == NO
  }

  /** What the symbol evaluator guarantees of every state it reports: booleans are
      never m, booleans and tristates read as "n", "m" or "y", constants read as
      their own names. */
  ghost predicate WellTyped(v: Valuation) {
    && Grounded(v)
    && v.str(SymYes) == "y" && v.str(SymMod) == "m" && v.str(SymNo) == "n"
    && (forall s: Sym :: TypeOf(s) == Boolean ==> v.tri(s) != MOD)
    && (forall s: Sym :: TypeOf(s) == Boolean || TypeOf(s) == Tristate ==> v.str(s) == TriString(v.tri(s)))
    && (forall c: ConstName :: v.str(Const(c)) == c)
  }

  // EXPR_AND is the minimum, EXPR_OR the maximum
  function Combine(op: Op, a: Tri, b: Tri): Tri {
    if op.AndOp? then (if a < b then a else b) else (if a > b then a else b)
  }

  /** expr_calc_value over symbols whose values are known. */
  function Eval(e: Expr, v: Valuation): Tri {
    match e
    case Symbol(s) => v.tri(s)
    case Not(a) => YES - Eval(a, v)
    case Bin(op, l, r) => Combine(op, Eval(l, v), Eval(r, v))
    case Cmp(eq, a, b) => if eq == (v.str(a) == v.str(b)) then YES else NO
  }

  // a missing expression is "y"
  function EvalOpt(e: Option<Expr>, v: Valuation): Tri {
    if e.None? then YES else Eval(e.value, v)
  }

  /** Kleene's information order: an undecided m may become anything, a decided
      value stays. */
  predicate Sharpens(was: Tri, now: Tri) {
    was == MOD || was == now
  }

  lemma CombineSharpens(op: Op, a: Tri, a': Tri, b: Tri, b': Tri)
    requires Sharpens(a, a') && Sharpens(b, b')
    ensures Sharpens(Combine(op, a, b), Combine(op, a', b'))
  {
  }

  lemma CombineAC(op: Op, a: Tri, b: Tri, c: Tri)
    ensures Combine(op, a, b) == Combine(op, b, a)
    ensures Combine(op, Combine(op, a, b), c) == Combine(op, a, Combine(op, b, c))
    ensures Combine(op, Combine(op, a, b), c) == Combine(op, Combine(op, a, c), b)
  {
  }

  lemma CombineSwap(op: Op, a: Tri, b: Tri, c: Tri)
    ensures Combine(op, a, Combine(op, b, c)) == Combine(op, b, Combine(op, a, c))
  {
  }

  // ---------- expr_alloc_and, expr_alloc_or ----------

  function AllocTwo(op: Op, e1: Option<Expr>, e2: Option<Expr>): Option<Expr> {
    if e1.None? then e2
    else if e2.None? then e1
    else Some(Bin(op, e1.value, e2.value))
  }

}
