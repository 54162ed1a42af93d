/** The tests by which menu_finalize decides that one entry depends on another, and the
    rewrites that prepare them: expr_trans_compare, expr_contains_symbol,
    expr_depends_symbol and expr_trans_bool (package/config/expr.c,
    package/config/menu.c). */
module Dependence {
  import opened Wrappers
  import opened Exprs
  import opened Factor
  import opened Negation
  import opened Simplify

  // ---------- expr_trans_compare ----------

  function Negate(e: Expr, negate: bool): Expr {
    if negate then Not(e) else e
  }

  /** "e = s" (`equal`) or "e != s" as an expression over comparisons of symbols. */
  function TransCompare(e: Expr, equal: bool, s: Sym): Expr
    requires IsYMN(s)
  {
    match e
    case Bin(op, l, r) =>
      var a, b := TransCompare(l, true, s), TransCompare(r, true, s);
      // for m, the operands are dropped and the expression itself is taken
      var c := if s == SymYes then Bin(op, a, b) else if s == SymNo then Bin(Dual(op), a, b) else e;
      Negate(c, !equal)
    case Not(a) => TransCompare(a, !equal, s)
    case Cmp(_, _, _) =>
      if s == SymMod then Symbol(if equal then SymNo else SymYes)
      else Negate(e, equal == (s == SymNo))
    case Symbol(t) => Cmp(equal, t, s)
  }

  // a missing expression is answered with the symbol itself
  function TransCompareOpt(e: Option<Expr>, equal: bool, s: Sym): Expr
    requires IsYMN(s)
  {
    if e.None? then Negate(Symbol(s), !equal) else TransCompare(e.value, equal, s)
  }

  /** Classical two-valued reading. A symbol counts as y if its string is not "n" (for m = y),
      or only if its string is "y" (for m = n): an m counts as `m`. */
  function EvalReading(e: Expr, m: Tri, v: Valuation): Tri
    requires m != MOD
  {
    match e
    case Symbol(s) => if (if m == YES then v.str(s) != "n" else v.str(s) == "y") then YES else NO
    case Not(a) => YES - EvalReading(a, m, v)
    case Bin(op, l, r) => Combine(op, EvalReading(l, m, v), EvalReading(r, m, v))
    case Cmp(_, _, _) => Eval(e, v)
  }

  // the way a comparison with y or n reads an m: "= y" as no, "!= n" as yes
  function ReadingFor(s: Sym): Tri {
    if s == SymNo then YES else NO
  }

  /** Only bool and tristate symbols, and the constants y, m and n, have strings that
      compare with y, m and n as their values do. */
  predicate TristateLeaves(e: Expr) {
    match e
    case Symbol(s) => IsYMN(s) || TypeOf(s) == Boolean || TypeOf(s) == Tristate
    case Not(a) => TristateLeaves(a)
    case Bin(_, l, r) => TristateLeaves(l) && TristateLeaves(r)
    case Cmp(_, _, _) => true
  }

  lemma LeafString(s: Sym, v: Valuation)
    requires WellTyped(v) && (IsYMN(s) || TypeOf(s) == Boolean || TypeOf(s) == Tristate)
    ensures v.str(s) == TriString(v.tri(s))
  {
  }

  /** What the rewrite computes, for every expression and every state: the comparison of
      the classical reading, whatever the tristate value of the expression is. */
  lemma {:induction false} TransCompareReads(e: Expr, equal: bool, s: Sym, v: Valuation)
    requires WellTyped(v) && (s == SymYes || s == SymNo)
    ensures Eval(TransCompare(e, equal, s), v)
         == if equal == (EvalReading(e, ReadingFor(s), v) == v.tri(s)) then YES else NO
  {
    match e
    case Symbol(_) =>
    case Not(a) => TransCompareReads(a, !equal, s, v); ReadingTwoValued(a, ReadingFor(s), v);
    case Bin(_, l, r) =>
      TransCompareReads(l, true, s, v);
      TransCompareReads(r, true, s, v);
      ReadingTwoValued(l, ReadingFor(s), v);
      ReadingTwoValued(r, ReadingFor(s), v);
    case Cmp(_, _, _) =>
  }

  lemma {:induction false} ReadingTwoValued(e: Expr, m: Tri, v: Valuation)
    requires m != MOD
    ensures EvalReading(e, m, v) != MOD
  {
    match e
    case Not(a) => ReadingTwoValued(a, m, v);
    case Bin(_, l, r) => ReadingTwoValued(l, m, v); ReadingTwoValued(r, m, v);
    case _ =>
  }

  /** No ! stands over a tristate symbol or m. */
  predicate NotOverBooleans(e: Expr) {
    match e
    case Not(a) => NeverMod(a)
    case Bin(_, l, r) => NotOverBooleans(l) && NotOverBooleans(r)
    case _ => true
  }

  /** The reading of a decided expression is its value. */
  lemma {:induction false} ReadingOfDecided(e: Expr, m: Tri, v: Valuation)
    requires WellTyped(v) && TristateLeaves(e) && m != MOD
    ensures Eval(e, v) != MOD ==> EvalReading(e, m, v) == Eval(e, v)
  {
    match e
    case Symbol(s) => LeafString(s, v);
    case Not(a) => ReadingOfDecided(a, m, v);
    case Bin(_, l, r) => ReadingOfDecided(l, m, v); ReadingOfDecided(r, m, v);
    case _ =>
  }

  lemma {:induction false} ReadingExact(e: Expr, m: Tri, v: Valuation)
    requires WellTyped(v) && TristateLeaves(e) && NotOverBooleans(e) && m != MOD
    ensures EvalReading(e, m, v) == if Eval(e, v) == MOD then m else Eval(e, v)
  {
    match e
    case Symbol(s) => LeafString(s, v);
    case Not(a) => ReadingOfDecided(a, m, v); NeverModValue(a, v);
    case Bin(_, l, r) => ReadingExact(l, m, v); ReadingExact(r, m, v);
    case _ =>
  }

  /** With every ! over booleans, the comparison is the one that was asked for. */
  lemma TransCompareExact(e: Expr, equal: bool, s: Sym, v: Valuation)
    requires WellTyped(v) && TristateLeaves(e) && NotOverBooleans(e) && (s == SymYes || s == SymNo)
    ensures Eval(TransCompare(e, equal, s), v) == if equal == (Eval(e, v) == v.tri(s)) then YES else NO
  {
    TransCompareReads(e, equal, s, v);
    ReadingExact(e, ReadingFor(s), v);
  }

  /** The comparison is the one that was asked for if and only if the expression is not m, or
      at m is not read as the constant it is compared with. */
  lemma TransCompareExactIff(e: Expr, equal: bool, s: Sym, v: Valuation)
    requires WellTyped(v) && TristateLeaves(e) && (s == SymYes || s == SymNo)
    ensures Eval(TransCompare(e, equal, s), v) == (if equal == (Eval(e, v) == v.tri(s)) then YES else NO)
       <==> Eval(e, v) != MOD || EvalReading(e, ReadingFor(s), v) != v.tri(s)
  {
    TransCompareReads(e, equal, s, v);
    ReadingOfDecided(e, ReadingFor(s), v);
  }

  /** Passing a comparison through a ! is right in a state if and only if the negated
      expression is not m there. */
  lemma TransCompareNotExactIff(a: Expr, equal: bool, s: Sym, v: Valuation)
    requires WellTyped(v) && TristateLeaves(a) && NotOverBooleans(a) && (s == SymYes || s == SymNo)
    ensures Eval(TransCompare(Not(a), equal, s), v) == (if equal == (Eval(Not(a), v) == v.tri(s)) then YES else NO)
       <==> Eval(a, v) != MOD
  {
    TransCompareReads(Not(a), equal, s, v);
    ReadingExact(a, ReadingFor(s), v);
  }

  // what is left of an expression without the negations it begins with, and their parity
  ghost function Core(e: Expr): Expr {
    if e.Not? then Core(e.arg) else e
  }

  ghost predicate OddNegations(e: Expr) {
    e.Not? && !OddNegations(e.arg)
  }

  /** A comparison with m is not made for a conjunction or a disjunction: "= m" has the value of the
      expression, "!= m" that of its negation. For a symbol or a comparison it is the one asked
      for if it stands under an even number of negations, and the opposite otherwise. */
  lemma {:induction false} TransCompareMod(e: Expr, equal: bool, v: Valuation)
    requires WellTyped(v) && TristateLeaves(e)
    ensures Core(e).Bin? ==>
              Eval(TransCompare(e, equal, SymMod), v) == if equal then Eval(e, v) else YES - Eval(e, v)
    ensures !Core(e).Bin? ==>
              Eval(TransCompare(e, equal, SymMod), v)
              == if (equal == (Eval(e, v) == MOD)) != OddNegations(e) then YES else NO
  {
    match e
    case Not(a) => TransCompareMod(a, !equal, v);
    case Symbol(s) => LeafString(s, v);
    case _ =>
  }

  // ---------- expr_contains_symbol, expr_depends_symbol ----------

  predicate ContainsSymbol(e: Expr, s: Sym) {
    match e
    case Symbol(t) => s == t
    case Not(a) => ContainsSymbol(a, s)
    case Bin(_, l, r) => ContainsSymbol(l, s) || ContainsSymbol(r, s)
    case Cmp(_, a, b) => s == a || s == b
  }

  predicate DependsSymbol(e: Expr, s: Sym) {
    match e
    case Symbol(t) => s == t
    case Bin(AndOp, l, r) => DependsSymbol(l, s) || DependsSymbol(r, s)
    case Cmp(eq, a, b) => a == s && (if eq then b == SymYes || b == SymMod else b == SymNo)
    case _ => false
  }

  /** The symbol, or n, is a conjunct of the condition. */
  predicate Guarded(e: Expr, x: Sym) {
    match e
    case Symbol(y) => y == x || y == SymNo
    case Bin(AndOp, l, r) => Guarded(l, x) || Guarded(r, x)
    case Cmp(_, _, _) => DependsSymbol(e, x)
    case _ => false
  }

  /** An expression that does not mention a symbol does not depend on its value. */
  lemma {:induction false} ContainsSound(e: Expr, s: Sym, v: Valuation, w: Valuation)
    requires !ContainsSymbol(e, s)
    requires forall t: Sym :: t != s ==> v.tri(t) == w.tri(t) && v.str(t) == w.str(t)
    ensures Eval(e, v) == Eval(e, w)
  {
    match e
    case Not(a) => ContainsSound(a, s, v, w);
    case Bin(_, l, r) => ContainsSound(l, s, v, w); ContainsSound(r, s, v, w);
    case _ =>
  }

  lemma {:induction false} DependsSound(e: Expr, s: Sym, v: Valuation)
    requires WellTyped(v) && DependsSymbol(e, s)
    requires TypeOf(s) == Boolean || TypeOf(s) == Tristate
    requires Eval(e, v) != NO
    ensures v.tri(s) != NO
  {
    if e.Bin? {
      if DependsSymbol(e.left, s) {
        DependsSound(e.left, s, v);
      } else {
        DependsSound(e.right, s, v);
      }
    }
  }

  // ---------- expr_trans_bool ----------

  function TransBool(e: Expr): Expr {
    match e
    case Not(a) => Not(TransBool(a))
    case Bin(op, l, r) => Bin(op, TransBool(l), TransBool(r))
    case Cmp(false, s, t) => if TypeOf(s) == Tristate && t == SymNo then Symbol(s) else e
    case _ => e
  }

  /** On a normal form, the value is never raised and "not n" is kept. */
  lemma {:induction false} TransBoolKeepsNo(e: Expr, v: Valuation)
    requires WellTyped(v) && Nnf(e)
    ensures Eval(TransBool(e), v) <= Eval(e, v)
    ensures Eval(TransBool(e), v) == NO <==> Eval(e, v) == NO
  {
    match e
    case Bin(_, l, r) => TransBoolKeepsNo(l, v); TransBoolKeepsNo(r, v);
    case _ =>
  }

  // ---------- menu_finalize: is the entry below a submenu of the one above? ----------

  // expr_eliminate_dups(expr_transform(expr_trans_compare(e, E_UNEQUAL, &symbol_no)))
  function Visible(e: Option<Expr>): Expr {
    EliminateDups(Transform(TransCompareOpt(e, false, SymNo)))
  }

  /** The tests of the loop over the following siblings: `dep` is the condition of the
      sibling, `base` that of the entry for symbol `s` above it. */
  predicate Adopts(dep: Option<Expr>, base: Option<Expr>, s: Sym) {
    && dep.Some? && ContainsSymbol(dep.value, s)
    && (DependsSymbol(dep.value, s) || EliminateEq(Visible(dep), Visible(base)).1 == Symbol(SymYes))
  }

  predicate ComparisonsOnly(e: Expr) {
    match e
    case Symbol(s) => s == SymYes || s == SymNo
    case Not(a) => ComparisonsOnly(a)
    case Bin(_, l, r) => ComparisonsOnly(l) && ComparisonsOnly(r)
    case Cmp(_, _, _) => true
  }

  lemma {:induction false} TransCompareShape(e: Expr, equal: bool, s: Sym)
    requires s == SymYes || s == SymNo
    ensures ComparisonsOnly(TransCompare(e, equal, s))
  {
    match e
    case Not(a) => TransCompareShape(a, !equal, s);
    case Bin(_, l, r) => TransCompareShape(l, true, s); TransCompareShape(r, true, s);
    case _ =>
  }

  lemma {:induction false} ComparisonsTwoValued(e: Expr, v: Valuation)
    requires WellTyped(v) && ComparisonsOnly(e)
    ensures Eval(e, v) != MOD
  {
    match e
    case Not(a) => ComparisonsTwoValued(a, v);
    case Bin(_, l, r) => ComparisonsTwoValued(l, v); ComparisonsTwoValued(r, v);
    case _ =>
  }

  predicate TristateLeavesOpt(e: Option<Expr>) {
    e.None? || TristateLeaves(e.value)
  }

  // a missing condition reads as y
  function EvalReadingOpt(e: Option<Expr>, m: Tri, v: Valuation): Tri
    requires m != MOD
  {
    if e.None? then YES else EvalReading(e.value, m, v)
  }

  /** The prepared condition is y where the classical reading, m as y, of the original is
      y, and n elsewhere: all three rewrites together lose nothing more. */
  lemma VisibleReads(e: Option<Expr>, v: Valuation)
    requires WellTyped(v)
    ensures Eval(Visible(e), v) == EvalReadingOpt(e, YES, v)
  {
    var c := TransCompareOpt(e, false, SymNo);
    if e.Some? {
      TransCompareReads(e.value, false, SymNo, v);
      ReadingTwoValued(e.value, YES, v);
    }
    TransCompareOptShape(e);
    ComparisonsTwoValued(c, v);
    TransformExact(c, v);
    EliminateDupsSharpens(Transform(c), v);
  }

  lemma TransCompareOptShape(e: Option<Expr>)
    ensures ComparisonsOnly(TransCompareOpt(e, false, SymNo))
  {
    if e.Some? {
      TransCompareShape(e.value, false, SymNo);
    }
  }

  /** What the two tests establish in every state: where the condition of an adopted entry is
      not n the symbol above is set; or where that condition is read as y, m counting as y,
      so is that of the entry above. */
  lemma AdoptionSound(dep: Option<Expr>, base: Option<Expr>, s: Sym, v: Valuation)
    requires WellTyped(v) && (TypeOf(s) == Boolean || TypeOf(s) == Tristate)
    ensures Adopts(dep, base, s) && DependsSymbol(dep.value, s) ==> EvalOpt(dep, v) == NO || v.tri(s) != NO
    ensures Adopts(dep, base, s) && !DependsSymbol(dep.value, s) ==>
      EvalReadingOpt(dep, YES, v) <= EvalReadingOpt(base, YES, v)
  {
    if Adopts(dep, base, s) {
      if DependsSymbol(dep.value, s) {
        if Eval(dep.value, v) != NO {
          DependsSound(dep.value, s, v);
        }
      } else {
        VisibleReads(dep, v);
        VisibleReads(base, v);
        UsedUpIsImplied(Visible(dep), Visible(base), v);
      }
    }
  }

  // the symbol above is set, or the entry above may be shown
  predicate Reachable(base: Option<Expr>, s: Sym, v: Valuation) {
    v.tri(s) != NO || EvalOpt(base, v) != NO
  }

  predicate NotOverBooleansOpt(e: Option<Expr>) {
    e.None? || NotOverBooleans(e.value)
  }

  /** An adopted entry may be shown only where the one above can be reached, as long as its
      condition is y, or is at least read as y; which a condition at m is if it negates
      booleans only. Adopting.HiddenBelow is one that is not. */
  lemma AdoptedImpliesParent(dep: Option<Expr>, base: Option<Expr>, s: Sym, v: Valuation)
    requires WellTyped(v) && TristateLeavesOpt(dep) && TristateLeavesOpt(base)
    requires TypeOf(s) == Boolean || TypeOf(s) == Tristate
    ensures Adopts(dep, base, s) && EvalOpt(dep, v) == YES ==> Reachable(base, s, v)
    ensures Adopts(dep, base, s) && EvalReadingOpt(dep, YES, v) == YES ==> Reachable(base, s, v)
    ensures Adopts(dep, base, s) && NotOverBooleansOpt(dep) && EvalOpt(dep, v) != NO ==> Reachable(base, s, v)
  {
    hide Adopts, EvalReading;
    AdoptionSound(dep, base, s, v);
    if dep.Some? {
      ReadingOfDecided(dep.value, YES, v);
      if NotOverBooleans(dep.value) {
        ReadingExact(dep.value, YES, v);
      }
      DependsRead(dep.value, s, v);
    }
    if base.Some? {
      ReadingOfDecided(base.value, YES, v);
    }
    AdoptsSome(dep, base, s);
  }

  // a condition that depends on a symbol is read as y only where the symbol is set
  lemma {:induction false} DependsRead(e: Expr, s: Sym, v: Valuation)
    requires WellTyped(v) && (TypeOf(s) == Boolean || TypeOf(s) == Tristate)
    ensures DependsSymbol(e, s) && EvalReading(e, YES, v) == YES ==> v.tri(s) != NO
  {
    if e.Bin? {
      DependsRead(e.left, s, v);
      DependsRead(e.right, s, v);
    }
  }

  lemma AdoptsSome(dep: Option<Expr>, base: Option<Expr>, s: Sym)
    ensures Adopts(dep, base, s) ==> dep.Some?
  {
  }
}
