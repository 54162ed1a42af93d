/** When an automatic submenu may be trusted: the exact condition under which an entry that
    may be shown was put below one that may be reached (package/config/menu.c,
    package/config/expr.c). */
module Adopting {
  import opened Wrappers
  import opened Exprs
  import opened Factor
  import opened Negation
  import opened Slots
  import opened Simplify
  import opened Shapes
  import opened Complete
  import opened Matching
  import opened Dependence

  // ---------- a prepared condition is left alone by another preparation ----------

  lemma {:induction false} PreparedAgain(e: Expr)
    requires Normal(e, true) && Clean(e) && !IsYN(e)
    ensures Transform(TransCompare(e, false, SymNo)) == e
    ensures Transform(Not(Transform(TransCompare(e, true, SymNo)))) == e
  {
    match e
    case Bin(op, l, r) =>
      PreparedAgain(l);
      PreparedAgain(r);
      var a, b := Transform(TransCompare(l, true, SymNo)), Transform(TransCompare(r, true, SymNo));
      var t := Bin(Dual(op), a, b);
      assert Transform(Bin(Dual(op), TransCompare(l, true, SymNo), TransCompare(r, true, SymNo))) == t;
      NnfFixed(t);
      NegatedBin(Dual(op), a, b);
    case Not(a) =>
      assert NeverMod(a);
      PreparedNot(a.sym);
    case Symbol(b) => PreparedSymbol(b);
    case Cmp(_, _, _) => PreparedCmp(e);
  }

  lemma PreparedSymbol(b: Sym)
    requires TypeOf(b) == Boolean
    ensures Transform(TransCompare(Symbol(b), false, SymNo)) == Symbol(b)
    ensures Transform(TransCompare(Symbol(b), true, SymNo)) == Not(Symbol(b))
    ensures Transform(Not(Not(Symbol(b)))) == Symbol(b)
  {
    assert TransCompare(Symbol(b), false, SymNo) == Cmp(false, b, SymNo);
    assert TransCompare(Symbol(b), true, SymNo) == Cmp(true, b, SymNo);
    assert Transform(Symbol(b)) == Symbol(b);
    assert Transform(Not(Symbol(b))) == Not(Symbol(b));
  }

  lemma PreparedNot(b: Sym)
    requires TypeOf(b) == Boolean
    ensures Transform(TransCompare(Not(Symbol(b)), false, SymNo)) == Not(Symbol(b))
    ensures Transform(Not(Transform(TransCompare(Not(Symbol(b)), true, SymNo)))) == Not(Symbol(b))
  {
    PreparedSymbol(b);
    assert TransCompare(Not(Symbol(b)), false, SymNo) == TransCompare(Symbol(b), true, SymNo);
    assert TransCompare(Not(Symbol(b)), true, SymNo) == TransCompare(Symbol(b), false, SymNo);
    assert Transform(Symbol(b)) == Symbol(b);
  }

  lemma PreparedCmp(e: Expr)
    requires e.Cmp? && !BooleanTest(e)
    ensures Transform(TransCompare(e, false, SymNo)) == e
    ensures Transform(Not(Transform(TransCompare(e, true, SymNo)))) == e
  {
    var flipped := Cmp(!e.equal, e.lhs, e.rhs);
    assert TransCompare(e, true, SymNo) == Not(e) && TransCompare(e, false, SymNo) == e;
    assert Transform(e) == e && Transform(flipped) == flipped;
    assert Transform(Not(e)) == flipped;
  }

  lemma VisibleIsNormal(e: Option<Expr>)
    ensures Normal(Visible(e), true)
  {
    var c := TransCompareOpt(e, false, SymNo);
    TransCompareOptShape(e);
    ComparisonsAreNeverMod(c);
    TransformNeverMod(c);
    SimplifiedKeepsNormal(Transform(c), true);
  }

  lemma {:induction false} ComparisonsAreNeverMod(e: Expr)
    requires ComparisonsOnly(e)
    ensures NeverMod(e)
  {
    match e
    case Not(a) => ComparisonsAreNeverMod(a);
    case Bin(_, l, r) => ComparisonsAreNeverMod(l); ComparisonsAreNeverMod(r);
    case _ =>
  }

  lemma {:induction false} TransformNeverMod(e: Expr)
    requires NeverMod(e)
    ensures NeverMod(Transform(e))
    decreases Weight(e)
  {
    match e
    case Bin(_, l, r) =>
      TransformNeverMod(l);
      TransformNeverMod(r);
    case Not(a) =>
      var t := Transform(a);
      TransformNeverMod(a);
      match t {
        case Not(b) => TransformNeverMod(b);
        case Bin(op, b, c) =>
          assert Weight(Not(b)) == 2 * Weight(b) && Weight(Not(c)) == 2 * Weight(c);
          TransformNeverMod(Bin(Dual(op), Not(b), Not(c)));
        case _ =>
      }
    case _ =>
  }

  // ---------- one operand of a conjunction ----------

  // a conjunction that is n has an operand that is
  lemma {:induction false} OperandAtNo(e: Expr, v: Valuation) returns (p: Slot)
    requires Eval(e, v) == NO
    ensures OperandSlot(e, AndOp, p) && Eval(At(e, AndOp, p), v) == NO
  {
    if !IsOp(e, AndOp) {
      p := Top;
    } else if Eval(e.left, v) == NO {
      p := OperandAtNo(e.left, v);
      p := InLeft(p);
    } else {
      p := OperandAtNo(e.right, v);
      p := InRight(p);
    }
  }

  lemma {:induction false} OperandFacts(e: Expr, p: Slot)
    requires Clean(e) && !IsYN(e) && Normal(e, true) && OperandSlot(e, AndOp, p)
    ensures var o := At(e, AndOp, p);
      Clean(o) && !IsYN(o) && Normal(o, true) && Operands(AndOp, o) <= Operands(AndOp, e)
  {
    match p
    case Top =>
    case InLeft(q) => OperandFacts(e.left, q);
    case InRight(q) => OperandFacts(e.right, q);
  }

  lemma QuietIsFixed(e: Expr)
    requires Quiet1(e) && Quiet2(e)
    ensures EliminateDups(e) == e
  {
  }

  lemma {:induction false} PlainLeaves(e: Expr)
    requires NeverMod(e)
    ensures TristateLeaves(e)
  {
    match e
    case Not(a) => PlainLeaves(a);
    case Bin(_, l, r) => PlainLeaves(l); PlainLeaves(r);
    case _ =>
  }

  // an operand of the prepared condition is prepared already
  lemma OperandPrepared(dep: Expr, p: Slot)
    requires var x := Visible(Some(dep)); Clean(x) && IsOp(x, AndOp) && OperandSlot(x, AndOp, p)
    ensures var x := Visible(Some(dep)); var o := At(x, AndOp, p);
      && Visible(Some(o)) == o && TristateLeaves(o)
      && EliminateEq(x, o).1 == Symbol(SymYes)
  {
    hide EliminateDups, Transform, TransCompare, EliminateEq, Dups1, Dups2;
    var x := Visible(Some(dep));
    var o := At(x, AndOp, p);
    VisibleIsNormal(Some(dep));
    OperandFacts(x, p);
    PreparedAgain(o);
    EliminateDupsIdempotent(Transform(TransCompareOpt(Some(dep), false, SymNo)));
    FixedIsQuiet(x);
    QuietDown(x);
    QuietIsFixed(o);
    PlainLeaves(o);
    UsedUpIff(x, o);
  }

  lemma FixedIsQuiet(e: Expr)
    requires Round(e).count == 0
    ensures Quiet1(e) && Quiet2(e)
  {
  }

  // ---------- the exact condition ----------

  /** Take a condition at m that mentions a symbol at n without depending on it. Whatever
      entry for that symbol adopts it can be reached, if and only if the condition is read as
      y or is not prepared to a conjunction. Comparisons of a boolean with m are left out:
      the entries considered have prepared conditions without literal operands. */
  lemma AdoptionAtModIff(dep: Expr, s: Sym, v: Valuation)
    requires WellTyped(v) && TristateLeaves(dep) && Eval(dep, v) == MOD && Clean(Visible(Some(dep)))
    requires (TypeOf(s) == Boolean || TypeOf(s) == Tristate) && v.tri(s) == NO
    requires ContainsSymbol(dep, s) && !DependsSymbol(dep, s)
    ensures (forall base :: TristateLeavesOpt(base) && Clean(Visible(base)) && Adopts(Some(dep), base, s) ==>
        Reachable(base, s, v))
       <==> EvalReading(dep, YES, v) == YES || !IsOp(Visible(Some(dep)), AndOp)
  {
    hide Visible, EvalReading, TristateLeaves;
    var x := Visible(Some(dep));
    ReadingTwoValued(dep, YES, v);
    VisibleReads(Some(dep), v);
    if EvalReading(dep, YES, v) == YES || !IsOp(x, AndOp) {
      forall base | TristateLeavesOpt(base) && Clean(Visible(base)) && Adopts(Some(dep), base, s)
        ensures Reachable(base, s, v)
      {
        if EvalReading(dep, YES, v) == YES {
          AdoptedImpliesParent(Some(dep), base, s, v);
        } else {
          UsedUpIff(x, Visible(base));
          VisibleReads(base, v);
          if base.Some? {
            ReadingOfDecided(base.value, YES, v);
          }
        }
      }
    } else {
      var p := OperandAtNo(x, v);
      OperandPrepared(dep, p);
      VisibleIsNormal(Some(dep));
      OperandFacts(x, p);
      var base := Some(At(x, AndOp, p));
      assert Adopts(Some(dep), base, s) && !Reachable(base, s, v);
    }
  }

  // ---------- one that fails ----------

  /** An entry that may be shown, below one that may not: with T at m and S at n,
      !T && S=n is m, and T=n is n. */
  lemma HiddenBelow(S: Sym, T: Sym, v: Valuation)
    requires WellTyped(v) && TypeOf(S) == Tristate && TypeOf(T) == Tristate && v.tri(S) == NO && v.tri(T) == MOD
    ensures var dep, base := Bin(AndOp, Not(Symbol(T)), Cmp(true, S, SymNo)), Cmp(true, T, SymNo);
      && Adopts(Some(dep), Some(base), S)
      && Eval(dep, v) == MOD && EvalReading(dep, YES, v) == NO && !Reachable(Some(base), S, v)
  {
    var a, b := Cmp(true, T, SymNo), Cmp(true, S, SymNo);
    var dep := Bin(AndOp, Not(Symbol(T)), b);
    HiddenPrepared(S, T);
    LeafString(S, v);
    LeafString(T, v);
    assert EliminateEq(Bin(AndOp, a, b), a).1 == Symbol(SymYes) by {
      UsedUpIff(Bin(AndOp, a, b), a);
    }
    assert v.str(S) == v.str(SymNo) && v.str(T) != v.str(SymNo);
    assert Eval(Symbol(T), v) == MOD;
    assert Eval(Not(Symbol(T)), v) == MOD && Eval(b, v) == YES;
    assert EvalReading(Not(Symbol(T)), YES, v) == NO;
  }

  lemma HiddenPrepared(S: Sym, T: Sym)
    requires TypeOf(S) == Tristate && TypeOf(T) == Tristate && S != T
    ensures var a, b := Cmp(true, T, SymNo), Cmp(true, S, SymNo);
      Visible(Some(Bin(AndOp, Not(Symbol(T)), b))) == Bin(AndOp, a, b) && Visible(Some(a)) == a
  {
    hide EliminateDups;
    var a, b := Cmp(true, T, SymNo), Cmp(true, S, SymNo);
    var l, r := TransCompare(Not(Symbol(T)), true, SymNo), TransCompare(b, true, SymNo);
    assert TransCompare(Symbol(T), false, SymNo) == Cmp(false, T, SymNo);
    assert l == Cmp(false, T, SymNo) && r == Not(b);
    assert Transform(l) == l && Transform(r) == Cmp(false, S, SymNo);
    NegatedBin(OrOp, l, Cmp(false, S, SymNo));
    assert Transform(Bin(OrOp, l, r)) == Bin(OrOp, l, Cmp(false, S, SymNo));
    TwoAtoms(AndOp, a, b);
    QuietIsFixed(a);
  }
}
