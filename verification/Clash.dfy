/** The simplifier sharpens: an expression whose value is m, and whose simplified form is n
    (package/config/expr.c). */
module Clash {
  import opened Wrappers
  import opened Exprs
  import opened Factor
  import opened Negation
  import opened Joining
  import opened Slots
  import opened Simplify
  import opened Complete

  // ---------- (FOO || BAR) && (!FOO && !BAR), for any two tristate symbols ----------

  predicate TwoTristates(foo: Sym, bar: Sym) {
    TypeOf(foo) == Tristate && TypeOf(bar) == Tristate && foo != bar
  }

  function Either(foo: Sym, bar: Sym): Expr {
    Bin(OrOp, Symbol(foo), Symbol(bar))
  }

  function Neither(foo: Sym, bar: Sym): Expr {
    Bin(AndOp, Not(Symbol(foo)), Not(Symbol(bar)))
  }

  function Conflict(foo: Sym, bar: Sym): Expr {
    Bin(AndOp, Either(foo, bar), Neither(foo, bar))
  }

  // what becomes of it
  function Gone(foo: Sym, bar: Sym): Expr {
    Bin(AndOp, Symbol(SymNo), Neither(foo, bar))
  }

  const L := InLeft(Top)
  const R := InRight(Top)

  // the slots of a conjunction of one operand with two others
  lemma SlotsOf(t: Expr)
    requires IsOp(t, AndOp) && !IsOp(t.left, AndOp)
    requires IsOp(t.right, AndOp) && !IsOp(t.right.left, AndOp) && !IsOp(t.right.right, AndOp)
    ensures OnSpine(t, AndOp, Top) && OnSpine(t, AndOp, L) && OnSpine(t, AndOp, R)
    ensures OnSpine(t, AndOp, InRight(L)) && OnSpine(t, AndOp, InRight(R))
    ensures At(t, AndOp, Top) == t && At(t, AndOp, L) == t.left && At(t, AndOp, R) == t.right
    ensures At(t, AndOp, InRight(L)) == t.right.left && At(t, AndOp, InRight(R)) == t.right.right
    ensures forall x :: Put(t, AndOp, L, x) == Bin(AndOp, x, t.right)
  {
    OneDown(t, Top);
    OneDown(t.right, Top);
    OneDown(t, L);
    OneDown(t, R);
  }

  lemma OneDown(t: Expr, p: Slot)
    requires IsOp(t, AndOp)
    ensures OnSpine(t, AndOp, InLeft(p)) <==> OnSpine(t.left, AndOp, p)
    ensures OnSpine(t, AndOp, InRight(p)) <==> OnSpine(t.right, AndOp, p)
    ensures OnSpine(t.left, AndOp, p) ==> At(t, AndOp, InLeft(p)) == At(t.left, AndOp, p)
    ensures OnSpine(t.right, AndOp, p) ==> At(t, AndOp, InRight(p)) == At(t.right, AndOp, p)
  {
  }

  lemma ConflictSlots(t: Expr, a: Slot)
    requires IsOp(t, AndOp) && !IsOp(t.left, AndOp)
    requires IsOp(t.right, AndOp) && !IsOp(t.right.left, AndOp) && !IsOp(t.right.right, AndOp)
    requires OperandSlot(t, AndOp, a)
    ensures a == L || a == InRight(L) || a == InRight(R)
  {
    hide OperandSlot;
    BelowRoot(t, AndOp, a);
    if a.InLeft? {
      BelowRoot(t.left, AndOp, a.rest);
    } else {
      BelowRoot(t.right, AndOp, a.rest);
      BelowRoot(if a.rest.InLeft? then t.right.left else t.right.right, AndOp, a.rest.rest);
    }
  }

  // ---------- the first pass finds nothing ----------

  lemma EitherQuiet(foo: Sym, bar: Sym)
    requires TwoTristates(foo, bar)
    ensures Quiet1(Either(foo, bar)) && Quiet2(Either(foo, bar))
  {
    hide Dups1, Dups2;
    assert JoinTwo(OrOp, Symbol(foo), Symbol(bar)).None? && JoinTwo(OrOp, Symbol(bar), Symbol(foo)).None?;
    AtomsNotJoined(OrOp, Symbol(foo), Symbol(bar));
    AtomsNotRefuted(OrOp, Symbol(foo), Symbol(bar));
  }

  predicate IsPart(foo: Sym, bar: Sym, e: Expr) {
    e == Either(foo, bar) || e == Not(Symbol(foo)) || e == Not(Symbol(bar))
  }

  lemma PartsNotJoined(foo: Sym, bar: Sym, a: Expr, b: Expr)
    requires TwoTristates(foo, bar) && IsPart(foo, bar, a) && IsPart(foo, bar, b) && a != b
    ensures JoinTwo(AndOp, a, b).None? && Quiet1(a)
  {
    hide *;
    EitherQuiet(foo, bar);
    PartsDiffer(foo, bar, a, b);
    NotJoined(a, b);
  }

  lemma PartsDiffer(foo: Sym, bar: Sym, a: Expr, b: Expr)
    requires TwoTristates(foo, bar) && IsPart(foo, bar, a) && IsPart(foo, bar, b) && a != b
    ensures !ExprEq(a, b) && CommonSym(a, b).None? && (a == Either(foo, bar) || Quiet1(a))
  {
    assert OperandSym(Either(foo, bar), true).None? && OperandSym(Either(foo, bar), false).None?;
    NotSym(foo);
    NotSym(bar);
  }

  lemma NotSym(s: Sym)
    ensures OperandSym(Not(Symbol(s)), true) == OperandSym(Not(Symbol(s)), false) == Some(s)
  {
  }

  lemma NotJoined(a: Expr, b: Expr)
    requires !ExprEq(a, b) && CommonSym(a, b).None?
    ensures JoinTwo(AndOp, a, b).None?
  {
    hide ExprEq, CommonSym;
  }

  lemma NothingToMerge(foo: Sym, bar: Sym)
    requires TwoTristates(foo, bar)
    ensures Dups1(AndOp, Conflict(foo, bar), Top, Top) == Pass(Conflict(foo, bar), 0)
  {
    hide Dups1, JoinTwo, Quiet1, At, OnSpine, OperandSlot;
    var t := Conflict(foo, bar);
    SlotsOf(t);
    SlotsAreOn();
    forall a, b | OperandSlot(t, AndOp, a) && OperandSlot(t, AndOp, b) && a != b
      ensures JoinTwo(AndOp, At(t, AndOp, a), At(t, AndOp, b)).None? && Quiet1(At(t, AndOp, a))
    {
      ConflictSlots(t, a);
      ConflictSlots(t, b);
      PartsNotJoined(foo, bar, At(t, AndOp, a), At(t, AndOp, b));
    }
    NothingJoined(AndOp, t, Top, Top);
  }

  // ---------- the second pass finds the whole of the conjunction ----------

  // two conditions with two atoms each, or one
  lemma AtomsTaken(f: Expr, b: Expr)
    requires f.Not? && b.Not? && ExprEq(f, f) && ExprEq(b, b) && !ExprEq(f, b) && !ExprEq(b, f)
    ensures var n := Bin(AndOp, f, b);
      && ExtractEqTop(AndOp, n, n).e1 == Symbol(SymYes)
      && ExtractEqTop(AndOp, n, f).e1 == b && ExtractEqTop(AndOp, n, b).e1 == f
  {
    var n, y := Bin(AndOp, f, b), Symbol(SymYes);
    assert !ExprEq(y, f) && !ExprEq(y, b) && !ExprEq(f, y) && !ExprEq(b, y);
    hide ExprEq;
    assert ExtractEq(AndOp, None, f, f) == Extraction(Some(f), y, y);
    assert ExtractEq(AndOp, None, f, b) == Extraction(None, f, b);
    assert ExtractEq(AndOp, None, b, b) == Extraction(Some(b), y, y);
    assert ExtractEq(AndOp, Some(f), y, b) == Extraction(Some(f), y, b);
    assert ExtractEq(AndOp, None, f, n) == Extraction(Some(f), y, Bin(AndOp, y, b));
    assert ExtractEq(AndOp, Some(f), b, y) == Extraction(Some(f), b, y);
    assert ExtractEq(AndOp, Some(f), b, b) == Extraction(Some(Bin(AndOp, f, b)), y, y);
    assert ExtractEq(AndOp, Some(f), b, Bin(AndOp, y, b)) == Extraction(Some(Bin(AndOp, f, b)), y, Bin(AndOp, y, y));
  }

  // the operand is refuted by both together, though not by one of them
  lemma RefutedByBoth(foo: Sym, bar: Sym)
    requires TwoTristates(foo, bar)
    ensures Refutes(AndOp, Either(foo, bar), Neither(foo, bar))
    ensures !Refutes(AndOp, Either(foo, bar), Not(Symbol(foo))) && !Refutes(AndOp, Either(foo, bar), Not(Symbol(bar)))
  {
    Negated(foo, bar);
    hide Transform, ExtractEqTop;
    AtomsTaken(Not(Symbol(foo)), Not(Symbol(bar)));
  }

  lemma Negated(foo: Sym, bar: Sym)
    requires TwoTristates(foo, bar)
    ensures Transform(Not(Either(foo, bar))) == Neither(foo, bar)
  {
    assert Transform(Symbol(foo)) == Symbol(foo) && Transform(Symbol(bar)) == Symbol(bar);
    NegatedBin(OrOp, Symbol(foo), Symbol(bar));
    assert Transform(Not(Symbol(foo))) == Not(Symbol(foo)) && Transform(Not(Symbol(bar))) == Not(Symbol(bar));
  }

  // one comparison of the left operand, when the calls below it have found nothing more
  lemma OneComparison(t: Expr, u: Expr, n: nat, q: Slot)
    requires BothSlots(t, AndOp, L, q) && !IsOp(At(t, AndOp, L), AndOp)
    requires Dups2Operands(AndOp, t, L, q) == Pass(u, n) && OperandSlot(u, AndOp, L) && Quiet2(At(u, AndOp, L))
    ensures L == q ==> Dups2(AndOp, t, L, q) == Pass(u, n)
    ensures L != q ==> BothSlots(u, AndOp, L, q) && Dups2(AndOp, t, L, q) == Then(Pass(u, n), Refute(AndOp, u, L, q))
  {
    hide Refute, Nested2, Put;
    NothingNested(AndOp, u, L);
    KeepSlots(AndOp, t, u, L, q);
  }

  // the calls below it
  lemma TwoParts(t: Expr, q: Slot)
    requires BothSlots(t, AndOp, L, q) && !IsOp(At(t, AndOp, L), AndOp)
    ensures !IsOp(At(t, AndOp, q), AndOp) ==> Dups2Operands(AndOp, t, L, q) == Pass(t, 0)
    ensures IsOp(At(t, AndOp, q), AndOp) ==>
      && BothSlots(t, AndOp, L, Extend(q, false)) && BothSlots(t, AndOp, L, Extend(q, true))
      && (Dups2(AndOp, t, L, Extend(q, false)) == Pass(t, 0) ==>
          Dups2Operands(AndOp, t, L, q) == Then(Pass(t, 0), Dups2(AndOp, t, L, Extend(q, true))))
  {
    hide Dups2;
    if IsOp(At(t, AndOp, q), AndOp) {
      SecondSlotDown(AndOp, t, L, q);
    }
  }

  lemma RefuteRule(t: Expr, q: Slot)
    requires BothSlots(t, AndOp, L, q) && !IsOp(At(t, AndOp, L), AndOp)
    ensures Refute(AndOp, t, L, q) ==
      if At(t, AndOp, L).Bin? && Refutes(AndOp, At(t, AndOp, L), At(t, AndOp, q))
      then Pass(Put(t, AndOp, L, Symbol(SymNo)), 1) else Pass(t, 0)
  {
    hide Refutes;
  }

  // the left operand is not compared with itself, and not refuted by a part
  lemma PartFindsNothing(foo: Sym, bar: Sym, q: Slot)
    requires TwoTristates(foo, bar) && (q == L || q == InRight(L) || q == InRight(R))
    ensures var t := Conflict(foo, bar);
      BothSlots(t, AndOp, L, q) && Dups2(AndOp, t, L, q) == Pass(t, 0)
  {
    hide Dups2, Dups2Operands, At, OnSpine, Put, Refute, Refutes, Quiet2;
    var t := Conflict(foo, bar);
    SlotsOf(t);
    EitherQuiet(foo, bar);
    RefutedByBoth(foo, bar);
    TwoParts(t, q);
    OneComparison(t, t, 0, q);
    RefuteRule(t, q);
  }

  // it is refuted by the conjunction of both
  lemma WholeFindsIt(foo: Sym, bar: Sym)
    requires TwoTristates(foo, bar)
    ensures var t := Conflict(foo, bar);
      BothSlots(t, AndOp, L, R) && Dups2(AndOp, t, L, R) == Pass(Gone(foo, bar), 1)
  {
    hide Dups2, Dups2Operands, At, OnSpine, Put, Refute, Refutes, Quiet2;
    var t := Conflict(foo, bar);
    SlotsOf(t);
    EitherQuiet(foo, bar);
    RefutedByBoth(foo, bar);
    PartFindsNothing(foo, bar, InRight(L));
    PartFindsNothing(foo, bar, InRight(R));
    TwoParts(t, R);
    OneComparison(t, t, 0, R);
    RefuteRule(t, R);
  }

  /** The pass goes on after the parts of the conjunction and finds the whole. */
  lemma LeftOperandGone(foo: Sym, bar: Sym)
    requires TwoTristates(foo, bar)
    ensures BothSlots(Conflict(foo, bar), AndOp, L, Top)
    ensures Dups2(AndOp, Conflict(foo, bar), L, Top) == Pass(Gone(foo, bar), 1)
  {
    hide Dups2, Dups2Operands, At, OnSpine, Put, Refute, Quiet2;
    var t, u := Conflict(foo, bar), Gone(foo, bar);
    SlotsOf(t);
    SlotsOf(u);
    PartFindsNothing(foo, bar, L);
    WholeFindsIt(foo, bar);
    TwoParts(t, Top);
    SymbolQuiet();
    OneComparison(t, u, 1, Top);
    RefuteRule(u, Top);
  }

  lemma SymbolQuiet()
    ensures Quiet2(Symbol(SymNo))
  {
  }

  // ---------- the whole run ----------

  lemma SecondPass(foo: Sym, bar: Sym)
    requires TwoTristates(foo, bar)
    ensures OnSpine(Gone(foo, bar), AndOp, R)
    ensures var w := Dups2(AndOp, Gone(foo, bar), R, Top); Dups2(AndOp, Conflict(foo, bar), Top, Top) == Pass(w.tree,
        1 + w.count)
  {
    hide Dups2Operands, Nested2, Refute;
    LeftOperandGone(foo, bar);
    assert Extend(Top, false) == L && Extend(Top, true) == R;
  }

  lemma RoundRules(t: Expr)
    requires t.Bin? && Dups1(t.op, t, Top, Top) == Pass(t, 0)
    ensures Round(t) == Dups2(t.op, t, Top, Top)
    ensures Round(t).count > 0 ==> EliminateDups(t) == EliminateDups(EliminateYN(Round(t).tree))
  {
    hide Dups1, Dups2, EliminateYN, HasYN, Size, SameSpine;
  }

  lemma OneRound(foo: Sym, bar: Sym) returns (w: Pass)
    requires TwoTristates(foo, bar)
    ensures OnSpine(Gone(foo, bar), AndOp, R) && w == Dups2(AndOp, Gone(foo, bar), R, Top)
    ensures EliminateDups(Conflict(foo, bar)) == EliminateDups(EliminateYN(w.tree))
  {
    hide Dups1, Dups2, EliminateYN, EliminateDups, HasYN, Size, SameSpine, Round, At;
    NothingToMerge(foo, bar);
    SecondPass(foo, bar);
    RoundRules(Conflict(foo, bar));
    w := Dups2(AndOp, Gone(foo, bar), R, Top);
  }

  /** With FOO at m and BAR at n the expression is m, and its simplified form n. */
  lemma Clashes(foo: Sym, bar: Sym, v: Valuation)
    requires TwoTristates(foo, bar) && WellTyped(v) && v.tri(foo) == MOD && v.tri(bar) == NO
    ensures Eval(Conflict(foo, bar), v) == MOD && Eval(EliminateDups(Conflict(foo, bar)), v) == NO
  {
    hide Dups2, EliminateYN, EliminateDups;
    assert Eval(Symbol(foo), v) == MOD && Eval(Symbol(bar), v) == NO;
    assert Eval(Either(foo, bar), v) == MOD && Eval(Not(Symbol(foo)), v) == MOD && Eval(Not(Symbol(bar)), v) == YES;
    assert Eval(Neither(foo, bar), v) == MOD;
    var w := OneRound(foo, bar);
    Dups2Sharpens(AndOp, Gone(foo, bar), R, Top, v);
    assert Eval(Gone(foo, bar), v) == NO;
    EliminateYNExact(w.tree, v);
    EliminateDupsSharpens(EliminateYN(w.tree), v);
  }
}
