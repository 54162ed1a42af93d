/** Which operands of an && or || expr_eliminate_dups finds refuted by the others, read off
    the operands themselves (package/config/expr.c). */
module Refuting {
  import opened Wrappers
  import opened Exprs
  import opened Factor
  import opened Matching
  import opened Negation
  import opened Shapes
  import opened Slots
  import opened Simplify
  import opened Complete

  /** The opposite of a normal form: && for || and || for &&, with every operand negated. */
  function Opposite(e: Expr): (r: Expr)
    requires Nnf(e)
    ensures Nnf(r)
  {
    match e
    case Symbol(s) =>
      if s == SymYes then Symbol(SymNo) else if s == SymNo then Symbol(SymYes)
      else if s == SymMod then e else Not(e)
    case Not(a) => a
    case Cmp(eq, a, b) => Cmp(!eq, a, b)
    case Bin(op, l, r) => Bin(if op.AndOp? then OrOp else AndOp, Opposite(l), Opposite(r))
  }

  lemma {:induction false} OppositeIs(e: Expr)
    requires Nnf(e)
    ensures Transform(Not(e)) == Opposite(e)
  {
    match e
    case Bin(op, l, r) =>
      NegatedBin(op, l, r);
      OppositeIs(l);
      OppositeIs(r);
    case _ => NnfFixed(e);
  }

  lemma {:induction false} OppositeIsClean(e: Expr)
    requires Nnf(e) && Clean(e)
    ensures Clean(Opposite(e)) && (IsYN(Opposite(e)) <==> IsYN(e))
  {
    if e.Bin? {
      OppositeIsClean(e.left);
      OppositeIsClean(e.right);
    }
  }

  /** On spines without literals, expr_extract_eq leaves what __expr_eliminate_eq does. */
  lemma {:induction false} LeavesTheSame(op: Op, shared: Option<Expr>, e1: Expr, e2: Expr)
    requires CleanSpine(op, e1) && CleanSpine(op, e2)
    ensures var r := ExtractEq(op, shared, e1, e2); (r.e1, r.e2) == ElimSpine(op, e1, e2)
    decreases Size(e1) + Size(e2)
  {
    hide ExprEq, Clean, Operands;
    if IsOp(e1, op) {
      var a := ExtractEq(op, shared, e1.left, e2);
      LeavesTheSame(op, shared, e1.left, e2);
      EliminatesCommon(op, e1.left, e2);
      LeavesTheSame(op, a.shared, e1.right, a.e2);
    } else if IsOp(e2, op) {
      var a := ExtractEq(op, shared, e1, e2.left);
      LeavesTheSame(op, shared, e1, e2.left);
      EliminatesCommon(op, e1, e2.left);
      LeavesTheSame(op, a.shared, a.e1, e2.right);
    } else {
      LeafLeft(op, e1, e2);
    }
  }

  // nothing extracted, nothing changed
  lemma {:induction false} NothingShared(op: Op, shared: Option<Expr>, e1: Expr, e2: Expr)
    ensures var r := ExtractEq(op, shared, e1, e2); r.shared.None? ==> shared.None? && r.e1 == e1 && r.e2 == e2
    decreases Size(e1) + Size(e2)
  {
    hide ExprEq;
    if IsOp(e1, op) {
      var a := ExtractEq(op, shared, e1.left, e2);
      NothingShared(op, shared, e1.left, e2);
      NothingShared(op, a.shared, e1.right, a.e2);
    } else if IsOp(e2, op) {
      var a := ExtractEq(op, shared, e1, e2.left);
      NothingShared(op, shared, e1, e2.left);
      NothingShared(op, a.shared, a.e1, e2.right);
    }
  }

  lemma LeafLeft(op: Op, e1: Expr, e2: Expr)
    requires CleanSpine(op, e1) && CleanSpine(op, e2) && !IsOp(e1, op) && !IsOp(e2, op)
    ensures ElimSpine(op, e1, e2) ==
      if ExprEq(e1, e2) then (Symbol(Neutral(op)), Symbol(Neutral(op))) else (e1, e2)
  {
    if IsYN(e1) || IsYN(e2) {
      LiteralEq(e1, e2);
    }
  }

  /** An operand is refuted if and only if the operands of its opposite are all among those of
      the other one, each as often as there. */
  lemma RefutesIff(op: Op, e1: Expr, e2: Expr)
    requires Nnf(e1) && Clean(e1) && !IsYN(e1) && Clean(e2) && !IsYN(e2)
    ensures Refutes(op, e1, e2) <==> Operands(op, Opposite(e1)) <= Operands(op, e2)
  {
    OppositeIs(e1);
    OppositeIsClean(e1);
    hide *;
    AllTakenIff(op, Opposite(e1), e2);
    RefutesMeans(op, e1, e2);
  }

  lemma RefutesMeans(op: Op, e1: Expr, e2: Expr)
    ensures Refutes(op, e1, e2) <==> ExtractEqTop(op, Transform(Not(e1)), e2).e1 == Symbol(Neutral(op))
  {
    hide ExtractEqTop, Transform;
  }

  // all operands are found in the other expression
  lemma AllTakenIff(op: Op, n: Expr, e2: Expr)
    requires Clean(n) && !IsYN(n) && Clean(e2) && !IsYN(e2)
    ensures ExtractEqTop(op, n, e2).e1 == Symbol(Neutral(op)) <==> Operands(op, n) <= Operands(op, e2)
  {
    var r := ExtractEq(op, None, n, e2);
    assert ExtractEqTop(op, n, e2).e1 == if r.shared.Some? then EliminateYN(r.e1) else r.e1;
    assert n != Symbol(Neutral(op));
    hide Operands, Clean, EliminateYN, ExtractEq, CleanSpine, ExtractEqTop, IsYN;
    CleanHasCleanSpine(op, n);
    LeftOver(op, n, e2);
    NothingShared(op, None, n, e2);
    SomeOperands(op, n);
    Contained(Operands(op, n), Operands(op, e2));
    if r.shared.Some? {
      SpineYN(op, r.e1);
      NoneOf(op, EliminateYN(r.e1));
    }
  }

  // of the first expression
  lemma LeftOver(op: Op, e1: Expr, e2: Expr)
    requires Clean(e1) && !IsYN(e1) && Clean(e2) && !IsYN(e2)
    ensures var r := ExtractEq(op, None, e1, e2);
      CleanSpine(op, r.e1) && Operands(op, r.e1) == Operands(op, e1) - Operands(op, e2)
  {
    CleanHasCleanSpine(op, e1);
    CleanHasCleanSpine(op, e2);
    hide Operands, Clean, ElimSpine, ExtractEq, CleanSpine;
    LeavesTheSame(op, None, e1, e2);
    EliminatesCommon(op, e1, e2);
  }

  /** A simplified normal form has no operand whose opposite is among the others, however they
      are grouped. */
  lemma NothingIsRefuted(e: Expr, a: Slot, b: Slot)
    requires Nnf(e) && !HasYN(e)
    ensures var r := EliminateDups(e);
      && Nnf(r) && Clean(r)
      && (r.Bin? && OperandSlot(r, r.op, a) && OnSpine(r, r.op, b) && a != b && At(r, r.op, a).Bin? ==>
          && Nnf(At(r, r.op, a))
          && !(Operands(r.op, Opposite(At(r, r.op, a))) <= Operands(r.op, At(r, r.op, b))))
  {
    var r := EliminateDups(e);
    SimplifiedKeepsNormal(e, false);
    SimplifiedHasNoYN(e);
    NormalFormIsClean(r);
    SimplifiedIsIrreducible(e);
    hide EliminateDups, Refutes, Operands;
    if r.Bin? && OperandSlot(r, r.op, a) && OnSpine(r, r.op, b) && a != b && At(r, r.op, a).Bin? {
      PartIsClean(r, r.op, a);
      PartIsClean(r, r.op, b);
      RefutesIff(r.op, At(r, r.op, a), At(r, r.op, b));
    }
  }

  lemma {:induction false} SimplifiedHasNoYN(e: Expr)
    requires !HasYN(e)
    ensures !HasYN(EliminateDups(e))
    decreases Size(e)
  {
    hide HasYN;
    if Round(e).count > 0 {
      SimplifiedHasNoYN(EliminateYN(Round(e).tree));
    }
  }

  lemma {:induction false} PartIsClean(e: Expr, op: Op, p: Slot)
    requires OnSpine(e, op, p) && Nnf(e) && Clean(e)
    ensures Nnf(At(e, op, p)) && Clean(At(e, op, p)) && (e.Bin? ==> !IsYN(At(e, op, p)))
  {
    match p
    case Top =>
    case InLeft(q) => PartIsClean(e.left, op, q);
    case InRight(q) => PartIsClean(e.right, op, q);
  }
}
