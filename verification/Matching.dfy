/** What expr_eq and expr_eliminate_eq find, exactly (package/config/expr.c): equality up
    to the order and grouping of operands. */
module Matching {
  import opened Exprs
  import opened Factor
  import opened Negation

  /** An expression with the operands of each && and || collected in a bag. */
  datatype Bag =
    | BagSymbol(sym: Sym)
    | BagCmp(equal: bool, lhs: Sym, rhs: Sym)
    | BagNot(arg: Bag)
    | BagOf(op: Op, operands: multiset<Bag>)

  function BagIn(e: Expr): Bag
    decreases e, 1
  {
    match e
    case Symbol(s) => BagSymbol(s)
    case Cmp(eq, a, b) => BagCmp(eq, a, b)
    case Not(a) => BagNot(BagIn(a))
    case Bin(op, _, _) => BagOf(op, Operands(op, e))
  }

  // the operands of the `op` spine of e, leaving out the neutral constant
  function Operands(op: Op, e: Expr): multiset<Bag>
    decreases e, if IsOp(e, op) then 0 else 2
  {
    if IsOp(e, op) then Operands(op, e.left) + Operands(op, e.right)
    else if e == Symbol(Neutral(op)) then multiset{}
    else multiset{BagIn(e)}
  }

  /** No && or ||, at any depth, has a literal y or n as an operand. */
  predicate Clean(e: Expr) {
    match e
    case Not(a) => Clean(a)
    case Bin(_, l, r) => !IsYN(l) && !IsYN(r) && Clean(l) && Clean(r)
    case _ => true
  }

  /** What expr_transform and expr_eliminate_yn leave behind is clean. */
  lemma {:induction false} NormalFormIsClean(e: Expr)
    requires Nnf(e) && !HasYN(e)
    ensures Clean(e)
  {
    if e.Bin? {
      NormalFormIsClean(e.left);
      NormalFormIsClean(e.right);
    }
  }

  // the operands of the spine are clean, some of them perhaps already replaced by the neutral constant
  predicate CleanSpine(op: Op, e: Expr) {
    if IsOp(e, op) then CleanSpine(op, e.left) && CleanSpine(op, e.right)
    else e == Symbol(Neutral(op)) || (!IsYN(e) && Clean(e))
  }

  lemma {:induction false} CleanHasCleanSpine(op: Op, e: Expr)
    requires Clean(e) && !IsYN(e)
    ensures CleanSpine(op, e)
  {
    if IsOp(e, op) {
      CleanHasCleanSpine(op, e.left);
      CleanHasCleanSpine(op, e.right);
    }
  }

  /** __expr_eliminate_eq takes the common operands out of both sides, each as often as
      both have it, and nothing else. */
  lemma {:induction false} EliminatesCommon(op: Op, e1: Expr, e2: Expr)
    requires CleanSpine(op, e1) && CleanSpine(op, e2)
    ensures var r := ElimSpine(op, e1, e2);
      && CleanSpine(op, r.0) && CleanSpine(op, r.1)
      && Operands(op, r.0) == Operands(op, e1) - Operands(op, e2)
      && Operands(op, r.1) == Operands(op, e2) - Operands(op, e1)
    decreases Size(e1) + Size(e2), if IsOp(e1, op) || IsOp(e2, op) then 0 else 3
  {
    if IsOp(e1, op) {
      hide ExprEq, BagIn, Clean;
      var a := ElimSpine(op, e1.left, e2);
      EliminatesCommon(op, e1.left, e2);
      EliminatesCommon(op, e1.right, a.1);
      TwoSteps(Operands(op, e1.left), Operands(op, e1.right), Operands(op, e2));
    } else if IsOp(e2, op) {
      hide ExprEq, BagIn, Clean;
      var a := ElimSpine(op, e1, e2.left);
      EliminatesCommon(op, e1, e2.left);
      EliminatesCommon(op, a.0, e2.right);
      TwoSteps(Operands(op, e2.left), Operands(op, e2.right), Operands(op, e1));
    } else {
      if !IsYN(e1) && !IsYN(e2) {
        ExprEqExact(e1, e2);
      }
      EliminatesOne(op, e1, e2);
    }
  }

  lemma EliminatesOne(op: Op, e1: Expr, e2: Expr)
    requires CleanSpine(op, e1) && CleanSpine(op, e2) && !IsOp(e1, op) && !IsOp(e2, op)
    requires !IsYN(e1) && !IsYN(e2) ==> (ExprEq(e1, e2) <==> BagIn(e1) == BagIn(e2))
    ensures var r := ElimSpine(op, e1, e2);
      && CleanSpine(op, r.0) && CleanSpine(op, r.1)
      && Operands(op, r.0) == Operands(op, e1) - Operands(op, e2)
      && Operands(op, r.1) == Operands(op, e2) - Operands(op, e1)
  {
    hide BagIn, Clean, ExprEq;
    NoAbsorbing(op, e1);
    NoAbsorbing(op, e2);
    var a, b := Operands(op, e1), Operands(op, e2);
    if IsYN(e1) || IsYN(e2) {
      LiteralEq(e1, e2);
      assert ElimSpine(op, e1, e2) == (e1, e2);
      assert a == multiset{} || b == multiset{};
      assert a - b == a && b - a == b;
    } else {
      OneStep(BagIn(e1), BagIn(e2));
      OneStep(BagIn(e2), BagIn(e1));
      assert a == multiset{BagIn(e1)} && b == multiset{BagIn(e2)};
    }
  }

  lemma LiteralEq(e1: Expr, e2: Expr)
    requires IsYN(e1) || IsYN(e2)
    ensures ExprEq(e1, e2) <==> e1 == e2
  {
  }

  lemma OneStep(a: Bag, b: Bag)
    ensures a == b ==> multiset{a} - multiset{b} == multiset{}
    ensures a != b ==> multiset{a} - multiset{b} == multiset{a}
  {
  }

  lemma TwoSteps(a: multiset<Bag>, b: multiset<Bag>, c: multiset<Bag>)
    ensures (a - c) + (b - (c - a)) == (a + b) - c
    ensures (c - a) - b == c - (a + b)
  {
  }

  lemma {:induction false} CleanHasNoYN(e: Expr)
    requires Clean(e)
    ensures !HasYN(e)
  {
    if e.Bin? {
      CleanHasNoYN(e.left);
      CleanHasNoYN(e.right);
    }
  }

  /** What expr_eliminate_yn makes of a spine: its operands, or the neutral constant when
      there are none. */
  lemma {:induction false} SpineYN(op: Op, e: Expr)
    requires CleanSpine(op, e)
    ensures var r := EliminateYN(e); Operands(op, r) == Operands(op, e) && CleanSpine(op, r)
    ensures Operands(op, e) == multiset{} ==> EliminateYN(e) == Symbol(Neutral(op))
  {
    if IsOp(e, op) {
      hide BagIn, Clean;
      SpineYN(op, e.left);
      SpineYN(op, e.right);
      NoAbsorbing(op, EliminateYN(e.left));
      NoAbsorbing(op, EliminateYN(e.right));
    } else if Clean(e) {
      CleanHasNoYN(e);
    }
  }

  lemma NoAbsorbing(op: Op, e: Expr)
    requires CleanSpine(op, e)
    ensures e != Symbol(Absorbing(op))
  {
  }

  /** expr_eq holds of two expressions if and only if they are the same up to the order
      and grouping of operands. */
  lemma {:induction false} ExprEqExact(e1: Expr, e2: Expr)
    requires Clean(e1) && Clean(e2)
    ensures ExprEq(e1, e2) <==> BagIn(e1) == BagIn(e2)
    decreases Size(e1) + Size(e2), 2
  {
    match (e1, e2)
    case (Not(a), Not(b)) => ExprEqExact(a, b);
    case (Bin(op, _, _), Bin(op', _, _)) =>
      if op == op' {
        OperationsEq(op, e1, e2);
      }
    case _ =>
  }

  lemma {:induction false} OperationsEq(op: Op, e1: Expr, e2: Expr)
    requires Clean(e1) && Clean(e2) && IsOp(e1, op) && IsOp(e2, op)
    ensures ExprEq(e1, e2) <==> Operands(op, e1) == Operands(op, e2)
    decreases Size(e1) + Size(e2), 1
  {
    hide Operands, Clean, CleanSpine, ElimSpine, EliminateYN;
    CleanHasCleanSpine(op, e1);
    CleanHasCleanSpine(op, e2);
    EliminatesCommon(op, e1, e2);
    var a := ElimSpine(op, e1, e2);
    SpineYN(op, a.0);
    SpineYN(op, a.1);
    assert EliminateEq(e1, e2) == (EliminateYN(a.0), EliminateYN(a.1));
    SameRemainders(op, EliminateYN(a.0), EliminateYN(a.1), Operands(op, e1), Operands(op, e2));
  }

  lemma SameRemainders(op: Op, r: Expr, s: Expr, a: multiset<Bag>, b: multiset<Bag>)
    requires Operands(op, r) == a - b && Operands(op, s) == b - a
    requires a - b == multiset{} ==> r == Symbol(Neutral(op))
    requires b - a == multiset{} ==> s == Symbol(Neutral(op))
    ensures r.Symbol? && s.Symbol? && r.sym == s.sym <==> a == b
  {
    NotInBoth(a, b, BagIn(r));
    if r == s == Symbol(Neutral(op)) {
      BagsEqual(a, b);
    }
  }

  lemma NotInBoth(a: multiset<Bag>, b: multiset<Bag>, x: Bag)
    ensures !(x in a - b && x in b - a)
  {
  }

  lemma BagsEqual(a: multiset<Bag>, b: multiset<Bag>)
    requires a - b == multiset{} && b - a == multiset{}
    ensures a == b
  {
    forall x
      ensures a[x] == b[x]
    {
      assert (a - b)[x] == 0 && (b - a)[x] == 0;
    }
  }

  /** The test behind automatic submenus: the second expression is used up if and only if it
      is y, or the first is a conjunction and has each operand of the second among its own. */
  lemma UsedUpIff(e1: Expr, e2: Expr)
    requires Clean(e1) && Clean(e2)
    ensures EliminateEq(e1, e2).1 == Symbol(SymYes) <==>
      e2 == Symbol(SymYes) || (IsOp(e1, AndOp) && Operands(AndOp, e2) <= Operands(AndOp, e1))
  {
    hide Operands, Clean, CleanSpine, ElimSpine, EliminateYN;
    if IsYN(e2) {
      UsedByLiteral(e1, e2);
    } else if IsOp(e1, AndOp) {
      UsedByConjunction(e1, e2);
    } else if e1.Bin? {
      UsedByDisjunction(e1, e2);
    } else {
      UsedByOne(e1, e2);
    }
  }

  lemma UsedByConjunction(e1: Expr, e2: Expr)
    requires Clean(e1) && Clean(e2) && IsOp(e1, AndOp) && !IsYN(e2)
    ensures EliminateEq(e1, e2).1 == Symbol(SymYes) <==> Operands(AndOp, e2) <= Operands(AndOp, e1)
  {
    hide Operands, Clean, CleanSpine, ElimSpine, EliminateYN;
    CleanHasCleanSpine(AndOp, e1);
    CleanHasCleanSpine(AndOp, e2);
    EliminatesCommon(AndOp, e1, e2);
    var a := ElimSpine(AndOp, e1, e2);
    NoneOf(AndOp, Symbol(SymYes));
    Contained(Operands(AndOp, e2), Operands(AndOp, e1));
    if !IsOp(e2, AndOp) {
      LeafStays(AndOp, e1, e2);
    }
    if IsOp(e2, OrOp) && a.1 == e2 {
      OneOf(AndOp, e2);
      CleanHasCleanSpine(OrOp, e2);
      LeafTakesOne(OrOp, a.0, e2);
      NotUsed(OrOp, ElimSpine(OrOp, a.0, e2).1);
    } else {
      SpineYN(AndOp, a.1);
    }
  }

  lemma UsedByDisjunction(e1: Expr, e2: Expr)
    requires Clean(e1) && Clean(e2) && IsOp(e1, OrOp) && !IsYN(e2)
    ensures EliminateEq(e1, e2).1 != Symbol(SymYes)
  {
    hide Operands, Clean, CleanSpine, ElimSpine, EliminateYN;
    CleanHasCleanSpine(OrOp, e1);
    CleanHasCleanSpine(OrOp, e2);
    EliminatesCommon(OrOp, e1, e2);
    var a := ElimSpine(OrOp, e1, e2);
    NotUsed(OrOp, a.1);
    if !IsOp(e2, OrOp) {
      LeafStays(OrOp, e1, e2);
    }
    if IsOp(e2, AndOp) && a.1 == e2 {
      TakenFromTwo(a.0, e2);
    }
  }

  lemma UsedByOne(e1: Expr, e2: Expr)
    requires Clean(e1) && Clean(e2) && !e1.Bin? && !IsYN(e2)
    ensures EliminateEq(e1, e2).1 != Symbol(SymYes)
  {
    hide Operands, Clean, CleanSpine, ElimSpine, EliminateYN;
    if IsOp(e2, AndOp) {
      TakenFromTwo(e1, e2);
    } else if e2.Bin? {
      CleanHasCleanSpine(OrOp, e2);
      LeafTakesOne(OrOp, e1, e2);
      NotUsed(OrOp, ElimSpine(OrOp, e1, e2).1);
    } else {
      CleanHasNoYN(e2);
    }
  }

  // y and n match no operand
  lemma UsedByLiteral(e1: Expr, e2: Expr)
    requires Clean(e1) && IsYN(e2)
    ensures EliminateEq(e1, e2).1 == e2
    ensures IsOp(e1, AndOp) && Operands(AndOp, e2) <= Operands(AndOp, e1) ==> e2 == Symbol(SymYes)
  {
    if e1.Bin? {
      CleanHasCleanSpine(e1.op, e1);
      LiteralStays(e1.op, e1, e2);
      NoLiteral(e1.op, e1);
    }
    NoLiteral(AndOp, e2);
  }

  lemma {:induction false} NoLiteral(op: Op, e: Expr)
    requires CleanSpine(op, e) || IsYN(e)
    ensures CleanSpine(op, e) ==> BagSymbol(Absorbing(op)) !in Operands(op, e)
    ensures e == Symbol(Absorbing(op)) ==> Operands(op, e) == multiset{BagSymbol(Absorbing(op))}
  {
    if IsOp(e, op) {
      NoLiteral(op, e.left);
      NoLiteral(op, e.right);
    }
  }

  lemma {:induction false} LiteralStays(op: Op, e1: Expr, e2: Expr)
    requires CleanSpine(op, e1) && IsYN(e2)
    ensures ElimSpine(op, e1, e2).1 == e2
  {
    hide ExprEq;
    if IsOp(e1, op) {
      LiteralStays(op, e1.left, e2);
      LiteralStays(op, e1.right, e2);
    } else {
      LiteralEq(e1, e2);
    }
  }

  // a disjunction without literal operands does not become y
  lemma NotUsed(op: Op, e: Expr)
    requires CleanSpine(op, e)
    ensures EliminateYN(e) != Symbol(Absorbing(op))
  {
    SpineYN(op, e);
    NoAbsorbing(op, EliminateYN(e));
  }

  /** One operand can use up at most one of the other side. */
  lemma {:induction false} LeafTakesOne(op: Op, x: Expr, e: Expr)
    requires !IsOp(x, op) && CleanSpine(op, e)
    ensures var r := ElimSpine(op, x, e);
      && CleanSpine(op, r.1)
      && (r == (x, e) || (r.0 == Symbol(Neutral(op)) && |Operands(op, r.1)| + 1 == |Operands(op, e)|))
    ensures x == Symbol(Neutral(op)) ==> ElimSpine(op, x, e) == (x, e)
    decreases e
  {
    hide ExprEq, BagIn, Clean;
    if IsOp(e, op) {
      var a := ElimSpine(op, x, e.left);
      LeafTakesOne(op, x, e.left);
      LeafTakesOne(op, a.0, e.right);
    } else if IsYN(x) || IsYN(e) {
      LiteralEq(x, e);
    }
  }

  lemma TakenFromTwo(x: Expr, e: Expr)
    requires !IsOp(x, AndOp) && Clean(e) && IsOp(e, AndOp)
    ensures EliminateYN(ElimSpine(AndOp, x, e).1) != Symbol(SymYes)
  {
    CleanHasCleanSpine(AndOp, e);
    LeafTakesOne(AndOp, x, e);
    SomeOperands(AndOp, e.left);
    SomeOperands(AndOp, e.right);
    hide Operands, CleanSpine, ElimSpine, EliminateYN;
    SpineYN(AndOp, ElimSpine(AndOp, x, e).1);
    NoneOf(AndOp, Symbol(SymYes));
  }

  lemma {:induction false} SomeOperands(op: Op, e: Expr)
    requires Clean(e) && !IsYN(e)
    ensures |Operands(op, e)| >= 1
  {
    if IsOp(e, op) {
      SomeOperands(op, e.left);
    }
  }

  lemma OneOf(op: Op, e: Expr)
    requires !IsOp(e, op) && !IsYN(e)
    ensures Operands(op, e) == multiset{BagIn(e)}
  {
  }

  lemma {:induction false} LeafStays(op: Op, e1: Expr, e2: Expr)
    requires !IsOp(e2, op)
    ensures ElimSpine(op, e1, e2).1 == e2 || ElimSpine(op, e1, e2).1 == Symbol(Neutral(op))
  {
    hide ExprEq;
    if IsOp(e1, op) {
      LeafStays(op, e1.left, e2);
      LeafStays(op, e1.right, ElimSpine(op, e1.left, e2).1);
    }
  }

  lemma NoneOf(op: Op, e: Expr)
    ensures e == Symbol(Neutral(op)) ==> Operands(op, e) == multiset{}
  {
  }

  lemma Contained(a: multiset<Bag>, b: multiset<Bag>)
    ensures a - b == multiset{} <==> a <= b
  {
    if a - b == multiset{} {
      forall x
        ensures a[x] <= b[x]
      {
        assert (a - b)[x] == 0;
      }
    }
  }
}
