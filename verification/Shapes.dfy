/** What the simplifier keeps of the shape of an expression (package/config/expr.c). */
module Shapes {
  import opened Exprs
  import opened Factor
  import opened Negation
  import opened Joining
  import opened Slots
  import opened Simplify

  /** Negation normal form; if `plain`, also without tristate symbols on their own, so that
      the value is never m. */
  predicate Normal(e: Expr, plain: bool) {
    Nnf(e) && (plain ==> NeverMod(e))
  }

  lemma {:induction false} YNKeepsNormal(e: Expr, plain: bool)
    requires Normal(e, plain)
    ensures Normal(EliminateYN(e), plain)
  {
    if e.Bin? {
      YNKeepsNormal(e.left, plain);
      YNKeepsNormal(e.right, plain);
    }
  }

  lemma JoinKeepsNormal(op: Op, e1: Expr, e2: Expr, plain: bool)
    requires Normal(e1, plain) && Normal(e2, plain) && JoinTwo(op, e1, e2).Some?
    ensures Normal(JoinTwo(op, e1, e2).value, plain)
  {
  }

  lemma {:induction false} PutKeepsNormal(t: Expr, op: Op, p: Slot, x: Expr, plain: bool)
    requires OnSpine(t, op, p) && Normal(t, plain)
    ensures Normal(At(t, op, p), plain)
    ensures Normal(x, plain) ==> Normal(Put(t, op, p, x), plain)
  {
    match p
    case Top =>
    case InLeft(q) => PutKeepsNormal(t.left, op, q, x, plain);
    case InRight(q) => PutKeepsNormal(t.right, op, q, x, plain);
  }

  lemma MergeKeepsNormal(op: Op, t: Expr, p: Slot, q: Slot, plain: bool)
    requires BothSlots(t, op, p, q) && p != q && Normal(t, plain)
    requires !IsOp(At(t, op, p), op) && !IsOp(At(t, op, q), op)
    ensures Normal(Merge(op, t, p, q).tree, plain)
  {
    var j := JoinTwo(op, At(t, op, p), At(t, op, q));
    if j.Some? {
      var z := Symbol(Neutral(op));
      PutElsewhere(t, op, p, q, z);
      PutKeepsNormal(t, op, p, z, plain);
      PutKeepsNormal(t, op, q, z, plain);
      JoinKeepsNormal(op, At(t, op, p), At(t, op, q), plain);
      PutKeepsNormal(Put(t, op, p, z), op, q, j.value, plain);
    }
  }

  lemma {:induction false} Dups1KeepsNormal(op: Op, t: Expr, p: Slot, q: Slot, plain: bool)
    requires BothSlots(t, op, p, q) && Normal(t, plain)
    ensures Normal(Dups1(op, t, p, q).tree, plain)
    decreases Size(t), Left(t, op, p, q)
  {
    hide Normal, SpineSize, Merge, JoinTwo, Size, SameSpine, Put, HasYN, Left;
    if IsOp(At(t, op, p), op) {
      FirstSlotDown(op, t, p, q);
      var a := Dups1(op, t, Extend(p, false), q);
      KeepSlots(op, t, a.tree, Extend(p, true), q);
      Dups1KeepsNormal(op, t, Extend(p, false), q, plain);
      Dups1KeepsNormal(op, a.tree, Extend(p, true), q, plain);
    } else if IsOp(At(t, op, q), op) {
      SecondSlotDown(op, t, p, q);
      var a := Dups1(op, t, p, Extend(q, false));
      KeepSlots(op, t, a.tree, p, Extend(q, true));
      Dups1KeepsNormal(op, t, p, Extend(q, false), plain);
      Dups1KeepsNormal(op, a.tree, p, Extend(q, true), plain);
    } else if p != q {
      PutElsewhere(t, op, p, q, t);
      var a := Nested1(op, t, p);
      KeepSlots(op, t, a.tree, p, q);
      var e1 := At(t, op, p);
      PutKeepsNormal(t, op, p, t, plain);
      if e1.Bin? {
        OperandSmaller(t, op, p);
        Dups1KeepsNormal(e1.op, e1, Top, Top, plain);
        PutKeepsNormal(t, op, p, Dups1(e1.op, e1, Top, Top).tree, plain);
      }
      MergeKeepsNormal(op, a.tree, p, q, plain);
    }
  }

  lemma {:induction false} Dups2KeepsNormal(op: Op, t: Expr, p: Slot, q: Slot, plain: bool)
    requires BothSlots(t, op, p, q) && Normal(t, plain)
    ensures Normal(Dups2(op, t, p, q).tree, plain)
    decreases Size(t), Left(t, op, p, q)
  {
    hide Normal, SpineSize, Refute, Nested2, Size, SameSpine, Put, HasYN, Left;
    if IsOp(At(t, op, p), op) {
      FirstSlotDown(op, t, p, q);
      var a := Dups2(op, t, Extend(p, false), q);
      KeepSlots(op, t, a.tree, Extend(p, true), q);
      Dups2KeepsNormal(op, t, Extend(p, false), q, plain);
      Dups2KeepsNormal(op, a.tree, Extend(p, true), q, plain);
    } else {
      var a := Dups2Operands(op, t, p, q);
      if IsOp(At(t, op, q), op) {
        SecondSlotDown(op, t, p, q);
        var b := Dups2(op, t, p, Extend(q, false));
        KeepSlots(op, t, b.tree, p, Extend(q, true));
        Dups2KeepsNormal(op, t, p, Extend(q, false), plain);
        Dups2KeepsNormal(op, b.tree, p, Extend(q, true), plain);
      }
      KeepSlots(op, t, a.tree, p, q);
      if p != q {
        LeafBelowRoot(a.tree, op, p, q);
        Nested2KeepsNormal(op, a.tree, p, plain);
        var b := Nested2(op, a.tree, p);
        KeepSlots(op, a.tree, b.tree, p, q);
        RefuteKeepsNormal(op, b.tree, p, q, plain);
      }
    }
  }

  lemma {:induction false} Nested2KeepsNormal(op: Op, t: Expr, p: Slot, plain: bool)
    requires OnSpine(t, op, p) && !p.Top? && !IsOp(At(t, op, p), op) && Normal(t, plain)
    ensures Normal(Nested2(op, t, p).tree, plain)
    decreases Size(t), 0
  {
    var e1 := At(t, op, p);
    PutKeepsNormal(t, op, p, t, plain);
    if e1.Bin? {
      OperandSmaller(t, op, p);
      Dups2KeepsNormal(e1.op, e1, Top, Top, plain);
      PutKeepsNormal(t, op, p, Dups2(e1.op, e1, Top, Top).tree, plain);
    }
  }

  lemma RefuteKeepsNormal(op: Op, t: Expr, p: Slot, q: Slot, plain: bool)
    requires BothSlots(t, op, p, q) && !p.Top? && !IsOp(At(t, op, p), op) && Normal(t, plain)
    ensures Normal(Refute(op, t, p, q).tree, plain)
  {
    PutKeepsNormal(t, op, p, Symbol(Absorbing(op)), plain);
  }

  /** A simplified normal form is a normal form. */
  lemma {:induction false} SimplifiedKeepsNormal(e: Expr, plain: bool)
    requires Normal(e, plain)
    ensures Normal(EliminateDups(e), plain)
    decreases Size(e)
  {
    var a := Round1(e);
    if e.Bin? {
      Dups1KeepsNormal(e.op, e, Top, Top, plain);
      Dups2KeepsNormal(e.op, a.tree, Top, Top, plain);
    }
    var b := Round(e);
    if b.count > 0 {
      YNKeepsNormal(b.tree, plain);
      SimplifiedKeepsNormal(EliminateYN(b.tree), plain);
    }
  }
}
