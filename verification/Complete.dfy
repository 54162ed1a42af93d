/** What expr_eliminate_dups leaves nothing of: both passes look at every pair of operands,
    so a simplified expression has no pair left that they could merge or refute
    (package/config/expr.c). */
module Complete {
  import opened Exprs
  import opened Factor
  import opened Joining
  import opened Slots
  import opened Simplify

  // the slot q lies at or below the slot p
  predicate Beneath(p: Slot, q: Slot) {
    match p
    case Top => true
    case InLeft(p') => q.InLeft? && Beneath(p', q.rest)
    case InRight(p') => q.InRight? && Beneath(p', q.rest)
  }

  // the slot of an operand of the spine
  predicate OperandSlot(t: Expr, op: Op, p: Slot) {
    OnSpine(t, op, p) && !IsOp(At(t, op, p), op)
  }

  lemma BelowRoot(t: Expr, op: Op, a: Slot)
    requires OperandSlot(t, op, a)
    ensures !IsOp(t, op) ==> a == Top
    ensures IsOp(t, op) ==>
      (a.InLeft? && OperandSlot(t.left, op, a.rest)) || (a.InRight? && OperandSlot(t.right, op, a.rest))
  {
  }

  lemma {:induction false} OneOfTwo(t: Expr, op: Op, p: Slot, q: Slot)
    requires OnSpine(t, op, p) && OnSpine(t, op, q) && Beneath(p, q)
    ensures IsOp(At(t, op, p), op) && p != q ==> Beneath(Extend(p, false), q) || Beneath(Extend(p, true), q)
    ensures !IsOp(At(t, op, p), op) ==> p == q
  {
    match p
    case Top =>
    case InLeft(p') => OneOfTwo(t.left, op, p', q.rest);
    case InRight(p') => OneOfTwo(t.right, op, p', q.rest);
  }

  // a pass over the expression counts nothing
  predicate Quiet1(e: Expr) {
    e.Bin? ==> Dups1(e.op, e, Top, Top).count == 0
  }

  predicate Quiet2(e: Expr) {
    e.Bin? ==> Dups2(e.op, e, Top, Top).count == 0
  }

  /** When the first pass has counted nothing, no two operands could have been joined. */
  lemma {:induction false} AllPairsJoined(op: Op, t: Expr, p: Slot, q: Slot, a: Slot, b: Slot)
    requires BothSlots(t, op, p, q) && Dups1(op, t, p, q).count == 0
    requires OperandSlot(t, op, a) && OperandSlot(t, op, b) && a != b && Beneath(p, a) && Beneath(q, b)
    ensures JoinTwo(op, At(t, op, a), At(t, op, b)).None? && Quiet1(At(t, op, a))
    decreases Left(t, op, p, q)
  {
    hide JoinTwo, SpineSize, Size, SameSpine, Put, HasYN, Left;
    OneOfTwo(t, op, p, a);
    OneOfTwo(t, op, q, b);
    if IsOp(At(t, op, p), op) {
      FirstSlotDown(op, t, p, q);
      var d := Dups1(op, t, Extend(p, false), q);
      KeepSlots(op, t, d.tree, Extend(p, true), q);
      AllPairsJoined(op, t, Extend(p, Beneath(Extend(p, true), a)), q, a, b);
    } else if IsOp(At(t, op, q), op) {
      SecondSlotDown(op, t, p, q);
      var d := Dups1(op, t, p, Extend(q, false));
      KeepSlots(op, t, d.tree, p, Extend(q, true));
      AllPairsJoined(op, t, p, Extend(q, Beneath(Extend(q, true), b)), a, b);
    }
  }

  /** When the second pass has counted nothing, no operand is refuted by another one, nor
      by any part of the spine. */
  lemma {:induction false} AllPairsRefuted(op: Op, t: Expr, p: Slot, q: Slot, a: Slot, b: Slot)
    requires BothSlots(t, op, p, q) && Dups2(op, t, p, q).count == 0
    requires OperandSlot(t, op, a) && OnSpine(t, op, b) && a != b && Beneath(p, a) && Beneath(q, b)
    ensures At(t, op, a).Bin? ==> !Refutes(op, At(t, op, a), At(t, op, b))
    ensures Quiet2(At(t, op, a))
    decreases Left(t, op, p, q)
  {
    hide Refutes, SpineSize, Size, SameSpine, Put, HasYN, Left;
    OneOfTwo(t, op, p, a);
    OneOfTwo(t, op, q, b);
    if IsOp(At(t, op, p), op) {
      FirstSlotDown(op, t, p, q);
      var d := Dups2(op, t, Extend(p, false), q);
      KeepSlots(op, t, d.tree, Extend(p, true), q);
      AllPairsRefuted(op, t, Extend(p, Beneath(Extend(p, true), a)), q, a, b);
    } else if q != b {
      SecondSlotDown(op, t, p, q);
      var d := Dups2(op, t, p, Extend(q, false));
      KeepSlots(op, t, d.tree, p, Extend(q, true));
      AllPairsRefuted(op, t, p, Extend(q, Beneath(Extend(q, true), b)), a, b);
    }
  }

  /** No two operands can be merged, no operand is refuted by another or by a part of the
      spine, and so on below, down to the symbols, comparisons and negations. */
  ghost predicate Irreducible(e: Expr)
    decreases Size(e)
  {
    e.Bin? ==>
      && (forall a, b :: OperandSlot(e, e.op, a) && OperandSlot(e, e.op, b) && a != b ==>
          JoinTwo(e.op, At(e, e.op, a), At(e, e.op, b)).None?)
      && (forall a, b :: OperandSlot(e, e.op, a) && OnSpine(e, e.op, b) && a != b && At(e, e.op, a).Bin? ==>
          !Refutes(e.op, At(e, e.op, a), At(e, e.op, b)))
      && (forall a :: OperandSlot(e, e.op, a) && Size(At(e, e.op, a)) < Size(e) ==> Irreducible(At(e, e.op, a)))
  }

  lemma {:induction false} QuietIsIrreducible(e: Expr)
    requires Quiet1(e) && Quiet2(e)
    ensures Irreducible(e)
    decreases Size(e)
  {
    hide JoinTwo, Refutes, Quiet1, Quiet2, Left;
    if e.Bin? {
      QuietDown(e);
      forall a | OperandSlot(e, e.op, a) && Size(At(e, e.op, a)) < Size(e)
        ensures Irreducible(At(e, e.op, a))
      {
        QuietIsIrreducible(At(e, e.op, a));
      }
    }
  }

  lemma QuietDown(e: Expr)
    requires e.Bin? && Quiet1(e) && Quiet2(e)
    ensures forall a, b :: OperandSlot(e, e.op, a) && OperandSlot(e, e.op, b) && a != b ==>
      JoinTwo(e.op, At(e, e.op, a), At(e, e.op, b)).None?
    ensures forall a, b :: OperandSlot(e, e.op, a) && OnSpine(e, e.op, b) && a != b && At(e, e.op, a).Bin? ==>
      !Refutes(e.op, At(e, e.op, a), At(e, e.op, b))
    ensures forall a :: OperandSlot(e, e.op, a) ==> Quiet1(At(e, e.op, a)) && Quiet2(At(e, e.op, a))
  {
    hide JoinTwo, Refutes, Dups1, Dups2;
    var op := e.op;
    forall a, b | OperandSlot(e, op, a) && OperandSlot(e, op, b) && a != b
      ensures JoinTwo(op, At(e, op, a), At(e, op, b)).None?
    {
      AllPairsJoined(op, e, Top, Top, a, b);
    }
    forall a, b | OperandSlot(e, op, a) && OnSpine(e, op, b) && a != b && At(e, op, a).Bin?
      ensures !Refutes(op, At(e, op, a), At(e, op, b))
    {
      AllPairsRefuted(op, e, Top, Top, a, b);
    }
    forall a | OperandSlot(e, op, a)
      ensures Quiet1(At(e, op, a)) && Quiet2(At(e, op, a))
    {
      AllPairsRefuted(op, e, Top, Top, a, Top);
      var b := OtherOperand(e, op, a);
      AllPairsJoined(op, e, Top, Top, a, b);
    }
  }

  // every spine with an operator on it has a second operand
  lemma OtherOperand(t: Expr, op: Op, a: Slot) returns (b: Slot)
    requires IsOp(t, op) && OperandSlot(t, op, a)
    ensures OperandSlot(t, op, b) && a != b
  {
    if a.InLeft? {
      b := InRight(SomeOperand(t.right, op));
    } else {
      b := InLeft(SomeOperand(t.left, op));
    }
  }

  function SomeOperand(t: Expr, op: Op): (p: Slot)
    ensures OperandSlot(t, op, p)
  {
    if IsOp(t, op) then InLeft(SomeOperand(t.left, op)) else Top
  }

  /** Simplification goes all the way. */
  lemma SimplifiedIsIrreducible(e: Expr)
    ensures Irreducible(EliminateDups(e))
  {
    EliminateDupsIdempotent(e);
    QuietIsIrreducible(EliminateDups(e));
  }

  // ---------- the converse ----------

  /** A pass counts only what it merges. */
  lemma {:induction false} NothingJoined(op: Op, t: Expr, p: Slot, q: Slot)
    requires BothSlots(t, op, p, q)
    requires forall a, b ::
      OperandSlot(t, op, a) && OperandSlot(t, op, b) && a != b && Beneath(p, a) && Beneath(q, b) ==>
      JoinTwo(op, At(t, op, a), At(t, op, b)).None? && Quiet1(At(t, op, a))
    ensures Dups1(op, t, p, q) == Pass(t, 0)
    decreases Left(t, op, p, q)
  {
    hide JoinTwo, SpineSize, Size, SameSpine, HasYN, Left, Quiet1, Nested1, Beneath, Put, At;
    BeneathItself(p);
    BeneathItself(q);
    if IsOp(At(t, op, p), op) {
      FirstSlotDown(op, t, p, q);
      BeneathMore(p);
      NothingJoined(op, t, Extend(p, false), q);
      NothingJoined(op, t, Extend(p, true), q);
    } else if IsOp(At(t, op, q), op) {
      SecondSlotDown(op, t, p, q);
      BeneathMore(q);
      NothingJoined(op, t, p, Extend(q, false));
      NothingJoined(op, t, p, Extend(q, true));
    } else if p != q {
      PutElsewhere(t, op, p, q, t);
      NothingNested(op, t, p);
    }
  }

  lemma NothingNested(op: Op, t: Expr, p: Slot)
    requires OperandSlot(t, op, p) && !p.Top?
    ensures Quiet1(At(t, op, p)) ==> Nested1(op, t, p) == Pass(t, 0)
    ensures Quiet2(At(t, op, p)) ==> Nested2(op, t, p) == Pass(t, 0)
  {
    PutPut(t, op, p, t, t);
  }

  lemma {:induction false} BeneathItself(p: Slot)
    ensures Beneath(p, p)
  {
    match p
    case Top =>
    case InLeft(q) => BeneathItself(q);
    case InRight(q) => BeneathItself(q);
  }

  lemma BeneathMore(p: Slot)
    ensures forall b, q :: Beneath(Extend(p, b), q) ==> Beneath(p, q)
  {
    forall b, q | Beneath(Extend(p, b), q)
      ensures Beneath(p, q)
    {
      BeneathOne(p, b, q);
    }
  }

  lemma {:induction false} BeneathOne(p: Slot, b: bool, q: Slot)
    requires Beneath(Extend(p, b), q)
    ensures Beneath(p, q)
  {
    match p
    case Top =>
    case InLeft(p') => BeneathOne(p', b, q.rest);
    case InRight(p') => BeneathOne(p', b, q.rest);
  }

  lemma {:induction false} NothingRefuted(op: Op, t: Expr, p: Slot, q: Slot)
    requires BothSlots(t, op, p, q)
    requires forall a, b :: OperandSlot(t, op, a) && OnSpine(t, op, b) && a != b && Beneath(p, a) && Beneath(q, b) ==>
      Quiet2(At(t, op, a)) && (At(t, op, a).Bin? ==> !Refutes(op, At(t, op, a), At(t, op, b)))
    ensures Dups2(op, t, p, q) == Pass(t, 0)
    decreases Left(t, op, p, q)
  {
    hide Refutes, SpineSize, Size, SameSpine, HasYN, Left, Quiet2, Nested2, Beneath, Put, At;
    BeneathItself(p);
    BeneathItself(q);
    if IsOp(At(t, op, p), op) {
      FirstSlotDown(op, t, p, q);
      BeneathMore(p);
      NothingRefuted(op, t, Extend(p, false), q);
      NothingRefuted(op, t, Extend(p, true), q);
    } else {
      if IsOp(At(t, op, q), op) {
        SecondSlotDown(op, t, p, q);
        BeneathMore(q);
        NothingRefuted(op, t, p, Extend(q, false));
        NothingRefuted(op, t, p, Extend(q, true));
      }
      if p != q {
        LeafBelowRoot(t, op, p, q);
        NothingNested(op, t, p);
      }
    }
  }

  // two operands that can neither be joined nor refute each other
  lemma TwoAtoms(op: Op, a: Expr, b: Expr)
    requires !a.Bin? && !b.Bin? && JoinTwo(op, a, b).None? && JoinTwo(op, b, a).None?
    ensures EliminateDups(Bin(op, a, b)) == Bin(op, a, b)
  {
    hide JoinTwo, Dups1, Dups2;
    AtomsNotJoined(op, a, b);
    AtomsNotRefuted(op, a, b);
  }

  lemma AtomsNotJoined(op: Op, a: Expr, b: Expr)
    requires !a.Bin? && !b.Bin? && JoinTwo(op, a, b).None? && JoinTwo(op, b, a).None?
    ensures Dups1(op, Bin(op, a, b), Top, Top) == Pass(Bin(op, a, b), 0)
  {
    hide JoinTwo, Dups1, OnSpine, At, OperandSlot, Beneath;
    var e := Bin(op, a, b);
    SlotsAreOn();
    forall p, q | OperandSlot(e, op, p) && OperandSlot(e, op, q) && p != q
      ensures JoinTwo(op, At(e, op, p), At(e, op, q)).None? && Quiet1(At(e, op, p))
    {
      EitherAtom(op, a, b, p);
      EitherAtom(op, a, b, q);
    }
    hide Quiet1;
    NothingJoined(op, e, Top, Top);
  }

  lemma AtomsNotRefuted(op: Op, a: Expr, b: Expr)
    requires !a.Bin? && !b.Bin?
    ensures Dups2(op, Bin(op, a, b), Top, Top) == Pass(Bin(op, a, b), 0)
  {
    hide Dups2, Refutes, OnSpine, At, OperandSlot, Beneath;
    var e := Bin(op, a, b);
    SlotsAreOn();
    forall p | OperandSlot(e, op, p)
      ensures !At(e, op, p).Bin? && Quiet2(At(e, op, p))
    {
      EitherAtom(op, a, b, p);
    }
    hide Quiet2;
    NothingRefuted(op, e, Top, Top);
  }

  lemma EitherAtom(op: Op, a: Expr, b: Expr, p: Slot)
    requires !a.Bin? && !b.Bin? && OperandSlot(Bin(op, a, b), op, p)
    ensures OnSpine(Bin(op, a, b), op, p)
    ensures p == InLeft(Top) || p == InRight(Top)
    ensures At(Bin(op, a, b), op, p) == if p == InLeft(Top) then a else b
  {
    BelowRoot(Bin(op, a, b), op, p);
    if p.InLeft? {
      BelowRoot(a, op, p.rest);
    } else {
      BelowRoot(b, op, p.rest);
    }
  }

  lemma SlotsAreOn()
    ensures forall t, op :: OnSpine(t, op, Top)
    ensures forall t, op, p :: OperandSlot(t, op, p) ==> OnSpine(t, op, p)
  {
  }
}
