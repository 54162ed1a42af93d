/** Which operands of one && or || expr_eliminate_dups merges, read off the operands
    themselves (package/config/expr.c). */
module Merging {
  import opened Wrappers
  import opened Exprs
  import opened Factor
  import opened Joining
  import opened Slots
  import opened Simplify
  import opened Complete

  /** In either order. */
  predicate Pair(a: Expr, b: Expr, x: Expr, y: Expr) {
    (a == x && b == y) || (a == y && b == x)
  }

  // "s = t" and "s != t"
  function Is(s: Sym, t: Sym): Expr {
    Cmp(true, s, t)
  }

  function IsNot(s: Sym, t: Sym): Expr {
    Cmp(false, s, t)
  }

  /** Two comparisons of one tristate with different ones of y, m and n, or a boolean and its
      negation. */
  ghost predicate OrPair(a: Expr, b: Expr, s: Sym) {
    || (TypeOf(s) == Tristate && (Pair(a, b, Is(s, SymYes), Is(s, SymMod)) || Pair(a, b, Is(s, SymYes), Is(s, SymNo)) ||
          Pair(a, b, Is(s, SymMod), Is(s, SymNo))))
    || (TypeOf(s) == Boolean && Pair(a, b, Symbol(s), Not(Symbol(s))))
  }

  /** A symbol and what it is compared with, or two comparisons of one tristate: what it is
      with what it is not, or two things that it is not. */
  ghost predicate AndPair(a: Expr, b: Expr, s: Sym) {
    || ((TypeOf(s) == Boolean || TypeOf(s) == Tristate) && (Pair(a, b, Symbol(s), Is(s, SymYes)) ||
          Pair(a, b, Symbol(s), IsNot(s, SymNo)) || Pair(a, b, Symbol(s), IsNot(s, SymMod))))
    || (TypeOf(s) == Tristate && (Pair(a, b, IsNot(s, SymYes), IsNot(s, SymNo)) ||
          Pair(a, b, IsNot(s, SymYes), IsNot(s, SymMod)) || Pair(a, b, IsNot(s, SymMod), IsNot(s, SymNo))))
    || (TypeOf(s) == Tristate && exists t: Sym, u: Sym :: !t.Config? && !u.Config? && Pair(a, b, Is(s, t), IsNot(s, u)))
  }

  /** Equal up to the order of operands, or one of the pairs above. */
  ghost predicate Mergeable(op: Op, a: Expr, b: Expr) {
    || ExprEq(a, b)
    || exists s: Sym :: if op.OrOp? then OrPair(a, b, s) else AndPair(a, b, s)
  }

  lemma OrMergeableIff(a: Expr, b: Expr)
    ensures JoinOr(a, b).Some? <==> Mergeable(OrOp, a, b)
  {
    hide ExprEq;
    if s: Sym :| OrPair(a, b, s) {
      assert JoinOr(a, b).Some?;
    }
    if JoinOr(a, b).Some? && !ExprEq(a, b) {
      var s := CommonSym(a, b).value;
      assert OrPair(a, b, s);
    }
  }

  lemma AndMergeableIff(a: Expr, b: Expr)
    ensures JoinAnd(a, b).Some? <==> Mergeable(AndOp, a, b)
  {
    hide ExprEq;
    if s: Sym :| AndPair(a, b, s) {
      assert JoinAnd(a, b).Some?;
    }
    if JoinAnd(a, b).Some? && !ExprEq(a, b) {
      var s := CommonSym(a, b).value;
      AndPairOf(a, b, s);
    }
  }

  lemma AndPairOf(a: Expr, b: Expr, s: Sym)
    requires CommonSym(a, b) == Some(s) && JoinAnd(a, b).Some? && !ExprEq(a, b)
    ensures AndPair(a, b, s)
  {
    hide ExprEq;
    if a.Cmp? && b.Cmp? && a.equal != b.equal {
      var t, u := if a.equal then a.rhs else b.rhs, if a.equal then b.rhs else a.rhs;
      assert Pair(a, b, Is(s, t), IsNot(s, u));
    }
  }

  /** A pair of operands is merged if and only if it is one of these. */
  lemma MergeableIff(op: Op, a: Expr, b: Expr)
    ensures JoinTwo(op, a, b).Some? <==> Mergeable(op, a, b)
  {
    match op
    case AndOp => AndMergeableIff(a, b);
    case OrOp => OrMergeableIff(a, b);
  }

  /** No two different operands of any && or || can be merged, down to the symbols,
      comparisons and negations. */
  ghost predicate Merged(e: Expr)
    decreases Size(e)
  {
    e.Bin? ==>
      && (forall a, b :: OperandSlot(e, e.op, a) && OperandSlot(e, e.op, b) && a != b ==>
          !Mergeable(e.op, At(e, e.op, a), At(e, e.op, b)))
      && (forall a :: OperandSlot(e, e.op, a) && Size(At(e, e.op, a)) < Size(e) ==> Merged(At(e, e.op, a)))
  }

  lemma {:induction false} IrreducibleIsMerged(e: Expr)
    requires Irreducible(e)
    ensures Merged(e)
    decreases Size(e)
  {
    hide JoinTwo, Mergeable, Refutes;
    if e.Bin? {
      forall a, b | OperandSlot(e, e.op, a) && OperandSlot(e, e.op, b) && a != b
        ensures !Mergeable(e.op, At(e, e.op, a), At(e, e.op, b))
      {
        MergeableIff(e.op, At(e, e.op, a), At(e, e.op, b));
      }
      forall a | OperandSlot(e, e.op, a) && Size(At(e, e.op, a)) < Size(e)
        ensures Merged(At(e, e.op, a))
      {
        IrreducibleIsMerged(At(e, e.op, a));
      }
    }
  }

  /** What is left after simplification has no such pair: in particular, no two operands of
      one && or || that are equal up to the order of theirs. */
  lemma SimplifiedIsMerged(e: Expr)
    ensures Merged(EliminateDups(e))
    ensures var r := EliminateDups(e); forall a, b ::
      r.Bin? && OperandSlot(r, r.op, a) && OperandSlot(r, r.op, b) && a != b ==>
      !ExprEq(At(r, r.op, a), At(r, r.op, b))
  {
    SimplifiedIsIrreducible(e);
    IrreducibleIsMerged(EliminateDups(e));
    hide EliminateDups, ExprEq;
  }

  // ---------- what a pair becomes ----------

  // two operands that are merged into one that is left alone
  lemma PairBecomes(op: Op, a: Expr, b: Expr, j: Expr)
    requires !a.Bin? && !b.Bin? && !j.Bin?
    requires JoinTwo(op, a, b) == Some(j) && JoinTwo(op, j, Symbol(Neutral(op))).None?
    ensures EliminateDups(Bin(op, a, b)) == j
  {
    var z := Symbol(Neutral(op));
    FirstRound(op, a, b, j);
    hide Dups1, Dups2, JoinTwo, EliminateDups;
    AtomsNotRefuted(op, z, j);
    assert Round(Bin(op, a, b)) == Pass(Bin(op, z, j), 1);
    assert EliminateYN(Bin(op, z, j)) == j;
    Stepped(Bin(op, a, b));
    Alone(j);
  }

  lemma Stepped(e: Expr)
    requires Round(e).count > 0
    ensures EliminateDups(e) == EliminateDups(EliminateYN(Round(e).tree))
  {
    hide Round, EliminateYN;
  }

  lemma Alone(e: Expr)
    requires !e.Bin?
    ensures EliminateDups(e) == e
  {
  }

  lemma FirstRound(op: Op, a: Expr, b: Expr, j: Expr)
    requires !a.Bin? && !b.Bin? && !j.Bin?
    requires JoinTwo(op, a, b) == Some(j) && JoinTwo(op, j, Symbol(Neutral(op))).None?
    ensures Dups1(op, Bin(op, a, b), Top, Top) == Pass(Bin(op, Symbol(Neutral(op)), j), 1)
  {
    hide JoinTwo;
    var t, u := Bin(op, a, b), Bin(op, Symbol(Neutral(op)), j);
    var l, r := InLeft(Top), InRight(Top);
    assert Extend(Top, false) == l && Extend(Top, true) == r;
    TwoSlots(op, a, b);
    TwoSlots(op, Symbol(Neutral(op)), j);
    hide OnSpine, At;
    assert Dups1(op, t, l, l) == Pass(t, 0);
    MergeTwo(op, a, b, j);
    assert Dups1(op, t, l, r) == Pass(u, 1);
    assert Dups1(op, t, l, Top) == Pass(u, 1);
    assert Dups1(op, u, r, l) == Pass(u, 0);
    assert Dups1(op, u, r, r) == Pass(u, 0);
    assert Dups1(op, u, r, Top) == Pass(u, 0);
  }

  lemma TwoSlots(op: Op, a: Expr, b: Expr)
    ensures var t, l, r := Bin(op, a, b), InLeft(Top), InRight(Top);
      && OnSpine(t, op, Top) && OnSpine(t, op, l) && OnSpine(t, op, r)
      && At(t, op, Top) == t && At(t, op, l) == a && At(t, op, r) == b
  {
    assert OnSpine(a, op, Top) && OnSpine(b, op, Top);
  }

  lemma MergeTwo(op: Op, a: Expr, b: Expr, j: Expr)
    requires !a.Bin? && !b.Bin? && JoinTwo(op, a, b) == Some(j)
    ensures var t, l, r := Bin(op, a, b), InLeft(Top), InRight(Top);
      && BothSlots(t, op, l, r) && At(t, op, l) == a && At(t, op, r) == b
      && Merge(op, t, l, r) == Pass(Bin(op, Symbol(Neutral(op)), j), 1)
  {
    hide JoinTwo;
    TwoSlots(op, a, b);
    TwoSlots(op, Symbol(Neutral(op)), b);
    assert Put(Bin(op, a, b), op, InLeft(Top), Symbol(Neutral(op))) == Bin(op, Symbol(Neutral(op)), b);
    assert Put(Bin(op, Symbol(Neutral(op)), b), op, InRight(Top), j) == Bin(op, Symbol(Neutral(op)), j);
  }

  /** What becomes of two comparisons of one tristate under ||, and of a boolean and its
      negation. */
  lemma OrPairBecomes(s: Sym)
    ensures TypeOf(s) == Tristate ==>
      && EliminateDups(Bin(OrOp, Is(s, SymYes), Is(s, SymMod))) == IsNot(s, SymNo)
      && EliminateDups(Bin(OrOp, Is(s, SymYes), Is(s, SymNo))) == IsNot(s, SymMod)
      && EliminateDups(Bin(OrOp, Is(s, SymMod), Is(s, SymNo))) == IsNot(s, SymYes)
    ensures TypeOf(s) == Boolean ==>
      && EliminateDups(Bin(OrOp, Symbol(s), Not(Symbol(s)))) == Symbol(SymYes)
      && EliminateDups(Bin(OrOp, Not(Symbol(s)), Symbol(s))) == Symbol(SymYes)
  {
    hide EliminateDups;
    if TypeOf(s) == Tristate {
      PairBecomes(OrOp, Is(s, SymYes), Is(s, SymMod), IsNot(s, SymNo));
      PairBecomes(OrOp, Is(s, SymYes), Is(s, SymNo), IsNot(s, SymMod));
      PairBecomes(OrOp, Is(s, SymMod), Is(s, SymNo), IsNot(s, SymYes));
    }
    if TypeOf(s) == Boolean {
      PairBecomes(OrOp, Symbol(s), Not(Symbol(s)), Symbol(SymYes));
      PairBecomes(OrOp, Not(Symbol(s)), Symbol(s), Symbol(SymYes));
    }
  }

  /** And under &&; `t` and `u` are constants. */
  lemma AndPairBecomes(s: Sym, t: Sym, u: Sym)
    requires TypeOf(s) == Tristate && !t.Config? && !u.Config?
    ensures EliminateDups(Bin(AndOp, Is(s, t), IsNot(s, u))) == if t == u then Symbol(SymNo) else Is(s, t)
    ensures EliminateDups(Bin(AndOp, IsNot(s, u), Is(s, t))) == if t == u then Symbol(SymNo) else Is(s, t)
    ensures EliminateDups(Bin(AndOp, IsNot(s, SymYes), IsNot(s, SymNo))) == Is(s, SymMod)
    ensures EliminateDups(Bin(AndOp, IsNot(s, SymYes), IsNot(s, SymMod))) == Is(s, SymNo)
    ensures EliminateDups(Bin(AndOp, IsNot(s, SymMod), IsNot(s, SymNo))) == Is(s, SymYes)
  {
    hide EliminateDups;
    var r := if t == u then Symbol(SymNo) else Is(s, t);
    PairBecomes(AndOp, Is(s, t), IsNot(s, u), r);
    PairBecomes(AndOp, IsNot(s, u), Is(s, t), r);
    PairBecomes(AndOp, IsNot(s, SymYes), IsNot(s, SymNo), Is(s, SymMod));
    PairBecomes(AndOp, IsNot(s, SymYes), IsNot(s, SymMod), Is(s, SymNo));
    PairBecomes(AndOp, IsNot(s, SymMod), IsNot(s, SymNo), Is(s, SymYes));
  }

  /** A bool or tristate together with what it is compared with. */
  lemma SymbolPairBecomes(s: Sym)
    requires TypeOf(s) == Boolean || TypeOf(s) == Tristate
    ensures EliminateDups(Bin(AndOp, Symbol(s), Is(s, SymYes))) == Is(s, SymYes)
    ensures EliminateDups(Bin(AndOp, Symbol(s), IsNot(s, SymNo))) == Symbol(s)
    ensures EliminateDups(Bin(AndOp, Symbol(s), IsNot(s, SymMod))) == Is(s, SymYes)
  {
    hide EliminateDups;
    PairBecomes(AndOp, Symbol(s), Is(s, SymYes), Is(s, SymYes));
    PairBecomes(AndOp, Symbol(s), IsNot(s, SymNo), Symbol(s));
    PairBecomes(AndOp, Symbol(s), IsNot(s, SymMod), Is(s, SymYes));
  }

  /** A symbol, a comparison or a negated symbol that is there twice is there once. */
  lemma TwinsBecomeOne(op: Op, a: Expr)
    requires a.Symbol? || a.Cmp? || NotSymbol(a)
    requires a != Symbol(SymYes) && a != Symbol(SymNo)
    ensures EliminateDups(Bin(op, a, a)) == a
  {
    hide EliminateDups;
    assert a.Not? ==> ExprEq(a.arg, a.arg);
    assert ExprEq(a, a);
    PairBecomes(op, a, a, a);
  }
}
