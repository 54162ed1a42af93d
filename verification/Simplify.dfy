/** expr_eliminate_dups and its two passes (package/config/expr.c). Both passes walk one
    tree with two slots at once, starting with both slots at the root, and overwrite what
    they find; `count` is what they add to the program's trans_count. */
module Simplify {
  import opened Exprs
  import opened Factor
  import opened Joining
  import opened Slots
  import opened Negation

  datatype Pass = Pass(tree: Expr, count: nat)

  predicate BothSlots(t: Expr, op: Op, p: Slot, q: Slot) {
    OnSpine(t, op, p) && OnSpine(t, op, q)
  }

  // how far the walk with slots p and q still has to go
  function Left(t: Expr, op: Op, p: Slot, q: Slot): (n: nat)
    requires BothSlots(t, op, p, q)
    ensures n >= 2
  {
    SpineSize(At(t, op, p), op) + SpineSize(At(t, op, q), op)
  }

  lemma FirstSlotDown(op: Op, t: Expr, p: Slot, q: Slot)
    requires BothSlots(t, op, p, q) && IsOp(At(t, op, p), op)
    ensures forall b :: BothSlots(t, op, Extend(p, b), q) && Left(t, op, Extend(p, b), q) < Left(t, op, p, q)
  {
    ExtendSlot(t, op, p, false);
    ExtendSlot(t, op, p, true);
  }

  lemma SecondSlotDown(op: Op, t: Expr, p: Slot, q: Slot)
    requires BothSlots(t, op, p, q) && IsOp(At(t, op, q), op)
    ensures forall b :: BothSlots(t, op, p, Extend(q, b)) && Left(t, op, p, Extend(q, b)) < Left(t, op, p, q)
  {
    ExtendSlot(t, op, q, false);
    ExtendSlot(t, op, q, true);
  }

  /** What every step of a pass keeps: the spine, the size, and the link between the
      count and the tree (nothing counted, nothing changed; something counted, and a
      literal y or n is left for expr_eliminate_yn). */
  predicate PassOk(t: Expr, op: Op, r: Pass) {
    && SameSpine(t, r.tree, op)
    && Size(r.tree) <= Size(t)
    && (r.count == 0 ==> r.tree == t)
    && (r.count > 0 ==> HasYN(r.tree))
  }

  // the second pass ran on the result of the first
  function Then(a: Pass, b: Pass): Pass {
    Pass(b.tree, a.count + b.count)
  }

  lemma ThenOk(t: Expr, op: Op, a: Pass, b: Pass)
    requires PassOk(t, op, a) && PassOk(a.tree, op, b)
    ensures PassOk(t, op, Then(a, b))
  {
    SameSpineTrans(t, a.tree, b.tree, op);
  }

  lemma NothingOk(t: Expr, op: Op)
    ensures PassOk(t, op, Pass(t, 0))
  {
    SameSpineRefl(t, op);
  }

  // a literal y or n in an operand slot is an operand of some && or ||
  lemma {:induction false} PutYN(t: Expr, op: Op, p: Slot, x: Expr)
    requires OnSpine(t, op, p)
    ensures IsYN(x) && !p.Top? ==> HasYN(Put(t, op, p, x))
    ensures HasYN(x) ==> HasYN(Put(t, op, p, x))
  {
    match p
    case Top =>
    case InLeft(q) => PutYN(t.left, op, q, x);
    case InRight(q) => PutYN(t.right, op, q, x);
  }

  // putting the result of a nested pass back
  lemma NestedOk(t: Expr, op: Op, p: Slot, n: Pass)
    requires OnSpine(t, op, p) && At(t, op, p).Bin? && !IsOp(At(t, op, p), op)
    requires PassOk(At(t, op, p), At(t, op, p).op, n)
    ensures PassOk(t, op, Pass(Put(t, op, p, n.tree), n.count))
  {
    PutAt(t, op, p, n.tree);
    PutSameSpine(t, op, p, n.tree);
    PutPut(t, op, p, n.tree, n.tree);
    PutYN(t, op, p, n.tree);
  }

  // ---------- expr_eliminate_dups1 ----------

  // the recursive call on one operand that is itself a || or &&
  function Nested1(op: Op, t: Expr, p: Slot): (r: Pass)
    requires OnSpine(t, op, p) && !p.Top? && !IsOp(At(t, op, p), op)
    ensures PassOk(t, op, r)
    decreases Size(t), 0
  {
    var e1 := At(t, op, p);
    if e1.Bin? then
      PutAt(t, op, p, e1);
      OperandSmaller(t, op, p);
      var n := Dups1(e1.op, e1, Top, Top);
      NestedOk(t, op, p, n);
      Pass(Put(t, op, p, n.tree), n.count)
    else
      NothingOk(t, op);
      Pass(t, 0)
  }

  lemma {:induction false} OperandSmaller(t: Expr, op: Op, p: Slot)
    requires OnSpine(t, op, p) && !p.Top?
    ensures Size(At(t, op, p)) < Size(t)
  {
    match p
    case InLeft(q) => if !q.Top? { OperandSmaller(t.left, op, q); }
    case InRight(q) => if !q.Top? { OperandSmaller(t.right, op, q); }
  }

  // expr_join_or or expr_join_and on two operands, the result going to the second slot
  function Merge(op: Op, t: Expr, p: Slot, q: Slot): (r: Pass)
    requires BothSlots(t, op, p, q) && p != q
    requires !IsOp(At(t, op, p), op) && !IsOp(At(t, op, q), op)
    ensures PassOk(t, op, r)
  {
    var j := JoinTwo(op, At(t, op, p), At(t, op, q));
    if j.None? then
      NothingOk(t, op);
      Pass(t, 0)
    else
      var z := Symbol(Neutral(op));
      PutElsewhere(t, op, p, q, z);
      var t1 := Put(t, op, p, z);
      MergeOk(op, t, p, q);
      Pass(Put(t1, op, q, j.value), 1)
  }

  lemma MergeOk(op: Op, t: Expr, p: Slot, q: Slot)
    requires BothSlots(t, op, p, q) && p != q
    requires !IsOp(At(t, op, p), op) && !IsOp(At(t, op, q), op)
    requires JoinTwo(op, At(t, op, p), At(t, op, q)).Some?
    ensures var j := JoinTwo(op, At(t, op, p), At(t, op, q)).value;
      var t1 := Put(t, op, p, Symbol(Neutral(op)));
      OnSpine(t1, op, q) && PassOk(t, op, Pass(Put(t1, op, q, j), 1))
  {
    var z := Symbol(Neutral(op));
    var j := JoinTwo(op, At(t, op, p), At(t, op, q)).value;
    PutElsewhere(t, op, p, q, z);
    var t1 := Put(t, op, p, z);
    PutAt(t, op, p, z);
    PutSameSpine(t, op, p, z);
    PutAt(t1, op, q, j);
    PutSameSpine(t1, op, q, j);
    SameSpineTrans(t, t1, Put(t1, op, q, j), op);
    PutElsewhere(t1, op, q, p, j);
    var t2 := Put(t1, op, q, j);
    PutPut(t2, op, p, z, z);
    PutYN(t2, op, p, z);
  }

  function Dups1(op: Op, t: Expr, p: Slot, q: Slot): (r: Pass)
    requires BothSlots(t, op, p, q)
    ensures PassOk(t, op, r)
    decreases Size(t), Left(t, op, p, q)
  {
    if IsOp(At(t, op, p), op) then
      FirstSlotDown(op, t, p, q);
      var a := Dups1(op, t, Extend(p, false), q);
      KeepSlots(op, t, a.tree, Extend(p, true), q);
      var b := Dups1(op, a.tree, Extend(p, true), q);
      ThenOk(t, op, a, b);
      Then(a, b)
    else if IsOp(At(t, op, q), op) then
      SecondSlotDown(op, t, p, q);
      var a := Dups1(op, t, p, Extend(q, false));
      KeepSlots(op, t, a.tree, p, Extend(q, true));
      var b := Dups1(op, a.tree, p, Extend(q, true));
      ThenOk(t, op, a, b);
      Then(a, b)
    else if p == q then
      NothingOk(t, op);
      Pass(t, 0)
    else
      PutElsewhere(t, op, p, q, t);
      var a := Nested1(op, t, p);
      KeepSlots(op, t, a.tree, p, q);
      var b := Merge(op, a.tree, p, q);
      ThenOk(t, op, a, b);
      Then(a, b)
  }

  lemma KeepSlots(op: Op, t: Expr, u: Expr, p: Slot, q: Slot)
    requires SameSpine(t, u, op) && BothSlots(t, op, p, q)
    ensures BothSlots(u, op, p, q)
    ensures Left(t, op, p, q) == Left(u, op, p, q)
    ensures IsOp(At(t, op, p), op) == IsOp(At(u, op, p), op)
    ensures IsOp(At(t, op, q), op) == IsOp(At(u, op, q), op)
  {
    hide OnSpine, At, SpineSize;
    SameSpineAt(t, u, op, p);
    SameSpineAt(t, u, op, q);
    SameSpineSize(At(t, op, p), At(u, op, p), op);
    SameSpineSize(At(t, op, q), At(u, op, q), op);
  }

  // ---------- expr_eliminate_dups2 ----------

  /** Every operand of !e1 was found among the operands of e2. */
  predicate Refutes(op: Op, e1: Expr, e2: Expr) {
    ExtractEqTop(op, Transform(Not(e1)), e2).e1 == Symbol(Neutral(op))
  }

  // a disjunction whose operands are all refuted on the other side becomes n, and the dual
  function Refute(op: Op, t: Expr, p: Slot, q: Slot): (r: Pass)
    requires BothSlots(t, op, p, q) && !p.Top? && !IsOp(At(t, op, p), op)
    ensures PassOk(t, op, r)
  {
    var z := Symbol(Absorbing(op));
    if At(t, op, p).Bin? && Refutes(op, At(t, op, p), At(t, op, q)) then
      PutAt(t, op, p, z);
      PutSameSpine(t, op, p, z);
      PutYN(t, op, p, z);
      Pass(Put(t, op, p, z), 1)
    else
      NothingOk(t, op);
      Pass(t, 0)
  }

  function Nested2(op: Op, t: Expr, p: Slot): (r: Pass)
    requires OnSpine(t, op, p) && !p.Top? && !IsOp(At(t, op, p), op)
    ensures PassOk(t, op, r)
    decreases Size(t), 0
  {
    var e1 := At(t, op, p);
    if e1.Bin? then
      OperandSmaller(t, op, p);
      var n := Dups2(e1.op, e1, Top, Top);
      NestedOk(t, op, p, n);
      Pass(Put(t, op, p, n.tree), n.count)
    else
      NothingOk(t, op);
      Pass(t, 0)
  }

  /** Unlike the first pass, this one does not return after having walked the operands of
      the second slot: it goes on to compare the operand in the first slot with the whole
      && or || in the second, which may contain it. */
  function Dups2(op: Op, t: Expr, p: Slot, q: Slot): (r: Pass)
    requires BothSlots(t, op, p, q)
    ensures PassOk(t, op, r)
    decreases Size(t), Left(t, op, p, q)
  {
    if IsOp(At(t, op, p), op) then
      FirstSlotDown(op, t, p, q);
      var a := Dups2(op, t, Extend(p, false), q);
      KeepSlots(op, t, a.tree, Extend(p, true), q);
      var b := Dups2(op, a.tree, Extend(p, true), q);
      ThenOk(t, op, a, b);
      Then(a, b)
    else
      var a := Dups2Operands(op, t, p, q);
      KeepSlots(op, t, a.tree, p, q);
      if p == q then a else
      LeafBelowRoot(a.tree, op, p, q);
      var b := Nested2(op, a.tree, p);
      ThenOk(t, op, a, b);
      KeepSlots(op, a.tree, b.tree, p, q);
      var c := Refute(op, b.tree, p, q);
      ThenOk(t, op, Then(a, b), c);
      Then(Then(a, b), c)
  }

  // the two recursive calls on the operands of the second slot
  function Dups2Operands(op: Op, t: Expr, p: Slot, q: Slot): (r: Pass)
    requires BothSlots(t, op, p, q) && !IsOp(At(t, op, p), op)
    ensures PassOk(t, op, r)
    decreases Size(t), Left(t, op, p, q), 0
  {
    if !IsOp(At(t, op, q), op) then
      NothingOk(t, op);
      Pass(t, 0)
    else
      SecondSlotDown(op, t, p, q);
      var a := Dups2(op, t, p, Extend(q, false));
      KeepSlots(op, t, a.tree, p, Extend(q, true));
      var b := Dups2(op, a.tree, p, Extend(q, true));
      ThenOk(t, op, a, b);
      Then(a, b)
  }

  lemma LeafBelowRoot(t: Expr, op: Op, p: Slot, q: Slot)
    requires BothSlots(t, op, p, q) && p != q && !IsOp(At(t, op, p), op)
    ensures !p.Top?
  {
  }

  // ---------- what the passes do to the value ----------

  /** The first pass, started with both slots at the root of one tree, keeps the exact
      tristate value: replacing one operand by the neutral constant is sound although both
      slots point into the same tree. */
  lemma {:induction false} Dups1Exact(op: Op, t: Expr, p: Slot, q: Slot, v: Valuation)
    requires WellTyped(v) && BothSlots(t, op, p, q)
    ensures Eval(Dups1(op, t, p, q).tree, v) == Eval(t, v)
    decreases Size(t), Left(t, op, p, q)
  {
    hide Eval, SpineSize, Merge, JoinTwo, Size, SameSpine, Put, HasYN, Left;
    if IsOp(At(t, op, p), op) {
      FirstSlotDown(op, t, p, q);
      var a := Dups1(op, t, Extend(p, false), q);
      KeepSlots(op, t, a.tree, Extend(p, true), q);
      Dups1Exact(op, t, Extend(p, false), q, v);
      Dups1Exact(op, a.tree, Extend(p, true), q, v);
    } else if IsOp(At(t, op, q), op) {
      SecondSlotDown(op, t, p, q);
      var a := Dups1(op, t, p, Extend(q, false));
      KeepSlots(op, t, a.tree, p, Extend(q, true));
      Dups1Exact(op, t, p, Extend(q, false), v);
      Dups1Exact(op, a.tree, p, Extend(q, true), v);
    } else if p != q {
      PutElsewhere(t, op, p, q, t);
      var a := Nested1(op, t, p);
      KeepSlots(op, t, a.tree, p, q);
      var e1 := At(t, op, p);
      if e1.Bin? {
        OperandSmaller(t, op, p);
        Dups1Exact(e1.op, e1, Top, Top, v);
        PutExact(t, op, p, Dups1(e1.op, e1, Top, Top).tree, v);
      }
      MergeExact(op, a.tree, p, q, v);
    }
  }

  lemma MergeExact(op: Op, t: Expr, p: Slot, q: Slot, v: Valuation)
    requires WellTyped(v) && BothSlots(t, op, p, q) && p != q
    requires !IsOp(At(t, op, p), op) && !IsOp(At(t, op, q), op)
    ensures Eval(Merge(op, t, p, q).tree, v) == Eval(t, v)
  {
    var j := JoinTwo(op, At(t, op, p), At(t, op, q));
    if j.Some? {
      JoinExact(op, At(t, op, p), At(t, op, q), v);
      MergeSlots(t, op, p, q, j.value, v);
    }
  }

  /** A refuted operand makes the whole && at most m and the whole || at least m; the
      rewrite then says n or y. So it is exact in a state if and only if the whole is not
      m there. */
  lemma RefuteExactIff(op: Op, t: Expr, p: Slot, q: Slot, v: Valuation)
    requires WellTyped(v) && BothSlots(t, op, p, q) && !p.Top? && !IsOp(At(t, op, p), op)
    requires Refute(op, t, p, q).count > 0
    ensures Eval(Refute(op, t, p, q).tree, v) == v.tri(Absorbing(op))
    ensures Eval(Refute(op, t, p, q).tree, v) == Eval(t, v) <==> Eval(t, v) != MOD
  {
    var e1, e2 := At(t, op, p), At(t, op, q);
    var z := Symbol(Absorbing(op));
    TransformExact(Not(e1), v);
    ExtractEqTopFactor(op, Transform(Not(e1)), e2, v);
    var a := PutValue(t, op, p, z, v);
    var b := PutValue(t, op, q, z, v);
  }

  lemma RefuteSharpens(op: Op, t: Expr, p: Slot, q: Slot, v: Valuation)
    requires WellTyped(v) && BothSlots(t, op, p, q) && !p.Top? && !IsOp(At(t, op, p), op)
    ensures Sharpens(Eval(t, v), Eval(Refute(op, t, p, q).tree, v))
  {
    if Refute(op, t, p, q).count > 0 {
      RefuteExactIff(op, t, p, q, v);
    }
  }

  lemma {:induction false} Dups2Sharpens(op: Op, t: Expr, p: Slot, q: Slot, v: Valuation)
    requires WellTyped(v) && BothSlots(t, op, p, q)
    ensures Sharpens(Eval(t, v), Eval(Dups2(op, t, p, q).tree, v))
    decreases Size(t), Left(t, op, p, q)
  {
    hide Eval, SpineSize, Refute, Nested2, Size, SameSpine, Put, HasYN, Left;
    if IsOp(At(t, op, p), op) {
      FirstSlotDown(op, t, p, q);
      var a := Dups2(op, t, Extend(p, false), q);
      KeepSlots(op, t, a.tree, Extend(p, true), q);
      Dups2Sharpens(op, t, Extend(p, false), q, v);
      Dups2Sharpens(op, a.tree, Extend(p, true), q, v);
    } else {
      var a := Dups2Operands(op, t, p, q);
      if IsOp(At(t, op, q), op) {
        SecondSlotDown(op, t, p, q);
        var b := Dups2(op, t, p, Extend(q, false));
        KeepSlots(op, t, b.tree, p, Extend(q, true));
        Dups2Sharpens(op, t, p, Extend(q, false), v);
        Dups2Sharpens(op, b.tree, p, Extend(q, true), v);
      }
      KeepSlots(op, t, a.tree, p, q);
      if p != q {
        LeafBelowRoot(a.tree, op, p, q);
        Nested2Sharpens(op, a.tree, p, v);
        var b := Nested2(op, a.tree, p);
        KeepSlots(op, a.tree, b.tree, p, q);
        RefuteSharpens(op, b.tree, p, q, v);
      }
    }
  }

  lemma {:induction false} Nested2Sharpens(op: Op, t: Expr, p: Slot, v: Valuation)
    requires WellTyped(v) && OnSpine(t, op, p) && !p.Top? && !IsOp(At(t, op, p), op)
    ensures Sharpens(Eval(t, v), Eval(Nested2(op, t, p).tree, v))
    decreases Size(t), 0
  {
    var e1 := At(t, op, p);
    if e1.Bin? {
      OperandSmaller(t, op, p);
      Dups2Sharpens(e1.op, e1, Top, Top, v);
      PutSharpens(t, op, p, Dups2(e1.op, e1, Top, Top).tree, v);
    }
  }

  // ---------- expr_eliminate_dups ----------

  // one round of the loop, before expr_eliminate_yn
  function Round1(e: Expr): (r: Pass)
    ensures Size(r.tree) <= Size(e)
    ensures r.count > 0 ==> HasYN(r.tree)
    ensures r.count == 0 ==> r.tree == e
    ensures e.Bin? ==> IsOp(r.tree, e.op)
  {
    if e.Bin? then Dups1(e.op, e, Top, Top) else Pass(e, 0)
  }

  function Round2(e: Expr): (r: Pass)
    ensures Size(r.tree) <= Size(e)
    ensures r.count > 0 ==> HasYN(r.tree)
    ensures r.count == 0 ==> r.tree == e
  {
    if e.Bin? then Dups2(e.op, e, Top, Top) else Pass(e, 0)
  }

  function Round(e: Expr): (r: Pass)
    ensures Size(r.tree) <= Size(e)
    ensures r.count > 0 ==> HasYN(r.tree)
    ensures r.count == 0 ==> r.tree == e
  {
    var a := Round1(e);
    Then(a, Round2(a.tree))
  }

  /** The loop as a function. It ends because a round that counts something leaves a
      literal y or n behind, and removing that shrinks the tree. */
  function EliminateDups(e: Expr): (r: Expr)
    ensures Size(r) <= Size(e)
    decreases Size(e)
  {
    var a := Round(e);
    if a.count == 0 then e else EliminateDups(EliminateYN(a.tree))
  }

  lemma RoundSharpens(e: Expr, v: Valuation)
    requires WellTyped(v)
    ensures Sharpens(Eval(e, v), Eval(EliminateYN(Round(e).tree), v))
    ensures Round2(Round1(e).tree).count == 0 ==> Eval(EliminateYN(Round(e).tree), v) == Eval(e, v)
  {
    var a := Round1(e);
    if e.Bin? {
      Dups1Exact(e.op, e, Top, Top, v);
      Dups2Sharpens(e.op, a.tree, Top, Top, v);
    }
    EliminateYNExact(Round(e).tree, v);
  }

  /** A value of y or n survives simplification in every state; only an m may be
      sharpened. */
  lemma {:induction false} EliminateDupsSharpens(e: Expr, v: Valuation)
    requires WellTyped(v)
    ensures Sharpens(Eval(e, v), Eval(EliminateDups(e), v))
    decreases Size(e)
  {
    var a := Round(e);
    if a.count > 0 {
      RoundSharpens(e, v);
      EliminateDupsSharpens(EliminateYN(a.tree), v);
    }
  }

  /** No round of the run refutes anything. */
  predicate MergesOnly(e: Expr)
    decreases Size(e)
  {
    Round2(Round1(e).tree).count == 0 && (Round(e).count > 0 ==> MergesOnly(EliminateYN(Round(e).tree)))
  }

  /** Only the second pass can sharpen: as long as it finds nothing, the value is kept
      exactly, m included. */
  lemma {:induction false} MergesOnlyExact(e: Expr, v: Valuation)
    requires WellTyped(v) && MergesOnly(e)
    ensures Eval(EliminateDups(e), v) == Eval(e, v)
    decreases Size(e)
  {
    if Round(e).count > 0 {
      RoundSharpens(e, v);
      MergesOnlyExact(EliminateYN(Round(e).tree), v);
    }
  }

  /** No operand can be m: the expression mentions neither the constant m nor a
      tristate symbol on its own, only booleans, y, n and comparisons. */
  predicate NeverMod(e: Expr) {
    match e
    case Symbol(s) => s == SymYes || s == SymNo || TypeOf(s) == Boolean
    case Not(a) => NeverMod(a)
    case Bin(_, l, r) => NeverMod(l) && NeverMod(r)
    case Cmp(_, _, _) => true
  }

  lemma {:induction false} NeverModValue(e: Expr, v: Valuation)
    requires WellTyped(v) && NeverMod(e)
    ensures Eval(e, v) != MOD
  {
    match e
    case Not(a) => NeverModValue(a, v);
    case Bin(_, l, r) => NeverModValue(l, v); NeverModValue(r, v);
    case _ =>
  }

  lemma NeverModExact(e: Expr, v: Valuation)
    requires WellTyped(v) && NeverMod(e)
    ensures Eval(EliminateDups(e), v) == Eval(e, v)
  {
    NeverModValue(e, v);
    EliminateDupsSharpens(e, v);
  }

  /** Nothing is left for another run to find. */
  lemma {:induction false} EliminateDupsIdempotent(e: Expr)
    ensures Round(EliminateDups(e)).count == 0
    ensures EliminateDups(EliminateDups(e)) == EliminateDups(e)
    decreases Size(e)
  {
    var a := Round(e);
    if a.count > 0 {
      EliminateDupsIdempotent(EliminateYN(a.tree));
    }
  }
}
