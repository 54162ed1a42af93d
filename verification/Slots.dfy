/** Slots of an && or || spine: the `struct expr **` pointers that the simplifier walks
    through one tree, often two of them into the same tree. A slot is the list of turns
    from the root, so that two slots alias exactly when they are equal or one leads
    through the other. */
module Slots {
  import opened Exprs

  datatype Slot = Top | InLeft(rest: Slot) | InRight(rest: Slot)

  // &(*p)->left.expr and &(*p)->right.expr
  function Extend(p: Slot, right: bool): Slot {
    match p
    case Top => if right then InRight(Top) else InLeft(Top)
    case InLeft(q) => InLeft(Extend(q, right))
    case InRight(q) => InRight(Extend(q, right))
  }

  predicate OnSpine(t: Expr, op: Op, p: Slot) {
    match p
    case Top => true
    case InLeft(q) => IsOp(t, op) && OnSpine(t.left, op, q)
    case InRight(q) => IsOp(t, op) && OnSpine(t.right, op, q)
  }

  function At(t: Expr, op: Op, p: Slot): Expr
    requires OnSpine(t, op, p)
  {
    match p
    case Top => t
    case InLeft(q) => At(t.left, op, q)
    case InRight(q) => At(t.right, op, q)
  }

  function Put(t: Expr, op: Op, p: Slot, x: Expr): Expr
    requires OnSpine(t, op, p)
  {
    match p
    case Top => x
    case InLeft(q) => Bin(op, Put(t.left, op, q, x), t.right)
    case InRight(q) => Bin(op, t.left, Put(t.right, op, q, x))
  }

  // operands and operators of the spine
  function SpineSize(t: Expr, op: Op): (n: nat)
    ensures n >= 1
  {
    if IsOp(t, op) then 1 + SpineSize(t.left, op) + SpineSize(t.right, op) else 1
  }

  /** The two trees branch alike along `op`; their operands may differ. */
  predicate SameSpine(t: Expr, u: Expr, op: Op) {
    if IsOp(t, op) then IsOp(u, op) && SameSpine(t.left, u.left, op) && SameSpine(t.right, u.right, op)
    else !IsOp(u, op)
  }

  lemma {:induction false} ExtendSlot(t: Expr, op: Op, p: Slot, right: bool)
    requires OnSpine(t, op, p) && IsOp(At(t, op, p), op)
    ensures OnSpine(t, op, Extend(p, right))
    ensures At(t, op, Extend(p, right)) == if right then At(t, op, p).right else At(t, op, p).left
  {
    match p
    case Top =>
    case InLeft(q) => ExtendSlot(t.left, op, q, right);
    case InRight(q) => ExtendSlot(t.right, op, q, right);
  }

  lemma {:induction false} SameSpineAt(t: Expr, u: Expr, op: Op, p: Slot)
    requires SameSpine(t, u, op) && OnSpine(t, op, p)
    ensures OnSpine(u, op, p)
    ensures SameSpine(At(t, op, p), At(u, op, p), op)
  {
    match p
    case Top =>
    case InLeft(q) => SameSpineAt(t.left, u.left, op, q);
    case InRight(q) => SameSpineAt(t.right, u.right, op, q);
  }

  lemma {:induction false} SameSpineSize(t: Expr, u: Expr, op: Op)
    requires SameSpine(t, u, op)
    ensures SpineSize(t, op) == SpineSize(u, op)
  {
    if IsOp(t, op) {
      SameSpineSize(t.left, u.left, op);
      SameSpineSize(t.right, u.right, op);
    }
  }

  lemma {:induction false} SameSpineRefl(t: Expr, op: Op)
    ensures SameSpine(t, t, op)
  {
    if IsOp(t, op) {
      SameSpineRefl(t.left, op);
      SameSpineRefl(t.right, op);
    }
  }

  lemma {:induction false} SameSpineTrans(t: Expr, u: Expr, w: Expr, op: Op)
    requires SameSpine(t, u, op) && SameSpine(u, w, op)
    ensures SameSpine(t, w, op)
  {
    if IsOp(t, op) {
      SameSpineTrans(t.left, u.left, w.left, op);
      SameSpineTrans(t.right, u.right, w.right, op);
    }
  }

  lemma {:induction false} PutSameSpine(t: Expr, op: Op, p: Slot, x: Expr)
    requires OnSpine(t, op, p) && SameSpine(At(t, op, p), x, op)
    ensures SameSpine(t, Put(t, op, p, x), op)
  {
    match p
    case Top =>
    case InLeft(q) =>
      PutSameSpine(t.left, op, q, x);
      SameSpineRefl(t.right, op);
    case InRight(q) =>
      PutSameSpine(t.right, op, q, x);
      SameSpineRefl(t.left, op);
  }

  lemma {:induction false} PutAt(t: Expr, op: Op, p: Slot, x: Expr)
    requires OnSpine(t, op, p)
    ensures OnSpine(Put(t, op, p, x), op, p) && At(Put(t, op, p, x), op, p) == x
    ensures Size(Put(t, op, p, x)) == Size(t) - Size(At(t, op, p)) + Size(x)
  {
    match p
    case Top =>
    case InLeft(q) => PutAt(t.left, op, q, x);
    case InRight(q) => PutAt(t.right, op, q, x);
  }

  lemma {:induction false} PutPut(t: Expr, op: Op, p: Slot, x: Expr, y: Expr)
    requires OnSpine(t, op, p)
    ensures OnSpine(Put(t, op, p, x), op, p)
    ensures Put(Put(t, op, p, x), op, p, y) == Put(t, op, p, y)
    ensures Put(t, op, p, At(t, op, p)) == t
  {
    PutAt(t, op, p, x);
    match p
    case Top =>
    case InLeft(q) => PutPut(t.left, op, q, x, y);
    case InRight(q) => PutPut(t.right, op, q, x, y);
  }

  /** Two different operand slots do not disturb each other. */
  lemma {:induction false} PutElsewhere(t: Expr, op: Op, p: Slot, q: Slot, x: Expr)
    requires OnSpine(t, op, p) && OnSpine(t, op, q) && p != q
    requires !IsOp(At(t, op, p), op) && !IsOp(At(t, op, q), op)
    ensures !p.Top? && !q.Top?
    ensures OnSpine(Put(t, op, p, x), op, q)
    ensures At(Put(t, op, p, x), op, q) == At(t, op, q)
  {
    match (p, q)
    case (InLeft(p'), InLeft(q')) => PutElsewhere(t.left, op, p', q', x);
    case (InRight(p'), InRight(q')) => PutElsewhere(t.right, op, p', q', x);
    case _ =>
  }

  // ---------- values ----------

  /** An operand reaches the value of the whole only through `op`. */
  lemma {:induction false} PutValue(t: Expr, op: Op, p: Slot, x: Expr, v: Valuation) returns (rest: Tri)
    requires OnSpine(t, op, p) && Grounded(v)
    ensures Eval(t, v) == Combine(op, Eval(At(t, op, p), v), rest)
    ensures Eval(Put(t, op, p, x), v) == Combine(op, Eval(x, v), rest)
  {
    match p
    case Top => rest := v.tri(Neutral(op));
    case InLeft(q) =>
      hide Combine;
      var r := PutValue(t.left, op, q, x, v);
      rest := Combine(op, r, Eval(t.right, v));
      CombineAC(op, Eval(At(t, op, p), v), r, Eval(t.right, v));
      CombineAC(op, Eval(x, v), r, Eval(t.right, v));
    case InRight(q) =>
      hide Combine;
      var r := PutValue(t.right, op, q, x, v);
      rest := Combine(op, Eval(t.left, v), r);
      CombineSwap(op, Eval(t.left, v), Eval(At(t, op, p), v), r);
      CombineSwap(op, Eval(t.left, v), Eval(x, v), r);
  }

  lemma PutExact(t: Expr, op: Op, p: Slot, x: Expr, v: Valuation)
    requires OnSpine(t, op, p) && Grounded(v) && Eval(x, v) == Eval(At(t, op, p), v)
    ensures Eval(Put(t, op, p, x), v) == Eval(t, v)
  {
    var rest := PutValue(t, op, p, x, v);
  }

  lemma PutSharpens(t: Expr, op: Op, p: Slot, x: Expr, v: Valuation)
    requires OnSpine(t, op, p) && Grounded(v) && Sharpens(Eval(At(t, op, p), v), Eval(x, v))
    ensures Sharpens(Eval(t, v), Eval(Put(t, op, p, x), v))
  {
    var rest := PutValue(t, op, p, x, v);
    CombineSharpens(op, Eval(At(t, op, p), v), Eval(x, v), rest, rest);
  }

  /** Moving the joint value of two operands of one tree into the second slot, the
      neutral constant into the first, keeps the value of the tree. */
  lemma {:induction false} MergeSlots(t: Expr, op: Op, p: Slot, q: Slot, y: Expr, v: Valuation)
    requires OnSpine(t, op, p) && OnSpine(t, op, q) && p != q && Grounded(v)
    requires !IsOp(At(t, op, p), op) && !IsOp(At(t, op, q), op)
    requires Eval(y, v) == Combine(op, Eval(At(t, op, p), v), Eval(At(t, op, q), v))
    ensures var t1 := Put(t, op, p, Symbol(Neutral(op)));
      OnSpine(t1, op, q) && Eval(Put(t1, op, q, y), v) == Eval(t, v)
  {
    var z := Symbol(Neutral(op));
    PutElsewhere(t, op, p, q, z);
    match (p, q)
    case (InLeft(p'), InLeft(q')) => MergeSlots(t.left, op, p', q', y, v);
    case (InRight(p'), InRight(q')) => MergeSlots(t.right, op, p', q', y, v);
    case (InLeft(p'), InRight(q')) =>
      var a := PutValue(t.left, op, p', z, v);
      var b := PutValue(t.right, op, q', y, v);
      MergeValues(op, Eval(At(t, op, p), v), Eval(At(t, op, q), v), a, b, v);
    case (InRight(p'), InLeft(q')) =>
      var a := PutValue(t.right, op, p', z, v);
      var b := PutValue(t.left, op, q', y, v);
      MergeValues(op, Eval(At(t, op, p), v), Eval(At(t, op, q), v), a, b, v);
  }

  lemma MergeValues(op: Op, x: Tri, y: Tri, a: Tri, b: Tri, v: Valuation)
    requires Grounded(v)
    ensures var n := v.tri(Neutral(op)); var xy := Combine(op, x, y);
      && Combine(op, Combine(op, n, a), Combine(op, xy, b)) == Combine(op, Combine(op, x, a), Combine(op, y, b))
      && Combine(op, Combine(op, xy, b), Combine(op, n, a)) == Combine(op, Combine(op, y, b), Combine(op, x, a))
  {
  }
}
