/** expr_eq, expr_eliminate_eq and expr_extract_eq as the program runs them: two trees are
    overwritten at once, and expr_eq works on copies of its operands
    (package/config/expr.c). */
module InPlaceEq {
  import opened Wrappers
  import opened Exprs
  import opened Factor
  import opened Cells
  import opened InPlace

  /** __expr_eliminate_eq. */
  method ElimSpine(heap: ExprMemory, op: Op, a1: nat, a2: nat, ghost x: Trio) returns (b1: nat, b2: nat, ghost y: Trio)
    requires heap.Valid() && HoldsAll(heap.nodes, x) && a1 == x.u.at && a2 == x.w.at
    modifies heap
    ensures b1 == y.u.at && b2 == y.w.at
    ensures AllTurned(old(heap.nodes), old(heap.next), AllAddresses(x), heap.nodes, heap.next, y)
    ensures (Meaning(y.u), Meaning(y.w)) == Factor.ElimSpine(op, Meaning(x.u), Meaning(x.w))
    ensures heap.transCount == old(heap.transCount) + Pairs(op, Meaning(x.u), Meaning(x.w))
    decreases Size(Meaning(x.u)) + Size(Meaning(x.w)), if IsOp(Meaning(x.u), op) || IsOp(Meaning(x.w), op) then 1 else 7
  {
    hide Holds, HoldsAll, AllTurned, AllAddresses, Factor.ExprEq;
    ghost var m0, n0 := heap.nodes, heap.next;
    AllParts(m0, x);
    match (heap.nodes[a1], heap.nodes[a2]) {
      case (NBin(op', l, r), _) =>
        if op' == op {
          b1, b2, y := ElimFirst(heap, op, a1, a2, x);
        } else {
          b1, b2, y := ElimSecond(heap, op, a1, a2, x);
        }
      case _ =>
        b1, b2, y := ElimSecond(heap, op, a1, a2, x);
    }
  }

  // the first operand is a spine
  method ElimFirst(heap: ExprMemory, op: Op, a1: nat, a2: nat, ghost x: Trio) returns (b1: nat, b2: nat, ghost y: Trio)
    requires heap.Valid() && HoldsAll(heap.nodes, x) && a1 == x.u.at && a2 == x.w.at && IsOp(Meaning(x.u), op)
    modifies heap
    ensures b1 == y.u.at && b2 == y.w.at
    ensures AllTurned(old(heap.nodes), old(heap.next), AllAddresses(x), heap.nodes, heap.next, y)
    ensures (Meaning(y.u), Meaning(y.w)) == Factor.ElimSpine(op, Meaning(x.u), Meaning(x.w))
    ensures heap.transCount == old(heap.transCount) + Pairs(op, Meaning(x.u), Meaning(x.w))
    decreases Size(Meaning(x.u)) + Size(Meaning(x.w)), 0
  {
    hide Holds, HoldsAll, AllTurned, AllAddresses, Factor.ExprEq;
    ghost var m0, n0, t := heap.nodes, heap.next, x.u;
    AllParts(m0, x);
    ghost var y1: Trio;
    var c;
    c, b2, y1 := ElimSpine(heap, op, heap.nodes[a1].left, a2, x.(u := t.left));
    LeftOfFirst(m0, n0, x, heap.nodes, heap.next, y1);
    heap.nodes := heap.nodes[a1 := NBin(op, c, heap.nodes[a1].right)];
    ghost var x1, m1, n1 := y1.(u := TBin(a1, op, y1.u, t.right)), heap.nodes, heap.next;
    AllHolds(m0, n0, AllAddresses(x), m1, n1, x1);
    AllParts(m1, x1);
    ghost var y2: Trio;
    c, b2, y2 := ElimSpine(heap, op, heap.nodes[a1].right, b2, x1.(u := t.right));
    RightOfFirst(m1, n1, x1, heap.nodes, heap.next, y2);
    heap.nodes := heap.nodes[a1 := NBin(op, heap.nodes[a1].left, c)];
    y := y2.(u := TBin(a1, op, y1.u, y2.u));
    b1 := a1;
    AllTurnedThen(m0, n0, AllAddresses(x), m1, n1, x1, heap.nodes, heap.next, y);
    AllHolds(m0, n0, AllAddresses(x), heap.nodes, heap.next, y);
  }

  // the first operand is not
  method ElimSecond(heap: ExprMemory, op: Op, a1: nat, a2: nat, ghost x: Trio) returns (b1: nat, b2: nat, ghost y: Trio)
    requires heap.Valid() && HoldsAll(heap.nodes, x) && a1 == x.u.at && a2 == x.w.at && !IsOp(Meaning(x.u), op)
    modifies heap
    ensures b1 == y.u.at && b2 == y.w.at
    ensures AllTurned(old(heap.nodes), old(heap.next), AllAddresses(x), heap.nodes, heap.next, y)
    ensures (Meaning(y.u), Meaning(y.w)) == Factor.ElimSpine(op, Meaning(x.u), Meaning(x.w))
    ensures heap.transCount == old(heap.transCount) + Pairs(op, Meaning(x.u), Meaning(x.w))
    decreases Size(Meaning(x.u)) + Size(Meaning(x.w)), if IsOp(Meaning(x.w), op) then 0 else 6
  {
    hide Holds, HoldsAll, AllTurned, AllAddresses, Factor.ExprEq;
    ghost var m0, n0, t := heap.nodes, heap.next, x.w;
    AllParts(m0, x);
    match heap.nodes[a2] {
      case NBin(op', l, r) =>
        if op' != op {
          b1, b2, y := ElimOperands(heap, op, a1, a2, x);
          return;
        }
        ghost var y1: Trio;
        var c;
        b1, c, y1 := ElimSpine(heap, op, a1, l, x.(w := t.left));
        LeftOfSecond(m0, n0, x, heap.nodes, heap.next, y1);
        heap.nodes := heap.nodes[a2 := NBin(op, c, heap.nodes[a2].right)];
        ghost var x1, m1, n1 := y1.(w := TBin(a2, op, y1.w, t.right)), heap.nodes, heap.next;
        AllHolds(m0, n0, AllAddresses(x), m1, n1, x1);
        AllParts(m1, x1);
        ghost var y2: Trio;
        b1, c, y2 := ElimSpine(heap, op, b1, heap.nodes[a2].right, x1.(w := t.right));
        RightOfSecond(m1, n1, x1, heap.nodes, heap.next, y2);
        heap.nodes := heap.nodes[a2 := NBin(op, heap.nodes[a2].left, c)];
        y := y2.(w := TBin(a2, op, y1.w, y2.w));
        b2 := a2;
        AllTurnedThen(m0, n0, AllAddresses(x), m1, n1, x1, heap.nodes, heap.next, y);
        AllHolds(m0, n0, AllAddresses(x), heap.nodes, heap.next, y);
      case _ =>
        b1, b2, y := ElimOperands(heap, op, a1, a2, x);
    }
  }

  // two operands
  method ElimOperands(heap: ExprMemory, op: Op, a1: nat, a2: nat, ghost x: Trio) returns (b1: nat, b2: nat,
      ghost y: Trio)
    requires heap.Valid() && HoldsAll(heap.nodes, x) && a1 == x.u.at && a2 == x.w.at
    requires !IsOp(Meaning(x.u), op) && !IsOp(Meaning(x.w), op)
    modifies heap
    ensures b1 == y.u.at && b2 == y.w.at
    ensures AllTurned(old(heap.nodes), old(heap.next), AllAddresses(x), heap.nodes, heap.next, y)
    ensures (Meaning(y.u), Meaning(y.w)) == Factor.ElimSpine(op, Meaning(x.u), Meaning(x.w))
    ensures heap.transCount == old(heap.transCount) + Pairs(op, Meaning(x.u), Meaning(x.w))
    decreases Size(Meaning(x.u)) + Size(Meaning(x.w)), 5
  {
    hide Holds, HoldsAll, AllTurned, AllAddresses, Factor.ExprEq;
    ghost var m0, n0 := heap.nodes, heap.next;
    AllParts(m0, x);
    b1, b2, y := a1, a2, x;
    AllTurnedNot(m0, n0, AllAddresses(x), x);
    if heap.nodes[a1].NSym? && heap.nodes[a1] == heap.nodes[a2] &&
        (heap.nodes[a1].sym == SymYes || heap.nodes[a1].sym == SymNo) {
      return;
    }
    var same := ExprEq(heap, a1, a2, x);
    ghost var m1, n1 := heap.nodes, heap.next;
    AllKept(m0, n0, m1, n1, x);
    if !same {
      return;
    }
    heap.transCount := heap.transCount + 1;
    AllHolds(m0, n0, AllAddresses(x), m1, n1, x);
    b1, b2, y := TakeOut(heap, op, a1, a2, x);
    AllTurnedThen(m0, n0, AllAddresses(x), m1, n1, x, heap.nodes, heap.next, y);
  }

  // a pair that is equal is replaced by the neutral constant on both sides
  method TakeOut(heap: ExprMemory, op: Op, a1: nat, a2: nat, ghost x: Trio) returns (b1: nat, b2: nat, ghost y: Trio)
    requires heap.Valid() && HoldsAll(heap.nodes, x) && a1 == x.u.at && a2 == x.w.at
    modifies heap`nodes, heap`next
    ensures b1 == y.u.at && b2 == y.w.at && Meaning(y.u) == Meaning(y.w) == Symbol(Neutral(op))
    ensures AllTurned(old(heap.nodes), old(heap.next), AllAddresses(x), heap.nodes, heap.next, y)
  {
    hide Holds, AllTurned, AllAddresses, Freed;
    BothReplaced(heap.nodes, heap.next, x, Neutral(op));
    FreeTwo(heap, a1, a2, x);
    b1 := heap.Alloc(NSym(Neutral(op)));
    b2 := heap.Alloc(NSym(Neutral(op)));
    y := x.(u := TSym(b1, Neutral(op)), w := TSym(b2, Neutral(op)));
  }

  method FreeTwo(heap: ExprMemory, a1: nat, a2: nat, ghost x: Trio)
    requires heap.Valid() && HoldsAll(heap.nodes, x) && a1 == x.u.at && a2 == x.w.at
    modifies heap`nodes
    ensures heap.Valid() && heap.nodes == old(heap.nodes) - Freed(x.u) - Freed(x.w)
  {
    ghost var was := heap.nodes;
    heap.Free(a1, x.u);
    Frame(was, heap.nodes, x.w);
    heap.Free(a2, x.w);
  }

  /** expr_eliminate_eq. */
  method EliminateEq(heap: ExprMemory, a1: nat, a2: nat, ghost x: Trio) returns (b1: nat, b2: nat, ghost y: Trio)
    requires heap.Valid() && HoldsAll(heap.nodes, x) && a1 == x.u.at && a2 == x.w.at
    modifies heap
    ensures b1 == y.u.at && b2 == y.w.at
    ensures AllTurned(old(heap.nodes), old(heap.next), AllAddresses(x), heap.nodes, heap.next, y)
    ensures (Meaning(y.u), Meaning(y.w)) == Factor.EliminateEq(Meaning(x.u), Meaning(x.w))
    ensures heap.transCount == old(heap.transCount) + AllPairs(Meaning(x.u), Meaning(x.w))
    decreases Size(Meaning(x.u)) + Size(Meaning(x.w)), 2
  {
    hide Holds, HoldsAll, AllTurned, AllAddresses, Turned, Factor.ExprEq, Factor.ElimSpine, Factor.EliminateYN;
    ghost var m0, n0, all := heap.nodes, heap.next, AllAddresses(x);
    AllParts(m0, x);
    b1, b2, y := a1, a2, x;
    AllTurnedNot(m0, n0, all, x);
    if heap.nodes[a1].NBin? {
      b1, b2, y := ElimSpine(heap, heap.nodes[a1].op, a1, a2, x);
    }
    ghost var x1, m1, n1 := y, heap.nodes, heap.next;
    AllHolds(m0, n0, all, m1, n1, x1);
    AllParts(m1, x1);
    AllTurnedNot(m1, n1, AllAddresses(x1), x1);
    if heap.nodes[b2].NBin? && !(heap.nodes[b1].NBin? && heap.nodes[b1].op == heap.nodes[b2].op) {
      SizesShrink(Meaning(x.u), Meaning(x.w));
      b1, b2, y := ElimSpine(heap, heap.nodes[b2].op, b1, b2, x1);
    }
    ghost var x2, m2, n2 := y, heap.nodes, heap.next;
    AllHolds(m1, n1, AllAddresses(x1), m2, n2, x2);
    AllTurnedThen(m0, n0, all, m1, n1, x1, m2, n2, x2);
    y := BothYN(heap, b1, b2, x2);
    AllTurnedThen(m0, n0, all, m2, n2, x2, heap.nodes, heap.next, y);
  }

  lemma SizesShrink(e1: Expr, e2: Expr)
    ensures e1.Bin? ==> var r := Factor.ElimSpine(e1.op, e1, e2); Size(r.0) <= Size(e1) && Size(r.1) <= Size(e2)
  {
  }

  // expr_eliminate_yn on both
  method BothYN(heap: ExprMemory, a1: nat, a2: nat, ghost x: Trio) returns (ghost y: Trio)
    requires heap.Valid() && HoldsAll(heap.nodes, x) && a1 == x.u.at && a2 == x.w.at
    modifies heap`nodes
    ensures heap.Valid() && y.u.at == a1 && y.w.at == a2 && y.s == x.s
    ensures AllTurned(old(heap.nodes), heap.next, AllAddresses(x), heap.nodes, heap.next, y)
    ensures Meaning(y.u) == Factor.EliminateYN(Meaning(x.u)) && Meaning(y.w) == Factor.EliminateYN(Meaning(x.w))
  {
    hide Holds, AllTurned, AllAddresses, Turned, Factor.EliminateYN;
    ghost var m0, n := heap.nodes, heap.next;
    ghost var v := heap.EliminateYN(a1, x.u);
    FirstTurned(m0, n, x, heap.nodes, n, v, Factor.EliminateYN(Meaning(x.u)));
    TurnedHolds(m0, n, Addresses(x.u), heap.nodes, n, v, Factor.EliminateYN(Meaning(x.u)));
    ghost var m1, x1 := heap.nodes, x.(u := v);
    AllHolds(m0, n, AllAddresses(x), m1, n, x1);
    ghost var w := heap.EliminateYN(a2, x.w);
    SecondTurned(m1, n, x1, heap.nodes, n, w, Factor.EliminateYN(Meaning(x.w)));
    TurnedHolds(m1, n, Addresses(x.w), heap.nodes, n, w, Factor.EliminateYN(Meaning(x.w)));
    y := x1.(w := w);
    AllTurnedThen(m0, n, AllAddresses(x), m1, n, x1, heap.nodes, n, y);
  }

  /** expr_eq: whatever it rewrites are copies, and trans_count is put back. */
  method ExprEq(heap: ExprMemory, a1: nat, a2: nat, ghost x: Trio) returns (same: bool)
    requires heap.Valid() && HoldsAll(heap.nodes, x) && a1 == x.u.at && a2 == x.w.at
    modifies heap
    ensures heap.Valid() && OnlyNew(old(heap.nodes), old(heap.next), heap.nodes, heap.next)
    ensures same <==> Factor.ExprEq(Meaning(x.u), Meaning(x.w))
    ensures heap.transCount == old(heap.transCount)
    decreases Size(Meaning(x.u)) + Size(Meaning(x.w)), 4
  {
    hide Holds, AllTurned, AllAddresses, Turned, Factor.EliminateEq, Freed;
    ghost var m0, n0 := heap.nodes, heap.next;
    AllParts(m0, x);
    match (heap.nodes[a1], heap.nodes[a2]) {
      case (NSym(s), NSym(s')) => same := s == s';
      case (NCmp(_, _, _), NCmp(_, _, _)) => same := heap.nodes[a1] == heap.nodes[a2];
      case (NNot(c), NNot(d)) =>
        NotParts(m0, x);
        same := ExprEq(heap, c, d, x.(u := x.u.arg, w := x.w.arg));
      case (NBin(op, _, _), NBin(op', _, _)) =>
        if op != op' {
          return false;
        }
        same := CopiesEq(heap, a1, a2, x);
      case _ => same := false;
    }
  }

  method CopiesEq(heap: ExprMemory, a1: nat, a2: nat, ghost x: Trio) returns (same: bool)
    requires heap.Valid() && HoldsAll(heap.nodes, x) && a1 == x.u.at && a2 == x.w.at
    requires x.u.TBin? && x.w.TBin? && x.u.op == x.w.op
    modifies heap
    ensures heap.Valid() && OnlyNew(old(heap.nodes), old(heap.next), heap.nodes, heap.next)
    ensures same <==> Factor.ExprEq(Meaning(x.u), Meaning(x.w))
    ensures heap.transCount == old(heap.transCount)
    decreases Size(Meaning(x.u)) + Size(Meaning(x.w)), 3
  {
    hide Holds, AllTurned, AllAddresses, Turned, Factor.EliminateEq, Freed;
    ghost var m0, n0 := heap.nodes, heap.next;
    var c, d;
    ghost var v, w;
    c, v := heap.Copy(a1, x.u);
    ghost var m1, n1 := heap.nodes, heap.next;
    TurnedHolds(m0, n0, {}, m1, n1, v, Meaning(x.u));
    FrameTurned(m0, n0, {}, m1, n1, v, Meaning(x.u), x.w);
    d, w := heap.Copy(a2, x.w);
    ghost var m2, n2, z := heap.nodes, heap.next, Trio(None, v, w);
    TurnedHolds(m1, n1, {}, m2, n2, w, Meaning(x.w));
    TwoNew(m0, n0, m1, n1, v, m2, n2, w);
    AllHolds(m0, n0, {}, m2, n2, z);
    var oldCount := heap.transCount;
    ghost var y;
    c, d, y := EliminateEq(heap, c, d, z);
    AllTurnedThen(m0, n0, {}, m2, n2, z, heap.nodes, heap.next, y);
    AllHolds(m2, n2, AllAddresses(z), heap.nodes, heap.next, y);
    AllParts(heap.nodes, y);
    same := heap.nodes[c].NSym? && heap.nodes[d].NSym? && heap.nodes[c].sym == heap.nodes[d].sym;
    FreedWithin(y);
    NewGone(m0, n0, heap.nodes, heap.next, y, Freed(y.u) + Freed(y.w));
    ghost var m3 := heap.nodes;
    FreeTwo(heap, c, d, y);
    assert heap.nodes == m3 - (Freed(y.u) + Freed(y.w));
    heap.transCount := oldCount;
  }

  // ---------- expr_extract_eq ----------

  function MeaningOpt(t: Option<Tree>): Option<Expr> {
    if t.None? then None else Some(Meaning(t.value))
  }

  function RootOpt(t: Option<Tree>): Option<nat> {
    if t.None? then None else Some(t.value.at)
  }

  function Extracted(y: Trio): Extraction {
    Extraction(MeaningOpt(y.s), Meaning(y.u), Meaning(y.w))
  }

  /** expr_extract_eq: operands that both trees have are moved to `shared`. */
  method ExtractEq(heap: ExprMemory, op: Op, shared: Option<nat>, a1: nat, a2: nat, ghost x: Trio)
    returns (shared': Option<nat>, b1: nat, b2: nat, ghost y: Trio)
    requires heap.Valid() && HoldsAll(heap.nodes, x) && a1 == x.u.at && a2 == x.w.at && shared == RootOpt(x.s)
    modifies heap
    ensures b1 == y.u.at && b2 == y.w.at && shared' == RootOpt(y.s) && heap.transCount == old(heap.transCount)
    ensures AllTurned(old(heap.nodes), old(heap.next), AllAddresses(x), heap.nodes, heap.next, y)
    ensures Extracted(y) == Factor.ExtractEq(op, MeaningOpt(x.s), Meaning(x.u), Meaning(x.w))
    decreases Size(Meaning(x.u)) + Size(Meaning(x.w)), 1
  {
    hide Holds, HoldsAll, AllTurned, AllAddresses, Factor.ExprEq;
    ghost var m0, n0 := heap.nodes, heap.next;
    AllParts(m0, x);
    var node1, node2 := heap.nodes[a1], heap.nodes[a2];
    if node1.NBin? && node1.op == op {
      shared', b1, b2, y := ExtractFirst(heap, op, shared, a1, a2, x);
    } else if node2.NBin? && node2.op == op {
      shared', b1, b2, y := ExtractSecond(heap, op, shared, a1, a2, x);
    } else {
      var same := ExprEq(heap, a1, a2, x);
      shared', b1, b2, y := shared, a1, a2, x;
      AllKept(m0, n0, heap.nodes, heap.next, x);
      if same {
        ghost var m1, n1 := heap.nodes, heap.next;
        AllHolds(m0, n0, AllAddresses(x), m1, n1, x);
        shared', b1, b2, y := MoveOut(heap, op, shared, a1, a2, x);
        AllTurnedThen(m0, n0, AllAddresses(x), m1, n1, x, heap.nodes, heap.next, y);
      }
    }
  }

  // the first operand is a spine
  method ExtractFirst(heap: ExprMemory, op: Op, shared: Option<nat>, a1: nat, a2: nat, ghost x: Trio)
    returns (shared': Option<nat>, b1: nat, b2: nat, ghost y: Trio)
    requires heap.Valid() && HoldsAll(heap.nodes, x) && a1 == x.u.at && a2 == x.w.at && shared == RootOpt(x.s) &&
        IsOp(Meaning(x.u), op)
    modifies heap
    ensures b1 == y.u.at && b2 == y.w.at && shared' == RootOpt(y.s) && heap.transCount == old(heap.transCount)
    ensures AllTurned(old(heap.nodes), old(heap.next), AllAddresses(x), heap.nodes, heap.next, y)
    ensures Extracted(y) == Factor.ExtractEq(op, MeaningOpt(x.s), Meaning(x.u), Meaning(x.w))
    decreases Size(Meaning(x.u)) + Size(Meaning(x.w)), 0
  {
    hide Holds, HoldsAll, AllTurned, AllAddresses, Factor.ExprEq;
    ghost var m0, n0 := heap.nodes, heap.next;
    AllParts(m0, x);
    var node := heap.nodes[a1];
    ghost var t, y1, y2 := x.u, x, x;
    var c;
    shared', c, b2, y1 := ExtractEq(heap, op, shared, node.left, a2, x.(u := t.left));
    LeftOfFirst(m0, n0, x, heap.nodes, heap.next, y1);
    heap.nodes := heap.nodes[a1 := NBin(op, c, node.right)];
    ghost var x1, m1, n1 := y1.(u := TBin(a1, op, y1.u, t.right)), heap.nodes, heap.next;
    AllHolds(m0, n0, AllAddresses(x), m1, n1, x1);
    AllParts(m1, x1);
    b1 := c;
    shared', c, b2, y2 := ExtractEq(heap, op, shared', node.right, b2, x1.(u := t.right));
    RightOfFirst(m1, n1, x1, heap.nodes, heap.next, y2);
    heap.nodes := heap.nodes[a1 := NBin(op, b1, c)];
    b1, y := a1, y2.(u := TBin(a1, op, y1.u, y2.u));
    AllTurnedThen(m0, n0, AllAddresses(x), m1, n1, x1, heap.nodes, heap.next, y);
    AllHolds(m0, n0, AllAddresses(x), heap.nodes, heap.next, y);
  }

  // the first operand is not, the second is
  method ExtractSecond(heap: ExprMemory, op: Op, shared: Option<nat>, a1: nat, a2: nat, ghost x: Trio)
    returns (shared': Option<nat>, b1: nat, b2: nat, ghost y: Trio)
    requires heap.Valid() && HoldsAll(heap.nodes, x) && a1 == x.u.at && a2 == x.w.at && shared == RootOpt(x.s) &&
        !IsOp(Meaning(x.u), op) && IsOp(Meaning(x.w), op)
    modifies heap
    ensures b1 == y.u.at && b2 == y.w.at && shared' == RootOpt(y.s) && heap.transCount == old(heap.transCount)
    ensures AllTurned(old(heap.nodes), old(heap.next), AllAddresses(x), heap.nodes, heap.next, y)
    ensures Extracted(y) == Factor.ExtractEq(op, MeaningOpt(x.s), Meaning(x.u), Meaning(x.w))
    decreases Size(Meaning(x.u)) + Size(Meaning(x.w)), 0
  {
    hide Holds, HoldsAll, AllTurned, AllAddresses, Factor.ExprEq;
    ghost var m0, n0 := heap.nodes, heap.next;
    AllParts(m0, x);
    var node := heap.nodes[a2];
    ghost var t, y1, y2 := x.w, x, x;
    var c;
    shared', b1, c, y1 := ExtractEq(heap, op, shared, a1, node.left, x.(w := t.left));
    LeftOfSecond(m0, n0, x, heap.nodes, heap.next, y1);
    heap.nodes := heap.nodes[a2 := NBin(op, c, node.right)];
    ghost var x1, m1, n1 := y1.(w := TBin(a2, op, y1.w, t.right)), heap.nodes, heap.next;
    AllHolds(m0, n0, AllAddresses(x), m1, n1, x1);
    AllParts(m1, x1);
    b2 := c;
    shared', b1, c, y2 := ExtractEq(heap, op, shared', b1, node.right, x1.(w := t.right));
    RightOfSecond(m1, n1, x1, heap.nodes, heap.next, y2);
    heap.nodes := heap.nodes[a2 := NBin(op, b2, c)];
    b2, y := a2, y2.(w := TBin(a2, op, y1.w, y2.w));
    AllTurnedThen(m0, n0, AllAddresses(x), m1, n1, x1, heap.nodes, heap.next, y);
    AllHolds(m0, n0, AllAddresses(x), heap.nodes, heap.next, y);
  }

  method MoveOut(heap: ExprMemory, op: Op, shared: Option<nat>, a1: nat, a2: nat, ghost x: Trio)
    returns (shared': Option<nat>, b1: nat, b2: nat, ghost y: Trio)
    requires heap.Valid() && HoldsAll(heap.nodes, x) && a1 == x.u.at && a2 == x.w.at && shared == RootOpt(x.s)
    modifies heap`nodes, heap`next
    ensures b1 == y.u.at && b2 == y.w.at && shared' == RootOpt(y.s)
    ensures AllTurned(old(heap.nodes), old(heap.next), AllAddresses(x), heap.nodes, heap.next, y)
    ensures Extracted(y) == Extraction(AllocTwo(op, MeaningOpt(x.s), Some(Meaning(x.u))), Symbol(Neutral(op)),
        Symbol(Neutral(op)))
  {
    hide Holds, AllTurned, AllAddresses, Freed, Untouched;
    ghost var m0, n0, g := heap.nodes, heap.next, Gathered(op, x, heap.next);
    shared' := Some(a1);
    if shared.Some? {
      GatheredHolds(m0, n0, op, x);
      var c := heap.Alloc(NBin(op, shared.value, a1));
      shared' := Some(c);
    }
    ghost var m1, n1 := heap.nodes, heap.next;
    MovedOut(m1, n1, g, x.w, Neutral(op));
    heap.Free(a2, x.w);
    b1 := heap.Alloc(NSym(Neutral(op)));
    b2 := heap.Alloc(NSym(Neutral(op)));
    y := Trio(Some(g), TSym(b1, Neutral(op)), TSym(b2, Neutral(op)));
    MovedOutAll(m0, n0, op, x, m1, n1, heap.nodes, heap.next, y);
  }

  /** expr_extract_eq_and, expr_extract_eq_or. */
  method ExtractEqTop(heap: ExprMemory, op: Op, a1: nat, a2: nat, ghost x: Trio)
    returns (shared: Option<nat>, b1: nat, b2: nat, ghost y: Trio)
    requires heap.Valid() && HoldsAll(heap.nodes, x) && a1 == x.u.at && a2 == x.w.at && x.s == None
    modifies heap
    ensures b1 == y.u.at && b2 == y.w.at && shared == RootOpt(y.s) && heap.transCount == old(heap.transCount)
    ensures AllTurned(old(heap.nodes), old(heap.next), AllAddresses(x), heap.nodes, heap.next, y)
    ensures Extracted(y) == Factor.ExtractEqTop(op, Meaning(x.u), Meaning(x.w))
  {
    hide Holds, HoldsAll, AllTurned, AllAddresses, Factor.ExtractEq, Factor.EliminateYN;
    ghost var m0, n0 := heap.nodes, heap.next;
    shared, b1, b2, y := ExtractEq(heap, op, None, a1, a2, x);
    if shared.Some? {
      ghost var m1, n1, x1 := heap.nodes, heap.next, y;
      AllHolds(m0, n0, AllAddresses(x), m1, n1, x1);
      y := BothYN(heap, b1, b2, x1);
      AllTurnedThen(m0, n0, AllAddresses(x), m1, n1, x1, heap.nodes, heap.next, y);
    }
  }
}
