/** expr_eliminate_dups as the program runs it: two pointers walk through one and the same
    tree, and what they point to is overwritten (package/config/expr.c). */
module InPlaceDups {
  import opened Wrappers
  import opened Exprs
  import opened Factor
  import opened Joining
  import opened Slots
  import opened Simplify
  import opened Cells
  import opened Places
  import opened InPlace
  import opened InPlaceEq

  /** The variable `e` of expr_eliminate_dups, whose address its helpers are given. */
  class Local {
    var to: nat

    constructor (a: nat)
      ensures to == a
    {
      to := a;
    }
  }

  // *p
  method Deref(heap: ExprMemory, local: Local, p: Place, ghost a: nat) returns (b: nat)
    requires PointsTo(heap.nodes, local.to, p, a)
    ensures b == a
  {
    match p {
      case Variable => b := local.to;
      case LeftOf(c) => b := heap.nodes[c].left;
      case RightOf(c) => b := heap.nodes[c].right;
    }
  }

  // *p = b
  method Assign(heap: ExprMemory, local: Local, p: Place, b: nat, ghost a: nat)
    requires PointsTo(heap.nodes, local.to, p, a)
    modifies heap`nodes, local
    ensures heap.nodes == SetMemory(old(heap.nodes), p, b) && local.to == SetVariable(old(local.to), p, b)
  {
    match p {
      case Variable => local.to := b;
      case LeftOf(c) => heap.nodes := heap.nodes[c := heap.nodes[c].(left := b)];
      case RightOf(c) => heap.nodes := heap.nodes[c := heap.nodes[c].(right := b)];
    }
  }

  // the expression that a joiner is given
  method Load(heap: ExprMemory, a: nat, ghost t: Tree) returns (e: Expr)
    requires Holds(heap.nodes, t) && a == t.at
    ensures e == Meaning(t)
    decreases t
  {
    AtRoot(heap.nodes, t);
    match heap.nodes[a] {
      case NSym(s) => e := Symbol(s);
      case NCmp(eq, s1, s2) => e := Cmp(eq, s1, s2);
      case NNot(x) =>
        var arg := Load(heap, x, t.arg);
        e := Not(arg);
      case NBin(op, x, y) =>
        var l := Load(heap, x, t.left);
        var r := Load(heap, y, t.right);
        e := Bin(op, l, r);
    }
  }

  // the cells of an expression that a joiner has answered
  method Store(heap: ExprMemory, e: Expr) returns (b: nat, ghost u: Tree)
    requires heap.Valid()
    modifies heap`nodes, heap`next
    ensures b == u.at && Turned(old(heap.nodes), old(heap.next), {}, heap.nodes, heap.next, u, e)
    decreases e
  {
    hide Holds, Reuses, Untouched;
    ghost var m0, n0 := heap.nodes, heap.next;
    match e {
      case Symbol(s) =>
        u := TSym(heap.next, s);
        NewLeaf(m0, n0, NSym(s), u);
        b := heap.Alloc(NSym(s));
      case Cmp(eq, s1, s2) =>
        u := TCmp(heap.next, eq, s1, s2);
        NewLeaf(m0, n0, NCmp(eq, s1, s2), u);
        b := heap.Alloc(NCmp(eq, s1, s2));
      case Not(x) =>
        ghost var v;
        b, v := Store(heap, x);
        u := TNot(heap.next, v);
        NewTurned(m0, n0, {}, heap.nodes, heap.next, NNot(b), u);
        b := heap.Alloc(NNot(b));
      case Bin(op, x, y) =>
        ghost var v, w;
        var c, d;
        c, v := Store(heap, x);
        ghost var m1, n1 := heap.nodes, heap.next;
        d, w := Store(heap, y);
        FrameTurned(m1, n1, {}, heap.nodes, heap.next, w, y, v);
        u := TBin(heap.next, op, v, w);
        NewBoth(m0, n0, m1, n1, v, heap.nodes, heap.next, w, NBin(op, c, d), u);
        b := heap.Alloc(NBin(op, c, d));
    }
  }

  ghost function Now(heap: ExprMemory, local: Local): Moment
    reads heap, local
  {
    Moment(heap.nodes, local.to, heap.next)
  }

  /** expr_free(*p); *p = e, newly allocated. */
  method Replace(heap: ExprMemory, local: Local, p: Place, e: Expr, ghost t: Tree) returns (ghost u: Tree)
    requires Rooted(Now(heap, local), p, t)
    modifies heap`nodes, heap`next, local
    ensures Rewritten(old(Now(heap, local)), p, t, Now(heap, local), u, e)
  {
    hide Holds, Rewritten, Turned;
    ghost var s := Now(heap, local);
    var a := Deref(heap, local, p, t.at);
    heap.Free(a, t);
    var b;
    b, u := Store(heap, e);
    TurnedHolds(s.m - Freed(t), s.n, {}, heap.nodes, heap.next, u, e);
    Replaced(s, p, t, heap.nodes, heap.next, u);
    Assign(heap, local, p, b, t.at);
  }

  // ---------- slots and places ----------

  lemma ExtendPlace(base: Place, t: Tree, op: Op, p: Slot)
    requires OnSpine(Meaning(t), op, p) && IsOp(At(Meaning(t), op, p), op)
    ensures OnSpine(Meaning(t), op, Extend(p, false)) && OnSpine(Meaning(t), op, Extend(p, true))
    ensures PlaceAt(base, t, op, Extend(p, false)) == LeftOf(Sub(t, op, p).at)
    ensures PlaceAt(base, t, op, Extend(p, true)) == RightOf(Sub(t, op, p).at)
    decreases p
  {
    match p
    case Top =>
    case InLeft(q) => ExtendPlace(LeftOf(t.at), t.left, op, q);
    case InRight(q) => ExtendPlace(RightOf(t.at), t.right, op, q);
  }

  // what a call finds at one of its two pointers
  lemma SlotFacts(s: Moment, base: Place, t: Tree, op: Op, p: Slot)
    requires Rooted(s, base, t) && OnSpine(Meaning(t), op, p)
    ensures var x := Sub(t, op, p);
      && Rooted(s, PlaceAt(base, t, op, p), x) && Meaning(x) == At(Meaning(t), op, p)
      && PointsTo(s.m, s.v, PlaceAt(base, t, op, p), x.at) && Holds(s.m, x)
      && x.at in s.m && s.m[x.at] == NodeOf(x)
      && (IsOp(At(Meaning(t), op, p), op) <==> s.m[x.at].NBin? && s.m[x.at].op == op)
  {
    SubRooted(s, base, t, op, p);
  }

  // a call has returned, and left the pointers of the next one where they were
  lemma NextCall(s: Moment, base: Place, t: Tree, s1: Moment, u: Tree, e: Expr, op: Op, p: Slot, q: Slot)
    requires Rewritten(s, base, t, s1, u, e) && SameFrame(t, u, op) && BothSlots(Meaning(t), op, p, q)
    ensures Rooted(s1, base, u) && Meaning(u) == e && BothSlots(e, op, p, q)
    ensures PlaceAt(base, u, op, p) == PlaceAt(base, t, op, p) && PlaceAt(base, u, op, q) == PlaceAt(base, t, op, q)
  {
    SameFramePlace(base, t, u, op, p);
    SameFramePlace(base, t, u, op, q);
  }

  // two calls, one after the other
  lemma TwoCalls(s: Moment, base: Place, t: Tree, op: Op, s1: Moment, u: Tree, e: Expr, s2: Moment, w: Tree, e2: Expr)
    requires Rooted(s, base, t)
    requires Rewritten(s, base, t, s1, u, e) && SameFrame(t, u, op)
    requires Rewritten(s1, base, u, s2, w, e2) && SameFrame(u, w, op)
    ensures Rewritten(s, base, t, s2, w, e2) && SameFrame(t, w, op)
  {
    RewrittenThen(s, base, t, s1, u, e, s2, w, e2);
    SameFrameTrans(t, u, w, op);
  }

  lemma NoCall(s: Moment, base: Place, t: Tree, op: Op)
    requires Rooted(s, base, t)
    ensures Rewritten(s, base, t, s, t, Meaning(t)) && SameFrame(t, t, op)
  {
    RewrittenNot(s, base, t);
    SameFrameRefl(t, op);
  }

  // one operand has been exchanged
  lemma Exchanged(s: Moment, base: Place, t: Tree, op: Op, p: Slot, s1: Moment, x: Tree, e: Expr)
    requires Rooted(s, base, t) && OnSpine(Meaning(t), op, p) && !IsOp(At(Meaning(t), op, p), op)
    requires Rewritten(s, PlaceAt(base, t, op, p), Sub(t, op, p), s1, x, e)
    ensures var u := Graft(t, op, p, x); Rewritten(s, base, t, s1, u, Put(Meaning(t), op, p, e)) && SameFrame(t, u, op)
  {
    GraftRewritten(s, base, t, op, p, s1, x, e);
    GraftFrame(t, op, p, x);
  }

  /** The tree `t` at `base` has become `u` in the way that a pass `r` describes. */
  ghost predicate Passed(s: Moment, base: Place, t: Tree, op: Op, count: nat, s1: Moment, u: Tree, count': nat,
      r: Pass) {
    Rewritten(s, base, t, s1, u, r.tree) && SameFrame(t, u, op) && count' == count + r.count
  }

  lemma PassedNot(s: Moment, base: Place, t: Tree, op: Op, count: nat)
    requires Rooted(s, base, t)
    ensures Passed(s, base, t, op, count, s, t, count, Pass(Meaning(t), 0))
  {
    NoCall(s, base, t, op);
  }

  lemma PassedThen(s: Moment, base: Place, t: Tree, op: Op, count: nat, s1: Moment, u: Tree, count1: nat, a: Pass,
      s2: Moment, w: Tree, count2: nat, b: Pass)
    requires Rooted(s, base, t)
    requires Passed(s, base, t, op, count, s1, u, count1, a) && Passed(s1, base, u, op, count1, s2, w, count2, b)
    ensures Passed(s, base, t, op, count, s2, w, count2, Then(a, b))
  {
    TwoCalls(s, base, t, op, s1, u, a.tree, s2, w, b.tree);
  }

  lemma PassedNext(s: Moment, base: Place, t: Tree, op: Op, count: nat, s1: Moment, u: Tree, count1: nat, a: Pass,
      p: Slot, q: Slot)
    requires Passed(s, base, t, op, count, s1, u, count1, a) && BothSlots(Meaning(t), op, p, q)
    ensures Rooted(s1, base, u) && Meaning(u) == a.tree && BothSlots(a.tree, op, p, q)
    ensures PlaceAt(base, u, op, p) == PlaceAt(base, t, op, p) && PlaceAt(base, u, op, q) == PlaceAt(base, t, op, q)
  {
    NextCall(s, base, t, s1, u, a.tree, op, p, q);
  }

  /** expr_eliminate_dups1. */
  method Dups1(heap: ExprMemory, local: Local, op: Op, ep1: Place, ep2: Place, ghost base: Place, ghost t: Tree,
      ghost p: Slot, ghost q: Slot)
    returns (ghost u: Tree)
    requires Rooted(Now(heap, local), base, t) && BothSlots(Meaning(t), op, p, q)
    requires ep1 == PlaceAt(base, t, op, p) && ep2 == PlaceAt(base, t, op, q)
    modifies heap, local
    ensures Passed(old(Now(heap, local)), base, t, op, old(heap.transCount), Now(heap, local), u, heap.transCount,
        Simplify.Dups1(op, Meaning(t), p, q))
    decreases Size(Meaning(t)), Left(Meaning(t), op, p, q), 1
  {
    hide Holds, Rooted, Passed, At, OnSpine, PlaceAt, Sub, PointsTo, Simplify.Dups1, Size, Left, Meaning, SameSpine,
        SpineSize, HasYN, Addresses, Extend;
    ghost var s, e, c := Now(heap, local), Meaning(t), heap.transCount;
    SlotFacts(s, base, t, op, p);
    SlotFacts(s, base, t, op, q);
    var a1 := Deref(heap, local, ep1, Sub(t, op, p).at);
    var a2 := Deref(heap, local, ep2, Sub(t, op, q).at);
    if heap.nodes[a1].NBin? && heap.nodes[a1].op == op {
      u := WalkFirst1(heap, local, op, ep1, ep2, base, t, p, q);
    } else if heap.nodes[a2].NBin? && heap.nodes[a2].op == op {
      u := WalkSecond1(heap, local, op, ep1, ep2, base, t, p, q);
    } else if a1 == a2 {
      RootedHolds(s, base, t);
      SameOperand(s.m, t, op, p, q);
      Dups1Cases(op, e, p, q);
      PassedNot(s, base, t, op, c);
      u := t;
    } else {
      u := Operands1(heap, local, op, ep1, ep2, base, t, p, q);
    }
  }

  // the operands of the || or && behind the first pointer
  method WalkFirst1(heap: ExprMemory, local: Local, op: Op, ep1: Place, ep2: Place, ghost base: Place, ghost t: Tree,
      ghost p: Slot, ghost q: Slot)
    returns (ghost u: Tree)
    requires Rooted(Now(heap, local), base, t) && BothSlots(Meaning(t), op, p, q)
    requires IsOp(At(Meaning(t), op, p), op)
    requires ep1 == PlaceAt(base, t, op, p) && ep2 == PlaceAt(base, t, op, q)
    modifies heap, local
    ensures Passed(old(Now(heap, local)), base, t, op, old(heap.transCount), Now(heap, local), u, heap.transCount,
        Simplify.Dups1(op, Meaning(t), p, q))
    decreases Size(Meaning(t)), Left(Meaning(t), op, p, q), 0
  {
    hide Holds, Rooted, Passed, At, OnSpine, PlaceAt, Sub, PointsTo, Simplify.Dups1, Size, Left, Meaning, SameSpine,
        SpineSize, HasYN, Addresses, Extend;
    ghost var s, e, c := Now(heap, local), Meaning(t), heap.transCount;
    SlotFacts(s, base, t, op, p);
    Dups1Cases(op, e, p, q);
    FirstSlotDown(op, e, p, q);
    ExtendPlace(base, t, op, p);
    var a := Deref(heap, local, ep1, Sub(t, op, p).at);
    ghost var x, y := Extend(p, false), Extend(p, true);
    ghost var u1 := Dups1(heap, local, op, LeftOf(a), ep2, base, t, x, q);
    ghost var s1, c1, r := Now(heap, local), heap.transCount, Simplify.Dups1(op, e, x, q);
    PassedNext(s, base, t, op, c, s1, u1, c1, r, y, q);
    Smaller(op, e, r.tree, p, y, q);
    u := Dups1(heap, local, op, RightOf(a), ep2, base, u1, y, q);
    PassedThen(s, base, t, op, c, s1, u1, c1, r, Now(heap, local), u, heap.transCount,
        Simplify.Dups1(op, r.tree, y, q));
  }

  // the operands of the || or && behind the second
  method WalkSecond1(heap: ExprMemory, local: Local, op: Op, ep1: Place, ep2: Place, ghost base: Place,
      ghost t: Tree, ghost p: Slot, ghost q: Slot)
    returns (ghost u: Tree)
    requires Rooted(Now(heap, local), base, t) && BothSlots(Meaning(t), op, p, q)
    requires !IsOp(At(Meaning(t), op, p), op) && IsOp(At(Meaning(t), op, q), op)
    requires ep1 == PlaceAt(base, t, op, p) && ep2 == PlaceAt(base, t, op, q)
    modifies heap, local
    ensures Passed(old(Now(heap, local)), base, t, op, old(heap.transCount), Now(heap, local), u, heap.transCount,
        Simplify.Dups1(op, Meaning(t), p, q))
    decreases Size(Meaning(t)), Left(Meaning(t), op, p, q), 0
  {
    hide Holds, Rooted, Passed, At, OnSpine, PlaceAt, Sub, PointsTo, Simplify.Dups1, Size, Left, Meaning, SameSpine,
        SpineSize, HasYN, Addresses, Extend;
    ghost var s, e, c := Now(heap, local), Meaning(t), heap.transCount;
    SlotFacts(s, base, t, op, q);
    Dups1Cases(op, e, p, q);
    SecondSlotDown(op, e, p, q);
    ExtendPlace(base, t, op, q);
    var a := Deref(heap, local, ep2, Sub(t, op, q).at);
    ghost var x, y := Extend(q, false), Extend(q, true);
    ghost var u1 := Dups1(heap, local, op, ep1, LeftOf(a), base, t, p, x);
    ghost var s1, c1, r := Now(heap, local), heap.transCount, Simplify.Dups1(op, e, p, x);
    PassedNext(s, base, t, op, c, s1, u1, c1, r, p, y);
    Smaller2(op, e, r.tree, p, q, y);
    u := Dups1(heap, local, op, ep1, RightOf(a), base, u1, p, y);
    PassedThen(s, base, t, op, c, s1, u1, c1, r, Now(heap, local), u, heap.transCount,
        Simplify.Dups1(op, r.tree, p, y));
  }

  lemma RootedHolds(s: Moment, base: Place, t: Tree)
    requires Rooted(s, base, t)
    ensures Holds(s.m, t) && Below(s.m.Keys, s.n)
  {
  }

  // the second of two calls goes on with what the first has left
  lemma Smaller(op: Op, e: Expr, e1: Expr, p: Slot, y: Slot, q: Slot)
    requires BothSlots(e, op, p, q) && IsOp(At(e, op, p), op) && y == Extend(p, true)
    requires SameSpine(e, e1, op) && Size(e1) <= Size(e)
    ensures BothSlots(e1, op, y, q) && Left(e1, op, y, q) < Left(e, op, p, q)
  {
    FirstSlotDown(op, e, p, q);
    KeepSlots(op, e, e1, y, q);
  }

  lemma Smaller2(op: Op, e: Expr, e1: Expr, p: Slot, q: Slot, y: Slot)
    requires BothSlots(e, op, p, q) && IsOp(At(e, op, q), op) && y == Extend(q, true)
    requires SameSpine(e, e1, op) && Size(e1) <= Size(e)
    ensures BothSlots(e1, op, p, y) && Left(e1, op, p, y) < Left(e, op, p, q)
  {
    SecondSlotDown(op, e, p, q);
    KeepSlots(op, e, e1, p, y);
  }

  lemma Dups1Cases(op: Op, e: Expr, p: Slot, q: Slot)
    requires BothSlots(e, op, p, q)
    ensures IsOp(At(e, op, p), op) ==>
      var x, y := Extend(p, false), Extend(p, true);
      BothSlots(e, op, x, q) && var a := Simplify.Dups1(op, e, x, q);
      BothSlots(a.tree, op, y, q) && Simplify.Dups1(op, e, p, q) == Then(a, Simplify.Dups1(op, a.tree, y, q))
    ensures !IsOp(At(e, op, p), op) && IsOp(At(e, op, q), op) ==>
      var x, y := Extend(q, false), Extend(q, true);
      BothSlots(e, op, p, x) && var a := Simplify.Dups1(op, e, p, x);
      BothSlots(a.tree, op, p, y) && Simplify.Dups1(op, e, p, q) == Then(a, Simplify.Dups1(op, a.tree, p, y))
    ensures !IsOp(At(e, op, p), op) && !IsOp(At(e, op, q), op) && p == q ==> Simplify.Dups1(op, e, p, q) == Pass(e, 0)
    ensures !IsOp(At(e, op, p), op) && !IsOp(At(e, op, q), op) && p != q ==>
      !p.Top? && var a := Nested1(op, e, p);
      BothSlots(a.tree, op, p, q) && !IsOp(At(a.tree, op, p), op) && !IsOp(At(a.tree, op, q), op)
      && Simplify.Dups1(op, e, p, q) == Then(a, Simplify.Merge(op, a.tree, p, q))
  {
    if IsOp(At(e, op, p), op) {
      FirstSlotDown(op, e, p, q);
      KeepSlots(op, e, Simplify.Dups1(op, e, Extend(p, false), q).tree, Extend(p, true), q);
    } else if IsOp(At(e, op, q), op) {
      SecondSlotDown(op, e, p, q);
      KeepSlots(op, e, Simplify.Dups1(op, e, p, Extend(q, false)).tree, p, Extend(q, true));
    } else if p != q {
      PutElsewhere(e, op, p, q, e);
      KeepSlots(op, e, Nested1(op, e, p).tree, p, q);
    }
  }

  // two different operands
  method Operands1(heap: ExprMemory, local: Local, op: Op, ep1: Place, ep2: Place, ghost base: Place, ghost t: Tree,
      ghost p: Slot, ghost q: Slot)
    returns (ghost u: Tree)
    requires Rooted(Now(heap, local), base, t) && BothSlots(Meaning(t), op, p, q) && p != q
    requires !IsOp(At(Meaning(t), op, p), op) && !IsOp(At(Meaning(t), op, q), op)
    requires ep1 == PlaceAt(base, t, op, p) && ep2 == PlaceAt(base, t, op, q)
    modifies heap, local
    ensures Passed(old(Now(heap, local)), base, t, op, old(heap.transCount), Now(heap, local), u, heap.transCount,
        Simplify.Dups1(op, Meaning(t), p, q))
    decreases Size(Meaning(t)), Left(Meaning(t), op, p, q), 0
  {
    hide Holds, Rooted, Passed, At, OnSpine, PlaceAt, Sub, PointsTo, Simplify.Dups1, Put;
    ghost var s, e, c := Now(heap, local), Meaning(t), heap.transCount;
    Dups1Cases(op, e, p, q);
    ghost var r := Nested1(op, e, p);
    ghost var u1 := Inner1(heap, local, op, ep1, base, t, p);
    ghost var s1, c1 := Now(heap, local), heap.transCount;
    PassedNext(s, base, t, op, c, s1, u1, c1, r, p, q);
    u := Merge(heap, local, op, ep1, ep2, base, u1, p, q);
    PassedThen(s, base, t, op, c, s1, u1, c1, r, Now(heap, local), u, heap.transCount,
        Simplify.Merge(op, r.tree, p, q));
  }

  // an operand that is itself an || or && is simplified first
  method Inner1(heap: ExprMemory, local: Local, op: Op, ep: Place, ghost base: Place, ghost t: Tree,
      ghost p: Slot) returns (ghost u: Tree)
    requires Rooted(Now(heap, local), base, t) && OnSpine(Meaning(t), op, p) && !p.Top? &&
        !IsOp(At(Meaning(t), op, p), op)
    requires ep == PlaceAt(base, t, op, p)
    modifies heap, local
    ensures Passed(old(Now(heap, local)), base, t, op, old(heap.transCount), Now(heap, local), u, heap.transCount,
        Nested1(op, Meaning(t), p))
    decreases Size(Meaning(t)), 0
  {
    hide Holds, Rooted, At, OnSpine, PlaceAt, Sub, SameFrame, PointsTo, Simplify.Dups1, Put, Rewritten, Size,
        SpineSize, SameSpine, HasYN, Addresses;
    ghost var s, e, c, x := Now(heap, local), Meaning(t), heap.transCount, Sub(t, op, p);
    SlotFacts(s, base, t, op, p);
    var a := Deref(heap, local, ep, x.at);
    u := t;
    if heap.nodes[a].NBin? {
      var op' := heap.nodes[a].op;
      OperandSmaller(e, op, p);
      WholeSlots(op', ep, x);
      ghost var y := Dups1(heap, local, op', ep, ep, ep, x, Top, Top);
      u := Graft(t, op, p, y);
      Exchanged(s, base, t, op, p, Now(heap, local), y, Simplify.Dups1(op', Meaning(x), Top, Top).tree);
    } else {
      NoCall(s, base, t, op);
    }
  }

  lemma WholeSlots(op: Op, base: Place, t: Tree)
    ensures BothSlots(Meaning(t), op, Top, Top) && PlaceAt(base, t, op, Top) == base
  {
  }

  /** The joiners on two operands. */
  method Merge(heap: ExprMemory, local: Local, op: Op, ep1: Place, ep2: Place, ghost base: Place, ghost t: Tree,
      ghost p: Slot, ghost q: Slot)
    returns (ghost u: Tree)
    requires Rooted(Now(heap, local), base, t) && BothSlots(Meaning(t), op, p, q) && p != q
    requires !IsOp(At(Meaning(t), op, p), op) && !IsOp(At(Meaning(t), op, q), op)
    requires ep1 == PlaceAt(base, t, op, p) && ep2 == PlaceAt(base, t, op, q)
    modifies heap, local
    ensures Passed(old(Now(heap, local)), base, t, op, old(heap.transCount), Now(heap, local), u, heap.transCount,
        Simplify.Merge(op, Meaning(t), p, q))
  {
    hide Holds, Rooted, Rewritten, At, OnSpine, PlaceAt, Sub, SameFrame, PointsTo, Put, JoinTwo, Meaning, Size,
        SameSpine, SpineSize, Graft, IsOp, HasYN, NodeOf, Addresses, Simplify.Merge;
    ghost var s, e := Now(heap, local), Meaning(t);
    MergeCases(op, e, p, q);
    var j := Join(heap, local, op, ep1, ep2, base, t, p, q);
    if j.None? {
      NoCall(s, base, t, op);
      u := t;
    } else {
      u := ReplaceTwo(heap, local, op, ep1, ep2, j.value, base, t, p, q);
      ghost var s1 := Now(heap, local);
      heap.transCount := heap.transCount + 1;
      assert Now(heap, local) == s1;
    }
  }

  lemma MergeCases(op: Op, e: Expr, p: Slot, q: Slot)
    requires BothSlots(e, op, p, q) && p != q && !IsOp(At(e, op, p), op) && !IsOp(At(e, op, q), op)
    ensures OnSpine(Put(e, op, p, Symbol(Neutral(op))), op, q)
    ensures Simplify.Merge(op, e, p, q) == match JoinTwo(op, At(e, op, p), At(e, op, q))
      case None => Pass(e, 0)
      case Some(j) => Pass(Put(Put(e, op, p, Symbol(Neutral(op))), op, q, j), 1)
  {
    PutElsewhere(e, op, p, q, Symbol(Neutral(op)));
  }

  // expr_join_or(*ep1, *ep2) or expr_join_and(*ep1, *ep2)
  method Join(heap: ExprMemory, local: Local, op: Op, ep1: Place, ep2: Place, ghost base: Place, ghost t: Tree,
      ghost p: Slot, ghost q: Slot)
    returns (j: Option<Expr>)
    requires Rooted(Now(heap, local), base, t) && BothSlots(Meaning(t), op, p, q)
    requires ep1 == PlaceAt(base, t, op, p) && ep2 == PlaceAt(base, t, op, q)
    ensures j == JoinTwo(op, At(Meaning(t), op, p), At(Meaning(t), op, q))
  {
    hide Rooted, JoinTwo;
    SlotFacts(Now(heap, local), base, t, op, p);
    SlotFacts(Now(heap, local), base, t, op, q);
    var a1 := Deref(heap, local, ep1, Sub(t, op, p).at);
    var a2 := Deref(heap, local, ep2, Sub(t, op, q).at);
    var e1 := Load(heap, a1, Sub(t, op, p));
    var e2 := Load(heap, a2, Sub(t, op, q));
    j := JoinTwo(op, e1, e2);
  }

  // one operand is exchanged for a new expression
  method ReplaceOne(heap: ExprMemory, local: Local, op: Op, ep: Place, j: Expr, ghost base: Place, ghost t: Tree,
      ghost p: Slot)
    returns (ghost u: Tree)
    requires Rooted(Now(heap, local), base, t) && OnSpine(Meaning(t), op, p) && !IsOp(At(Meaning(t), op, p), op)
    requires ep == PlaceAt(base, t, op, p)
    modifies heap`nodes, heap`next, local
    ensures Rewritten(old(Now(heap, local)), base, t, Now(heap, local), u, Put(Meaning(t), op, p, j)) &&
        SameFrame(t, u, op)
  {
    hide Holds, Rooted, Rewritten, At, OnSpine, PlaceAt, Sub, SameFrame, PointsTo, Put, JoinTwo, Meaning, Size,
        SameSpine, SpineSize, Graft, IsOp, HasYN, NodeOf, Addresses, Simplify.Merge;
    ghost var s := Now(heap, local);
    SlotFacts(s, base, t, op, p);
    ghost var x := Replace(heap, local, ep, j, Sub(t, op, p));
    u := Graft(t, op, p, x);
    Exchanged(s, base, t, op, p, Now(heap, local), x, j);
  }

  // the joint operand goes to the second place, the neutral constant to the first
  method ReplaceTwo(heap: ExprMemory, local: Local, op: Op, ep1: Place, ep2: Place, j: Expr, ghost base: Place,
      ghost t: Tree, ghost p: Slot, ghost q: Slot)
    returns (ghost u: Tree)
    requires Rooted(Now(heap, local), base, t) && BothSlots(Meaning(t), op, p, q) && p != q
    requires !IsOp(At(Meaning(t), op, p), op) && !IsOp(At(Meaning(t), op, q), op)
    requires ep1 == PlaceAt(base, t, op, p) && ep2 == PlaceAt(base, t, op, q)
    modifies heap`nodes, heap`next, local
    ensures OnSpine(Put(Meaning(t), op, p, Symbol(Neutral(op))), op, q)
    ensures Rewritten(old(Now(heap, local)), base, t, Now(heap, local), u,
        Put(Put(Meaning(t), op, p, Symbol(Neutral(op))), op, q, j))
    ensures SameFrame(t, u, op)
  {
    hide Holds, Rooted, Rewritten, At, OnSpine, PlaceAt, Sub, SameFrame, PointsTo, Put, JoinTwo, Meaning, Size,
        SameSpine, SpineSize, Graft, IsOp, HasYN, NodeOf, Addresses, Simplify.Merge;
    ghost var s, e := Now(heap, local), Meaning(t);
    var z := Symbol(Neutral(op));
    PutElsewhere(e, op, p, q, z);
    ghost var u1 := ReplaceOne(heap, local, op, ep1, z, base, t, p);
    ghost var s1 := Now(heap, local);
    NextCall(s, base, t, s1, u1, Put(e, op, p, z), op, p, q);
    u := ReplaceOne(heap, local, op, ep2, j, base, u1, q);
    TwoCalls(s, base, t, op, s1, u1, Put(e, op, p, z), Now(heap, local), u, Put(Put(e, op, p, z), op, q, j));
  }

  // ---------- expr_eliminate_dups2 ----------

  lemma Dups2Cases(op: Op, e: Expr, p: Slot, q: Slot)
    requires BothSlots(e, op, p, q)
    ensures IsOp(At(e, op, p), op) ==>
      var x, y := Extend(p, false), Extend(p, true);
      BothSlots(e, op, x, q) && var a := Simplify.Dups2(op, e, x, q);
      BothSlots(a.tree, op, y, q) && Simplify.Dups2(op, e, p, q) == Then(a, Simplify.Dups2(op, a.tree, y, q))
    ensures !IsOp(At(e, op, p), op) ==>
      var a := Simplify.Dups2Operands(op, e, p, q);
      BothSlots(a.tree, op, p, q) && !IsOp(At(a.tree, op, p), op) && (p == q ==> Simplify.Dups2(op, e, p, q) == a)
    ensures !IsOp(At(e, op, p), op) && p != q ==>
      var a := Simplify.Dups2Operands(op, e, p, q);
      !p.Top? && BothSlots(a.tree, op, p, q) && !IsOp(At(a.tree, op, p), op) && var b := Nested2(op, a.tree, p);
      BothSlots(b.tree, op, p, q) && !IsOp(At(b.tree, op, p), op)
      && Simplify.Dups2(op, e, p, q) == Then(Then(a, b), Simplify.Refute(op, b.tree, p, q))
  {
    if IsOp(At(e, op, p), op) {
      FirstSlotDown(op, e, p, q);
      KeepSlots(op, e, Simplify.Dups2(op, e, Extend(p, false), q).tree, Extend(p, true), q);
    } else {
      var a := Simplify.Dups2Operands(op, e, p, q);
      KeepSlots(op, e, a.tree, p, q);
      if p != q {
        LeafBelowRoot(a.tree, op, p, q);
        KeepSlots(op, a.tree, Nested2(op, a.tree, p).tree, p, q);
      }
    }
  }

  lemma Dups2OperandsCases(op: Op, e: Expr, p: Slot, q: Slot)
    requires BothSlots(e, op, p, q) && !IsOp(At(e, op, p), op)
    ensures !IsOp(At(e, op, q), op) ==> Simplify.Dups2Operands(op, e, p, q) == Pass(e, 0)
    ensures IsOp(At(e, op, q), op) ==>
      var x, y := Extend(q, false), Extend(q, true);
      BothSlots(e, op, p, x) && var a := Simplify.Dups2(op, e, p, x);
      BothSlots(a.tree, op, p, y) && Simplify.Dups2Operands(op, e, p, q) == Then(a, Simplify.Dups2(op, a.tree, p, y))
  {
    if IsOp(At(e, op, q), op) {
      SecondSlotDown(op, e, p, q);
      KeepSlots(op, e, Simplify.Dups2(op, e, p, Extend(q, false)).tree, p, Extend(q, true));
    }
  }

  /** expr_eliminate_dups2. */
  method Dups2(heap: ExprMemory, local: Local, op: Op, ep1: Place, ep2: Place, ghost base: Place, ghost t: Tree,
      ghost p: Slot, ghost q: Slot)
    returns (ghost u: Tree)
    requires Rooted(Now(heap, local), base, t) && BothSlots(Meaning(t), op, p, q)
    requires ep1 == PlaceAt(base, t, op, p) && ep2 == PlaceAt(base, t, op, q)
    modifies heap, local
    ensures Passed(old(Now(heap, local)), base, t, op, old(heap.transCount), Now(heap, local), u, heap.transCount,
        Simplify.Dups2(op, Meaning(t), p, q))
    decreases Size(Meaning(t)), Left(Meaning(t), op, p, q), 2
  {
    hide Holds, Rooted, Passed, At, OnSpine, PlaceAt, Sub, PointsTo, Simplify.Dups2, Simplify.Dups2Operands, Nested2,
        Simplify.Refute, Size, Left, Meaning, SameSpine, SpineSize, HasYN, Addresses, Extend;
    ghost var s, e, c := Now(heap, local), Meaning(t), heap.transCount;
    SlotFacts(s, base, t, op, p);
    var a := Deref(heap, local, ep1, Sub(t, op, p).at);
    if heap.nodes[a].NBin? && heap.nodes[a].op == op {
      u := WalkFirst2(heap, local, op, ep1, ep2, base, t, p, q);
      return;
    }
    Dups2Cases(op, e, p, q);
    ghost var u1 := WalkSecond2(heap, local, op, ep1, ep2, base, t, p, q);
    ghost var s1, c1, r := Now(heap, local), heap.transCount, Simplify.Dups2Operands(op, e, p, q);
    PassedNext(s, base, t, op, c, s1, u1, c1, r, p, q);
    var same := SameTarget(heap, local, op, ep1, ep2, base, u1, p, q);
    if same {
      u := u1;
      return;
    }
    Dups2Shrinks(op, e, r.tree, p, q);
    ghost var u2 := Inner2(heap, local, op, ep1, base, u1, p);
    ghost var s2, c2, r2 := Now(heap, local), heap.transCount, Nested2(op, r.tree, p);
    PassedThen(s, base, t, op, c, s1, u1, c1, r, s2, u2, c2, r2);
    PassedNext(s1, base, u1, op, c1, s2, u2, c2, r2, p, q);
    u := Refute(heap, local, op, ep1, ep2, base, u2, p, q);
    PassedThen(s, base, t, op, c, s2, u2, c2, Then(r, r2), Now(heap, local), u, heap.transCount,
        Simplify.Refute(op, r2.tree, p, q));
  }

  lemma Dups2Shrinks(op: Op, e: Expr, e1: Expr, p: Slot, q: Slot)
    requires BothSlots(e, op, p, q) && SameSpine(e, e1, op) && Size(e1) <= Size(e)
    ensures BothSlots(e1, op, p, q) && Left(e1, op, p, q) == Left(e, op, p, q)
  {
    KeepSlots(op, e, e1, p, q);
  }

  // e1 == e2, as pointers
  method SameTarget(heap: ExprMemory, local: Local, op: Op, ep1: Place, ep2: Place, ghost base: Place, ghost t: Tree,
      ghost p: Slot, ghost q: Slot)
    returns (same: bool)
    requires Rooted(Now(heap, local), base, t) && BothSlots(Meaning(t), op, p, q)
    requires ep1 == PlaceAt(base, t, op, p) && ep2 == PlaceAt(base, t, op, q)
    ensures same <==> p == q
  {
    hide Rooted;
    ghost var s := Now(heap, local);
    SlotFacts(s, base, t, op, p);
    SlotFacts(s, base, t, op, q);
    var a1 := Deref(heap, local, ep1, Sub(t, op, p).at);
    var a2 := Deref(heap, local, ep2, Sub(t, op, q).at);
    same := a1 == a2;
    RootedHolds(s, base, t);
    SameOperand(s.m, t, op, p, q);
  }

  method WalkFirst2(heap: ExprMemory, local: Local, op: Op, ep1: Place, ep2: Place, ghost base: Place, ghost t: Tree,
      ghost p: Slot, ghost q: Slot)
    returns (ghost u: Tree)
    requires Rooted(Now(heap, local), base, t) && BothSlots(Meaning(t), op, p, q)
    requires IsOp(At(Meaning(t), op, p), op)
    requires ep1 == PlaceAt(base, t, op, p) && ep2 == PlaceAt(base, t, op, q)
    modifies heap, local
    ensures Passed(old(Now(heap, local)), base, t, op, old(heap.transCount), Now(heap, local), u, heap.transCount,
        Simplify.Dups2(op, Meaning(t), p, q))
    decreases Size(Meaning(t)), Left(Meaning(t), op, p, q), 0
  {
    hide Holds, Rooted, Passed, At, OnSpine, PlaceAt, Sub, PointsTo, Simplify.Dups2, Simplify.Dups2Operands, Nested2,
        Simplify.Refute, Size, Left, Meaning, SameSpine, SpineSize, HasYN, Addresses, Extend;
    ghost var s, e, c := Now(heap, local), Meaning(t), heap.transCount;
    SlotFacts(s, base, t, op, p);
    Dups2Cases(op, e, p, q);
    FirstSlotDown(op, e, p, q);
    ExtendPlace(base, t, op, p);
    var a := Deref(heap, local, ep1, Sub(t, op, p).at);
    ghost var x, y := Extend(p, false), Extend(p, true);
    ghost var u1 := Dups2(heap, local, op, LeftOf(a), ep2, base, t, x, q);
    ghost var s1, c1, r := Now(heap, local), heap.transCount, Simplify.Dups2(op, e, x, q);
    PassedNext(s, base, t, op, c, s1, u1, c1, r, y, q);
    Smaller(op, e, r.tree, p, y, q);
    u := Dups2(heap, local, op, RightOf(a), ep2, base, u1, y, q);
    PassedThen(s, base, t, op, c, s1, u1, c1, r, Now(heap, local), u, heap.transCount,
        Simplify.Dups2(op, r.tree, y, q));
  }

  // after this walk, unlike that of the first pass, the comparison goes on
  method WalkSecond2(heap: ExprMemory, local: Local, op: Op, ep1: Place, ep2: Place, ghost base: Place,
      ghost t: Tree, ghost p: Slot, ghost q: Slot)
    returns (ghost u: Tree)
    requires Rooted(Now(heap, local), base, t) && BothSlots(Meaning(t), op, p, q)
    requires !IsOp(At(Meaning(t), op, p), op)
    requires ep1 == PlaceAt(base, t, op, p) && ep2 == PlaceAt(base, t, op, q)
    modifies heap, local
    ensures Passed(old(Now(heap, local)), base, t, op, old(heap.transCount), Now(heap, local), u, heap.transCount,
        Simplify.Dups2Operands(op, Meaning(t), p, q))
    decreases Size(Meaning(t)), Left(Meaning(t), op, p, q), 1
  {
    hide Holds, Rooted, Passed, At, OnSpine, PlaceAt, Sub, PointsTo, Simplify.Dups2, Simplify.Dups2Operands, Nested2,
        Simplify.Refute, Size, Left, Meaning, SameSpine, SpineSize, HasYN, Addresses, Extend;
    ghost var s, e, c := Now(heap, local), Meaning(t), heap.transCount;
    SlotFacts(s, base, t, op, q);
    var a := Deref(heap, local, ep2, Sub(t, op, q).at);
    if heap.nodes[a].NBin? && heap.nodes[a].op == op {
      u := WalkBoth2(heap, local, op, ep1, ep2, base, t, p, q);
    } else {
      Dups2OperandsCases(op, e, p, q);
      PassedNot(s, base, t, op, c);
      u := t;
    }
  }

  method WalkBoth2(heap: ExprMemory, local: Local, op: Op, ep1: Place, ep2: Place, ghost base: Place, ghost t: Tree,
      ghost p: Slot, ghost q: Slot)
    returns (ghost u: Tree)
    requires Rooted(Now(heap, local), base, t) && BothSlots(Meaning(t), op, p, q)
    requires !IsOp(At(Meaning(t), op, p), op) && IsOp(At(Meaning(t), op, q), op)
    requires ep1 == PlaceAt(base, t, op, p) && ep2 == PlaceAt(base, t, op, q)
    modifies heap, local
    ensures Passed(old(Now(heap, local)), base, t, op, old(heap.transCount), Now(heap, local), u, heap.transCount,
        Simplify.Dups2Operands(op, Meaning(t), p, q))
    decreases Size(Meaning(t)), Left(Meaning(t), op, p, q), 0
  {
    hide Holds, Rooted, Passed, At, OnSpine, PlaceAt, Sub, PointsTo, Simplify.Dups2, Simplify.Dups2Operands, Nested2,
        Simplify.Refute, Size, Left, Meaning, SameSpine, SpineSize, HasYN, Addresses, Extend;
    ghost var s, e, c := Now(heap, local), Meaning(t), heap.transCount;
    SlotFacts(s, base, t, op, q);
    Dups2OperandsCases(op, e, p, q);
    var a := Deref(heap, local, ep2, Sub(t, op, q).at);
    SecondSlotDown(op, e, p, q);
    ExtendPlace(base, t, op, q);
    ghost var x, y := Extend(q, false), Extend(q, true);
    ghost var u1 := Dups2(heap, local, op, ep1, LeftOf(a), base, t, p, x);
    ghost var s1, c1, r := Now(heap, local), heap.transCount, Simplify.Dups2(op, e, p, x);
    PassedNext(s, base, t, op, c, s1, u1, c1, r, p, y);
    Smaller2(op, e, r.tree, p, q, y);
    u := Dups2(heap, local, op, ep1, RightOf(a), base, u1, p, y);
    PassedThen(s, base, t, op, c, s1, u1, c1, r, Now(heap, local), u, heap.transCount,
        Simplify.Dups2(op, r.tree, p, y));
  }

  method Inner2(heap: ExprMemory, local: Local, op: Op, ep: Place, ghost base: Place, ghost t: Tree,
      ghost p: Slot) returns (ghost u: Tree)
    requires Rooted(Now(heap, local), base, t) && OnSpine(Meaning(t), op, p) && !p.Top? &&
        !IsOp(At(Meaning(t), op, p), op)
    requires ep == PlaceAt(base, t, op, p)
    modifies heap, local
    ensures Passed(old(Now(heap, local)), base, t, op, old(heap.transCount), Now(heap, local), u, heap.transCount,
        Nested2(op, Meaning(t), p))
    decreases Size(Meaning(t)), 0
  {
    hide Holds, Rooted, At, OnSpine, PlaceAt, Sub, SameFrame, PointsTo, Simplify.Dups2, Put, Rewritten, Size,
        SpineSize, SameSpine, HasYN, Addresses;
    ghost var s, e, c, x := Now(heap, local), Meaning(t), heap.transCount, Sub(t, op, p);
    SlotFacts(s, base, t, op, p);
    var a := Deref(heap, local, ep, x.at);
    u := t;
    if heap.nodes[a].NBin? {
      var op' := heap.nodes[a].op;
      OperandSmaller(e, op, p);
      WholeSlots(op', ep, x);
      ghost var y := Dups2(heap, local, op', ep, ep, ep, x, Top, Top);
      u := Graft(t, op, p, y);
      Exchanged(s, base, t, op, p, Now(heap, local), y, Simplify.Dups2(op', Meaning(x), Top, Top).tree);
    } else {
      NoCall(s, base, t, op);
    }
  }

  // the pointers may lead into one another: only copies are rewritten
  method RefuteTest(heap: ExprMemory, op: Op, a1: nat, a2: nat, ghost x1: Tree, ghost x2: Tree) returns (refuted: bool)
    requires heap.Valid() && Holds(heap.nodes, x1) && Holds(heap.nodes, x2) && a1 == x1.at && a2 == x2.at
    modifies heap
    ensures heap.Valid() && OnlyNew(old(heap.nodes), old(heap.next), heap.nodes, heap.next) &&
        heap.transCount == old(heap.transCount)
    ensures refuted <==> Refutes(op, Meaning(x1), Meaning(x2))
  {
    hide Holds, Turned, AllTurned, AllAddresses, HoldsAll, Freed, Factor.ExtractEqTop, Negation.Transform;
    ghost var m0, n0 := heap.nodes, heap.next;
    var c, tmp1, tmp2, tmp;
    ghost var v, u, w, y;
    c, v := heap.Copy(a1, x1);
    ghost var m1, n1 := heap.nodes, heap.next;
    TurnedHolds(m0, n0, {}, m1, n1, v, Meaning(x1));
    ghost var t := TNot(n1, v);
    NewTurned(m0, n0, {}, m1, n1, NNot(c), t);
    tmp1 := heap.Alloc(NNot(c));
    ghost var m2, n2 := heap.nodes, heap.next;
    TurnedHolds(m0, n0, {}, m2, n2, t, Not(Meaning(x1)));
    tmp1, u := heap.Transform(tmp1, t);
    ghost var m3, n3, e := heap.nodes, heap.next, Negation.Transform(Not(Meaning(x1)));
    TurnedThen(m0, n0, {}, m2, n2, t, Not(Meaning(x1)), m3, n3, u, e);
    TurnedHolds(m0, n0, {}, m3, n3, u, e);
    FrameTurned(m0, n0, {}, m3, n3, u, e, x2);
    tmp2, w := heap.Copy(a2, x2);
    ghost var m4, n4, z := heap.nodes, heap.next, Trio(None, u, w);
    TurnedHolds(m3, n3, {}, m4, n4, w, Meaning(x2));
    TwoNew(m0, n0, m3, n3, u, m4, n4, w);
    AllHolds(m0, n0, {}, m4, n4, z);
    tmp, tmp1, tmp2, y := InPlaceEq.ExtractEqTop(heap, op, tmp1, tmp2, z);
    AllTurnedThen(m0, n0, {}, m4, n4, z, heap.nodes, heap.next, y);
    AllHolds(m4, n4, AllAddresses(z), heap.nodes, heap.next, y);
    AllParts(heap.nodes, y);
    refuted := heap.nodes[tmp1] == NSym(Neutral(op));
    FreeAll(heap, m0, n0, tmp, tmp1, tmp2, y);
  }

  // the temporaries are given up
  method FreeAll(heap: ExprMemory, ghost m: Memory, ghost n: nat, tmp: Option<nat>, tmp1: nat, tmp2: nat, ghost y: Trio)
    requires heap.Valid() && Below(m.Keys, n) && AllTurned(m, n, {}, heap.nodes, heap.next, y)
    requires tmp == RootOpt(y.s) && tmp1 == y.u.at && tmp2 == y.w.at
    modifies heap`nodes
    ensures heap.Valid() && OnlyNew(m, n, heap.nodes, heap.next)
  {
    ghost var was := heap.nodes;
    heap.Free(tmp2, y.w);
    Frame(was, heap.nodes, y.u);
    ghost var m1 := heap.nodes;
    heap.Free(tmp1, y.u);
    ghost var gone := Freed(y.w) + Freed(y.u);
    assert heap.nodes == was - gone;
    if tmp.Some? {
      Frame(was, heap.nodes, y.s.value);
      heap.Free(tmp.value, y.s.value);
      gone := gone + Freed(y.s.value);
      assert heap.nodes == was - gone;
    }
    NewGone(m, n, was, heap.next, y, gone);
  }

  /** The comparison of one operand with another, or with a part of the spine. */
  method Refute(heap: ExprMemory, local: Local, op: Op, ep1: Place, ep2: Place, ghost base: Place, ghost t: Tree,
      ghost p: Slot, ghost q: Slot)
    returns (ghost u: Tree)
    requires Rooted(Now(heap, local), base, t) && BothSlots(Meaning(t), op, p, q) && !p.Top? &&
        !IsOp(At(Meaning(t), op, p), op)
    requires ep1 == PlaceAt(base, t, op, p) && ep2 == PlaceAt(base, t, op, q)
    modifies heap, local
    ensures Passed(old(Now(heap, local)), base, t, op, old(heap.transCount), Now(heap, local), u, heap.transCount,
        Simplify.Refute(op, Meaning(t), p, q))
  {
    hide Holds, Rooted, Rewritten, At, OnSpine, PlaceAt, Sub, SameFrame, PointsTo, Put, Refutes, Meaning, Size,
        SameSpine, SpineSize, HasYN, Addresses, OnlyNew, Simplify.Refute, IsOp, NodeOf;
    ghost var s, e := Now(heap, local), Meaning(t);
    RefuteCases(op, e, p, q);
    var refuted := TestOperand(heap, local, op, ep1, ep2, base, t, p, q);
    ghost var s1 := Now(heap, local);
    u := t;
    if refuted {
      u := ReplaceOne(heap, local, op, ep1, Symbol(Absorbing(op)), base, t, p);
      TwoCalls(s, base, t, op, s1, t, e, Now(heap, local), u, Put(e, op, p, Symbol(Absorbing(op))));
      ghost var s2 := Now(heap, local);
      heap.transCount := heap.transCount + 1;
      assert Now(heap, local) == s2;
    }
  }

  lemma RefuteCases(op: Op, e: Expr, p: Slot, q: Slot)
    requires BothSlots(e, op, p, q) && !p.Top? && !IsOp(At(e, op, p), op)
    ensures Simplify.Refute(op, e, p, q) == if At(e, op, p).Bin? && Refutes(op, At(e, op, p), At(e, op, q))
      then Pass(Put(e, op, p, Symbol(Absorbing(op))), 1)
      else Pass(e, 0)
  {
  }

  method TestOperand(heap: ExprMemory, local: Local, op: Op, ep1: Place, ep2: Place, ghost base: Place,
      ghost t: Tree, ghost p: Slot, ghost q: Slot)
    returns (refuted: bool)
    requires Rooted(Now(heap, local), base, t) && BothSlots(Meaning(t), op, p, q)
    requires ep1 == PlaceAt(base, t, op, p) && ep2 == PlaceAt(base, t, op, q)
    modifies heap
    ensures refuted <==> At(Meaning(t), op, p).Bin? && Refutes(op, At(Meaning(t), op, p), At(Meaning(t), op, q))
    ensures Rooted(Now(heap, local), base, t) && SameFrame(t, t, op) && heap.transCount == old(heap.transCount)
    ensures Rewritten(old(Now(heap, local)), base, t, Now(heap, local), t, Meaning(t))
  {
    hide Holds, Rooted, Rewritten, At, OnSpine, PlaceAt, Sub, SameFrame, PointsTo, Refutes, SpineSize, Addresses,
        OnlyNew;
    ghost var s := Now(heap, local);
    SlotFacts(s, base, t, op, p);
    SlotFacts(s, base, t, op, q);
    var a1 := Deref(heap, local, ep1, Sub(t, op, p).at);
    var a2 := Deref(heap, local, ep2, Sub(t, op, q).at);
    NoCall(s, base, t, op);
    refuted := false;
    if heap.nodes[a1].NBin? {
      RootedHolds(s, base, t);
      refuted := RefuteTest(heap, op, a1, a2, Sub(t, op, p), Sub(t, op, q));
      Kept(s, base, t, Now(heap, local), op);
    }
  }

  lemma Kept(s: Moment, base: Place, t: Tree, s1: Moment, op: Op)
    requires Rooted(s, base, t) && OnlyNew(s.m, s.n, s1.m, s1.n) && s1.v == s.v
    ensures Rooted(s1, base, t) && Rewritten(s, base, t, s1, t, Meaning(t)) && SameFrame(t, t, op)
  {
    Inside(s.m, t);
    Frame(s.m, s1.m, t);
    SetSame(s.m, base, t.at);
    SameFrameRefl(t, op);
    hide Holds;
  }

  // ---------- expr_eliminate_dups ----------

  lemma VariableRooted(m: Memory, n: nat, t: Tree)
    requires Holds(m, t) && Below(m.Keys, n)
    ensures Rooted(Moment(m, t.at, n), Variable, t)
    ensures forall op :: BothSlots(Meaning(t), op, Top, Top) && PlaceAt(Variable, t, op, Top) == Variable
  {
  }

  lemma VariableTurned(s: Moment, t: Tree, op: Op, count: nat, s1: Moment, u: Tree, count1: nat, r: Pass)
    requires Passed(s, Variable, t, op, count, s1, u, count1, r)
    ensures Turned(s.m, s.n, Addresses(t), s1.m, s1.n, u, r.tree) && s1.v == u.at && count1 == count + r.count
  {
    hide Holds;
  }

  // one round of the loop, with trans_count cleared
  method Round(heap: ExprMemory, local: Local, ghost t: Tree) returns (ghost u: Tree)
    requires heap.Valid() && Holds(heap.nodes, t) && local.to == t.at
    modifies heap, local
    ensures local.to == u.at && heap.transCount == Simplify.Round(Meaning(t)).count
    ensures Turned(old(heap.nodes), old(heap.next), Addresses(t), heap.nodes, heap.next, u,
        Simplify.Round(Meaning(t)).tree)
  {
    hide Holds, Turned, Simplify.Dups1, Simplify.Dups2, Passed, Addresses, Size, HasYN, SameSpine;
    ghost var s, e := Now(heap, local), Meaning(t);
    heap.transCount := 0;
    u := t;
    AtRoot(s.m, t);
    TurnedNot(s.m, s.n, Addresses(t), s.m, s.n, t);
    if heap.nodes[local.to].NBin? {
      var op := heap.nodes[local.to].op;
      VariableRooted(s.m, s.n, t);
      ghost var u1 := Dups1(heap, local, op, Variable, Variable, Variable, t, Top, Top);
      ghost var s1, c1, r1 := Now(heap, local), heap.transCount, Simplify.Dups1(op, e, Top, Top);
      VariableTurned(s, t, op, 0, s1, u1, c1, r1);
      TurnedHolds(s.m, s.n, Addresses(t), s1.m, s1.n, u1, r1.tree);
      VariableRooted(s1.m, s1.n, u1);
      u := Dups2(heap, local, op, Variable, Variable, Variable, u1, Top, Top);
      ghost var s2, r2 := Now(heap, local), Simplify.Dups2(op, r1.tree, Top, Top);
      VariableTurned(s1, u1, op, c1, s2, u, heap.transCount, r2);
      TurnedThen(s.m, s.n, Addresses(t), s1.m, s1.n, u1, r1.tree, s2.m, s2.n, u, r2.tree);
      RoundOf(op, e);
    }
  }

  lemma RoundOf(op: Op, e: Expr)
    requires IsOp(e, op)
    ensures var a := Simplify.Dups1(op, e, Top, Top); Simplify.Round(e) == Then(a, Simplify.Dups2(op, a.tree, Top, Top))
  {
  }

  /** expr_eliminate_dups: cleared and added up in every round, trans_count says when to stop,
      and is put back at the end. */
  method EliminateDups(heap: ExprMemory, a: nat, ghost t: Tree) returns (b: nat, ghost u: Tree)
    requires heap.Valid() && Holds(heap.nodes, t) && a == t.at
    modifies heap
    ensures b == u.at && heap.transCount == old(heap.transCount)
    ensures Turned(old(heap.nodes), old(heap.next), Addresses(t), heap.nodes, heap.next, u,
        Simplify.EliminateDups(Meaning(t)))
  {
    hide Holds, Turned, Addresses, Simplify.Round, Factor.EliminateYN;
    var oldCount := heap.transCount;
    var local := new Local(a);
    ghost var m0, n0, mine := heap.nodes, heap.next, Addresses(t);
    u := t;
    TurnedNot(m0, n0, mine, m0, n0, t);
    while true
      invariant Turned(m0, n0, mine, heap.nodes, heap.next, u, Meaning(u)) && local.to == u.at && heap.Valid()
      invariant Simplify.EliminateDups(Meaning(u)) == Simplify.EliminateDups(Meaning(t))
      decreases Size(Meaning(u))
    {
      ghost var m1, n1, e := heap.nodes, heap.next, Meaning(u);
      TurnedHolds(m0, n0, mine, m1, n1, u, e);
      ghost var u1 := Round(heap, local, u);
      ghost var m2, n2, r := heap.nodes, heap.next, Simplify.Round(e);
      TurnedThen(m0, n0, mine, m1, n1, u, e, m2, n2, u1, r.tree);
      TurnedHolds(m0, n0, mine, m2, n2, u1, r.tree);
      u := u1;
      if heap.transCount == 0 {
        break;
      }
      ghost var u2 := heap.EliminateYN(local.to, u1);
      TurnedHolds(m2, n2, Addresses(u1), heap.nodes, n2, u2, Factor.EliminateYN(r.tree));
      TurnedThen(m0, n0, mine, m2, n2, u1, r.tree, heap.nodes, n2, u2, Factor.EliminateYN(r.tree));
      u := u2;
    }
    heap.transCount := oldCount;
    b := local.to;
  }
}
