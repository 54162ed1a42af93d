/** The `struct expr **` pointers with which the simplifier walks one tree: the address of
    a pointer inside a cell, or of a local variable (package/config/expr.c). */
module Places {
  import opened Exprs
  import opened Cells
  import opened Slots

  datatype Place = Variable | LeftOf(cell: nat) | RightOf(cell: nat)

  // the cell that holds the pointer
  function CellOf(p: Place): set<nat> {
    if p.Variable? then {} else {p.cell}
  }

  /** The pointer at `p` points to `a`; `v` is the value of the variable. */
  ghost predicate PointsTo(m: Memory, v: nat, p: Place, a: nat) {
    match p
    case Variable => v == a
    case LeftOf(c) => c in m && m[c].NBin? && m[c].left == a
    case RightOf(c) => c in m && m[c].NBin? && m[c].right == a
  }

  function SetMemory(m: Memory, p: Place, a: nat): Memory {
    match p
    case Variable => m
    case LeftOf(c) => if c in m && m[c].NBin? then m[c := m[c].(left := a)] else m
    case RightOf(c) => if c in m && m[c].NBin? then m[c := m[c].(right := a)] else m
  }

  function SetVariable(v: nat, p: Place, a: nat): nat {
    if p.Variable? then a else v
  }

  // ---------- slots of a tree as places ----------

  function Sub(t: Tree, op: Op, p: Slot): Tree
    requires OnSpine(Meaning(t), op, p)
  {
    match p
    case Top => t
    case InLeft(q) => Sub(t.left, op, q)
    case InRight(q) => Sub(t.right, op, q)
  }

  // where the pointer to that part is, the pointer to the whole being at `base`
  function PlaceAt(base: Place, t: Tree, op: Op, p: Slot): Place
    requires OnSpine(Meaning(t), op, p)
    decreases p
  {
    match p
    case Top => base
    case InLeft(q) => PlaceAt(LeftOf(t.at), t.left, op, q)
    case InRight(q) => PlaceAt(RightOf(t.at), t.right, op, q)
  }

  function Graft(t: Tree, op: Op, p: Slot, x: Tree): (r: Tree)
    requires OnSpine(Meaning(t), op, p)
    ensures Meaning(r) == Put(Meaning(t), op, p, Meaning(x))
    ensures !p.Top? ==> r.at == t.at
  {
    match p
    case Top => x
    case InLeft(q) => TBin(t.at, op, Graft(t.left, op, q, x), t.right)
    case InRight(q) => TBin(t.at, op, t.left, Graft(t.right, op, q, x))
  }

  /** The two trees use the same cells for the operators of the spine. */
  predicate SameFrame(t: Tree, u: Tree, op: Op) {
    t.TBin? && t.op == op ==>
      u.TBin? && u.op == op && u.at == t.at && SameFrame(t.left, u.left, op) && SameFrame(t.right, u.right, op)
  }

  lemma {:induction false} SameFrameRefl(t: Tree, op: Op)
    ensures SameFrame(t, t, op)
  {
    if t.TBin? && t.op == op {
      SameFrameRefl(t.left, op);
      SameFrameRefl(t.right, op);
    }
  }

  lemma {:induction false} SameFrameTrans(t: Tree, u: Tree, w: Tree, op: Op)
    requires SameFrame(t, u, op) && SameFrame(u, w, op)
    ensures SameFrame(t, w, op)
  {
    if t.TBin? && t.op == op {
      SameFrameTrans(t.left, u.left, w.left, op);
      SameFrameTrans(t.right, u.right, w.right, op);
    }
  }

  lemma {:induction false} SameFramePlace(base: Place, t: Tree, u: Tree, op: Op, p: Slot)
    requires SameFrame(t, u, op) && OnSpine(Meaning(t), op, p)
    ensures OnSpine(Meaning(u), op, p) && PlaceAt(base, u, op, p) == PlaceAt(base, t, op, p)
    decreases p
  {
    match p
    case Top =>
    case InLeft(q) => SameFramePlace(LeftOf(t.at), t.left, u.left, op, q);
    case InRight(q) => SameFramePlace(RightOf(t.at), t.right, u.right, op, q);
  }

  // only an operand is exchanged
  lemma {:induction false} GraftFrame(t: Tree, op: Op, p: Slot, x: Tree)
    requires OnSpine(Meaning(t), op, p) && !IsOp(At(Meaning(t), op, p), op)
    ensures SameFrame(t, Graft(t, op, p, x), op)
  {
    match p
    case Top =>
    case InLeft(q) => GraftFrame(t.left, op, q, x); SameFrameRefl(t.right, op);
    case InRight(q) => GraftFrame(t.right, op, q, x); SameFrameRefl(t.left, op);
  }

  // ---------- a tree and the pointer to it ----------

  /** One moment: the cells, the variable, and the first address not yet in use. */
  datatype Moment = Moment(m: Memory, v: nat, n: nat)

  /** The pointer at `base` leads to the tree `t`, and is not itself part of it. */
  ghost predicate Rooted(s: Moment, base: Place, t: Tree) {
    && Below(s.m.Keys, s.n) && Holds(s.m, t)
    && PointsTo(s.m, s.v, base, t.at) && CellOf(base) !! Addresses(t)
  }

  lemma {:induction false} SubRooted(s: Moment, base: Place, t: Tree, op: Op, p: Slot)
    requires Rooted(s, base, t) && OnSpine(Meaning(t), op, p)
    ensures Rooted(s, PlaceAt(base, t, op, p), Sub(t, op, p))
    ensures Meaning(Sub(t, op, p)) == At(Meaning(t), op, p)
    ensures Addresses(Sub(t, op, p)) <= Addresses(t)
    ensures Sub(t, op, p).at in s.m && s.m[Sub(t, op, p).at] == NodeOf(Sub(t, op, p))
    decreases p
  {
    match p
    case Top => AtRoot(s.m, t);
    case InLeft(q) =>
      HoldsParts(s.m, t);
      SubRooted(s, LeftOf(t.at), t.left, op, q);
    case InRight(q) =>
      HoldsParts(s.m, t);
      SubRooted(s, RightOf(t.at), t.right, op, q);
  }

  /** Two operands have the same address exactly when they are the same operand. */
  lemma {:induction false} SameOperand(m: Memory, t: Tree, op: Op, p: Slot, q: Slot)
    requires Holds(m, t) && OnSpine(Meaning(t), op, p) && OnSpine(Meaning(t), op, q)
    ensures Sub(t, op, p).at == Sub(t, op, q).at ==> p == q
    decreases t
  {
    HoldsParts(m, t);
    match (p, q)
    case (InLeft(p'), InLeft(q')) => SameOperand(m, t.left, op, p', q');
    case (InRight(p'), InRight(q')) => SameOperand(m, t.right, op, p', q');
    case (InLeft(p'), InRight(q')) => SubInside(m, t.left, op, p'); SubInside(m, t.right, op, q');
    case (InRight(p'), InLeft(q')) => SubInside(m, t.right, op, p'); SubInside(m, t.left, op, q');
    case (InLeft(p'), Top) => SubInside(m, t.left, op, p');
    case (InRight(p'), Top) => SubInside(m, t.right, op, p');
    case (Top, InLeft(q')) => SubInside(m, t.left, op, q');
    case (Top, InRight(q')) => SubInside(m, t.right, op, q');
    case (Top, Top) =>
  }

  lemma {:induction false} SubInside(m: Memory, t: Tree, op: Op, p: Slot)
    requires Holds(m, t) && OnSpine(Meaning(t), op, p)
    ensures Sub(t, op, p).at in Addresses(t)
  {
    HoldsParts(m, t);
    match p
    case Top =>
    case InLeft(q) => SubInside(m, t.left, op, q);
    case InRight(q) => SubInside(m, t.right, op, q);
  }

  // ---------- one tree becomes another, in its place ----------

  /** The tree `t` behind the pointer at `base` has become `u`, which means `e`; only its
      cells and that pointer were touched. */
  ghost predicate Rewritten(s: Moment, base: Place, t: Tree, s': Moment, u: Tree, e: Expr) {
    && s.n <= s'.n && Rooted(s', base, u) && Meaning(u) == e
    && Reuses(Addresses(u), Addresses(t), s.n)
    && Untouched(SetMemory(s.m, base, u.at), s'.m, Addresses(t), s.n)
    && s'.v == SetVariable(s.v, base, u.at)
  }

  lemma RewrittenNot(s: Moment, base: Place, t: Tree)
    requires Rooted(s, base, t)
    ensures Rewritten(s, base, t, s, t, Meaning(t))
  {
    assert SetMemory(s.m, base, t.at) == s.m;
  }

  lemma RewrittenThen(s: Moment, base: Place, t: Tree, s1: Moment, u: Tree, e: Expr, s2: Moment, w: Tree, e2: Expr)
    requires Rooted(s, base, t)
    requires Rewritten(s, base, t, s1, u, e) && Rewritten(s1, base, u, s2, w, e2)
    ensures Rewritten(s, base, t, s2, w, e2)
  {
    hide Holds;
  }

  // the left operand has been rewritten in its place
  lemma LeftInPlace(s: Moment, base: Place, t: Tree, s1: Moment, u: Tree, e: Expr)
    requires Rooted(s, base, t) && t.TBin?
    requires Rewritten(s, LeftOf(t.at), t.left, s1, u, e)
    ensures Rewritten(s, base, t, s1, TBin(t.at, t.op, u, t.right), Bin(t.op, e, Meaning(t.right)))
  {
    HoldsParts(s.m, t);
    Inside(s.m, t.left);
    Inside(s.m, t.right);
    Frame(s.m, s1.m, t.right);
    hide Holds;
    BinHolds(s1.m, TBin(t.at, t.op, u, t.right));
    SetSame(s.m, base, t.at);
  }

  lemma RightInPlace(s: Moment, base: Place, t: Tree, s1: Moment, u: Tree, e: Expr)
    requires Rooted(s, base, t) && t.TBin?
    requires Rewritten(s, RightOf(t.at), t.right, s1, u, e)
    ensures Rewritten(s, base, t, s1, TBin(t.at, t.op, t.left, u), Bin(t.op, Meaning(t.left), e))
  {
    HoldsParts(s.m, t);
    Inside(s.m, t.left);
    Inside(s.m, t.right);
    Frame(s.m, s1.m, t.left);
    hide Holds;
    BinHolds(s1.m, TBin(t.at, t.op, t.left, u));
    SetSame(s.m, base, t.at);
  }

  lemma SetSame(m: Memory, base: Place, a: nat)
    requires exists v :: PointsTo(m, v, base, a)
    ensures SetMemory(m, base, a) == m
  {
  }

  /** Rewriting a part in its place rewrites the whole in its place. */
  lemma {:induction false} GraftRewritten(s: Moment, base: Place, t: Tree, op: Op, p: Slot, s1: Moment, x: Tree,
      e: Expr)
    requires Rooted(s, base, t) && OnSpine(Meaning(t), op, p)
    requires Rewritten(s, PlaceAt(base, t, op, p), Sub(t, op, p), s1, x, e)
    ensures Rewritten(s, base, t, s1, Graft(t, op, p, x), Put(Meaning(t), op, p, e))
    decreases p
  {
    hide Rewritten, Holds;
    match p
    case Top =>
    case InLeft(q) =>
      HoldsParts(s.m, t);
      AtRoot(s.m, t);
      GraftRewritten(s, LeftOf(t.at), t.left, op, q, s1, x, e);
      LeftInPlace(s, base, t, s1, Graft(t.left, op, q, x), Put(Meaning(t.left), op, q, e));
    case InRight(q) =>
      HoldsParts(s.m, t);
      AtRoot(s.m, t);
      GraftRewritten(s, RightOf(t.at), t.right, op, q, s1, x, e);
      RightInPlace(s, base, t, s1, Graft(t.right, op, q, x), Put(Meaning(t.right), op, q, e));
  }

  // the part is given up, and the pointer set to a new tree
  lemma Replaced(s: Moment, base: Place, t: Tree, m2: Memory, n2: nat, x: Tree)
    requires Rooted(s, base, t) && Turned(s.m - Freed(t), s.n, {}, m2, n2, x, Meaning(x))
    ensures PointsTo(m2, s.v, base, t.at)
    ensures Rewritten(s, base, t, Moment(SetMemory(m2, base, x.at), SetVariable(s.v, base, x.at), n2), x, Meaning(x))
  {
    var gone := Freed(t);
    hide Freed, Holds;
    Inside(m2, x);
    BaseKept(s, base, t, gone, m2);
    SetElsewhere(m2, base, x);
    SetUntouched(s.m, s.n, base, Addresses(t), gone, m2, x.at);
  }

  lemma BaseKept(s: Moment, base: Place, t: Tree, gone: set<nat>, m2: Memory)
    requires Rooted(s, base, t) && gone <= Addresses(t) && Untouched(s.m - gone, m2, {}, s.n)
    ensures PointsTo(m2, s.v, base, t.at) && CellOf(base) <= s.m.Keys && CellOf(base) <= m2.Keys
    ensures Below(CellOf(base), s.n)
  {
    assert base.Variable? || base.cell in s.m - gone;
  }

  lemma SetElsewhere(m: Memory, base: Place, x: Tree)
    requires Holds(m, x) && CellOf(base) !! Addresses(x) && (base.Variable? || (base.cell in m && m[base.cell].NBin?))
    ensures Holds(SetMemory(m, base, x.at), x) && SetMemory(m, base, x.at).Keys == m.Keys
  {
    Frame(m, SetMemory(m, base, x.at), x);
  }

  lemma SetUntouched(m: Memory, n: nat, base: Place, mine: set<nat>, gone: set<nat>, m2: Memory, a: nat)
    requires gone <= mine && Untouched(m - gone, m2, {}, n) && CellOf(base) !! mine
    requires CellOf(base) <= m.Keys && Below(CellOf(base), n)
    ensures Untouched(SetMemory(m, base, a), SetMemory(m2, base, a), mine, n)
  {
    forall x | x < n && x !in mine
      ensures x in SetMemory(m, base, a) <==> x in SetMemory(m2, base, a)
      ensures x in SetMemory(m, base, a) ==> SetMemory(m2, base, a)[x] == SetMemory(m, base, a)[x]
    {
      assert x in m <==> x in m - gone;
    }
  }
}
