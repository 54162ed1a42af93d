/** Expressions as the program holds them: cells in memory that point to each other
    (struct expr, package/config/expr.h). */
module Cells {
  import opened Wrappers
  import opened Exprs

  /** The contents of one struct expr. */
  datatype Node =
    | NSym(sym: Sym)
    | NNot(arg: nat)
    | NBin(op: Op, left: nat, right: nat)
    | NCmp(equal: bool, lhs: Sym, rhs: Sym)

  type Memory = map<nat, Node>

  /** An expression together with the addresses of its cells. */
  datatype Tree =
    | TSym(at: nat, sym: Sym)
    | TNot(at: nat, arg: Tree)
    | TBin(at: nat, op: Op, left: Tree, right: Tree)
    | TCmp(at: nat, equal: bool, lhs: Sym, rhs: Sym)

  function Meaning(t: Tree): Expr {
    match t
    case TSym(_, s) => Symbol(s)
    case TNot(_, a) => Not(Meaning(a))
    case TBin(_, op, l, r) => Bin(op, Meaning(l), Meaning(r))
    case TCmp(_, eq, a, b) => Cmp(eq, a, b)
  }

  function Addresses(t: Tree): set<nat> {
    match t
    case TNot(a, x) => {a} + Addresses(x)
    case TBin(a, _, l, r) => {a} + Addresses(l) + Addresses(r)
    case _ => {t.at}
  }

  function NodeOf(t: Tree): Node {
    match t
    case TSym(_, s) => NSym(s)
    case TNot(_, a) => NNot(a.at)
    case TBin(_, op, l, r) => NBin(op, l.at, r.at)
    case TCmp(_, eq, a, b) => NCmp(eq, a, b)
  }

  /** The memory holds the tree, and no cell of it is used twice. */
  ghost predicate Holds(m: Memory, t: Tree) {
    && t.at in m && m[t.at] == NodeOf(t)
    && match t
       case TNot(a, x) => Holds(m, x) && a !in Addresses(x)
       case TBin(a, _, l, r) =>
         && Holds(m, l) && Holds(m, r) && a !in Addresses(l) && a !in Addresses(r)
         && Addresses(l) !! Addresses(r)
       case _ => true
  }

  lemma {:induction false} Inside(m: Memory, t: Tree)
    requires Holds(m, t)
    ensures t.at in Addresses(t) && Addresses(t) <= m.Keys
  {
    match t
    case TNot(_, x) => Inside(m, x);
    case TBin(_, _, l, r) => Inside(m, l); Inside(m, r);
    case _ =>
  }

  /** Cells elsewhere may change. */
  lemma {:induction false} Frame(m: Memory, m': Memory, t: Tree)
    requires Holds(m, t) && forall x :: x in Addresses(t) && x in m ==> x in m' && m'[x] == m[x]
    ensures Holds(m', t)
  {
    match t
    case TNot(_, x) => Frame(m, m', x);
    case TBin(_, _, l, r) => Frame(m, m', l); Frame(m, m', r);
    case _ =>
  }

  /** Of the cells below `limit`, only those in `mine` may differ. */
  ghost predicate Untouched(m: Memory, m': Memory, mine: set<nat>, limit: nat) {
    forall x :: x < limit && x !in mine ==> (x in m <==> x in m') && (x in m ==> m'[x] == m[x])
  }

  ghost predicate Below(s: set<nat>, limit: nat) {
    forall x :: x in s ==> x < limit
  }

  /** The cells of a result are cells of the operand, or new. */
  ghost predicate Reuses(s: set<nat>, mine: set<nat>, limit: nat) {
    forall x :: x in s && x < limit ==> x in mine
  }

  // what a cell says about the tree that starts there
  lemma AtRoot(m: Memory, t: Tree)
    requires Holds(m, t)
    ensures t.at in m && m[t.at] == NodeOf(t) && t.at in Addresses(t)
  {
    Inside(m, t);
  }

  // *e = *x; free(x)
  function Moved(t: Tree, a: nat): (r: Tree)
    ensures Meaning(r) == Meaning(t) && r.at == a && NodeOf(r) == NodeOf(t)
  {
    match t
    case TSym(_, s) => TSym(a, s)
    case TNot(_, x) => TNot(a, x)
    case TBin(_, op, l, r) => TBin(a, op, l, r)
    case TCmp(_, eq, x, y) => TCmp(a, eq, x, y)
  }

  lemma MovedHolds(m: Memory, m': Memory, t: Tree, a: nat)
    requires Holds(m, t) && a !in Addresses(t)
    requires a in m' && m'[a] == m[t.at]
    requires forall x :: x in Addresses(t) && x != t.at && x in m ==> x in m' && m'[x] == m[x]
    ensures Holds(m', Moved(t, a))
    ensures Addresses(Moved(t, a)) == Addresses(t) - {t.at} + {a}
  {
    match t
    case TNot(_, x) => Frame(m, m', x); Inside(m, x);
    case TBin(_, _, l, r) => Frame(m, m', l); Frame(m, m', r); Inside(m, l); Inside(m, r);
    case _ =>
  }

  // the cells that expr_free gives back: all but those of a !, which it passes over
  function Freed(t: Tree): (s: set<nat>)
    ensures s <= Addresses(t)
  {
    match t
    case TNot(_, x) => Freed(x)
    case TBin(a, _, l, r) => {a} + Freed(l) + Freed(r)
    case _ => {t.at}
  }

  // ---------- one tree becomes another ----------

  /** Memory `m`, with cells below `n` in use, has become `m'`, with cells below `n'`: there
      is now a tree `u` that means `e`, made of cells of `mine` and new ones, and no other
      cell was touched. */
  ghost predicate Turned(m: Memory, n: nat, mine: set<nat>, m': Memory, n': nat, u: Tree, e: Expr) {
    && n <= n' && Below(m'.Keys, n')
    && Holds(m', u) && Meaning(u) == e
    && Reuses(Addresses(u), mine, n) && Untouched(m, m', mine, n)
  }

  lemma TurnedNot(m: Memory, n: nat, mine: set<nat>, m': Memory, n': nat, t: Tree)
    requires Holds(m, t) && Below(m.Keys, n) && m' == m && n' == n && Addresses(t) <= mine
    ensures Turned(m, n, mine, m', n', t, Meaning(t))
  {
  }

  lemma TurnedThen(m: Memory, n: nat, mine: set<nat>, m1: Memory, n1: nat, u: Tree, e: Expr, m2: Memory, n2: nat,
      w: Tree, e2: Expr)
    requires Turned(m, n, mine, m1, n1, u, e) && Turned(m1, n1, Addresses(u), m2, n2, w, e2)
    ensures Turned(m, n, mine, m2, n2, w, e2)
  {
  }

  lemma FrameTurned(m: Memory, n: nat, mine: set<nat>, m': Memory, n': nat, u: Tree, e: Expr, t: Tree)
    requires Turned(m, n, mine, m', n', u, e) && Holds(m, t) && Below(m.Keys, n) && Addresses(t) !! mine
    ensures Holds(m', t) && Addresses(t) !! Addresses(u)
  {
    Inside(m, t);
    Frame(m, m', t);
  }

  // the operand of a ! has been rewritten, and is hooked up again
  lemma ArgTurned(m: Memory, n: nat, t: Tree, m1: Memory, n1: nat, v: Tree, e: Expr)
    requires Holds(m, t) && Below(m.Keys, n) && t.TNot?
    requires Turned(m, n, Addresses(t.arg), m1, n1, v, e)
    ensures t.at in m1 && m1[t.at] == m[t.at]
    ensures Turned(m, n, Addresses(t), m1[t.at := NNot(v.at)], n1, TNot(t.at, v), Not(e))
  {
    Inside(m, t.arg);
    Inside(m1, v);
    Frame(m1, m1[t.at := NNot(v.at)], v);
  }

  lemma LeftTurned(m: Memory, n: nat, t: Tree, m1: Memory, n1: nat, v: Tree, e: Expr)
    requires Holds(m, t) && Below(m.Keys, n) && t.TBin?
    requires Turned(m, n, Addresses(t.left), m1, n1, v, e)
    ensures t.at in m1 && m1[t.at] == m[t.at]
    ensures Turned(m, n, Addresses(t), m1[t.at := NBin(t.op, v.at, t.right.at)], n1, TBin(t.at, t.op, v, t.right),
        Bin(t.op, e, Meaning(t.right)))
  {
    var m2 := m1[t.at := NBin(t.op, v.at, t.right.at)];
    Inside(m, t);
    Inside(m, t.right);
    Inside(m1, v);
    FrameTurned(m, n, Addresses(t.left), m1, n1, v, e, t.right);
    Frame(m1, m2, v);
    Frame(m1, m2, t.right);
  }

  lemma RightTurned(m: Memory, n: nat, t: Tree, m1: Memory, n1: nat, v: Tree, e: Expr)
    requires Holds(m, t) && Below(m.Keys, n) && t.TBin?
    requires Turned(m, n, Addresses(t.right), m1, n1, v, e)
    ensures t.at in m1 && m1[t.at] == m[t.at]
    ensures Turned(m, n, Addresses(t), m1[t.at := NBin(t.op, t.left.at, v.at)], n1, TBin(t.at, t.op, t.left, v),
        Bin(t.op, Meaning(t.left), e))
  {
    var m2 := m1[t.at := NBin(t.op, t.left.at, v.at)];
    Inside(m, t);
    Inside(m, t.left);
    Inside(m1, v);
    FrameTurned(m, n, Addresses(t.right), m1, n1, v, e, t.left);
    Frame(m1, m2, v);
    Frame(m1, m2, t.left);
  }

  // one cell of the tree is overwritten, the others are given up
  lemma LeafTurned(m: Memory, n: nat, t: Tree, m': Memory, u: Tree)
    requires u.TSym? || u.TCmp?
    requires Below(m.Keys, n) && Holds(m, t) && u.at in Addresses(t) && u.at in m' && m'[u.at] == NodeOf(u)
    requires m'.Keys <= m.Keys && forall x :: x in m && x !in Addresses(t) ==> x in m' && m'[x] == m[x]
    ensures Turned(m, n, Addresses(t), m', n, u, Meaning(u))
  {
    Inside(m, t);
  }

  // a part of the tree stays, the rest is given up
  lemma PartTurned(m: Memory, n: nat, t: Tree, gone: set<nat>, u: Tree)
    requires Below(m.Keys, n) && Holds(m, t) && Holds(m, u)
    requires Addresses(u) <= Addresses(t) && gone <= Addresses(t) && gone !! Addresses(u)
    ensures Turned(m, n, Addresses(t), m - gone, n, u, Meaning(u))
  {
    Inside(m, t);
    Frame(m, m - gone, u);
  }

  // the cell becomes a symbol, the operands having been given up
  lemma GivenUp(m: Memory, n: nat, t: Tree, s: Sym)
    requires Below(m.Keys, n) && Holds(m, t) && t.TBin?
    ensures Turned(m, n, Addresses(t), (m - Freed(t.left) - Freed(t.right))[t.at := NSym(s)], n, TSym(t.at, s),
        Symbol(s))
  {
    LeafTurned(m, n, t, (m - Freed(t.left) - Freed(t.right))[t.at := NSym(s)], TSym(t.at, s));
  }

  // *e = *x; free(x); the other operand has been given up
  lemma MovedTurned(m: Memory, n: nat, t: Tree, keep: Tree, gone: nat)
    requires Below(m.Keys, n) && Holds(m, t) && t.TBin?
    requires (keep == t.left && gone == t.right.at) || (keep == t.right && gone == t.left.at)
    ensures keep.at in m
    ensures Turned(m, n, Addresses(t), (m - {gone})[t.at := m[keep.at]] - {keep.at}, n, Moved(keep, t.at),
        Meaning(keep))
  {
    hide Moved, Holds, Addresses;
    HoldsParts(m, t);
    Inside(m, keep);
    Inside(m, t);
    PartAddresses(t);
    var m' := (m - {gone})[t.at := m[keep.at]] - {keep.at};
    assert gone !in Addresses(keep);
    MovedHolds(m, m', keep, t.at);
    var mine, u := Addresses(t), Moved(keep, t.at);
    assert forall x :: x in m && x !in mine ==> x in m' && m'[x] == m[x];
    assert m'.Keys <= m.Keys;
    WithinTurned(m, n, mine, m', u);
  }

  lemma WithinTurned(m: Memory, n: nat, mine: set<nat>, m': Memory, u: Tree)
    requires Below(m.Keys, n) && Holds(m', u) && Addresses(u) <= mine && m'.Keys <= m.Keys
    requires forall x :: x in m && x !in mine ==> x in m' && m'[x] == m[x]
    ensures Turned(m, n, mine, m', n, u, Meaning(u))
  {
  }

  lemma PartAddresses(t: Tree)
    requires t.TBin?
    ensures Addresses(t) == {t.at} + Addresses(t.left) + Addresses(t.right)
    ensures t.left.at in Addresses(t) && t.right.at in Addresses(t)
  {
  }

  // a node takes the place of a !, over two new !
  lemma SplitTurned(m: Memory, n: nat, t: Tree, op: Op)
    requires Below(m.Keys, n) && Holds(m, t) && t.TNot? && t.arg.TBin?
    ensures var v := t.arg;
      var u := TBin(t.at, op, TNot(v.at, v.left), TNot(n, v.right));
      Turned(m, n, Addresses(t), m[n := NNot(v.right.at)][t.at := NBin(op, v.at, n)][v.at := NNot(v.left.at)], n + 1,
          u, Meaning(u))
  {
    var v := t.arg;
    var u := TBin(t.at, op, TNot(v.at, v.left), TNot(n, v.right));
    var m' := m[n := NNot(v.right.at)][t.at := NBin(op, v.at, n)][v.at := NNot(v.left.at)];
    Inside(m, t);
    Inside(m, v.left);
    Inside(m, v.right);
    Frame(m, m', v.left);
    Frame(m, m', v.right);
  }

  lemma NotOverNew(m: Memory, n: nat, t: Tree, s: Sym)
    requires Below(m.Keys, n) && Holds(m, t) && t.TCmp?
    ensures Turned(m, n, Addresses(t), m[n := NSym(s)][t.at := NNot(n)], n + 1, TNot(t.at, TSym(n, s)), Not(Symbol(s)))
  {
    Inside(m, t);
  }

  // a new cell
  lemma AllocTurned(m: Memory, n: nat, node: Node, u: Tree)
    requires Below(m.Keys, n) && u.at == n && node == NodeOf(u)
    requires u.TNot? ==> Holds(m, u.arg)
    requires u.TBin? ==> Holds(m, u.left) && Holds(m, u.right) && Addresses(u.left) !! Addresses(u.right)
    ensures var m' := m[n := node]; Holds(m', u) && Below(m'.Keys, n + 1) && Untouched(m, m', {}, n)
  {
    var m' := m[n := node];
    match u
    case TNot(_, x) => Inside(m, x); Frame(m, m', x);
    case TBin(_, _, l, r) => Inside(m, l); Inside(m, r); Frame(m, m', l); Frame(m, m', r);
    case _ =>
  }

  // ---------- what the methods need of a tree and of a step ----------

  lemma HoldsParts(m: Memory, t: Tree)
    requires Holds(m, t)
    ensures t.TNot? ==> Holds(m, t.arg) && t.at !in Addresses(t.arg) && t.arg.at in Addresses(t.arg)
    ensures t.TBin? ==> Holds(m, t.left) && Holds(m, t.right) && Addresses(t.left) !! Addresses(t.right)
    ensures t.TBin? ==> t.at !in Addresses(t.left) && t.at !in Addresses(t.right)
    ensures t.TBin? ==> t.left.at in Addresses(t.left) && t.right.at in Addresses(t.right)
    ensures t.at in Addresses(t)
  {
    Inside(m, t);
    if t.TNot? {
      Inside(m, t.arg);
    } else if t.TBin? {
      Inside(m, t.left);
      Inside(m, t.right);
    }
  }

  lemma TurnedHolds(m: Memory, n: nat, mine: set<nat>, m': Memory, n': nat, u: Tree, e: Expr)
    requires Turned(m, n, mine, m', n', u, e)
    ensures Holds(m', u) && Below(m'.Keys, n') && n <= n' && Meaning(u) == e
    ensures u.TNot? ==> Holds(m', u.arg)
    ensures u.TBin? ==> Holds(m', u.left) && Holds(m', u.right)
  {
  }

  lemma SameMap(m: Memory, a: nat, node: Node)
    requires a in m && m[a] == node
    ensures m[a := node] == m
  {
  }

  lemma NewLeaf(m: Memory, n: nat, node: Node, u: Tree)
    requires Below(m.Keys, n) && u.at == n && node == NodeOf(u) && (u.TSym? || u.TCmp?)
    ensures Turned(m, n, {}, m[n := node], n + 1, u, Meaning(u))
  {
  }

  lemma NewTurned(m: Memory, n: nat, mine: set<nat>, m1: Memory, n1: nat, node: Node, u: Tree)
    requires u.TNot? && Turned(m, n, mine, m1, n1, u.arg, Meaning(u.arg)) && u.at == n1 && node == NodeOf(u)
    ensures Turned(m, n, mine, m1[n1 := node], n1 + 1, u, Meaning(u))
  {
    AllocTurned(m1, n1, node, u);
  }

  lemma NewBoth(m: Memory, n: nat, m1: Memory, n1: nat, v: Tree, m2: Memory, n2: nat, w: Tree, node: Node, u: Tree)
    requires Turned(m, n, {}, m1, n1, v, Meaning(v)) && Turned(m1, n1, {}, m2, n2, w, Meaning(w))
    requires Holds(m2, v) && Addresses(v) !! Addresses(w)
    requires u.TBin? && u.left == v && u.right == w && u.at == n2 && node == NodeOf(u)
    ensures Turned(m, n, {}, m2[n2 := node], n2 + 1, u, Meaning(u))
  {
    AllocTurned(m2, n2, node, u);
  }

  // ---------- two trees at once, and what has been collected from them ----------

  datatype Trio = Trio(s: Option<Tree>, u: Tree, w: Tree)

  function Collected(x: Trio): set<nat> {
    if x.s.Some? then Addresses(x.s.value) else {}
  }

  function AllAddresses(x: Trio): set<nat> {
    Collected(x) + Addresses(x.u) + Addresses(x.w)
  }

  /** The trees share no cell. */
  ghost predicate HoldsAll(m: Memory, x: Trio) {
    && Holds(m, x.u) && Holds(m, x.w) && Addresses(x.u) !! Addresses(x.w)
    && (x.s.Some? ==> Holds(m, x.s.value))
    && Collected(x) !! Addresses(x.u) && Collected(x) !! Addresses(x.w)
  }

  ghost predicate AllTurned(m: Memory, n: nat, mine: set<nat>, m': Memory, n': nat, y: Trio) {
    && n <= n' && Below(m'.Keys, n')
    && HoldsAll(m', y)
    && Reuses(AllAddresses(y), mine, n) && Untouched(m, m', mine, n)
  }

  lemma AllTurnedNot(m: Memory, n: nat, mine: set<nat>, x: Trio)
    requires HoldsAll(m, x) && Below(m.Keys, n) && AllAddresses(x) <= mine
    ensures AllTurned(m, n, mine, m, n, x)
  {
  }

  lemma AllHolds(m: Memory, n: nat, mine: set<nat>, m': Memory, n': nat, y: Trio)
    requires AllTurned(m, n, mine, m', n', y)
    ensures HoldsAll(m', y) && Below(m'.Keys, n') && n <= n'
  {
  }

  lemma AllTurnedThen(m: Memory, n: nat, mine: set<nat>, m1: Memory, n1: nat, x: Trio, m2: Memory, n2: nat, y: Trio)
    requires AllTurned(m, n, mine, m1, n1, x) && AllTurned(m1, n1, AllAddresses(x), m2, n2, y)
    ensures AllTurned(m, n, mine, m2, n2, y)
  {
  }

  lemma AllParts(m: Memory, x: Trio)
    requires HoldsAll(m, x)
    ensures x.u.TBin? ==> HoldsAll(m, x.(u := x.u.left)) && HoldsAll(m, x.(u := x.u.right))
    ensures x.w.TBin? ==> HoldsAll(m, x.(w := x.w.left)) && HoldsAll(m, x.(w := x.w.right))
    ensures x.u.at in m && m[x.u.at] == NodeOf(x.u) && x.w.at in m && m[x.w.at] == NodeOf(x.w)
  {
  }

  function Swapped(x: Trio): Trio {
    Trio(x.s, x.w, x.u)
  }

  lemma AllSwapped(m: Memory, x: Trio)
    requires HoldsAll(m, x)
    ensures HoldsAll(m, Swapped(x)) && AllAddresses(Swapped(x)) == AllAddresses(x)
  {
  }

  lemma TurnedSwapped(m: Memory, n: nat, mine: set<nat>, m': Memory, n': nat, y: Trio)
    requires AllTurned(m, n, mine, m', n', y)
    ensures AllTurned(m, n, mine, m', n', Swapped(y))
  {
    AllSwapped(m', y);
  }

  // one operand of the first tree has been rewritten along with the rest, and is hooked up again
  lemma LeftOfFirst(m: Memory, n: nat, x: Trio, m1: Memory, n1: nat, y: Trio)
    requires HoldsAll(m, x) && Below(m.Keys, n) && x.u.TBin?
    requires AllTurned(m, n, AllAddresses(x.(u := x.u.left)), m1, n1, y)
    ensures var t := x.u;
      && t.at in m1 && m1[t.at] == m[t.at]
      && AllTurned(m, n, AllAddresses(x), m1[t.at := NBin(t.op, y.u.at, t.right.at)], n1,
          y.(u := TBin(t.at, t.op, y.u, t.right)))
  {
    var t := x.u;
    var mine := AllAddresses(x.(u := t.left));
    assert AllAddresses(x) == mine + {t.at} + Addresses(t.right);
    RootApart(m, x);
    hide AllTurned, HoldsAll, Holds, AllAddresses;
    AllUntouched(m, n, mine, m1, n1, y, t.right, t.at);
    Rehook(m, n, mine, m1, n1, y, t.right, TBin(t.at, t.op, y.u, t.right));
  }

  lemma RightOfFirst(m: Memory, n: nat, x: Trio, m1: Memory, n1: nat, y: Trio)
    requires HoldsAll(m, x) && Below(m.Keys, n) && x.u.TBin?
    requires AllTurned(m, n, AllAddresses(x.(u := x.u.right)), m1, n1, y)
    ensures var t := x.u;
      && t.at in m1 && m1[t.at] == m[t.at]
      && AllTurned(m, n, AllAddresses(x), m1[t.at := NBin(t.op, t.left.at, y.u.at)], n1,
          y.(u := TBin(t.at, t.op, t.left, y.u)))
  {
    var t := x.u;
    var mine := AllAddresses(x.(u := t.right));
    assert AllAddresses(x) == mine + {t.at} + Addresses(t.left);
    RootApart(m, x);
    hide AllTurned, HoldsAll, Holds, AllAddresses;
    AllUntouched(m, n, mine, m1, n1, y, t.left, t.at);
    Rehook(m, n, mine, m1, n1, y, t.left, TBin(t.at, t.op, t.left, y.u));
  }

  lemma RootApart(m: Memory, x: Trio)
    requires HoldsAll(m, x) && x.u.TBin?
    ensures Holds(m, x.u.left) && Holds(m, x.u.right) && x.u.at in m
    ensures x.u.at !in AllAddresses(x.(u := x.u.left)) && Addresses(x.u.right) !! AllAddresses(x.(u := x.u.left))
    ensures x.u.at !in AllAddresses(x.(u := x.u.right)) && Addresses(x.u.left) !! AllAddresses(x.(u := x.u.right))
    ensures x.u.at !in Addresses(x.u.left) && x.u.at !in Addresses(x.u.right)
  {
    HoldsParts(m, x.u);
  }

  // a tree and a cell that the rewriting did not concern
  lemma AllUntouched(m: Memory, n: nat, mine: set<nat>, m1: Memory, n1: nat, y: Trio, other: Tree, a: nat)
    requires AllTurned(m, n, mine, m1, n1, y) && Below(m.Keys, n)
    requires Holds(m, other) && Addresses(other) !! mine && a in m && a !in mine
    ensures Holds(m1, other) && Addresses(other) !! AllAddresses(y)
    ensures a in m1 && m1[a] == m[a] && a !in AllAddresses(y)
  {
    Inside(m, other);
    Frame(m, m1, other);
  }

  lemma Rehook(m: Memory, n: nat, mine: set<nat>, m1: Memory, n1: nat, y: Trio, other: Tree, t: Tree)
    requires AllTurned(m, n, mine, m1, n1, y)
    requires Holds(m1, other) && Addresses(other) !! AllAddresses(y) && t.at !in Addresses(other)
    requires t.at in m1 && t.at !in AllAddresses(y)
    requires t.TBin? && ((t.left == y.u && t.right == other) || (t.left == other && t.right == y.u))
    ensures AllTurned(m, n, mine + {t.at} + Addresses(other), m1[t.at := NodeOf(t)], n1, y.(u := t))
  {
    RehookHolds(m1, y, other, t);
    hide HoldsAll;
    assert AllAddresses(y.(u := t)) == AllAddresses(y) + {t.at} + Addresses(other);
  }

  lemma RehookHolds(m: Memory, y: Trio, other: Tree, t: Tree)
    requires HoldsAll(m, y)
    requires Holds(m, other) && Addresses(other) !! AllAddresses(y) && t.at !in Addresses(other)
    requires t.at in m && t.at !in AllAddresses(y)
    requires t.TBin? && ((t.left == y.u && t.right == other) || (t.left == other && t.right == y.u))
    ensures HoldsAll(m[t.at := NodeOf(t)], y.(u := t))
  {
    hide Holds;
    FrameOne(m, t.at, NodeOf(t), other);
    FrameOne(m, t.at, NodeOf(t), y.u);
    FrameOne(m, t.at, NodeOf(t), y.w);
    if y.s.Some? {
      FrameOne(m, t.at, NodeOf(t), y.s.value);
    }
    BinHolds(m[t.at := NodeOf(t)], t);
  }

  lemma FrameOne(m: Memory, a: nat, node: Node, t: Tree)
    requires Holds(m, t) && a !in Addresses(t)
    ensures Holds(m[a := node], t)
  {
    Frame(m, m[a := node], t);
  }

  lemma BinHolds(m: Memory, t: Tree)
    requires t.TBin? && t.at in m && m[t.at] == NodeOf(t) && Holds(m, t.left) && Holds(m, t.right)
    requires t.at !in Addresses(t.left) && t.at !in Addresses(t.right) && Addresses(t.left) !! Addresses(t.right)
    ensures Holds(m, t)
  {
  }

  lemma LeftOfSecond(m: Memory, n: nat, x: Trio, m1: Memory, n1: nat, y: Trio)
    requires HoldsAll(m, x) && Below(m.Keys, n) && x.w.TBin?
    requires AllTurned(m, n, AllAddresses(x.(w := x.w.left)), m1, n1, y)
    ensures var t := x.w;
      && t.at in m1 && m1[t.at] == m[t.at]
      && AllTurned(m, n, AllAddresses(x), m1[t.at := NBin(t.op, y.w.at, t.right.at)], n1,
          y.(w := TBin(t.at, t.op, y.w, t.right)))
  {
    hide HoldsAll, AllTurned, AllAddresses;
    var t := x.w;
    AllSwapped(m, x);
    AllParts(m, x);
    AllSwapped(m, x.(w := t.left));
    TurnedSwapped(m, n, AllAddresses(x.(w := t.left)), m1, n1, y);
    LeftOfFirst(m, n, Swapped(x), m1, n1, Swapped(y));
    TurnedSwapped(m, n, AllAddresses(x), m1[t.at := NBin(t.op, y.w.at, t.right.at)], n1,
        Swapped(y).(u := TBin(t.at, t.op, y.w, t.right)));
  }

  lemma RightOfSecond(m: Memory, n: nat, x: Trio, m1: Memory, n1: nat, y: Trio)
    requires HoldsAll(m, x) && Below(m.Keys, n) && x.w.TBin?
    requires AllTurned(m, n, AllAddresses(x.(w := x.w.right)), m1, n1, y)
    ensures var t := x.w;
      && t.at in m1 && m1[t.at] == m[t.at]
      && AllTurned(m, n, AllAddresses(x), m1[t.at := NBin(t.op, t.left.at, y.w.at)], n1,
          y.(w := TBin(t.at, t.op, t.left, y.w)))
  {
    hide HoldsAll, AllTurned, AllAddresses;
    var t := x.w;
    AllSwapped(m, x);
    AllParts(m, x);
    AllSwapped(m, x.(w := t.right));
    TurnedSwapped(m, n, AllAddresses(x.(w := t.right)), m1, n1, y);
    RightOfFirst(m, n, Swapped(x), m1, n1, Swapped(y));
    TurnedSwapped(m, n, AllAddresses(x), m1[t.at := NBin(t.op, t.left.at, y.w.at)], n1,
        Swapped(y).(u := TBin(t.at, t.op, t.left, y.w)));
  }

  /** Nothing in use was touched; there may be new cells. */
  ghost predicate OnlyNew(m: Memory, n: nat, m': Memory, n': nat) {
    n <= n' && Below(m'.Keys, n') && Untouched(m, m', {}, n)
  }

  lemma AllKept(m: Memory, n: nat, m': Memory, n': nat, x: Trio)
    requires OnlyNew(m, n, m', n') && HoldsAll(m, x) && Below(m.Keys, n)
    ensures AllTurned(m, n, AllAddresses(x), m', n', x)
  {
    Inside(m, x.u);
    Inside(m, x.w);
    Frame(m, m', x.u);
    Frame(m, m', x.w);
    if x.s.Some? {
      Inside(m, x.s.value);
      Frame(m, m', x.s.value);
    }
  }

  // one of the two trees has been rewritten
  lemma FirstTurned(m: Memory, n: nat, x: Trio, m': Memory, n': nat, v: Tree, e: Expr)
    requires HoldsAll(m, x) && Below(m.Keys, n) && Turned(m, n, Addresses(x.u), m', n', v, e)
    ensures AllTurned(m, n, AllAddresses(x), m', n', x.(u := v))
  {
    hide Holds;
    FrameTurned(m, n, Addresses(x.u), m', n', v, e, x.w);
    if x.s.Some? {
      FrameTurned(m, n, Addresses(x.u), m', n', v, e, x.s.value);
    }
  }

  lemma SecondTurned(m: Memory, n: nat, x: Trio, m': Memory, n': nat, v: Tree, e: Expr)
    requires HoldsAll(m, x) && Below(m.Keys, n) && Turned(m, n, Addresses(x.w), m', n', v, e)
    ensures AllTurned(m, n, AllAddresses(x), m', n', x.(w := v))
  {
    AllSwapped(m, x);
    FirstTurned(m, n, Swapped(x), m', n', v, e);
    TurnedSwapped(m, n, AllAddresses(x), m', n', Swapped(x).(u := v));
  }

  // both trees are given up for two new symbols
  lemma BothReplaced(m: Memory, n: nat, x: Trio, s: Sym)
    requires HoldsAll(m, x) && Below(m.Keys, n)
    ensures AllTurned(m, n, AllAddresses(x), (m - Freed(x.u) - Freed(x.w))[n := NSym(s)][n + 1 := NSym(s)], n + 2,
        x.(u := TSym(n, s), w := TSym(n + 1, s)))
  {
    var gone := Freed(x.u) + Freed(x.w);
    var m' := (m - Freed(x.u) - Freed(x.w))[n := NSym(s)][n + 1 := NSym(s)];
    var y := x.(u := TSym(n, s), w := TSym(n + 1, s));
    if x.s.Some? {
      Inside(m, x.s.value);
      Frame(m, m', x.s.value);
    }
    assert gone <= AllAddresses(x);
    assert HoldsAll(m', y);
    assert AllAddresses(y) == Collected(x) + {n, n + 1};
    hide Freed, Holds, HoldsAll, AllAddresses;
  }

  lemma NotParts(m: Memory, x: Trio)
    requires HoldsAll(m, x) && x.u.TNot? && x.w.TNot?
    ensures HoldsAll(m, x.(u := x.u.arg, w := x.w.arg))
  {
  }

  // two copies
  lemma TwoNew(m: Memory, n: nat, m1: Memory, n1: nat, v: Tree, m2: Memory, n2: nat, w: Tree)
    requires Below(m.Keys, n) && Turned(m, n, {}, m1, n1, v, Meaning(v)) && Turned(m1, n1, {}, m2, n2, w, Meaning(w))
    ensures AllTurned(m, n, {}, m2, n2, Trio(None, v, w))
  {
    FrameTurned(m1, n1, {}, m2, n2, w, Meaning(w), v);
  }

  lemma NewGone(m: Memory, n: nat, m1: Memory, n1: nat, x: Trio, gone: set<nat>)
    requires Below(m.Keys, n) && AllTurned(m, n, {}, m1, n1, x) && gone <= AllAddresses(x)
    ensures OnlyNew(m, n, m1 - gone, n1)
  {
  }

  lemma FreedWithin(x: Trio)
    ensures Freed(x.u) + Freed(x.w) <= AllAddresses(x)
  {
  }

  /** The expression collected so far, with the first tree added to it. */
  function Gathered(op: Op, x: Trio, n: nat): Tree {
    if x.s.None? then x.u else TBin(n, op, x.s.value, x.u)
  }

  // the first tree is moved to the collected ones
  lemma GatheredHolds(m: Memory, n: nat, op: Op, x: Trio)
    requires HoldsAll(m, x) && Below(m.Keys, n) && x.s.Some?
    ensures var g := Gathered(op, x, n);
      Holds(m[n := NodeOf(g)], g) && Holds(m[n := NodeOf(g)], x.w) && Addresses(g) !! Addresses(x.w)
  {
    Inside(m, x.s.value);
    Inside(m, x.u);
    Inside(m, x.w);
    var g := Gathered(op, x, n);
    FrameOne(m, n, NodeOf(g), x.s.value);
    FrameOne(m, n, NodeOf(g), x.u);
    FrameOne(m, n, NodeOf(g), x.w);
    BinHolds(m[n := NodeOf(g)], g);
  }

  // the second tree is given up, and two new symbols take the places of both
  lemma MovedOut(m: Memory, n: nat, g: Tree, w: Tree, s: Sym)
    requires Holds(m, g) && Holds(m, w) && Addresses(g) !! Addresses(w) && Below(m.Keys, n)
    ensures AllTurned(m, n, Addresses(g) + Addresses(w), (m - Freed(w))[n := NSym(s)][n + 1 := NSym(s)], n + 2,
      Trio(Some(g), TSym(n, s), TSym(n + 1, s)))
  {
    Inside(m, g);
    Inside(m, w);
    var gone := Freed(w);
    hide Freed;
    var m1 := m - gone;
    var m2 := m1[n := NSym(s)];
    var m' := m2[n + 1 := NSym(s)];
    Frame(m, m1, g);
    FrameOne(m1, n, NSym(s), g);
    FrameOne(m2, n + 1, NSym(s), g);
    MovedOutHolds(m', n, g, s);
    hide Holds, HoldsAll, AllAddresses;
    assert m'.Keys <= m.Keys + {n, n + 1};
    assert forall x :: x in m && x !in gone ==> x in m' && m'[x] == m[x];
    OutTurned(m, n, Addresses(g) + Addresses(w), m', Trio(Some(g), TSym(n, s), TSym(n + 1, s)));
  }

  lemma OutTurned(m: Memory, n: nat, mine: set<nat>, m': Memory, y: Trio)
    requires Below(m.Keys, n) && HoldsAll(m', y) && AllAddresses(y) <= mine + {n, n + 1} &&
        m'.Keys <= m.Keys + {n, n + 1}
    requires forall x :: x in m && x !in mine ==> x in m' && m'[x] == m[x]
    ensures AllTurned(m, n, mine, m', n + 2, y)
  {
    hide HoldsAll;
  }

  lemma MovedOutHolds(m: Memory, n: nat, g: Tree, s: Sym)
    requires Holds(m, g) && n !in Addresses(g) && n + 1 !in Addresses(g)
    requires n in m && m[n] == NSym(s) && n + 1 in m && m[n + 1] == NSym(s)
    ensures HoldsAll(m, Trio(Some(g), TSym(n, s), TSym(n + 1, s)))
    ensures AllAddresses(Trio(Some(g), TSym(n, s), TSym(n + 1, s))) == Addresses(g) + {n, n + 1}
  {
  }

  lemma MovedOutAll(m: Memory, n: nat, op: Op, x: Trio, m1: Memory, n1: nat, m2: Memory, n2: nat, y: Trio)
    requires HoldsAll(m, x) && Below(m.Keys, n)
    requires m1 == (if x.s.Some? then m[n := NodeOf(Gathered(op, x, n))] else m) &&
        n1 == (if x.s.Some? then n + 1 else n)
    requires AllTurned(m1, n1, Addresses(Gathered(op, x, n)) + Addresses(x.w), m2, n2, y)
    ensures AllTurned(m, n, AllAddresses(x), m2, n2, y)
  {
    hide Holds;
    AllAddressesInside(m, x);
  }

  lemma AllAddressesInside(m: Memory, x: Trio)
    requires HoldsAll(m, x)
    ensures AllAddresses(x) <= m.Keys
  {
    Inside(m, x.u);
    Inside(m, x.w);
    if x.s.Some? {
      Inside(m, x.s.value);
    }
  }
}
