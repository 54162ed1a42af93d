/** The rewrites of expr.c as the program runs them, overwriting the cells of an expression
    in place. Every method is proved to turn the tree its operand points to into the tree
    that the function of the same name describes, to touch no other cell, and to use no
    cell after it has been freed. */
module InPlace {
  import opened Exprs
  import opened Factor
  import opened Negation
  import opened Cells
  import opened Dependence

  class ExprMemory {
    var nodes: Memory
    var next: nat
    var transCount: nat

    // cells are handed out in order
    ghost predicate Valid()
      reads this
    {
      Below(nodes.Keys, next)
    }

    constructor ()
      ensures Valid() && nodes == map[] && transCount == 0
    {
      nodes, next, transCount := map[], 0, 0;
    }

    method Alloc(node: Node) returns (a: nat)
      requires Valid()
      modifies this`nodes, this`next
      ensures Valid() && a == old(next) && next == a + 1 && nodes == old(nodes)[a := node]
    {
      a := next;
      nodes := nodes[a := node];
      next := next + 1;
    }

    /** expr_free. */
    method Free(a: nat, ghost t: Tree)
      requires Valid() && Holds(nodes, t) && a == t.at
      modifies this`nodes
      ensures Valid() && nodes == old(nodes) - Freed(t)
      decreases t
    {
      AtRoot(nodes, t);
      match nodes[a] {
        case NNot(x) => Free(x, t.arg);
        case NBin(_, x, y) =>
          Inside(nodes, t.left);
          Inside(nodes, t.right);
          ghost var was := nodes;
          Free(x, t.left);
          Frame(was, nodes, t.right);
          Free(y, t.right);
          nodes := nodes - {a};
        case _ => nodes := nodes - {a};
      }
    }

    /** expr_copy. */
    method Copy(a: nat, ghost t: Tree) returns (b: nat, ghost u: Tree)
      requires Valid() && Holds(nodes, t) && a == t.at
      modifies this`nodes, this`next
      ensures b == u.at && Turned(old(nodes), old(next), {}, nodes, next, u, Meaning(t))
      decreases t
    {
      hide Holds, Reuses, Untouched;
      ghost var m0, n0 := nodes, next;
      AtRoot(nodes, t);
      match nodes[a] {
        case NNot(x) =>
          ghost var v;
          HoldsParts(nodes, t);
          b, v := Copy(x, t.arg);
          u := TNot(next, v);
          NewTurned(m0, n0, {}, nodes, next, NNot(b), u);
          b := Alloc(NNot(b));
        case NBin(op, x, y) =>
          ghost var v, w;
          var c, d;
          HoldsParts(nodes, t);
          c, v := Copy(x, t.left);
          FrameTurned(m0, n0, {}, nodes, next, v, Meaning(t.left), t.right);
          ghost var m1, n1 := nodes, next;
          d, w := Copy(y, t.right);
          FrameTurned(m1, n1, {}, nodes, next, w, Meaning(t.right), v);
          u := TBin(next, op, v, w);
          NewBoth(m0, n0, m1, n1, v, nodes, next, w, NBin(op, c, d), u);
          b := Alloc(NBin(op, c, d));
        case NSym(s) =>
          u := TSym(next, s);
          NewLeaf(m0, n0, NSym(s), u);
          b := Alloc(NSym(s));
        case NCmp(eq, s1, s2) =>
          u := TCmp(next, eq, s1, s2);
          NewLeaf(m0, n0, NCmp(eq, s1, s2), u);
          b := Alloc(NCmp(eq, s1, s2));
      }
    }

    /** expr_trans_bool. */
    method TransBool(a: nat, ghost t: Tree) returns (ghost u: Tree)
      requires Valid() && Holds(nodes, t) && a == t.at
      modifies this`nodes
      ensures u.at == a
      ensures Turned(old(nodes), next, Addresses(t), nodes, next, u, Dependence.TransBool(Meaning(t)))
      decreases t
    {
      hide Holds, Reuses, Untouched, Turned;
      ghost var m0, n0 := nodes, next;
      AtRoot(m0, t);
      HoldsParts(m0, t);
      u := t;
      match nodes[a] {
        case NNot(x) =>
          ghost var v := TransBool(x, t.arg);
          ArgTurned(m0, n0, t, nodes, n0, v, Dependence.TransBool(Meaning(t.arg)));
          u := TNot(a, v);
          SameMap(nodes, a, NNot(x));
        case NBin(op, x, y) =>
          var e1, e2 := Dependence.TransBool(Meaning(t.left)), Dependence.TransBool(Meaning(t.right));
          ghost var v := TransBool(x, t.left);
          LeftTurned(m0, n0, t, nodes, n0, v, e1);
          SameMap(nodes, a, NBin(op, x, y));
          ghost var t1, m1 := TBin(a, op, v, t.right), nodes;
          TurnedHolds(m0, n0, Addresses(t), m1, n0, t1, Bin(op, e1, Meaning(t.right)));
          ghost var w := TransBool(y, t.right);
          RightTurned(m1, n0, t1, nodes, n0, w, e2);
          SameMap(nodes, a, NBin(op, x, y));
          u := TBin(a, op, v, w);
          TurnedThen(m0, n0, Addresses(t), m1, n0, t1, Bin(op, e1, Meaning(t.right)), nodes, n0, u, Bin(op, e1, e2));
        case NCmp(false, s1, s2) =>
          if TypeOf(s1) == Tristate && s2 == SymNo {
            nodes := nodes[a := NSym(s1)];
            u := TSym(a, s1);
            LeafTurned(m0, n0, t, nodes, u);
          } else {
            TurnedNot(m0, n0, Addresses(t), nodes, n0, t);
          }
        case _ =>
          TurnedNot(m0, n0, Addresses(t), nodes, n0, t);
      }
    }

    // both operands of a && or || are rewritten and hooked up again, one after the other
    lemma BothRewritten(m0: Memory, n0: nat, t: Tree, m1: Memory, n1: nat, v: Tree, e1: Expr, m2: Memory, n2: nat,
        w: Tree, e2: Expr)
      requires Holds(m0, t) && Below(m0.Keys, n0) && t.TBin? && t.left.at == v.at && t.right.at == w.at
      requires Turned(m0, n0, Addresses(t.left), m1, n1, v, e1)
      requires Turned(m1, n1, Addresses(t.right), m2, n2, w, e2)
      ensures t.at in m2 && m2[t.at] == m0[t.at]
      ensures Turned(m0, n0, Addresses(t), m2, n2, TBin(t.at, t.op, v, w), Bin(t.op, e1, e2))
    {
      hide Holds, Reuses, Untouched, Turned;
      var t1, e := TBin(t.at, t.op, v, t.right), Bin(t.op, e1, Meaning(t.right));
      AtRoot(m0, t);
      LeftTurned(m0, n0, t, m1, n1, v, e1);
      SameMap(m1, t.at, NodeOf(t));
      TurnedHolds(m0, n0, Addresses(t), m1, n1, t1, e);
      RightTurned(m1, n1, t1, m2, n2, w, e2);
      SameMap(m2, t.at, NodeOf(t));
      TurnedHolds(m0, n0, Addresses(t.left), m1, n1, v, e1);
      TurnedThen(m0, n0, Addresses(t), m1, n1, t1, e, m2, n2, TBin(t.at, t.op, v, w), Bin(t.op, e1, e2));
    }

    /** expr_eliminate_yn. */
    method EliminateYN(a: nat, ghost t: Tree) returns (ghost u: Tree)
      requires Valid() && Holds(nodes, t) && a == t.at
      modifies this`nodes
      ensures u.at == a
      ensures Turned(old(nodes), next, Addresses(t), nodes, next, u, Factor.EliminateYN(Meaning(t)))
      decreases t
    {
      hide Holds, Reuses, Untouched, Turned, LiteralRule;
      ghost var m0, n0 := nodes, next;
      AtRoot(m0, t);
      HoldsParts(m0, t);
      TurnedNot(m0, n0, Addresses(t), m0, n0, t);
      u := t;
      match nodes[a] {
        case NBin(op, x, y) =>
          hide Factor.EliminateYN;
          ghost var e1, e2 := Factor.EliminateYN(Meaning(t.left)), Factor.EliminateYN(Meaning(t.right));
          ghost var v := EliminateYN(x, t.left);
          ghost var m1 := nodes;
          LeftTurned(m0, n0, t, m1, n0, v, e1);
          SameMap(m1, a, NBin(op, x, y));
          TurnedHolds(m0, n0, Addresses(t), m1, n0, TBin(a, op, v, t.right), Bin(op, e1, Meaning(t.right)));
          ghost var w := EliminateYN(y, t.right);
          BothRewritten(m0, n0, t, m1, n0, v, e1, nodes, n0, w, e2);
          ghost var t1, m2 := TBin(a, op, v, w), nodes;
          TurnedHolds(m0, n0, Addresses(t), m2, n0, t1, Bin(op, e1, e2));
          u := LiteralOperand(a, t1);
          LiteralCase(op, Meaning(t.left), Meaning(t.right));
          TurnedThen(m0, n0, Addresses(t), m2, n0, t1, Bin(op, e1, e2), nodes, n0, u, LiteralRule(op, e1, e2));
        case _ =>
      }
    }

    // the operands are simplified; what if one of them is y or n?
    method LiteralOperand(a: nat, ghost t: Tree) returns (ghost u: Tree)
      requires Valid() && Holds(nodes, t) && a == t.at && t.TBin?
      modifies this`nodes
      ensures u.at == a
      ensures var l, r := Meaning(t.left), Meaning(t.right);
        Turned(old(nodes), next, Addresses(t), nodes, next, u, LiteralRule(t.op, l, r))
    {
      hide Holds, Reuses, Untouched, Turned, Freed;
      ghost var m := nodes;
      AtRoot(m, t);
      HoldsParts(m, t);
      AtRoot(m, t.left);
      AtRoot(m, t.right);
      var op, x, y := nodes[a].op, nodes[a].left, nodes[a].right;
      if nodes[x] == NSym(Absorbing(op)) || (nodes[x] != NSym(Neutral(op)) && nodes[y] == NSym(Absorbing(op))) {
        GivenUp(m, next, t, Absorbing(op));
        FreeBoth(x, y, t);
        nodes := nodes[a := NSym(Absorbing(op))];
        u := TSym(a, Absorbing(op));
      } else if nodes[x] == NSym(Neutral(op)) {
        MovedTurned(m, next, t, t.right, x);
        nodes := nodes - {x};
        nodes := nodes[a := nodes[y]];
        nodes := nodes - {y};
        u := Moved(t.right, a);
      } else if nodes[y] == NSym(Neutral(op)) {
        MovedTurned(m, next, t, t.left, y);
        nodes := nodes - {y};
        nodes := nodes[a := nodes[x]];
        nodes := nodes - {x};
        u := Moved(t.left, a);
      } else {
        TurnedNot(m, next, Addresses(t), m, next, t);
        u := t;
      }
    }

    method FreeBoth(x: nat, y: nat, ghost u: Tree)
      requires Valid() && Holds(nodes, u) && u.TBin? && x == u.left.at && y == u.right.at
      modifies this`nodes
      ensures Valid() && nodes == old(nodes) - Freed(u.left) - Freed(u.right)
    {
      ghost var was := nodes;
      Free(x, u.left);
      Frame(was, nodes, u.right);
      Free(y, u.right);
    }

    /** expr_transform. */
    method Transform(a: nat, ghost t: Tree) returns (b: nat, ghost u: Tree)
      requires Valid() && Holds(nodes, t) && a == t.at
      modifies this`nodes, this`next
      ensures b == u.at
      ensures Turned(old(nodes), old(next), Addresses(t), nodes, next, u, Negation.Transform(Meaning(t)))
      decreases Weight(Meaning(t)), 1
    {
      hide Holds, Reuses, Untouched, Turned, Negation.Transform;
      ghost var m0, n0 := nodes, next;
      AtRoot(m0, t);
      HoldsParts(m0, t);
      TurnedNot(m0, n0, Addresses(t), m0, n0, t);
      TransformLeaf(Meaning(t));
      b, u := a, t;
      match nodes[a] {
        case NSym(_) =>
        case NCmp(eq, s1, s2) =>
          if TypeOf(s1) == Boolean && IsYMN(s2) {
            if s2 == SymMod {
              nodes := nodes[a := NSym(if eq then SymNo else SymYes)];
              u := TSym(a, if eq then SymNo else SymYes);
              LeafTurned(m0, n0, t, nodes, u);
            } else if eq == (s2 == SymYes) {
              nodes := nodes[a := NSym(s1)];
              u := TSym(a, s1);
              LeafTurned(m0, n0, t, nodes, u);
            } else {
              NotOverNew(m0, n0, t, s1);
              var c := Alloc(NSym(s1));
              nodes := nodes[a := NNot(c)];
              u := TNot(a, TSym(c, s1));
            }
          }
        case NBin(op, x, y) =>
          u := TransformBoth(a, t);
        case NNot(x) =>
          b, u := TransformNot(a, t);
      }
    }

    // the operands of a && or ||
    method TransformBoth(a: nat, ghost t: Tree) returns (ghost u: Tree)
      requires Valid() && Holds(nodes, t) && a == t.at && t.TBin?
      modifies this`nodes, this`next
      ensures a == u.at
      ensures Turned(old(nodes), old(next), Addresses(t), nodes, next, u, Negation.Transform(Meaning(t)))
      decreases Weight(Meaning(t)), 0
    {
      hide Holds, Reuses, Untouched, Turned, Negation.Transform;
      ghost var m0, n0 := nodes, next;
      AtRoot(m0, t);
      HoldsParts(m0, t);
      TransformOp(t.op, Meaning(t.left), Meaning(t.right));
      var node := nodes[a];
      ghost var e1, e2 := Negation.Transform(Meaning(t.left)), Negation.Transform(Meaning(t.right));
      ghost var v, w;
      var x, y;
      x, v := Transform(node.left, t.left);
      ghost var t1, e := TBin(a, t.op, v, t.right), Bin(t.op, e1, Meaning(t.right));
      LeftTurned(m0, n0, t, nodes, next, v, e1);
      nodes := nodes[a := NBin(node.op, x, node.right)];
      ghost var m1, n1 := nodes, next;
      TurnedHolds(m0, n0, Addresses(t), m1, n1, t1, e);
      y, w := Transform(node.right, t.right);
      RightTurned(m1, n1, t1, nodes, next, w, e2);
      nodes := nodes[a := NBin(node.op, x, y)];
      u := TBin(a, t.op, v, w);
      TurnedHolds(m0, n0, Addresses(t), m1, n1, t1, e);
      TurnedHolds(m1, n1, Addresses(t1), nodes, next, u, Bin(t.op, Meaning(v), e2));
      TurnedThen(m0, n0, Addresses(t), m1, n1, t1, e, nodes, next, u, Bin(t.op, e1, e2));
    }

    // ! over an operand
    method TransformNot(a: nat, ghost t: Tree) returns (b: nat, ghost u: Tree)
      requires Valid() && Holds(nodes, t) && a == t.at && t.TNot?
      modifies this`nodes, this`next
      ensures b == u.at
      ensures Turned(old(nodes), old(next), Addresses(t), nodes, next, u, Negation.Transform(Meaning(t)))
      decreases Weight(Meaning(t)), 0
    {
      hide Holds, Reuses, Untouched, Turned, Negation.Transform;
      ghost var m0, n0 := nodes, next;
      AtRoot(m0, t);
      HoldsParts(m0, t);
      TransformNotCase(Meaning(t.arg));
      var x;
      ghost var v;
      ghost var e := Negation.Transform(Meaning(t.arg));
      x, v := Transform(nodes[a].arg, t.arg);
      ArgTurned(m0, n0, t, nodes, next, v, e);
      nodes := nodes[a := NNot(x)];
      ghost var t1, m1, n1 := TNot(a, v), nodes, next;
      TurnedHolds(m0, n0, Addresses(t), m1, n1, t1, Not(e));
      HoldsParts(m1, t1);
      HoldsParts(m1, v);
      AtRoot(m1, v);
      match nodes[x] {
        case NNot(y) =>
          PartTurned(m1, n1, t1, {x, a}, v.arg);
          nodes := nodes - {x};
          nodes := nodes - {a};
          assert nodes == m1 - {x, a};
          TurnedHolds(m1, n1, Addresses(t1), nodes, n1, v.arg, Meaning(v.arg));
          b, u := Transform(y, v.arg);
          TurnedThen(m1, n1, Addresses(t1), m1 - {x, a}, n1, v.arg, Meaning(v.arg), nodes, next, u,
              Negation.Transform(Meaning(v.arg)));
        case NCmp(eq, s1, s2) =>
          nodes := nodes - {a};
          nodes := nodes[x := NCmp(!eq, s1, s2)];
          b, u := x, TCmp(x, !eq, s1, s2);
          LeafTurned(m1, n1, t1, nodes, u);
        case NBin(op, p, q) =>
          ghost var t2 := TBin(a, Dual(op), TNot(x, v.left), TNot(n1, v.right));
          SplitTurned(m1, n1, t1, Dual(op));
          var c := Alloc(NNot(q));
          nodes := nodes[a := NBin(Dual(op), x, c)];
          nodes := nodes[x := NNot(p)];
          ghost var m2, n2 := nodes, next;
          TurnedHolds(m1, n1, Addresses(t1), m2, n2, t2, Meaning(t2));
          b, u := Transform(a, t2);
          TurnedThen(m1, n1, Addresses(t1), m2, n2, t2, Meaning(t2), nodes, next, u, Negation.Transform(Meaning(t2)));
        case NSym(s) =>
          if IsYMN(s) {
            nodes := nodes - {a};
            nodes := nodes[x := NSym(NotYMN(s))];
            b, u := x, TSym(x, NotYMN(s));
            LeafTurned(m1, n1, t1, nodes, u);
          } else {
            b, u := a, t1;
            TurnedNot(m1, n1, Addresses(t1), m1, n1, t1);
          }
      }
      TurnedThen(m0, n0, Addresses(t), m1, n1, t1, Not(e), nodes, next, u, Negation.Transform(Meaning(t)));
    }
  }

  // what is left of two simplified operands
  function LiteralRule(op: Op, l: Expr, r: Expr): Expr {
    if l == Symbol(Absorbing(op)) then l
    else if l == Symbol(Neutral(op)) then r
    else if r == Symbol(Absorbing(op)) then r
    else if r == Symbol(Neutral(op)) then l
    else Bin(op, l, r)
  }

  lemma LiteralCase(op: Op, l: Expr, r: Expr)
    ensures Factor.EliminateYN(Bin(op, l, r)) == LiteralRule(op, Factor.EliminateYN(l), Factor.EliminateYN(r))
  {
    hide Size, HasYN;
  }

  // ---------- expr_transform by cases ----------

  lemma TransformLeaf(e: Expr)
    ensures e.Symbol? ==> Negation.Transform(e) == e
    ensures e.Cmp? ==> Negation.Transform(e) == TransformCmp(e)
  {
  }

  lemma TransformOp(op: Op, l: Expr, r: Expr)
    ensures Negation.Transform(Bin(op, l, r)) == Bin(op, Negation.Transform(l), Negation.Transform(r))
  {
  }

  lemma TransformNotCase(x: Expr)
    ensures var t, r := Negation.Transform(x), Negation.Transform(Not(x));
      match t
      case Not(b) => r == Negation.Transform(b) && Weight(b) < Weight(Not(x))
      case Cmp(eq, s, u) => r == Cmp(!eq, s, u)
      case Bin(op, b, c) =>
        r == Negation.Transform(Bin(Dual(op), Not(b), Not(c))) && Weight(Bin(Dual(op), Not(b), Not(c))) < Weight(Not(x))
      case Symbol(s) => r == if IsYMN(s) then Symbol(NotYMN(s)) else Not(t)
  {
    var t := Negation.Transform(x);
    if t.Bin? {
      assert Weight(Not(t.left)) == 2 * Weight(t.left) && Weight(Not(t.right)) == 2 * Weight(t.right);
    }
  }
}
