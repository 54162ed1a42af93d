/** Printing an expression and reading it back: expr_compare_type and expr_print
    (package/config/expr.c) against the expression rules of the configuration grammar
    (package/config/zconf.y). */
module Printing {
  import opened Exprs

  datatype Token = TSym(sym: Sym) | TEqual | TUnequal | TNot | TOp(op: Op) | TOpen | TClose

  // enum expr_type, without the list types, which are not dependency expressions
  datatype Kind = KNone | KOr | KAnd | KNot | KEqual | KUnequal | KList | KSymbol

  function KindOf(e: Expr): Kind {
    match e
    case Symbol(_) => KSymbol
    case Not(_) => KNot
    case Bin(op, _, _) => KindOfOp(op)
    case Cmp(eq, _, _) => if eq then KEqual else KUnequal
  }

  function KindOfOp(op: Op): Kind {
    if op.AndOp? then KAnd else KOr
  }

  /** expr_compare_type: 1 if `t1` binds more tightly than `t2`. Every case of the
      program's switch falls through to the next. */
  function CompareType(t1: Kind, t2: Kind): int {
    if t1 == t2 then 0
    else if (t1.KEqual? || t1.KUnequal?) && t2.KNot? then 1
    else if (t1.KEqual? || t1.KUnequal? || t1.KNot?) && t2.KAnd? then 1
    else if (t1.KEqual? || t1.KUnequal? || t1.KNot? || t1.KAnd?) && t2.KOr? then 1
    else if !t1.KNone? && !t1.KSymbol? && !t1.KList? && t2.KList? then 1
    else if !t1.KNone? && !t1.KSymbol? && t2.KNone? then 1
    else -1
  }

  /** expr_print: the tokens of `e` where `prev` is the operator around it, in front of
      the tokens `rest`. */
  function Print(e: Expr, prev: Kind, rest: seq<Token>): seq<Token>
    decreases e, 1
  {
    if CompareType(prev, KindOf(e)) > 0 then [TOpen] + PrintBare(e, [TClose] + rest) else PrintBare(e, rest)
  }

  function PrintBare(e: Expr, rest: seq<Token>): seq<Token>
    decreases e, 0
  {
    match e
    case Symbol(s) => [TSym(s)] + rest
    case Not(a) => [TNot] + Print(a, KNot, rest)
    case Cmp(eq, a, b) => [TSym(a), if eq then TEqual else TUnequal, TSym(b)] + rest
    case Bin(op, l, r) => Print(l, KindOfOp(op), [TOp(op)] + Print(r, KindOfOp(op), rest))
  }

  // ---------- the expression grammar: || below && below !, all left-associative ----------

  datatype Parsed = Fail | Ok(e: Expr, rest: seq<Token>)

  function ParseUnary(ts: seq<Token>): (r: Parsed)
    ensures r.Ok? ==> |r.rest| < |ts|
    decreases |ts|, 0
  {
    if ts == [] then Fail
    else match ts[0] {
      case TNot =>
        var a := ParseUnary(ts[1..]);
        if a.Ok? then Ok(Not(a.e), a.rest) else Fail
      case TOpen =>
        var a := ParseChain(OrOp, ts[1..]);
        if a.Ok? && a.rest != [] && a.rest[0] == TClose then Ok(a.e, a.rest[1..]) else Fail
      case TSym(s) =>
        if |ts| >= 3 && (ts[1] == TEqual || ts[1] == TUnequal) && ts[2].TSym? then
          Ok(Cmp(ts[1] == TEqual, s, ts[2].sym), ts[3..])
        else Ok(Symbol(s), ts[1..])
      case _ => Fail
    }
  }

  // operands of || are chains of &&, operands of && are unary
  function ParseOperand(op: Op, ts: seq<Token>): (r: Parsed)
    ensures r.Ok? ==> |r.rest| < |ts|
    decreases |ts|, if op.AndOp? then 1 else 3
  {
    if op.AndOp? then ParseUnary(ts) else ParseChain(AndOp, ts)
  }

  function ParseChain(op: Op, ts: seq<Token>): (r: Parsed)
    ensures r.Ok? ==> |r.rest| < |ts|
    decreases |ts|, if op.AndOp? then 2 else 4
  {
    var a := ParseOperand(op, ts);
    if a.Ok? then ParseTail(op, a.e, a.rest) else Fail
  }

  function ParseTail(op: Op, acc: Expr, ts: seq<Token>): (r: Parsed)
    ensures r.Ok? ==> |r.rest| <= |ts|
    decreases |ts|, 5
  {
    if ts == [] || ts[0] != TOp(op) then Ok(acc, ts)
    else
      var a := ParseOperand(op, ts[1..]);
      if a.Ok? then ParseTail(op, Bin(op, acc, a.e), a.rest) else Fail
  }

  // ---------- what comes back ----------

  /** The expression with every chain of one operator grouped to the left. */
  function LeftGrouped(e: Expr): Expr
    decreases e, 0
  {
    match e
    case Not(a) => Not(LeftGrouped(a))
    case Bin(op, l, r) => Onto(op, LeftGrouped(l), r)
    case _ => e
  }

  function Onto(op: Op, acc: Expr, e: Expr): Expr
    decreases e, 1
  {
    if IsOp(e, op) then Onto(op, Onto(op, acc, e.left), e.right) else Bin(op, acc, LeftGrouped(e))
  }

  // a token after which no comparison and no operand can continue
  predicate EndsOperand(ts: seq<Token>) {
    ts == [] || ts[0] == TClose || ts[0].TOp?
  }

  lemma {:induction false} UnaryReadsBack(e: Expr, rest: seq<Token>)
    requires EndsOperand(rest)
    ensures ParseUnary(Print(e, KNot, rest)) == Ok(LeftGrouped(e), rest)
    decreases e, if e.Bin? then 8 else 0
  {
    match e
    case Symbol(s) => assert ([TSym(s)] + rest)[1..] == rest;
    case Cmp(eq, a, b) =>
      var ts := [TSym(a), if eq then TEqual else TUnequal, TSym(b)] + rest;
      assert ts[3..] == rest;
    case Not(a) =>
      UnaryReadsBack(a, rest);
      assert ([TNot] + Print(a, KNot, rest))[1..] == Print(a, KNot, rest);
    case Bin(_, _, _) => ParenthesesReadBack(e, rest);
  }

  lemma {:induction false} ParenthesesReadBack(e: Expr, rest: seq<Token>)
    requires e.Bin?
    ensures ParseUnary([TOpen] + PrintBare(e, [TClose] + rest)) == Ok(LeftGrouped(e), rest)
    decreases e, 5
  {
    var inner := PrintBare(e, [TClose] + rest);
    ChainReadsBack(OrOp, e, [TClose] + rest);
    assert ([TOpen] + inner)[1..] == inner;
    assert ([TClose] + rest)[1..] == rest;
  }

  // what may follow an operand, or a whole chain, of `op`
  predicate EndsChain(op: Op, rest: seq<Token>) {
    EndsOperand(rest) && (op.OrOp? ==> rest == [] || rest[0] != TOp(AndOp))
  }

  // an operand of a chain of `op` that is not itself such a chain
  lemma {:induction false} OperandReadsBack(op: Op, e: Expr, rest: seq<Token>)
    requires EndsChain(op, rest) && !IsOp(e, op)
    ensures ParseOperand(op, Print(e, KindOfOp(op), rest)) == Ok(LeftGrouped(e), rest)
    decreases e, if op.OrOp? then 3 else if e.Bin? then 7 else 1
  {
    if op.OrOp? {
      ChainReadsBack(AndOp, e, rest);
    } else if e.Bin? {
      ParenthesesReadBack(e, rest);
    } else {
      UnaryReadsBack(e, rest);
    }
  }

  lemma {:induction false} ChainReadsBack(op: Op, e: Expr, rest: seq<Token>)
    requires EndsChain(op, rest)
    ensures ParseChain(op, Print(e, KindOfOp(op), rest)) == ParseTail(op, LeftGrouped(e), rest)
    decreases e, if op.OrOp? then 4 else if IsOp(e, OrOp) then 9 else 2
  {
    if IsOp(e, op) {
      ChainReadsBack(op, e.left, [TOp(op)] + Print(e.right, KindOfOp(op), rest));
      TailReadsBack(op, LeftGrouped(e.left), e.right, rest);
    } else {
      OperandReadsBack(op, e, rest);
    }
  }

  lemma {:induction false} TailReadsBack(op: Op, acc: Expr, e: Expr, rest: seq<Token>)
    requires EndsChain(op, rest)
    ensures ParseTail(op, acc, [TOp(op)] + Print(e, KindOfOp(op), rest)) == ParseTail(op, Onto(op, acc, e), rest)
    decreases e, 10
  {
    var ts := Print(e, KindOfOp(op), rest);
    assert ([TOp(op)] + ts)[1..] == ts;
    if IsOp(e, op) {
      var more := [TOp(op)] + Print(e.right, KindOfOp(op), rest);
      TailReadsBack(op, acc, e.left, more);
      TailReadsBack(op, Onto(op, acc, e.left), e.right, rest);
    } else {
      OperandReadsBack(op, e, rest);
    }
  }

  /** What expr_fprint writes is read back completely, and as the same expression up to
      the grouping of && and || chains. */
  lemma PrintedExprReadsBack(e: Expr)
    ensures ParseChain(OrOp, Print(e, KNone, [])) == Ok(LeftGrouped(e), [])
  {
    ChainReadsBack(OrOp, e, []);
  }

  /** Regrouping changes no value, so the expression read back means the same. */
  lemma {:induction false} LeftGroupedExact(e: Expr, v: Valuation)
    ensures Eval(LeftGrouped(e), v) == Eval(e, v)
    decreases e, 0
  {
    match e
    case Not(a) => LeftGroupedExact(a, v);
    case Bin(op, l, r) =>
      LeftGroupedExact(l, v);
      OntoExact(op, LeftGrouped(l), r, v);
    case _ =>
  }

  lemma {:induction false} OntoExact(op: Op, acc: Expr, e: Expr, v: Valuation)
    ensures Eval(Onto(op, acc, e), v) == Combine(op, Eval(acc, v), Eval(e, v))
    decreases e, 1
  {
    if IsOp(e, op) {
      OntoExact(op, acc, e.left, v);
      OntoExact(op, Onto(op, acc, e.left), e.right, v);
      CombineAC(op, Eval(acc, v), Eval(e.left, v), Eval(e.right, v));
    } else {
      LeftGroupedExact(e, v);
    }
  }

  /** Printing is stable: the expression read back prints as the same tokens. */
  lemma {:induction false} ReprintsSame(e: Expr, prev: Kind, rest: seq<Token>)
    ensures Print(LeftGrouped(e), prev, rest) == Print(e, prev, rest)
    ensures PrintBare(LeftGrouped(e), rest) == PrintBare(e, rest)
    decreases e, 0
  {
    match e
    case Not(a) => ReprintsSame(a, KNot, rest); ReprintsSame(a, KNot, [TClose] + rest);
    case Bin(op, l, r) =>
      OntoReprints(op, LeftGrouped(l), r, rest);
      OntoReprints(op, LeftGrouped(l), r, [TClose] + rest);
      ReprintsSame(l, KindOfOp(op), [TOp(op)] + Print(r, KindOfOp(op), rest));
      ReprintsSame(l, KindOfOp(op), [TOp(op)] + Print(r, KindOfOp(op), [TClose] + rest));
    case _ =>
  }

  lemma {:induction false} OntoReprints(op: Op, acc: Expr, e: Expr, rest: seq<Token>)
    ensures IsOp(Onto(op, acc, e), op)
    ensures PrintBare(Onto(op, acc, e), rest)
         == Print(acc, KindOfOp(op), [TOp(op)] + Print(e, KindOfOp(op), rest))
    decreases e, 1
  {
    if IsOp(e, op) {
      OntoReprints(op, acc, e.left, [TOp(op)] + Print(e.right, KindOfOp(op), rest));
      OntoReprints(op, Onto(op, acc, e.left), e.right, rest);
    } else {
      ReprintsSame(e, KindOfOp(op), rest);
    }
  }

  // ---------- which parentheses are printed ----------

  /** How many operands need parentheses: an || below an &&, and an && or || below a !. */
  function Needed(e: Expr): nat {
    match e
    case Not(a) => Needed(a) + if a.Bin? then 1 else 0
    case Bin(AndOp, l, r) =>
      Needed(l) + Needed(r) + (if IsOp(l, OrOp) then 1 else 0) + (if IsOp(r, OrOp) then 1 else 0)
    case Bin(OrOp, l, r) => Needed(l) + Needed(r)
    case _ => 0
  }

  predicate NeedsIn(e: Expr, prev: Kind) {
    (prev.KNot? && e.Bin?) || (prev.KAnd? && IsOp(e, OrOp))
  }

  lemma PrintsParens(e: Expr, prev: Kind, rest: seq<Token>)
    requires prev == KNone || prev == KNot || prev == KAnd || prev == KOr
    ensures Print(e, prev, rest) ==
      if NeedsIn(e, prev) then [TOpen] + PrintBare(e, [TClose] + rest) else PrintBare(e, rest)
  {
    hide PrintBare;
  }

  // the parentheses in front of what is still to be printed
  lemma {:induction false} OpensIn(e: Expr, prev: Kind, rest: seq<Token>)
    requires prev == KNone || prev == KNot || prev == KAnd || prev == KOr
    ensures multiset(Print(e, prev, rest))[TOpen] ==
      multiset(rest)[TOpen] + Needed(e) + if NeedsIn(e, prev) then 1 else 0
    decreases e, 1
  {
    PrintsParens(e, prev, rest);
    hide Print, PrintBare, Needed;
    BareOpens(e, rest);
    BareOpens(e, [TClose] + rest);
  }

  lemma {:induction false} BareOpens(e: Expr, rest: seq<Token>)
    ensures multiset(PrintBare(e, rest))[TOpen] == multiset(rest)[TOpen] + Needed(e)
    decreases e, 0
  {
    hide Print;
    match e
    case Not(a) => OpensIn(a, KNot, rest);
    case Bin(op, l, r) =>
      OpensIn(r, KindOfOp(op), rest);
      OpensIn(l, KindOfOp(op), [TOp(op)] + Print(r, KindOfOp(op), rest));
    case _ =>
  }

  /** No parentheses are printed but those that are needed. */
  lemma OnlyNeeded(e: Expr)
    ensures multiset(Print(e, KNone, []))[TOpen] == Needed(e)
  {
    OpensIn(e, KNone, []);
  }
}
