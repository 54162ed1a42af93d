/** Which entries become a submenu of the one above them, and what an entry hands down to
    those below it, read off the conditions as they are written (package/config/menu.c,
    package/config/expr.c). */
module Submenus {
  import opened Wrappers
  import opened Exprs
  import opened Factor
  import opened Matching
  import opened Negation
  import opened Slots
  import opened Simplify
  import opened Shapes
  import opened Complete
  import opened Merging
  import opened Dependence
  import opened Menu
  import opened Inheriting

  // ---------- expr_contains_symbol, expr_depends_symbol ----------

  function ReplacedSym(x: Sym, s: Sym, t: Sym): Sym {
    if x == s then t else x
  }

  /** The expression with one symbol in the place of another. */
  function Replaced(e: Expr, s: Sym, t: Sym): Expr {
    match e
    case Symbol(x) => Symbol(ReplacedSym(x, s, t))
    case Not(a) => Not(Replaced(a, s, t))
    case Bin(op, l, r) => Bin(op, Replaced(l, s, t), Replaced(r, s, t))
    case Cmp(eq, a, b) => Cmp(eq, ReplacedSym(a, s, t), ReplacedSym(b, s, t))
  }

  /** An expression contains a symbol if and only if it changes when another one is put in its
      place. */
  lemma {:induction false} ContainsIff(e: Expr, s: Sym, t: Sym)
    requires s != t
    ensures ContainsSymbol(e, s) <==> Replaced(e, s, t) != e
  {
    match e
    case Not(a) => ContainsIff(a, s, t);
    case Bin(_, l, r) => ContainsIff(l, s, t); ContainsIff(r, s, t);
    case _ =>
  }

  // the symbol, or a test that it is not n
  predicate IsSet(e: Expr, s: Sym) {
    e == Symbol(s) || e == Cmp(true, s, SymYes) || e == Cmp(true, s, SymMod) || e == Cmp(false, s, SymNo)
  }

  ghost predicate HasConjunct(e: Expr, s: Sym) {
    exists p :: OperandSlot(e, AndOp, p) && IsSet(At(e, AndOp, p), s)
  }

  /** A condition depends on a symbol if and only if one of its conjuncts is the symbol or a
      test that it is not n. */
  lemma {:induction false} DependsIff(e: Expr, s: Sym)
    ensures DependsSymbol(e, s) <==> HasConjunct(e, s)
  {
    if IsOp(e, AndOp) {
      DependsIff(e.left, s);
      DependsIff(e.right, s);
      ConjunctsOf(e, s);
    } else {
      OnlyConjunct(e, s);
    }
  }

  lemma OnlyConjunct(e: Expr, s: Sym)
    requires !IsOp(e, AndOp)
    ensures HasConjunct(e, s) <==> IsSet(e, s)
  {
    if IsSet(e, s) {
      assert OperandSlot(e, AndOp, Top);
    }
  }

  lemma ConjunctsOf(e: Expr, s: Sym)
    requires IsOp(e, AndOp)
    ensures HasConjunct(e, s) <==> HasConjunct(e.left, s) || HasConjunct(e.right, s)
  {
    if HasConjunct(e.left, s) {
      var p :| OperandSlot(e.left, AndOp, p) && IsSet(At(e.left, AndOp, p), s);
      assert OperandSlot(e, AndOp, InLeft(p)) && At(e, AndOp, InLeft(p)) == At(e.left, AndOp, p);
    }
    if HasConjunct(e.right, s) {
      var p :| OperandSlot(e.right, AndOp, p) && IsSet(At(e.right, AndOp, p), s);
      assert OperandSlot(e, AndOp, InRight(p)) && At(e, AndOp, InRight(p)) == At(e.right, AndOp, p);
    }
    if HasConjunct(e, s) {
      var p :| OperandSlot(e, AndOp, p) && IsSet(At(e, AndOp, p), s);
      BelowRoot(e, AndOp, p);
    }
  }

  // ---------- the entries that follow ----------

  // the condition of an entry's prompt, or its dependencies if it has none
  function Condition(e: Entry): Option<Expr> {
    match e.prompt
    case Some(k) => if k < |e.conds| then e.conds[k] else None
    case None => e.dep
  }

  // the operands of the second are all operands of the first, a conjunction
  ghost predicate Covers(e1: Expr, e2: Expr) {
    e2 == Symbol(SymYes) || (IsOp(e1, AndOp) && Operands(AndOp, e2) <= Operands(AndOp, e1))
  }

  /** The tests by which a following entry is taken into the submenu: its condition mentions
      the symbol, and has it for a conjunct or, prepared, has all conjuncts of the prompt
      above. Both prepared conditions are without literal operands. */
  lemma AdoptsIff(e: Entry, next: Entry, t: Sym)
    requires e.sym.Some? && t != e.sym.value && e.prompt.Some? && e.prompt.value < |e.conds|
    requires !HasYN(Visible(Condition(next))) && !HasYN(Visible(e.conds[e.prompt.value]))
    ensures var c, s := Condition(next), e.sym.value;
      AdoptsNext(e, next) <==>
      && c.Some? && Replaced(c.value, s, t) != c.value
      && (HasConjunct(c.value, s) || Covers(Visible(c), Visible(e.conds[e.prompt.value])))
  {
    var c, base := Condition(next), e.conds[e.prompt.value];
    hide *;
    TestsAre(e, next);
    if c.Some? {
      ContainsIff(c.value, e.sym.value, t);
      DependsIff(c.value, e.sym.value);
    }
    PreparedIsClean(c);
    PreparedIsClean(base);
    CoversIff(Visible(c), Visible(base));
  }

  lemma CoversIff(e1: Expr, e2: Expr)
    requires Clean(e1) && Clean(e2)
    ensures EliminateEq(e1, e2).1 == Symbol(SymYes) <==> Covers(e1, e2)
  {
    UsedUpIff(e1, e2);
    hide EliminateEq, Operands, Clean;
  }

  lemma TestsAre(e: Entry, next: Entry)
    requires e.sym.Some? && e.prompt.Some? && e.prompt.value < |e.conds|
    ensures var c, base, s := Condition(next), e.conds[e.prompt.value], e.sym.value;
      AdoptsNext(e, next) <==>
      && c.Some? && ContainsSymbol(c.value, s)
      && (DependsSymbol(c.value, s) || EliminateEq(Visible(c), Visible(base)).1 == Symbol(SymYes))
  {
    assert OwnCond(next) == Condition(next);
    hide Visible, ContainsSymbol, DependsSymbol, EliminateEq;
  }

  lemma PreparedIsClean(c: Option<Expr>)
    requires !HasYN(Visible(c))
    ensures Clean(Visible(c))
  {
    var e := TransCompareOpt(c, false, SymNo);
    SimplifiedKeepsNormal(Transform(e), false);
    NormalFormIsClean(Visible(c));
  }

  /** An entry whose condition does not mention the symbol is not taken, and ends the list of
      those that are: it and all that follow it stay where they are. */
  lemma StaysBehind(t: Tree, after: seq<Tree>, other: Sym)
    requires t.kids == [] && after != []
    requires t.entry.sym.Some? ==> other != t.entry.sym.value
    requires var c := Condition(after[0].entry);
      t.entry.sym.None? || c.None? || Replaced(c.value, t.entry.sym.value, other) == c.value
    ensures Finalize(t, after) == (t, after)
  {
    var c := Condition(after[0].entry);
    if t.entry.sym.Some? && c.Some? {
      ContainsIff(c.value, t.entry.sym.value, other);
    }
    assert OwnCond(after[0].entry) == c;
    hide EliminateEq, Visible, ContainsSymbol, DependsSymbol;
    assert !AdoptsNext(t.entry, after[0].entry);
  }

  /** One whose condition has the symbol for a conjunct is taken: it is the first of the
      submenu, and no longer follows. */
  lemma IsTaken(t: Tree, after: seq<Tree>)
    requires t.kids == [] && after != [] && t.entry.sym.Some?
    requires var c := Condition(after[0].entry); c.Some? && HasConjunct(c.value, t.entry.sym.value)
    ensures var r := Finalize(t, after);
      && r.0.id == t.id && r.0.entry == t.entry && r.0.kids != [] && r.0.kids[0].id == after[0].id
      && |r.1| < |after|
  {
    var s, c := t.entry.sym.value, Condition(after[0].entry);
    DependsIff(c.value, s);
    DependsMentions(c.value, s);
    assert OwnCond(after[0].entry) == c;
    assert AdoptsNext(t.entry, after[0].entry);
    hide AdoptsNext, HasConjunct, DependsSymbol;
    AdoptShrinks(t.entry, after);
    FinalizeShrinks(after[0], after[1..]);
    AdoptShrinks(t.entry, Finalize(after[0], after[1..]).1);
    MoveUpFirst(Adopt(t.entry, after).0);
  }

  lemma {:induction false} DependsMentions(e: Expr, s: Sym)
    requires DependsSymbol(e, s)
    ensures ContainsSymbol(e, s)
  {
    if e.Bin? {
      if DependsSymbol(e.left, s) {
        DependsMentions(e.left, s);
      } else {
        DependsMentions(e.right, s);
      }
    }
  }

  lemma {:induction false} FinalizeShrinks(t: Tree, after: seq<Tree>)
    ensures |Finalize(t, after).1| <= |after| && Finalize(t, after).0.id == t.id
    decreases CountAll(after), 1
  {
    hide MoveUp, FinalizeAll, AdoptsNext;
    if t.kids == [] {
      AdoptShrinks(t.entry, after);
    }
  }

  lemma {:induction false} AdoptShrinks(e: Entry, after: seq<Tree>)
    ensures |Adopt(e, after).1| <= |after|
    decreases CountAll(after), 0
  {
    hide Finalize, AdoptsNext;
    if after != [] && AdoptsNext(e, after[0].entry) {
      FinalizeShrinks(after[0], after[1..]);
      AdoptShrinks(e, Finalize(after[0], after[1..]).1);
    }
  }

  lemma MoveUpFirst(f: seq<Tree>)
    requires f != []
    ensures MoveUp(f) != [] && MoveUp(f)[0].id == f[0].id
  {
  }

  // ---------- what is handed down ----------

  /** An entry keeps those below it from being shown: a choice that is n, a prompt that is not
      shown, or, without a prompt, dependencies that are n. */
  predicate Closes(e: Entry, v: Valuation) {
    if e.isChoice && e.sym.Some? then v.tri(e.sym.value) == NO
    else if e.prompt.Some? then e.prompt.value < |e.conds| && EvalOpt(e.conds[e.prompt.value], v) == NO
    else EvalOpt(e.dep, v) == NO
  }

  // and the opposite
  predicate Opens(e: Entry, v: Valuation) {
    if e.isChoice && e.sym.Some? then v.tri(e.sym.value) == YES
    else if e.prompt.Some? then e.prompt.value >= |e.conds| || EvalOpt(e.conds[e.prompt.value], v) == YES
    else EvalOpt(e.dep, v) == YES
  }

  lemma HandsDown(e: Entry, v: Valuation)
    ensures EvalOpt(ParentDep(e), v) == NO <==> Closes(e, v)
    ensures EvalOpt(ParentDep(e), v) == YES <==> Opens(e, v)
  {
  }

  /** What an entry right below another one holds in the end: where the entry above closes, or
      its own dependencies or condition are n, it is not shown; where all are y, it is. */
  lemma HandedBelow(t: Tree, k: nat, i: nat, v: Valuation)
    requires WellTyped(v) && NnfOpt(ParentDep(t.entry)) && k < |t.kids| && i < |t.kids[k].entry.conds|
    ensures |Handed(t).kids| == |t.kids|
    ensures var was, now := t.kids[k].entry, Handed(t).kids[k].entry;
      && |now.conds| == |was.conds| && now.sym == was.sym && now.prompt == was.prompt
      && (Closes(t.entry, v) || EvalOpt(was.dep, v) == NO ==> EvalOpt(now.dep, v) == NO)
      && (Opens(t.entry, v) && EvalOpt(was.dep, v) == YES ==> EvalOpt(now.dep, v) == YES)
      && (EvalOpt(now.dep, v) == NO || EvalOpt(was.conds[i], v) == NO ==> EvalOpt(now.conds[i], v) == NO)
      && (EvalOpt(now.dep, v) == YES && EvalOpt(was.conds[i], v) == YES ==>
          Promoted(now, EvalOpt(now.conds[i], v)) == YES)
  {
    var outer, was := ParentDep(t.entry), t.kids[k].entry;
    HandsDown(t.entry, v);
    KidIs(t, k);
    assert Inherit(outer, was).conds[i] == RestrictCond(was, Restrict(outer, was.dep), was.conds[i]);
    hide Handed, ParentDep, Closes, Opens, RestrictCond, Restrict;
    RestrictMeans(outer, was.dep, v);
    var dep := Restrict(outer, was.dep);
    RestrictMeans(dep, was.conds[i], v);
    ShownAsBefore(was, dep, was.conds[i], v);
  }

  lemma KidIs(t: Tree, k: nat)
    requires k < |t.kids|
    ensures |Handed(t).kids| == |t.kids| && Handed(t).kids[k].entry == Inherit(ParentDep(t.entry), t.kids[k].entry)
  {
    var f := InheritAll(ParentDep(t.entry), t.kids);
    InheritCount(ParentDep(t.entry), t.kids);
    HandedAt(f, k);
  }

  lemma {:induction false} HandedAt(f: seq<Tree>, k: nat)
    requires k < |f|
    ensures HandedAll(f)[k] == Handed(f[k])
    decreases k
  {
    if k > 0 {
      HandedAt(f[1..], k - 1);
    }
  }

  /** Dependencies are handed down as a simplified normal form, and prompts are compared as such. */
  lemma HandedSimplified(outer: Option<Expr>, own: Option<Expr>)
    ensures var r := Restrict(outer, own);
      r.Some? ==> Merged(r.value) && (NnfOpt(outer) ==> Nnf(r.value))
    ensures Merged(Visible(own)) && Nnf(Visible(own))
  {
    var t := if own.None? then None else Some(Transform(own.value));
    var both := AllocTwo(AndOp, outer, t);
    var c := Transform(TransCompareOpt(own, false, SymNo));
    assert Visible(own) == EliminateDups(c) && Nnf(c);
    assert NnfOpt(outer) && both.Some? ==> Nnf(both.value);
    hide Visible, EliminateDups, TransCompareOpt, Transform;
    SimplifiedIsMerged(c);
    SimplifiedKeepsNormal(c, false);
    if both.Some? {
      SimplifiedIsMerged(both.value);
      if NnfOpt(outer) {
        SimplifiedKeepsNormal(both.value, false);
      }
    }
  }

  // ---------- expr_trans_bool ----------

  /** No operand tests that a tristate is not n. */
  predicate NoTest(e: Expr) {
    match e
    case Not(a) => NoTest(a)
    case Bin(_, l, r) => NoTest(l) && NoTest(r)
    case Cmp(eq, s, t) => !(eq == false && TypeOf(s) == Tristate && t == SymNo)
    case _ => true
  }

  /** All of those tests are gone, and where there was none nothing has changed. */
  lemma {:induction false} TransBoolForm(e: Expr)
    ensures NoTest(TransBool(e))
    ensures NoTest(e) ==> TransBool(e) == e
  {
    match e
    case Not(a) => TransBoolForm(a);
    case Bin(_, l, r) => TransBoolForm(l); TransBoolForm(r);
    case _ =>
  }

  /** The conditions of an entry for a bool lose them, those for a tristate, and those of a
      menu, keep them. */
  lemma TestsKept(e: Entry, outer: Option<Expr>, i: nat, x: Sym)
    requires i < |e.conds| && e.dep == None && outer == None
    ensures var r := Inherit(outer, e).conds[i];
      e.sym.Some? && TypeOf(e.sym.value) != Tristate && r.Some? ==> NoTest(r.value)
    ensures TypeOf(x) == Tristate && e.conds[i] == Some(Cmp(false, x, SymNo)) ==>
      Inherit(outer, e).conds[i] ==
        Some(if e.sym.Some? && TypeOf(e.sym.value) != Tristate then Symbol(x) else Cmp(false, x, SymNo))
  {
    var c := e.conds[i];
    assert Restrict(outer, e.dep) == None;
    var r := Restrict(None, c);
    if r.Some? {
      TransBoolForm(r.value);
    }
  }

  // ---------- what keeps its place ----------

  /** An entry that has a list of its own takes over none of those that follow. */
  lemma ListTakesNone(t: Tree, after: seq<Tree>)
    requires t.kids != []
    ensures Finalize(t, after).1 == after
  {
  }

  /** An entry with a prompt keeps what is below it; only without one does it give that up. */
  lemma {:induction false} PromptKeeps(f: seq<Tree>, k: Tree)
    requires k in f
    ensures k.entry.prompt.Some? || k.kids == [] ==> k in MoveUp(f)
    ensures k.entry.prompt.None? ==> k.(kids := []) in MoveUp(f)
    decreases CountAll(f)
  {
    hide MoveUp;
    MoveUpStep(f);
    if f[0] != k {
      var rest := if f[0].kids != [] && f[0].entry.prompt.None? then f[0].kids + f[1..] else f[1..];
      assert k in f[1..] && forall x :: x in f[1..] ==> x in rest;
      PromptKeeps(rest, k);
    }
  }

  lemma MoveUpStep(f: seq<Tree>)
    requires f != []
    ensures var gives := f[0].kids != [] && f[0].entry.prompt.None?;
      var rest := if gives then f[0].kids + f[1..] else f[1..];
      && MoveUp(f) == [if gives then f[0].(kids := []) else f[0]] + MoveUp(rest)
      && CountAll(rest) < CountAll(f)
  {
    CountAppend(f[0].kids, f[1..]);
    assert Count(f[0]) == 1 + CountAll(f[0].kids);
  }
}
