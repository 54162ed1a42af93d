/** Why members of a choice are shown under their choice: menu_finalize puts the choice before
    every condition within it, and simplifying does not lose it
    (package/config/menu.c, package/config/expr.c). */
module Guarding {
  import opened Wrappers
  import opened Exprs
  import opened Factor
  import opened Joining
  import opened Slots
  import opened Simplify
  import opened Dependence
  import opened Menu
  import Inheriting

  /** The symbol itself, its comparison with y, or n is a conjunct. */
  predicate Held(e: Expr, x: Sym) {
    match e
    case Symbol(y) => y == x || y == SymNo
    case Bin(AndOp, l, r) => Held(l, x) || Held(r, x)
    case Cmp(eq, a, b) => eq && a == x && b == SymYes
    case _ => false
  }

  lemma {:induction false} HeldIsGuarded(e: Expr, x: Sym)
    requires Held(e, x)
    ensures Guarded(e, x)
  {
    if e.Bin? {
      if Held(e.left, x) {
        HeldIsGuarded(e.left, x);
      } else {
        HeldIsGuarded(e.right, x);
      }
    }
  }

  // ---------- simplifying keeps it ----------

  lemma {:induction false} YNKeepsHeld(e: Expr, x: Sym)
    requires Held(e, x) && x.Config?
    ensures Held(EliminateYN(e), x)
  {
    if e.Bin? {
      if Held(e.left, x) {
        YNKeepsHeld(e.left, x);
      } else {
        YNKeepsHeld(e.right, x);
      }
    }
  }

  lemma JoinKeepsHeld(e1: Expr, e2: Expr, x: Sym)
    requires !IsOp(e1, AndOp) && !IsOp(e2, AndOp) && x.Config? && JoinTwo(AndOp, e1, e2).Some?
    requires Held(e1, x) || Held(e2, x)
    ensures Held(JoinTwo(AndOp, e1, e2).value, x)
  {
  }

  lemma {:induction false} PutKeepsHeld(t: Expr, p: Slot, y: Expr, x: Sym)
    requires OnSpine(t, AndOp, p)
    ensures Held(At(t, AndOp, p), x) ==> Held(t, x)
    ensures Held(y, x) ==> Held(Put(t, AndOp, p, y), x)
    ensures Held(t, x) && !Held(At(t, AndOp, p), x) ==> Held(Put(t, AndOp, p, y), x)
  {
    match p
    case Top =>
    case InLeft(q) => PutKeepsHeld(t.left, q, y, x);
    case InRight(q) => PutKeepsHeld(t.right, q, y, x);
  }

  lemma MergeKeepsHeld(t: Expr, p: Slot, q: Slot, x: Sym)
    requires BothSlots(t, AndOp, p, q) && p != q && Held(t, x) && x.Config?
    requires !IsOp(At(t, AndOp, p), AndOp) && !IsOp(At(t, AndOp, q), AndOp)
    ensures Held(Merge(AndOp, t, p, q).tree, x)
  {
    var e1, e2 := At(t, AndOp, p), At(t, AndOp, q);
    var j := JoinTwo(AndOp, e1, e2);
    if j.Some? {
      var z := Symbol(SymYes);
      PutElsewhere(t, AndOp, p, q, z);
      PutKeepsHeld(t, p, z, x);
      PutKeepsHeld(Put(t, AndOp, p, z), q, j.value, x);
      if Held(e1, x) || Held(e2, x) {
        JoinKeepsHeld(e1, e2, x);
      }
    }
  }

  // an operand that is a disjunction holds nothing
  lemma OperandKeepsHeld(t: Expr, p: Slot, y: Expr, x: Sym)
    requires OnSpine(t, AndOp, p) && At(t, AndOp, p).Bin? && !IsOp(At(t, AndOp, p), AndOp) && Held(t, x)
    ensures Held(Put(t, AndOp, p, y), x)
  {
    PutKeepsHeld(t, p, y, x);
  }

  lemma {:induction false} Dups1KeepsHeld(t: Expr, p: Slot, q: Slot, x: Sym)
    requires BothSlots(t, AndOp, p, q) && Held(t, x) && x.Config?
    ensures Held(Dups1(AndOp, t, p, q).tree, x)
    decreases Size(t), Left(t, AndOp, p, q)
  {
    hide Held, SpineSize, Merge, JoinTwo, Size, SameSpine, Put, HasYN, Left;
    var op := AndOp;
    if IsOp(At(t, op, p), op) {
      FirstSlotDown(op, t, p, q);
      var a := Dups1(op, t, Extend(p, false), q);
      KeepSlots(op, t, a.tree, Extend(p, true), q);
      Dups1KeepsHeld(t, Extend(p, false), q, x);
      Dups1KeepsHeld(a.tree, Extend(p, true), q, x);
    } else if IsOp(At(t, op, q), op) {
      SecondSlotDown(op, t, p, q);
      var a := Dups1(op, t, p, Extend(q, false));
      KeepSlots(op, t, a.tree, p, Extend(q, true));
      Dups1KeepsHeld(t, p, Extend(q, false), x);
      Dups1KeepsHeld(a.tree, p, Extend(q, true), x);
    } else if p != q {
      PutElsewhere(t, op, p, q, t);
      var a := Nested1(op, t, p);
      KeepSlots(op, t, a.tree, p, q);
      var e1 := At(t, op, p);
      if e1.Bin? {
        OperandKeepsHeld(t, p, Dups1(e1.op, e1, Top, Top).tree, x);
      }
      MergeKeepsHeld(a.tree, p, q, x);
    }
  }

  lemma {:induction false} Dups2KeepsHeld(t: Expr, p: Slot, q: Slot, x: Sym)
    requires BothSlots(t, AndOp, p, q) && Held(t, x) && x.Config?
    ensures Held(Dups2(AndOp, t, p, q).tree, x)
    decreases Size(t), Left(t, AndOp, p, q)
  {
    hide Held, SpineSize, Refute, Nested2, Size, SameSpine, Put, HasYN, Left;
    var op := AndOp;
    if IsOp(At(t, op, p), op) {
      FirstSlotDown(op, t, p, q);
      var a := Dups2(op, t, Extend(p, false), q);
      KeepSlots(op, t, a.tree, Extend(p, true), q);
      Dups2KeepsHeld(t, Extend(p, false), q, x);
      Dups2KeepsHeld(a.tree, Extend(p, true), q, x);
    } else {
      var a := Dups2Operands(op, t, p, q);
      if IsOp(At(t, op, q), op) {
        SecondSlotDown(op, t, p, q);
        var b := Dups2(op, t, p, Extend(q, false));
        KeepSlots(op, t, b.tree, p, Extend(q, true));
        Dups2KeepsHeld(t, p, Extend(q, false), x);
        Dups2KeepsHeld(b.tree, p, Extend(q, true), x);
      }
      KeepSlots(op, t, a.tree, p, q);
      if p != q {
        LeafBelowRoot(a.tree, op, p, q);
        Nested2KeepsHeld(a.tree, p, x);
        var b := Nested2(op, a.tree, p);
        KeepSlots(op, a.tree, b.tree, p, q);
        RefuteKeepsHeld(b.tree, p, q, x);
      }
    }
  }

  lemma Nested2KeepsHeld(t: Expr, p: Slot, x: Sym)
    requires OnSpine(t, AndOp, p) && !p.Top? && !IsOp(At(t, AndOp, p), AndOp) && Held(t, x)
    ensures Held(Nested2(AndOp, t, p).tree, x)
  {
    var e1 := At(t, AndOp, p);
    if e1.Bin? {
      OperandSmaller(t, AndOp, p);
      OperandKeepsHeld(t, p, Dups2(e1.op, e1, Top, Top).tree, x);
    }
  }

  lemma RefuteKeepsHeld(t: Expr, p: Slot, q: Slot, x: Sym)
    requires BothSlots(t, AndOp, p, q) && !p.Top? && !IsOp(At(t, AndOp, p), AndOp) && Held(t, x)
    ensures Held(Refute(AndOp, t, p, q).tree, x)
  {
    if At(t, AndOp, p).Bin? {
      OperandKeepsHeld(t, p, Symbol(SymNo), x);
    }
  }

  /** Simplifying keeps the conjunct. */
  lemma {:induction false} SimplifiedKeepsHeld(e: Expr, x: Sym)
    requires Held(e, x) && x.Config?
    ensures Held(EliminateDups(e), x)
    decreases Size(e)
  {
    var a := Round1(e);
    if e.Bin? {
      Dups1KeepsHeld(e, Top, Top, x);
      Dups2KeepsHeld(a.tree, Top, Top, x);
    }
    var b := Round(e);
    if b.count > 0 {
      YNKeepsHeld(b.tree, x);
      SimplifiedKeepsHeld(EliminateYN(b.tree), x);
    }
  }

  // ---------- handing down keeps it ----------

  predicate HeldOpt(e: Option<Expr>, x: Sym) {
    e.Some? && Held(e.value, x)
  }

  /** A condition restricted by one that has the conjunct has it too. */
  lemma RestrictKeepsHeld(outer: Option<Expr>, own: Option<Expr>, x: Sym)
    requires HeldOpt(outer, x) && x.Config?
    ensures HeldOpt(Restrict(outer, own), x)
  {
    var t := if own.None? then None else Some(Negation.Transform(own.value));
    SimplifiedKeepsHeld(AllocTwo(AndOp, outer, t).value, x);
  }

  lemma {:induction false} TransBoolKeepsHeld(e: Expr, x: Sym)
    requires Held(e, x)
    ensures Held(TransBool(e), x)
  {
    if e.Bin? {
      if Held(e.left, x) {
        TransBoolKeepsHeld(e.left, x);
      } else {
        TransBoolKeepsHeld(e.right, x);
      }
    }
  }

  // the prompt is among the properties
  predicate PromptOk(e: Entry) {
    e.prompt.Some? ==> e.prompt.value < |e.conds|
  }

  predicate EntryHeld(e: Entry, x: Sym) {
    HeldOpt(e.dep, x) && forall k :: 0 <= k < |e.conds| ==> HeldOpt(e.conds[k], x)
  }

  lemma InheritKeepsHeld(outer: Option<Expr>, e: Entry, x: Sym)
    requires HeldOpt(outer, x) && x.Config?
    ensures EntryHeld(Inherit(outer, e), x)
  {
    var dep := Restrict(outer, e.dep);
    RestrictKeepsHeld(outer, e.dep, x);
    forall k | 0 <= k < |e.conds|
      ensures HeldOpt(RestrictCond(e, dep, e.conds[k]), x)
    {
      RestrictKeepsHeld(dep, e.conds[k], x);
      TransBoolKeepsHeld(Restrict(dep, e.conds[k]).value, x);
    }
  }

  // what entries below an entry are held by: a choice of its own, or the one above
  function HolderOf(e: Entry, x: Sym): Sym {
    if e.isChoice && e.sym.Some? && e.sym.value.Config? then e.sym.value else x
  }

  ghost predicate AllHeld(f: seq<Tree>, x: Sym) {
    f != [] ==>
      && EntryHeld(f[0].entry, x)
      && AllHeld(f[0].kids, HolderOf(f[0].entry, x))
      && AllHeld(f[1..], x)
  }

  predicate PromptsOk(f: seq<Tree>) {
    f != [] ==> PromptOk(f[0].entry) && ChoiceOk(f[0].entry) && PromptsOk(f[0].kids) && PromptsOk(f[1..])
  }

  // choices are symbols of the configuration
  predicate ChoiceOk(e: Entry) {
    e.isChoice && e.sym.Some? ==> e.sym.value.Config?
  }

  /** So within a choice every condition, at every level, has the choice as a conjunct, or n,
      once dependencies have been handed down. */
  lemma {:induction false} WithinChoice(f: seq<Tree>, outer: Option<Expr>, x: Sym)
    requires HeldOpt(outer, x) && x.Config? && PromptsOk(f)
    ensures AllHeld(HandedAll(InheritAll(outer, f)), x)
    decreases CountAll(f)
  {
    InheritCons(outer, f);
    if f != [] {
      hide Inherit, EntryHeld, Held;
      var e := Inherit(outer, f[0].entry);
      var k := f[0].(entry := e);
      InheritKeepsHeld(outer, f[0].entry, x);
      ParentHeld(e, x);
      assert CountAll(f) == 1 + CountAll(f[0].kids) + CountAll(f[1..]);
      WithinChoice(f[0].kids, ParentDep(e), HolderOf(e, x));
      WithinChoice(f[1..], outer, x);
      var rest := InheritAll(outer, f[1..]);
      Inheriting.HandedCons(k, rest);
      HeldCons(Handed(k), HandedAll(rest), x);
    }
  }

  lemma HeldCons(t: Tree, f: seq<Tree>, x: Sym)
    requires EntryHeld(t.entry, x) && AllHeld(t.kids, HolderOf(t.entry, x)) && AllHeld(f, x)
    ensures AllHeld([t] + f, x)
  {
    assert ([t] + f)[1..] == f;
  }

  // what such an entry hands down in its turn
  lemma ParentHeld(e: Entry, x: Sym)
    requires EntryHeld(e, x) && PromptOk(e) && ChoiceOk(e) && x.Config?
    ensures HeldOpt(ParentDep(e), HolderOf(e, x)) && HolderOf(e, x).Config?
  {
  }

  /** In particular below the entry of a choice itself. */
  lemma BelowChoice(e: Entry, kids: seq<Tree>)
    requires e.isChoice && e.sym.Some? && e.sym.value.Config? && PromptsOk(kids)
    ensures AllHeld(HandedAll(InheritAll(ParentDep(e), kids)), e.sym.value)
  {
    WithinChoice(kids, ParentDep(e), e.sym.value);
  }
}
