/** What handing down dependencies means for the conditions of an entry: no condition holds
    where one of those above it does not. The simplifier keeps negation normal form, so that
    expr_trans_bool may follow it (package/config/menu.c, package/config/expr.c). */
module Inheriting {
  import opened Wrappers
  import opened Exprs
  import opened Negation
  import opened Simplify
  import opened Shapes
  import opened Dependence
  import opened Menu

  // ---------- conditions that have been handed down ----------

  predicate NnfOpt(e: Option<Expr>) {
    e.None? || Nnf(e.value)
  }

  /** The new condition says what both say, up to an m that is sharpened. */
  lemma RestrictMeans(outer: Option<Expr>, own: Option<Expr>, v: Valuation)
    requires WellTyped(v) && NnfOpt(outer)
    ensures NnfOpt(Restrict(outer, own))
    ensures Sharpens(Combine(AndOp, EvalOpt(outer, v), EvalOpt(own, v)), EvalOpt(Restrict(outer, own), v))
  {
    var t := if own.None? then None else Some(Transform(own.value));
    if own.Some? {
      TransformExact(own.value, v);
    }
    var both := AllocTwo(AndOp, outer, t);
    if both.Some? {
      SimplifiedKeepsNormal(both.value, false);
      EliminateDupsSharpens(both.value, v);
    }
  }

  // sym_calc_visibility: only a tristate symbol can be visible at m
  function Promoted(e: Entry, t: Tri): Tri {
    if e.sym.Some? && TypeOf(e.sym.value) != Tristate && t == MOD then YES else t
  }

  /** expr_trans_bool does not change what is visible. */
  lemma ShownAsBefore(e: Entry, dep: Option<Expr>, cond: Option<Expr>, v: Valuation)
    requires WellTyped(v) && NnfOpt(dep)
    ensures Promoted(e, EvalOpt(RestrictCond(e, dep, cond), v)) == Promoted(e, EvalOpt(Restrict(dep, cond), v))
  {
    RestrictMeans(dep, cond, v);
    var r := Restrict(dep, cond);
    if r.Some? {
      TransBoolKeepsNo(r.value, v);
    }
  }

  /** One entry after its dependencies have been handed down: where its own condition, its
      own dependency or that of the entry above is n, its condition is n; where all three
      are y, it is shown. */
  lemma Inherits(outer: Option<Expr>, e: Entry, i: nat, v: Valuation)
    requires WellTyped(v) && NnfOpt(outer) && i < |e.conds|
    ensures NnfOpt(Inherit(outer, e).dep)
    ensures var r := EvalOpt(Inherit(outer, e).conds[i], v);
      var all := Combine(AndOp, EvalOpt(outer, v), Combine(AndOp, EvalOpt(e.dep, v), EvalOpt(e.conds[i], v)));
      (all == NO ==> r == NO) && (all == YES ==> Promoted(e, r) == YES)
  {
    var dep := Restrict(outer, e.dep);
    RestrictMeans(outer, e.dep, v);
    RestrictMeans(dep, e.conds[i], v);
    ShownAsBefore(e, dep, e.conds[i], v);
  }

  lemma {:induction false} TransBoolKeepsNnf(e: Expr)
    requires Nnf(e)
    ensures Nnf(TransBool(e))
  {
    if e.Bin? {
      TransBoolKeepsNnf(e.left);
      TransBoolKeepsNnf(e.right);
    }
  }

  lemma ParentDepKeepsNnf(outer: Option<Expr>, e: Entry, v: Valuation)
    requires WellTyped(v) && NnfOpt(outer)
    ensures NnfOpt(ParentDep(Inherit(outer, e)))
  {
    hide Restrict, TransBool, EvalOpt, WellTyped;
    var dep := Restrict(outer, e.dep);
    RestrictMeans(outer, e.dep, v);
    if e.prompt.Some? && e.prompt.value < |e.conds| {
      var r := Restrict(dep, e.conds[e.prompt.value]);
      RestrictMeans(dep, e.conds[e.prompt.value], v);
      if r.Some? {
        TransBoolKeepsNnf(r.value);
      }
    }
  }

  /** No entry below can be reached, by any of its conditions, where what the entry above
      it hands down is n; and so on at every level. */
  ghost predicate Covered(f: seq<Tree>, outer: Option<Expr>, v: Valuation) {
    f != [] ==>
      var e := f[0].entry;
      && (EvalOpt(outer, v) == NO ==> EvalOpt(e.dep, v) == NO)
      && (forall i :: 0 <= i < |e.conds| && EvalOpt(outer, v) == NO ==> EvalOpt(e.conds[i], v) == NO)
      && Covered(f[0].kids, ParentDep(e), v)
      && Covered(f[1..], outer, v)
  }

  /** The whole tree after menu_finalize has handed dependencies down. */
  lemma {:induction false} AllCovered(f: seq<Tree>, outer: Option<Expr>, v: Valuation)
    requires WellTyped(v) && NnfOpt(outer)
    ensures Covered(HandedAll(InheritAll(outer, f)), outer, v)
    decreases CountAll(f)
  {
    if f != [] {
      hide Inherit, ParentDep, EvalOpt, NnfOpt, Covered, HandedAll, InheritAll, WellTyped;
      assert CountAll(f) == 1 + CountAll(f[0].kids) + CountAll(f[1..]);
      var k := f[0].(entry := Inherit(outer, f[0].entry));
      if EvalOpt(outer, v) == NO {
        InheritedCovered(outer, f[0].entry, v);
      }
      ParentDepKeepsNnf(outer, f[0].entry, v);
      AllCovered(f[0].kids, ParentDep(k.entry), v);
      AllCovered(f[1..], outer, v);
      var rest := InheritAll(outer, f[1..]);
      InheritCons(outer, f);
      HandedCons(k, rest);
      CoveredCons(Handed(k), HandedAll(rest), outer, v);
    } else {
      assert HandedAll(InheritAll(outer, f)) == [];
    }
  }

  lemma CoveredCons(h: Tree, rest: seq<Tree>, outer: Option<Expr>, v: Valuation)
    requires EvalOpt(outer, v) == NO ==> EvalOpt(h.entry.dep, v) == NO
    requires forall i :: 0 <= i < |h.entry.conds| && EvalOpt(outer, v) == NO ==> EvalOpt(h.entry.conds[i], v) == NO
    requires Covered(h.kids, ParentDep(h.entry), v) && Covered(rest, outer, v)
    ensures Covered([h] + rest, outer, v)
  {
    assert ([h] + rest)[1..] == rest;
  }

  lemma HandedCons(k: Tree, rest: seq<Tree>)
    ensures HandedAll([k] + rest) == [Handed(k)] + HandedAll(rest)
  {
    assert ([k] + rest)[1..] == rest;
  }

  lemma InheritedCovered(outer: Option<Expr>, e: Entry, v: Valuation)
    requires WellTyped(v) && NnfOpt(outer) && EvalOpt(outer, v) == NO
    ensures EvalOpt(Inherit(outer, e).dep, v) == NO
    ensures var r := Inherit(outer, e); forall i :: 0 <= i < |r.conds| ==> EvalOpt(r.conds[i], v) == NO
  {
    RestrictMeans(outer, e.dep, v);
    var r := Inherit(outer, e);
    forall i | 0 <= i < |r.conds|
      ensures EvalOpt(r.conds[i], v) == NO
    {
      Inherits(outer, e, i, v);
    }
  }
}
