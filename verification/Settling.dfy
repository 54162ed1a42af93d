/** On an acyclic table the cells satisfy the equations: whatever is calculated first, and
    whatever is not calculated yet, the value of a finished symbol follows from those of the
    finished symbols (package/config/symbol.c). */
module Settling {
  import opened Wrappers
  import opened Exprs
  import opened Dependence
  import opened Symbols
  import opened Numbers
  import opened Evaluation
  import opened Calculation

  // ---------- members are shown under their choice ----------

  // a condition that is met looks at what guards it
  lemma {:induction false} GuardedMentions(e: Expr, x: Sym, v: Valuation)
    requires Guarded(e, x) && Eval(e, v) != NO && v.tri(SymNo) == NO
    ensures SymRefs(x) <= ExprRefs(e)
  {
    match e
    case Bin(_, l, r) =>
      if Guarded(l, x) {
        GuardedMentions(l, x, v);
      } else {
        GuardedMentions(r, x, v);
      }
    case _ =>
  }

  function ChoiceSym(t: Table, c: nat): Sym
    requires c < |t|
  {
    Config(c, t[c].ty)
  }

  /** As menu_finalize leaves them, all prompts of a member have the choice as a conjunct. */
  ghost predicate MembersGuarded(t: Table, gs: Groups) {
    forall c: nat, m: nat, p :: InGroup(gs, c, m) && c < |t| && m < |t| && p in t[m].props && p.Prompt? ==>
      p.cond.Some? && Guarded(p.cond.value, ChoiceSym(t, c))
  }

  lemma {:induction false} PromptMet(props: seq<Property>, v: Valuation) returns (p: Property)
    requires PromptMax(props, v) != NO
    ensures p in props && p.Prompt? && EvalOpt(p.cond, v) != NO
  {
    var last := props[|props| - 1];
    if last.Prompt? && EvalOpt(last.cond, v) != NO {
      p := last;
    } else {
      p := PromptMet(props[..|props| - 1], v);
    }
  }

  // whether a member is shown is found out from its choice, among others
  lemma VisibleMentions(t: Table, gs: Groups, c: nat, m: nat, modules: Tri, v: Valuation)
    requires GroupsOk(t, gs) && MembersGuarded(t, gs) && InGroup(gs, c, m) && m < |t| && c < |t|
    requires Visibility(t[m], modules, v) != NO && v.tri(SymNo) == NO
    ensures c in PromptIds(t[m].props)
  {
    PromptIdsAre(t[m].props);
    var p := PromptMet(t[m].props, v);
    GuardedMentions(p.cond.value, ChoiceSym(t, c), v);
    assert c in SymRefs(ChoiceSym(t, c));
  }

  // ---------- what the cells determine ----------

  /** Values that extend those of the finished symbols. */
  ghost predicate Extends(mem: Memory, active: set<nat>, vals: Values) {
    |vals| == |mem.cells| && forall j :: j in mem.valid && j !in active && j < |vals| ==> vals[j] == mem.cells[j].curr
  }

  ghost predicate Right(s: System, mem: Memory, j: nat, vals: Values)
    requires MemoryOk(s, mem) && j < |s.table| == |vals|
  {
    && ValueOf(s, j, vals) == mem.cells[j].curr
    && (s.table[j].ty != Unknown ==>
          var v := ValuationOf(s.table, vals);
          && mem.cells[j].visible == Visibility(s.table[j], s.modules, v)
          && mem.cells[j].selected == SelectedIn(s, j, v))
  }

  /** Every finished symbol is right, whatever the others may be: under the user's values of
      `hist`, those at the time of its calculation, which for what is still to be calculated
      are those of now. */
  ghost predicate Settled(s: System, hist: seq<System>, mem: Memory, active: set<nat>) {
    && MemoryOk(s, mem) && active <= mem.valid && |hist| == |s.table|
    && (forall j :: 0 <= j < |hist| ==> SystemOk(hist[j]) && SameTable(s, hist[j]))
    && (forall j :: 0 <= j < |hist| && (j !in mem.valid || j in active) ==> hist[j] == s)
    && (forall m :: 0 <= m < |s.table| && m in s.groups.choiceOf ==> mem.cells[m].selected == NO)
    && (forall j, vals :: j in mem.valid && j !in active && Extends(mem, active, vals) ==>
      RightThen(hist, mem, j, vals))
  }

  ghost predicate RightThen(hist: seq<System>, mem: Memory, j: nat, vals: Values) {
    j < |hist| && MemoryOk(hist[j], mem) && j < |hist[j].table| == |vals| && Right(hist[j], mem, j, vals)
  }

  // what a choice that looks at its members takes itself for
  function Seen(vals: Values, prov: Option<nat>): Values {
    if prov.None? then vals else Provisional(vals, prov.value)
  }

  // `prov` is a choice that is looking at its members
  ghost predicate Choosing(mem: Memory, active: set<nat>, prov: Option<nat>) {
    prov.Some? ==>
      var c := prov.value;
      c in active && c in mem.valid && c < |mem.cells| && mem.cells[c].curr == Value(YES, "n", None)
  }

  /** All are numbered below what is being calculated, but for that choice. */
  ghost predicate Under(rank: seq<nat>, active: set<nat>, prov: Option<nat>, ids: seq<nat>) {
    forall j :: j in ids ==> prov == Some(j) || BelowAll(rank, active, j)
  }

  ghost predicate BelowAll(rank: seq<nat>, active: set<nat>, j: nat) {
    forall a :: a in active ==> a < |rank| && j < |rank| && rank[j] < rank[a]
  }

  ghost function Known(mem: Memory, active: set<nat>, prov: Option<nat>): set<nat> {
    mem.valid - active + if prov.Some? then {prov.value} else {}
  }

  // the cells show the known symbols as any extension does
  lemma CellsAgree(s: System, mem: Memory, active: set<nat>, prov: Option<nat>, vals: Values)
    requires MemoryOk(s, mem) && Choosing(mem, active, prov) && Extends(mem, active, vals)
    ensures Agree(Known(mem, active, prov), Now(s, mem), ValuationOf(s.table, Seen(vals, prov)))
  {
    SameAgree(s.table, Currs(mem), Seen(vals, prov), Known(mem, active, prov));
  }

  lemma UnderIsKnown(mem: Memory, rank: seq<nat>, active: set<nat>, prov: Option<nat>, ids: seq<nat>)
    requires Under(rank, active, prov, ids) && forall j :: j in ids ==> j in mem.valid
    ensures forall j :: j in ids ==> j in Known(mem, active, prov)
  {
    forall j | j in ids && prov != Some(j)
      ensures j !in active
    {
      assert BelowAll(rank, active, j);
    }
  }

  lemma ExtendsBefore(s: System, mem: Memory, mem': Memory, shown: set<nat>, active: set<nat>, vals: Values)
    requires MemoryOk(s, mem) && Goes(s, mem, mem', {}, shown) && Extends(mem', active, vals)
    ensures Extends(mem, active, vals)
  {
  }

  lemma KeepsChoosing(s: System, mem: Memory, mem': Memory, active: set<nat>, prov: Option<nat>)
    requires MemoryOk(s, mem) && Goes(s, mem, mem', {}, {}) && Choosing(mem, active, prov)
    ensures Choosing(mem', active, prov)
  {
  }

  ghost predicate Ready(s: System, hist: seq<System>, rank: seq<nat>, mem: Memory, active: set<nat>,
      prov: Option<nat>) {
    && MemoryOk(s, mem) && Settled(s, hist, mem, active) && Choosing(mem, active, prov)
    && Ranked(s.table, s.groups, rank) && MembersGuarded(s.table, s.groups)
  }

  // the cell of a symbol being calculated is of no account
  lemma SetKeeps(s: System, hist: seq<System>, mem: Memory, active: set<nat>, i: nat, val: Value, tri: Tri)
    requires Settled(s, hist, mem, active) && i in active && i < |s.table|
    ensures Settled(s, hist, SetCurr(mem, i, val), active) && Settled(s, hist, SetVisible(mem, i, tri), active)
    ensures i !in s.groups.choiceOf ==> Settled(s, hist, SetSelected(mem, i, tri), active)
  {
    hide ValueOf, Visibility, SelectedIn, SystemOk;
    forall j, vals | j in mem.valid && j !in active && Extends(SetCurr(mem, i, val), active, vals)
      ensures RightThen(hist, mem, j, vals)
    {
      assert Extends(mem, active, vals);
    }
    forall j, vals | j in mem.valid && j !in active && Extends(SetVisible(mem, i, tri), active, vals)
      ensures RightThen(hist, mem, j, vals)
    {
      assert Extends(mem, active, vals);
    }
    forall j, vals | j in mem.valid && j !in active && Extends(SetSelected(mem, i, tri), active, vals)
      ensures RightThen(hist, mem, j, vals)
    {
      assert Extends(mem, active, vals);
    }
  }

  // ---------- the calculation keeps that ----------

  lemma {:induction false} SymsSettle(s: System, hist: seq<System>, rank: seq<nat>, mem: Memory, active: set<nat>,
      prov: Option<nat>,
      ids: seq<nat>)
    requires Ready(s, hist, rank, mem, active, prov) && InTable(s, ids) && Under(rank, active, prov, ids)
    ensures Ready(s, hist, rank, CalcSyms(s, mem, ids), active, prov)
    ensures forall j :: j in ids ==> j in Known(CalcSyms(s, mem, ids), active, prov)
    decreases Invalid(s, mem), 2, |ids|
  {
    hide Ranked, MembersGuarded, Settled, SystemOk, Goes;
    var r := CalcSyms(s, mem, ids);
    KeepsChoosing(s, mem, r, active, prov);
    if ids != [] {
      assert ids[0] in ids;
      ValueSettles(s, hist, rank, mem, active, ids[0]);
      var m1 := CalcValue(s, mem, ids[0]);
      KeepsChoosing(s, mem, m1, active, prov);
      SymsSettle(s, hist, rank, m1, active, prov, ids[1..]);
    }
    UnderIsKnown(r, rank, active, prov, ids);
  }

  // what an expression comes to, all its symbols being known
  lemma KnownEval(s: System, mem: Memory, active: set<nat>, prov: Option<nat>, e: Option<Expr>, vals: Values)
    requires MemoryOk(s, mem) && Choosing(mem, active, prov) && Extends(mem, active, vals)
    requires forall j :: j in OptIds(e) ==> j in Known(mem, active, prov)
    ensures EvalOpt(e, Now(s, mem)) == EvalOpt(e, ValuationOf(s.table, Seen(vals, prov)))
  {
    CellsAgree(s, mem, active, prov, vals);
    OptAgrees(e, Known(mem, active, prov), Now(s, mem), ValuationOf(s.table, Seen(vals, prov)));
  }

  lemma {:induction false} FindSettles(s: System, hist: seq<System>, rank: seq<nat>, mem: Memory, active: set<nat>,
      ps: seq<Property>)
    requires Ready(s, hist, rank, mem, active, None) && PropsOk(s, ps)
    requires forall p :: p in ps ==> Under(rank, active, None, OptIds(p.cond))
    ensures var (r, p) := FindProp(s, mem, ps);
      && Ready(s, hist, rank, r, active, None)
      && (p.Some? ==> forall j :: j in OptIds(p.value.cond) ==> j in Known(r, active, None))
      && (forall vals :: Extends(r, active, vals) ==> p == FirstMet(ps, ValuationOf(s.table, vals)))
    decreases Invalid(s, mem), 3, |ps|
  {
    hide Ranked, MembersGuarded, Settled, SystemOk, Goes, Known, ExprOk, Under, Extends, ValuationOf;
    if ps != [] {
      assert ps[0] in ps && PropOk(s.table, ps[0]);
      OptInTable(s, ps[0].cond);
      SymsSettle(s, hist, rank, mem, active, None, OptIds(ps[0].cond));
      var m1 := CalcSyms(s, mem, OptIds(ps[0].cond));
      FindSettles(s, hist, rank, m1, active, ps[1..]);
      var (r, p) := FindProp(s, mem, ps);
      forall vals | Extends(r, active, vals)
        ensures p == FirstMet(ps, ValuationOf(s.table, vals))
      {
        if EvalOpt(ps[0].cond, Now(s, m1)) == NO {
          ExtendsBefore(s, m1, r, {}, active, vals);
        }
        KnownEval(s, m1, active, None, ps[0].cond, vals);
      }
    }
  }

  // a member that is finished is shown as before
  lemma SetVisibleKeeps(s: System, hist: seq<System>, rank: seq<nat>, mem: Memory, active: set<nat>,
      prov: Option<nat>, i: nat, tri: Tri)
    requires Ready(s, hist, rank, mem, active, prov) && i < |s.table| && (i in s.groups.choiceOf || i in active)
    requires forall vals :: Extends(mem, active, vals) ==>
      tri == Visibility(s.table[i], s.modules, ValuationOf(s.table, Seen(vals, prov)))
    ensures Ready(s, hist, rank, SetVisible(mem, i, tri), active, prov)
  {
    hide ValueOf, Visibility, SelectedIn, SystemOk, ValuationOf;
    var m1 := SetVisible(mem, i, tri);
    if i in mem.valid && i !in active && s.table[i].ty != Unknown {
      var vals := Seen(Currs(mem), prov);
      assert Extends(mem, active, Currs(mem)) && Extends(mem, active, vals);
      assert Seen(vals, prov) == vals;
      assert RightThen(hist, mem, i, vals);
      assert m1 == mem;
    } else {
      forall j, vals | j in m1.valid && j !in active && Extends(m1, active, vals)
        ensures RightThen(hist, m1, j, vals)
      {
        assert Extends(mem, active, vals);
        assert RightThen(hist, mem, j, vals);
      }
    }
  }

  // the first half of sym_calc_visibility
  lemma {:induction false} PromptsSettle(s: System, hist: seq<System>, rank: seq<nat>, mem: Memory, active: set<nat>,
      prov: Option<nat>,
      i: nat)
    requires Ready(s, hist, rank, mem, active, prov) && i < |s.table| && InTable(s, PromptIds(s.table[i].props))
    requires Under(rank, active, prov, PromptIds(s.table[i].props))
    requires i in s.groups.choiceOf || (i in active && i in mem.valid)
    ensures var m1 := CalcSyms(s, mem, PromptIds(s.table[i].props));
      var m2 := SetVisible(m1, i, Visibility(s.table[i], s.modules, Now(s, m1)));
      && Ready(s, hist, rank, m2, active, prov)
      && (forall j :: j in PromptIds(s.table[i].props) ==> j in Known(m2, active, prov))
      && forall vals :: Extends(m2, active, vals) ==>
           m2.cells[i].visible == Visibility(s.table[i], s.modules, ValuationOf(s.table, Seen(vals, prov)))
    decreases Invalid(s, mem), 2, |PromptIds(s.table[i].props)| + 1
  {
    hide Ranked, MembersGuarded, Settled, SystemOk, Goes, Under, Extends, ValuationOf, Visibility, Selected, Known;
    hide Choosing;
    var d := s.table[i];
    SymsSettle(s, hist, rank, mem, active, prov, PromptIds(d.props));
    var m1 := CalcSyms(s, mem, PromptIds(d.props));
    var tri := Visibility(d, s.modules, Now(s, m1));
    forall vals | Extends(m1, active, vals)
      ensures tri == Visibility(d, s.modules, ValuationOf(s.table, Seen(vals, prov)))
    {
      CellsAgree(s, m1, active, prov, vals);
      KnownVisible(d, s.modules, Known(m1, active, prov), Now(s, m1), ValuationOf(s.table, Seen(vals, prov)));
    }
    SetVisibleKeeps(s, hist, rank, m1, active, prov, i, tri);
    SameExtensions(m1, SetVisible(m1, i, tri), active);
  }

  lemma {:induction false} VisibleSettles(s: System, hist: seq<System>, rank: seq<nat>, mem: Memory,
      active: set<nat>, prov: Option<nat>,
      i: nat)
    requires Ready(s, hist, rank, mem, active, prov) && i < |s.table|
    requires Under(rank, active, prov, PromptIds(s.table[i].props))
    requires i in s.groups.choiceOf || (i in active && i in mem.valid &&
      Under(rank, active, prov, OptIds(s.table[i].revDep)))
    ensures var r := CalcVisible(s, mem, i);
      && Ready(s, hist, rank, r, active, prov)
      && (forall j :: j in PromptIds(s.table[i].props) ==> j in Known(r, active, prov))
      && forall vals :: Extends(r, active, vals) ==>
           var v := ValuationOf(s.table, Seen(vals, prov));
           && r.cells[i].visible == Visibility(s.table[i], s.modules, v)
           && r.cells[i].selected == SelectedIn(s, i, v)
    decreases Invalid(s, mem), 3, 0
  {
    PartsInTable(s, i);
    hide Ranked, MembersGuarded, Settled, SystemOk, Goes, Under, Extends, ValuationOf, Visibility, Selected, Known;
    hide Choosing, Now, InTable;
    PromptsSettle(s, hist, rank, mem, active, prov, i);
    var m1 := CalcSyms(s, mem, PromptIds(s.table[i].props));
    var m2 := SetVisible(m1, i, Visibility(s.table[i], s.modules, Now(s, m1)));
    if i in s.groups.choiceOf {
      MembersUnselected(s, hist, m2, active, i);
    } else {
      RevDepSettles(s, hist, rank, m2, active, prov, i);
      var m3 := CalcSyms(s, m2, OptIds(s.table[i].revDep));
      PromptsStayKnown(s, m2, m3, active, prov, PromptIds(s.table[i].props));
    }
  }

  // the second half, for what is no member
  lemma {:induction false} RevDepSettles(s: System, hist: seq<System>, rank: seq<nat>, mem: Memory, active: set<nat>,
      prov: Option<nat>,
      i: nat)
    requires Ready(s, hist, rank, mem, active, prov) && i < |s.table| && i !in s.groups.choiceOf
    requires i in active && i in mem.valid && InTable(s, OptIds(s.table[i].revDep))
    requires Under(rank, active, prov, OptIds(s.table[i].revDep))
    ensures var m3 := CalcSyms(s, mem, OptIds(s.table[i].revDep));
      var r := SetSelected(m3, i, Selected(s.table[i], s.modules, Now(s, m3)));
      && Ready(s, hist, rank, r, active, prov) && Known(r, active, prov) == Known(m3, active, prov)
      && r.cells[i].visible == mem.cells[i].visible
      && forall vals :: Extends(r, active, vals) ==>
           && Extends(mem, active, vals)
           && r.cells[i].selected == Selected(s.table[i], s.modules, ValuationOf(s.table, Seen(vals, prov)))
    decreases Invalid(s, mem), 2, |OptIds(s.table[i].revDep)| + 1
  {
    hide Ranked, MembersGuarded, Settled, SystemOk, Goes, Under, Extends, ValuationOf, Visibility, Selected, Known;
    var d := s.table[i];
    SymsSettle(s, hist, rank, mem, active, prov, OptIds(d.revDep));
    var m3 := CalcSyms(s, mem, OptIds(d.revDep));
    KeepsVisible(s, mem, m3, i);
    var sel := Selected(d, s.modules, Now(s, m3));
    SetKeeps(s, hist, m3, active, i, Empty(Int), sel);
    SetSelectedChoosing(m3, i, sel, active, prov);
    var r := SetSelected(m3, i, sel);
    SameExtensions(m3, r, active);
    forall vals | Extends(r, active, vals)
      ensures Extends(mem, active, vals) && sel == Selected(d, s.modules, ValuationOf(s.table, Seen(vals, prov)))
    {
      ExtendsBefore(s, mem, m3, {}, active, vals);
      KnownEval(s, m3, active, prov, d.revDep, vals);
      SelectedIs(d, s.modules, Now(s, m3), ValuationOf(s.table, Seen(vals, prov)));
    }
  }

  lemma PromptsStayKnown(s: System, mem: Memory, mem': Memory, active: set<nat>, prov: Option<nat>, ids: seq<nat>)
    requires MemoryOk(s, mem) && Goes(s, mem, mem', {}, {}) && forall j :: j in ids ==> j in Known(mem, active, prov)
    ensures forall j :: j in ids ==> j in Known(mem', active, prov)
  {
  }

  lemma SetSelectedChoosing(mem: Memory, i: nat, tri: Tri, active: set<nat>, prov: Option<nat>)
    requires Choosing(mem, active, prov) && i < |mem.cells|
    ensures Choosing(SetSelected(mem, i, tri), active, prov)
  {
  }

  lemma KnownVisible(d: SymDef, modules: Tri, known: set<nat>, v: Valuation, w: Valuation)
    requires Agree(known, v, w) && forall j :: j in PromptIds(d.props) ==> j in known
    ensures Visibility(d, modules, v) == Visibility(d, modules, w)
  {
    PromptIdsAre(d.props);
    forall p | p in d.props && p.Prompt?
      ensures OptRefs(p.cond) <= known
    {
      assert forall j :: j in OptRefs(p.cond) ==> j in PromptIds(d.props);
    }
    PromptsAgree(d.props, known, v, w);
  }

  lemma SelectedIs(d: SymDef, modules: Tri, v: Valuation, w: Valuation)
    requires EvalOpt(d.revDep, v) == EvalOpt(d.revDep, w)
    ensures Selected(d, modules, v) == Selected(d, modules, w)
  {
  }

  // visibility and selects do not matter to extensions
  lemma SameExtensions(mem: Memory, mem': Memory, active: set<nat>)
    requires mem'.valid == mem.valid && |mem'.cells| == |mem.cells|
    requires forall j :: 0 <= j < |mem.cells| && j !in active ==> mem'.cells[j].curr == mem.cells[j].curr
    ensures forall vals :: Extends(mem', active, vals) <==> Extends(mem, active, vals)
    ensures forall prov :: Known(mem', active, prov) == Known(mem, active, prov)
  {
  }

  lemma MembersUnselected(s: System, hist: seq<System>, mem: Memory, active: set<nat>, i: nat)
    requires Settled(s, hist, mem, active) && i < |s.table| && i in s.groups.choiceOf
    ensures mem.cells[i].selected == NO
  {
  }

  lemma KeepsVisible(s: System, mem: Memory, mem': Memory, i: nat)
    requires MemoryOk(s, mem) && Goes(s, mem, mem', {}, {}) && i in mem.valid && i !in s.groups.choiceOf
    ensures mem'.cells[i].visible == mem.cells[i].visible
  {
  }

  // ---------- what a symbol reads is numbered below it ----------

  ghost predicate Deepest(rank: seq<nat>, active: set<nat>, i: nat) {
    i in active && forall a :: a in active ==> a < |rank| && i < |rank| && (a != i ==> rank[i] < rank[a])
  }

  lemma LowerIsUnder(rank: seq<nat>, active: set<nat>, i: nat, prov: Option<nat>, ids: seq<nat>)
    requires Deepest(rank, active, i)
    requires forall j :: j in ids ==> j in Lower(rank, rank[i]) || prov == Some(j)
    ensures Under(rank, active, prov, ids)
  {
  }

  lemma PromptIdsWithin(props: seq<Property>, refs: set<nat>)
    requires PromptsWithin(props, refs)
    ensures forall j :: j in PromptIds(props) ==> j in refs
  {
    PromptIdsAre(props);
  }

  lemma PartsUnder(s: System, rank: seq<nat>, active: set<nat>, i: nat)
    requires SystemOk(s) && Ranked(s.table, s.groups, rank) && i < |s.table| && Deepest(rank, active, i)
    ensures Under(rank, active, None, PromptIds(s.table[i].props)) &&
      Under(rank, active, None, OptIds(s.table[i].revDep))
    ensures forall p :: p in Defaults(s.table[i].props) ==> Under(rank, active, None, OptIds(p.cond))
    ensures i !in s.groups.members ==>
      forall p :: p in Defaults(s.table[i].props) ==> Under(rank, active, None, ExprIds(p.value))
    ensures forall p :: p in Ranges(s.table[i].props) ==>
      Under(rank, active, None, OptIds(p.cond)) && Under(rank, active, None, SymIds(p.lo) + SymIds(p.hi))
  {
    var d, choice, refs := s.table[i], i in s.groups.members, Lower(rank, rank[i]);
    WithinLower(s, rank, i);
    DefPartsWithin(d, choice, refs);
    PromptIdsWithin(d.props, refs);
    hide SystemOk, Lower;
    LowerIsUnder(rank, active, i, None, PromptIds(d.props));
    LowerIsUnder(rank, active, i, None, OptIds(d.revDep));
    forall p | p in Defaults(d.props)
      ensures Under(rank, active, None, OptIds(p.cond)) && (!choice ==> Under(rank, active, None, ExprIds(p.value)))
    {
      LowerIsUnder(rank, active, i, None, OptIds(p.cond));
      if !choice {
        LowerIsUnder(rank, active, i, None, ExprIds(p.value));
      }
    }
    forall p | p in Ranges(d.props)
      ensures Under(rank, active, None, OptIds(p.cond)) && Under(rank, active, None, SymIds(p.lo) + SymIds(p.hi))
    {
      LowerIsUnder(rank, active, i, None, OptIds(p.cond));
      LowerIsUnder(rank, active, i, None, SymIds(p.lo) + SymIds(p.hi));
    }
  }

  // what is looked at for a candidate
  ghost predicate CandidateUnder(s: System, rank: seq<nat>, active: set<nat>, c: nat, k: Candidate) {
    && CandidateOk(s, c, k) && Under(rank, active, Some(c), OptIds(k.cond))
    && Under(rank, active, Some(c), PromptIds(s.table[k.member].props))
  }

  lemma CandidatesUnder(s: System, rank: seq<nat>, active: set<nat>, c: nat)
    requires SystemOk(s) && Ranked(s.table, s.groups, rank) && c in s.groups.members && c < |s.table|
    requires Deepest(rank, active, c)
    ensures forall k :: k in Candidates(s, c) ==> CandidateUnder(s, rank, active, c, k)
  {
    var refs := Lower(rank, rank[c]);
    WithinLower(s, rank, c);
    CandidatesOk(s, c);
    CandidatesWithin(s, c, refs);
    hide SystemOk, Lower, Candidates;
    forall k | k in Candidates(s, c)
      ensures CandidateUnder(s, rank, active, c, k)
    {
      var d := s.table[k.member];
      DefPartsWithin(d, false, refs + {c});
      PromptIdsWithin(d.props, refs + {c});
      LowerIsUnder(rank, active, c, Some(c), OptIds(k.cond));
      LowerIsUnder(rank, active, c, Some(c), PromptIds(d.props));
    }
  }

  // ---------- the calculation of one symbol ----------

  lemma {:induction false} PickSettles(s: System, hist: seq<System>, rank: seq<nat>, mem: Memory, active: set<nat>,
      c: nat,
      ks: seq<Candidate>)
    requires Ready(s, hist, rank, mem, active, Some(c))
    requires TriedOk(s, c, ks) && forall k :: k in ks ==> k.member < |s.table| && CandidateUnder(s, rank, active, c, k)
    ensures var (r, pick) := PickFrom(s, mem, c, ks);
      && Ready(s, hist, rank, r, active, Some(c))
      && forall vals :: Extends(r, active, vals) ==>
           pick == FirstVisible(s, ks, ValuationOf(s.table, Provisional(vals, c)))
    decreases Invalid(s, mem), 4, |ks|
  {
    hide Ranked, MembersGuarded, Settled, SystemOk, Goes, Under, Extends, ValuationOf, Visibility, Known,
      CandidateOk, Provisional, Choosing;
    if ks != [] {
      var k, rest := ks[0], ks[1..];
      assert k in ks && CandidateUnder(s, rank, active, c, k);
      CandidateParts(s, c, k);
      SymsSettle(s, hist, rank, mem, active, Some(c), OptIds(k.cond));
      var m1 := CalcSyms(s, mem, OptIds(k.cond));
      var (r, pick) := PickFrom(s, mem, c, ks);
      forall vals | Extends(m1, active, vals)
        ensures EvalOpt(k.cond, Now(s, m1)) == EvalOpt(k.cond, ValuationOf(s.table, Provisional(vals, c)))
      {
        KnownEval(s, m1, active, Some(c), k.cond, vals);
      }
      if EvalOpt(k.cond, Now(s, m1)) == NO {
        PickSettles(s, hist, rank, m1, active, c, rest);
        NextCandidate(s, m1, r, active, c, ks, pick);
      } else {
        VisibleSettles(s, hist, rank, m1, active, Some(c), k.member);
        var m2 := CalcVisible(s, m1, k.member);
        StillMet(s, m1, m2, active, c, k);
        if m2.cells[k.member].visible == NO {
          PickSettles(s, hist, rank, m2, active, c, rest);
          NextCandidate(s, m2, r, active, c, ks, pick);
        }
      }
    }
  }

  lemma StillMet(s: System, m1: Memory, m2: Memory, active: set<nat>, c: nat, k: Candidate)
    requires MemoryOk(s, m1) && Goes(s, m1, m2, {}, {k.member})
    requires forall vals :: Extends(m1, active, vals) ==>
      EvalOpt(k.cond, Now(s, m1)) == EvalOpt(k.cond, ValuationOf(s.table, Provisional(vals, c)))
    ensures forall vals :: Extends(m2, active, vals) ==>
      EvalOpt(k.cond, Now(s, m1)) == EvalOpt(k.cond, ValuationOf(s.table, Provisional(vals, c)))
  {
    hide ValuationOf, Provisional, Now;
    forall vals | Extends(m2, active, vals)
      ensures Extends(m1, active, vals)
    {
      ExtendsBefore(s, m1, m2, {k.member}, active, vals);
    }
  }

  // a candidate that is passed over
  lemma NextCandidate(s: System, mem: Memory, r: Memory, active: set<nat>, c: nat, ks: seq<Candidate>,
      pick: Option<nat>)
    requires MemoryOk(s, mem) && Goes(s, mem, r, {}, MembersOf(s, c)) && ks != []
    requires forall k :: k in ks ==> k.member < |s.table|
    requires forall vals :: Extends(mem, active, vals) ==>
      var v := ValuationOf(s.table, Provisional(vals, c));
      EvalOpt(ks[0].cond, v) == NO || (ks[0].member < |s.table| &&
        Visibility(s.table[ks[0].member], s.modules, v) == NO)
    requires forall vals :: Extends(r, active, vals) ==>
      pick == FirstVisible(s, ks[1..], ValuationOf(s.table, Provisional(vals, c)))
    ensures forall vals :: Extends(r, active, vals) ==>
      pick == FirstVisible(s, ks, ValuationOf(s.table, Provisional(vals, c)))
  {
    hide ValuationOf, Provisional, Visibility, SystemOk;
    forall vals | Extends(r, active, vals)
      ensures pick == FirstVisible(s, ks, ValuationOf(s.table, Provisional(vals, c)))
    {
      ExtendsBefore(s, mem, r, MembersOf(s, c), active, vals);
    }
  }

  lemma {:induction false} DefaultSettles(s: System, hist: seq<System>, rank: seq<nat>, mem: Memory,
      active: set<nat>, i: nat)
    requires Ready(s, hist, rank, mem, active, None) && i < |s.table| && i !in s.groups.members &&
      Deepest(rank, active, i)
    ensures var (r, tri) := CalcDefault(s, mem, i);
      && Ready(s, hist, rank, r, active, None)
      && forall vals :: Extends(r, active, vals) ==> tri == DefaultTri(s.table[i], ValuationOf(s.table, vals))
    decreases Invalid(s, mem), 4, 0
  {
    PartsInTable(s, i);
    PartsUnder(s, rank, active, i);
    hide Ranked, MembersGuarded, Settled, SystemOk, Goes, Under, Extends, ValuationOf, Visibility, Known, Choosing,
      ExprOk;
    var ps := Defaults(s.table[i].props);
    FindSettles(s, hist, rank, mem, active, ps);
    var (m1, p) := FindProp(s, mem, ps);
    if p.Some? {
      var e := p.value.value;
      assert PropOk(s.table, p.value);
      OptInTable(s, Some(e));
      SymsSettle(s, hist, rank, m1, active, None, ExprIds(e));
      var m2 := CalcSyms(s, m1, ExprIds(e));
      PromptsStayKnown(s, m1, m2, active, None, OptIds(p.value.cond));
      forall vals | Extends(m2, active, vals)
        ensures CalcDefault(s, mem, i).1 == DefaultTri(s.table[i], ValuationOf(s.table, vals))
      {
        ExtendsBefore(s, m1, m2, {}, active, vals);
        KnownEval(s, m2, active, None, Some(e), vals);
        KnownEval(s, m2, active, None, p.value.cond, vals);
      }
    }
  }

  // the cell shows what the equations say, apart from the value
  ghost predicate Shown(s: System, mem: Memory, active: set<nat>, i: nat)
    requires MemoryOk(s, mem) && i < |s.table|
  {
    forall vals :: Extends(mem, active, vals) ==>
      var v := ValuationOf(s.table, vals);
      mem.cells[i].visible == Visibility(s.table[i], s.modules, v) && mem.cells[i].selected == SelectedIn(s, i, v)
  }

  lemma {:induction false} TriSettles(s: System, hist: seq<System>, rank: seq<nat>, mem: Memory, active: set<nat>,
      i: nat)
    requires Ready(s, hist, rank, mem, active, None) && i < |s.table| && Deepest(rank, active, i)
    requires i in mem.valid && Shown(s, mem, active, i)
    ensures var (r, tri) := CalcTri(s, mem, i);
      && Ready(s, hist, rank, r, active, None)
      && forall vals :: Extends(r, active, vals) ==> tri == TriValue(s, i, ValuationOf(s.table, vals))
    decreases Invalid(s, mem), 5, 0
  {
    assert |s.user| == |s.table|;
    hide Ranked, MembersGuarded, Settled, SystemOk, Goes, Extends, ValuationOf, Visibility, SelectedIn, Choosing,
      DefaultTri, Deepest;
    var c := mem.cells[i];
    var (r, tri) := CalcTri(s, mem, i);
    if !(c.visible != NO && s.user[i].given) && i !in s.groups.members {
      DefaultSettles(s, hist, rank, mem, active, i);
      forall vals | Extends(r, active, vals)
        ensures Extends(mem, active, vals)
      {
        ExtendsBefore(s, mem, r, {}, active, vals);
      }
    }
  }

  lemma {:induction false} RawSettles(s: System, hist: seq<System>, rank: seq<nat>, mem: Memory, active: set<nat>,
      i: nat)
    requires Ready(s, hist, rank, mem, active, None) && i < |s.table| && Deepest(rank, active, i)
    requires i in mem.valid && Shown(s, mem, active, i) && i !in s.groups.members
    ensures var (r, raw) := CalcRaw(s, mem, i);
      && Ready(s, hist, rank, r, active, None)
      && forall vals :: Extends(r, active, vals) ==>
           raw == OwnRaw(s.table[i], s.user[i], s.modules, ValuationOf(s.table, vals))
    decreases Invalid(s, mem), 5, 0
  {
    PartsInTable(s, i);
    PartsUnder(s, rank, active, i);
    hide Ranked, MembersGuarded, Settled, SystemOk, Goes, Under, Extends, ValuationOf, Visibility, SelectedIn,
      Choosing, Deepest, Known;
    var (r, raw) := CalcRaw(s, mem, i);
    if !(mem.cells[i].visible != NO && s.user[i].given) {
      var ps := Defaults(s.table[i].props);
      FindSettles(s, hist, rank, mem, active, ps);
      var (m1, p) := FindProp(s, mem, ps);
      if p.Some? && p.value.value.Symbol? {
        var x := p.value.value.sym;
        assert PropOk(s.table, p.value);
        SymsSettle(s, hist, rank, m1, active, None, SymIds(x));
        forall vals | Extends(r, active, vals)
          ensures Extends(m1, active, vals) && raw == RawOf(x, ValuationOf(s.table, vals))
        {
          ExtendsBefore(s, m1, r, {}, active, vals);
          KnownRaw(s, r, active, x, vals);
        }
      }
      forall vals | Extends(r, active, vals)
        ensures Extends(mem, active, vals)
      {
        ExtendsBefore(s, mem, r, {}, active, vals);
      }
    }
  }

  lemma KnownRaw(s: System, mem: Memory, active: set<nat>, x: Sym, vals: Values)
    requires MemoryOk(s, mem) && Extends(mem, active, vals)
    requires forall j :: j in SymIds(x) ==> j in Known(mem, active, None)
    ensures RawOf(x, Now(s, mem)) == RawOf(x, ValuationOf(s.table, vals))
  {
    CellsAgree(s, mem, active, None, vals);
    assert SymRefs(x) <= Known(mem, active, None) by {
      if x.Config? {
        assert x.id in SymIds(x);
      }
    }
  }

  lemma {:induction false} RangeSettles(s: System, hist: seq<System>, rank: seq<nat>, mem: Memory, active: set<nat>,
      i: nat, raw: string)
    requires Ready(s, hist, rank, mem, active, None) && i < |s.table| && Deepest(rank, active, i)
    ensures var (r, raw') := CalcRange(s, mem, i, raw);
      && Ready(s, hist, rank, r, active, None)
      && forall vals :: Extends(r, active, vals) ==> raw' == Clamp(s.table[i], raw, ValuationOf(s.table, vals))
    decreases Invalid(s, mem), 5, 0
  {
    var d := s.table[i];
    if d.ty == Int || d.ty == Hex {
      PartsInTable(s, i);
      PartsUnder(s, rank, active, i);
      hide Ranked, MembersGuarded, Settled, SystemOk, Goes, Extends, ValuationOf, Choosing, Deepest, Known, ParseInt,
        FormatInt;
      FindSettles(s, hist, rank, mem, active, Ranges(d.props));
      var (m1, p) := FindProp(s, mem, Ranges(d.props));
      if p.Some? {
        assert PropOk(s.table, p.value);
        RangeOperands(s, hist, rank, mem, m1, active, i, p.value, raw);
      }
    }
  }

  lemma {:induction false} RangeOperands(s: System, hist: seq<System>, rank: seq<nat>, mem: Memory, m1: Memory,
      active: set<nat>, i: nat,
      p: Property, raw: string)
    requires Ready(s, hist, rank, m1, active, None) && i < |s.table| && p.Range? && PropOk(s.table, p)
    requires MemoryOk(s, mem) && mem.valid <= m1.valid && Under(rank, active, None, SymIds(p.lo) + SymIds(p.hi))
    requires s.table[i].ty == Int || s.table[i].ty == Hex
    requires PropsOk(s, Ranges(s.table[i].props))
    requires FindProp(s, mem, Ranges(s.table[i].props)) == (m1, Some(p))
    requires forall vals :: Extends(m1, active, vals) ==> FirstRange(s.table[i], ValuationOf(s.table, vals)) == Some(p)
    ensures var (r, raw') := CalcRange(s, mem, i, raw);
      && Ready(s, hist, rank, r, active, None)
      && forall vals :: Extends(r, active, vals) ==> raw' == Clamp(s.table[i], raw, ValuationOf(s.table, vals))
    decreases Invalid(s, m1), 2, 3
  {
    hide Ranked, MembersGuarded, Settled, SystemOk, Goes, Extends, ValuationOf, Choosing, Known, ParseInt, FormatInt,
      FirstRange, RangeOperand;
    var d := s.table[i];
    var base := BaseOf(d.ty);
    var (r, raw') := CalcRange(s, mem, i, raw);
    SymsSettle(s, hist, rank, m1, active, None, SymIds(p.lo));
    var m2 := CalcSyms(s, m1, SymIds(p.lo));
    forall vals | Extends(m2, active, vals)
      ensures Extends(m1, active, vals)
      ensures RangeOperand(p.lo, base, Now(s, m2)) == RangeOperand(p.lo, base, ValuationOf(s.table, vals))
    {
      ExtendsBefore(s, m1, m2, {}, active, vals);
      KnownOperand(s, m2, active, p.lo, base, vals);
    }
    if ParseInt(raw, base) >= RangeOperand(p.lo, base, Now(s, m2)) {
      SymsSettle(s, hist, rank, m2, active, None, SymIds(p.hi));
      var m3 := CalcSyms(s, m2, SymIds(p.hi));
      forall vals | Extends(m3, active, vals)
        ensures Extends(m2, active, vals)
        ensures RangeOperand(p.hi, base, Now(s, m3)) == RangeOperand(p.hi, base, ValuationOf(s.table, vals))
      {
        ExtendsBefore(s, m2, m3, {}, active, vals);
        KnownOperand(s, m3, active, p.hi, base, vals);
      }
    }
  }

  lemma KnownOperand(s: System, mem: Memory, active: set<nat>, x: Sym, base: nat, vals: Values)
    requires MemoryOk(s, mem) && Extends(mem, active, vals)
    requires forall j :: j in SymIds(x) ==> j in Known(mem, active, None)
    ensures RangeOperand(x, base, Now(s, mem)) == RangeOperand(x, base, ValuationOf(s.table, vals))
  {
    KnownRaw(s, mem, active, x, vals);
  }

  // the value before a choice looks at its members and before the range is applied
  function OwnOf(s: System, i: nat, vals: Values): Value
    requires SystemOk(s) && i < |s.table| == |vals|
  {
    var d, v := s.table[i], ValuationOf(s.table, vals);
    if !Logical(d.ty) then Value(NO, OwnRaw(d, s.user[i], s.modules, v), None)
    else if i in s.groups.choiceOf && Visibility(d, s.modules, v) == YES then
      Value(if vals[s.groups.choiceOf[i]].chosen == Some(i) then YES else NO, "n", None)
    else Value(TriValue(s, i, v), "n", None)
  }

  lemma ValueFromOwn(s: System, i: nat, vals: Values)
    requires SystemOk(s) && i < |s.table| == |vals| && s.table[i].ty != Unknown
    ensures var own := OwnOf(s, i, vals);
      ValueOf(s, i, vals) ==
        if i in s.groups.members && own.tri == YES then
          CandidatesAreMembers(s, i);
          var pick := FirstVisible(s, Candidates(s, i), ValuationOf(s.table, Provisional(vals, i)));
          Value(if pick.None? then NO else YES, "n", pick)
        else own.(raw := Clamp(s.table[i], own.raw, ValuationOf(s.table, vals)))
  {
    hide TriValue, OwnRaw, Visibility, FirstVisible, Candidates, FirstRange;
    if i in s.groups.members {
      assert i !in s.groups.choiceOf;
    }
  }

  // a member that is shown has looked at its choice
  ghost predicate ChoiceKnown(s: System, mem: Memory, active: set<nat>, i: nat)
    requires i < |mem.cells|
  {
    i in s.groups.choiceOf && mem.cells[i].visible == YES ==> s.groups.choiceOf[i] in Known(mem, active, None)
  }

  lemma {:induction false} OwnSettles(s: System, hist: seq<System>, rank: seq<nat>, mem: Memory, active: set<nat>,
      i: nat)
    requires Ready(s, hist, rank, mem, active, None) && i < |s.table| && Deepest(rank, active, i)
    requires i in mem.valid && Shown(s, mem, active, i) && ChoiceKnown(s, mem, active, i) && s.table[i].ty != Unknown
    ensures var (r, newval) := CalcOwn(s, mem, i);
      && Ready(s, hist, rank, r, active, None)
      && forall vals :: Extends(r, active, vals) ==> newval == OwnOf(s, i, vals)
    decreases Invalid(s, mem), 6, 0
  {
    if !Logical(s.table[i].ty) {
      assert i !in s.groups.members;
      hide SystemOk;
      RawSettles(s, hist, rank, mem, active, i);
    } else if i in s.groups.choiceOf && mem.cells[i].visible == YES {
      assert s.groups.choiceOf[i] < |s.table|;
    } else {
      hide TriValue, SystemOk, Settled, ValuationOf, Visibility, SelectedIn, Goes;
      TriSettles(s, hist, rank, mem, active, i);
      var r := CalcTri(s, mem, i).0;
      forall vals | Extends(r, active, vals)
        ensures Extends(mem, active, vals)
      {
        ExtendsBefore(s, mem, r, {}, active, vals);
      }
    }
  }

  lemma {:induction false} LastSettles(s: System, hist: seq<System>, rank: seq<nat>, mem: Memory, active: set<nat>,
      i: nat, newval: Value)
    requires Ready(s, hist, rank, mem, active, None) && i < |s.table| && Deepest(rank, active, i)
    requires i in mem.valid && s.table[i].ty != Unknown
    requires forall vals :: Extends(mem, active, vals) ==> newval == OwnOf(s, i, vals)
    ensures var r := CalcLast(s, mem, i, newval);
      && Ready(s, hist, rank, r, active, None)
      && forall vals :: Extends(r, active, vals) ==> r.cells[i].curr == ValueOf(s, i, vals)
    decreases Invalid(s, mem), 6, 0
  {
    var m1 := SetCurr(mem, i, newval);
    assert i in active;
    SetKeeps(s, hist, mem, active, i, newval, NO);
    SameExtensions(mem, m1, active);
    hide Ranked, MembersGuarded, SystemOk, Settled, Extends, ValuationOf, Deepest, OwnOf, ValueOf, Candidates,
      FirstVisible, CalcLast;
    if i in s.groups.members && newval.tri == YES {
      ChoiceIsYes(s, mem, active, i, newval);
      ChoiceSettles(s, hist, rank, m1, active, i, newval);
    } else {
      PlainSettles(s, hist, rank, m1, active, i, newval);
    }
    LastFrom(s, mem, i, newval);
  }

  // calculating on with a value that is set already
  lemma LastFrom(s: System, mem: Memory, i: nat, newval: Value)
    requires MemoryOk(s, mem) && i < |s.table| && i in mem.valid
    ensures CalcLast(s, SetCurr(mem, i, newval), i, newval) == CalcLast(s, mem, i, newval)
  {
    hide SystemOk, Candidates;
    assert SetCurr(SetCurr(mem, i, newval), i, newval) == SetCurr(mem, i, newval);
  }

  lemma {:induction false} ChoiceSettles(s: System, hist: seq<System>, rank: seq<nat>, mem: Memory, active: set<nat>,
      c: nat, newval: Value)
    requires Ready(s, hist, rank, mem, active, None) && c < |s.table| && Deepest(rank, active, c)
    requires c in mem.valid && s.table[c].ty != Unknown && c in s.groups.members
    requires mem == SetCurr(mem, c, newval) && newval == Value(YES, "n", None)
    requires forall vals :: Extends(mem, active, vals) ==> newval == OwnOf(s, c, vals)
    ensures var r := CalcLast(s, mem, c, newval);
      && Ready(s, hist, rank, r, active, None)
      && forall vals :: Extends(r, active, vals) ==> r.cells[c].curr == ValueOf(s, c, vals)
    decreases Invalid(s, mem), 5, 0
  {
    CandidatesUnder(s, rank, active, c);
    CandidatesOk(s, c);
    assert c in active && mem.cells[c].curr == newval;
    ChoosingNow(mem, active, c);
    hide *;
    ChoiceLast(s, mem, c, newval);
    PickSettles(s, hist, rank, mem, active, c, Candidates(s, c));
    var (m2, pick) := PickFrom(s, mem, c, Candidates(s, c));
    PickedSettles(s, hist, rank, mem, m2, active, c, newval, pick);
  }

  lemma PickedSettles(s: System, hist: seq<System>, rank: seq<nat>, mem: Memory, m2: Memory, active: set<nat>,
      c: nat, newval: Value,
      pick: Option<nat>)
    requires Ready(s, hist, rank, m2, active, Some(c)) && Goes(s, mem, m2, {}, MembersOf(s, c)) && MemoryOk(s, mem)
    requires c < |s.table| && s.table[c].ty != Unknown && c in s.groups.members && newval == Value(YES, "n", None)
    requires forall k :: k in Candidates(s, c) ==> k.member < |s.table|
    requires forall vals :: Extends(mem, active, vals) ==> newval == OwnOf(s, c, vals)
    requires forall vals :: Extends(m2, active, vals) ==>
      pick == FirstVisible(s, Candidates(s, c), ValuationOf(s.table, Provisional(vals, c)))
    ensures var r := SetCurr(m2, c, Value(if pick.None? then NO else YES, "n", pick));
      && Ready(s, hist, rank, r, active, None)
      && forall vals :: Extends(r, active, vals) ==> r.cells[c].curr == ValueOf(s, c, vals)
  {
    assert c in active;
    hide Ranked, MembersGuarded, SystemOk, Settled, Goes, Extends, Candidates, ValuationOf, OwnOf, ValueOf,
      FirstVisible;
    hide Provisional, Choosing;
    var val := Value(if pick.None? then NO else YES, "n", pick);
    var r := SetCurr(m2, c, val);
    SetKeeps(s, hist, m2, active, c, val, NO);
    SameExtensions(m2, r, active);
    assert Choosing(r, active, None) by { NotChoosing(r, active); }
    forall vals | Extends(r, active, vals)
      ensures r.cells[c].curr == ValueOf(s, c, vals)
    {
      ExtendsBefore(s, mem, m2, MembersOf(s, c), active, vals);
      ValueFromOwn(s, c, vals);
    }
  }

  lemma NotChoosing(mem: Memory, active: set<nat>)
    ensures Choosing(mem, active, None)
  {
  }

  lemma ChoiceLast(s: System, mem: Memory, c: nat, newval: Value)
    requires MemoryOk(s, mem) && c < |s.table| && c in mem.valid && c in s.groups.members
    requires mem == SetCurr(mem, c, newval) && newval == Value(YES, "n", None)
    requires TriedOk(s, c, Candidates(s, c))
    ensures var (m, pick) := PickFrom(s, mem, c, Candidates(s, c));
      CalcLast(s, mem, c, newval) == SetCurr(m, c, Value(if pick.None? then NO else YES, "n", pick))
  {
    hide SystemOk, Candidates, CandidateOk;
  }

  lemma ChoosingNow(mem: Memory, active: set<nat>, c: nat)
    requires c in active && c in mem.valid && c < |mem.cells| && mem.cells[c].curr == Value(YES, "n", None)
    ensures Choosing(mem, active, Some(c)) && Choosing(mem, active, None)
  {
  }

  lemma {:induction false} PlainSettles(s: System, hist: seq<System>, rank: seq<nat>, mem: Memory, active: set<nat>,
      i: nat, newval: Value)
    requires Ready(s, hist, rank, mem, active, None) && i < |s.table| && Deepest(rank, active, i)
    requires i in mem.valid && s.table[i].ty != Unknown && !(i in s.groups.members && newval.tri == YES)
    requires mem == SetCurr(mem, i, newval)
    requires forall vals :: Extends(mem, active, vals) ==> newval == OwnOf(s, i, vals)
    ensures var r := CalcLast(s, mem, i, newval);
      && Ready(s, hist, rank, r, active, None)
      && forall vals :: Extends(r, active, vals) ==> r.cells[i].curr == ValueOf(s, i, vals)
    decreases Invalid(s, mem), 5, 1
  {
    assert i in active;
    hide Ranked, MembersGuarded, SystemOk, Settled, Goes, Extends, ValuationOf, Deepest, OwnOf, ValueOf, Candidates,
      FirstVisible, Clamp;
    RangeSettles(s, hist, rank, mem, active, i, newval.raw);
    var m2 := CalcRange(s, mem, i, newval.raw).0;
    var r := CalcLast(s, mem, i, newval);
    SetKeeps(s, hist, m2, active, i, r.cells[i].curr, NO);
    SameExtensions(m2, r, active);
    forall vals | Extends(r, active, vals)
      ensures r.cells[i].curr == ValueOf(s, i, vals)
    {
      ExtendsBefore(s, mem, m2, {}, active, vals);
      ValueFromOwn(s, i, vals);
    }
  }

  lemma ChoiceIsYes(s: System, mem: Memory, active: set<nat>, c: nat, newval: Value)
    requires MemoryOk(s, mem) && c in s.groups.members && c < |s.table| && s.table[c].ty != Unknown && newval.tri == YES
    requires forall vals :: Extends(mem, active, vals) ==> newval == OwnOf(s, c, vals)
    ensures newval == Value(YES, "n", None)
  {
    hide TriValue, OwnRaw, Visibility;
    assert Extends(mem, active, Currs(mem));
    assert c !in s.groups.choiceOf && Logical(s.table[c].ty);
  }

  lemma {:induction false} TypedSettles(s: System, hist: seq<System>, rank: seq<nat>, mem: Memory, active: set<nat>,
      i: nat)
    requires Ready(s, hist, rank, mem, active, None) && i < |s.table| && Deepest(rank, active, i)
    requires i in mem.valid && s.table[i].ty != Unknown
    ensures var r := CalcTyped(s, mem, i);
      && Ready(s, hist, rank, r, active, None)
      && forall vals :: Extends(r, active, vals) ==> Right(s, r, i, vals)
    decreases Invalid(s, mem), 7, 0
  {
    PartsUnder(s, rank, active, i);
    assert i in active;
    hide Ranked, MembersGuarded, SystemOk, Settled, Goes, Extends, ValuationOf, Deepest, OwnOf, ValueOf, Under,
      Visibility, SelectedIn, Shown;
    hide ChoiceKnown, Looked, Known;
    VisibleSettles(s, hist, rank, mem, active, None, i);
    var m1 := CalcVisible(s, mem, i);
    ShownNow(s, m1, active, i);
    var m2 := SetCurr(m1, i, Empty(s.table[i].ty));
    SetKeeps(s, hist, m1, active, i, Empty(s.table[i].ty), NO);
    ShowsChoice(s, m1, m2, active, i);
    OwnSettles(s, hist, rank, m2, active, i);
    var (m3, newval) := CalcOwn(s, m2, i);
    LastSettles(s, hist, rank, m3, active, i, newval);
    StaysShown(s, m2, m3, active, i, newval);
    ShownIsRight(s, CalcLast(s, m3, i, newval), active, i);
  }

  lemma ShownNow(s: System, mem: Memory, active: set<nat>, i: nat)
    requires MemoryOk(s, mem) && i < |s.table|
    requires forall vals :: Extends(mem, active, vals) ==>
      var v := ValuationOf(s.table, Seen(vals, None));
      mem.cells[i].visible == Visibility(s.table[i], s.modules, v) && mem.cells[i].selected == SelectedIn(s, i, v)
    ensures Shown(s, mem, active, i)
  {
    hide Visibility, SelectedIn, ValuationOf, Extends;
  }

  lemma ShownIsRight(s: System, mem: Memory, active: set<nat>, i: nat)
    requires MemoryOk(s, mem) && i < |s.table| && Shown(s, mem, active, i)
    requires forall vals :: Extends(mem, active, vals) ==> mem.cells[i].curr == ValueOf(s, i, vals)
    ensures forall vals :: Extends(mem, active, vals) ==> Right(s, mem, i, vals)
  {
    hide Visibility, SelectedIn, ValuationOf, ValueOf;
  }

  lemma ShowsChoice(s: System, m1: Memory, m2: Memory, active: set<nat>, i: nat)
    requires MemoryOk(s, m1) && i < |s.table| && m2 == SetCurr(m1, i, Empty(s.table[i].ty)) && i in active
    requires MembersGuarded(s.table, s.groups) && Shown(s, m1, active, i)
    requires forall j :: j in PromptIds(s.table[i].props) ==> j in Known(m1, active, None)
    ensures Shown(s, m2, active, i) && ChoiceKnown(s, m2, active, i) && !Looked(s, m2, {}, i)
  {
    hide Visibility, SelectedIn;
    SameExtensions(m1, m2, active);
    if i in s.groups.choiceOf {
      var c, now := s.groups.choiceOf[i], ValuationOf(s.table, Currs(m1));
      assert Extends(m1, active, Currs(m1)) && now.tri(SymNo) == NO;
      assert InGroup(s.groups, c, i);
      forall v: Valuation | v.tri(SymNo) == NO && Visibility(s.table[i], s.modules, v) != NO
        ensures c in Known(m1, active, None)
      {
        VisibleMentions(s.table, s.groups, c, i, s.modules, v);
      }
    }
  }

  lemma StaysShown(s: System, m2: Memory, m3: Memory, active: set<nat>, i: nat, newval: Value)
    requires MemoryOk(s, m2) && i < |s.table| && i in m2.valid && i in active
    requires Shown(s, m2, active, i) && !Looked(s, m2, {}, i) && Goes(s, m2, m3, {}, {})
    ensures Shown(s, CalcLast(s, m3, i, newval), active, i)
  {
    hide Visibility, SelectedIn, SystemOk, Unseen, ValuationOf, CalcLast;
    var r := CalcLast(s, m3, i, newval);
    assert !Looked(s, m3, {}, i);
    LastKeepsShown(s, m3, i, newval);
    forall vals | Extends(r, active, vals)
      ensures Extends(m2, active, vals)
    {
    }
  }

  lemma LastKeepsShown(s: System, mem: Memory, i: nat, newval: Value)
    requires MemoryOk(s, mem) && i < |s.table| && i in mem.valid && !Looked(s, mem, {}, i)
    ensures var r := CalcLast(s, mem, i, newval);
      r.cells[i].visible == mem.cells[i].visible && r.cells[i].selected == mem.cells[i].selected
  {
    var m1 := SetCurr(mem, i, newval);
    if i in s.groups.members && newval.tri == YES {
      assert i !in s.groups.choiceOf;
      CandidatesOk(s, i);
    }
    hide SystemOk, Unseen, Candidates;
    assert !Looked(s, m1, {}, i);
  }

  lemma {:induction false} ValueSettles(s: System, hist: seq<System>, rank: seq<nat>, mem: Memory, active: set<nat>,
      i: nat)
    requires Ready(s, hist, rank, mem, active, None) && i < |s.table| && (i in mem.valid || BelowAll(rank, active, i))
    ensures Ready(s, hist, rank, CalcValue(s, mem, i), active, None)
    decreases Invalid(s, mem), 1, 0
  {
    if i !in mem.valid {
      var m, now := mem.(valid := mem.valid + {i}), active + {i};
      BeginReady(s, hist, rank, mem, active, i);
      hide Ranked, MembersGuarded, SystemOk, Settled, Goes, ValueOf, Visibility, SelectedIn, ValuationOf, Extends,
        Right;
      if s.table[i].ty != Unknown {
        TypedSettles(s, hist, rank, m, now, i);
      } else {
        UnknownSettles(s, hist, m, now, i);
      }
      Finished(s, hist, CalcValue(s, mem, i), active, i);
      NotChoosing(CalcValue(s, mem, i), active);
    }
  }

  // the symbol is marked VALID, and everything else that is being calculated is above it
  lemma BeginReady(s: System, hist: seq<System>, rank: seq<nat>, mem: Memory, active: set<nat>, i: nat)
    requires Ready(s, hist, rank, mem, active, None) && i < |s.table| && i !in mem.valid && BelowAll(rank, active, i)
    ensures i < |hist|
    ensures var m := mem.(valid := mem.valid + {i});
      Ready(s, hist, rank, m, active + {i}, None) && Deepest(rank, active + {i}, i) && i !in active && hist[i] == s
  {
    var m, now := mem.(valid := mem.valid + {i}), active + {i};
    assert m.valid - now == mem.valid - active;
    hide SystemOk, ValueOf, Visibility, SelectedIn, ValuationOf;
    forall j, vals | j in m.valid && j !in now && Extends(m, now, vals)
      ensures RightThen(hist, m, j, vals)
    {
      assert Extends(mem, active, vals);
      assert RightThen(hist, mem, j, vals);
    }
  }

  lemma UnknownSettles(s: System, hist: seq<System>, mem: Memory, active: set<nat>, i: nat)
    requires Settled(s, hist, mem, active) && i in active && i < |s.table| && s.table[i].ty == Unknown
    ensures var r := SetCurr(mem, i, Value(NO, s.table[i].name, None));
      Settled(s, hist, r, active) && forall vals :: Extends(r, active, vals) ==> Right(s, r, i, vals)
  {
    SetKeeps(s, hist, mem, active, i, Value(NO, s.table[i].name, None), NO);
  }

  // the symbol is finished
  lemma Finished(s: System, hist: seq<System>, mem: Memory, active: set<nat>, i: nat)
    requires Settled(s, hist, mem, active + {i}) && i < |s.table| && i !in active
    requires forall vals :: Extends(mem, active + {i}, vals) ==> Right(s, mem, i, vals)
    ensures Settled(s, hist, mem, active)
  {
    hide ValueOf, Visibility, SelectedIn, SystemOk;
    forall j, vals | j in mem.valid && j !in active && Extends(mem, active, vals)
      ensures RightThen(hist, mem, j, vals)
    {
      assert Extends(mem, active + {i}, vals);
    }
  }

  // ---------- the solution ----------

  // all symbols were calculated under the user's values of now
  ghost function Same(s: System): (hist: seq<System>)
    ensures |hist| == |s.table| && forall j :: 0 <= j < |hist| ==> hist[j] == s
  {
    seq(|s.table|, j => s)
  }

  /** Whatever was calculated, in whatever order, agrees with every solution of the
      equations. */
  lemma AgreesWithSolution(s: System, rank: seq<nat>, mem: Memory, vals: Values)
    requires Settled(s, Same(s), mem, {}) && Ranked(s.table, s.groups, rank) && IsSolution(s, vals)
    ensures forall j :: j in mem.valid ==> mem.cells[j].curr == vals[j]
  {
    forall j | j in mem.valid
      ensures mem.cells[j].curr == vals[j]
    {
      AgreesUpTo(s, rank, mem, vals, rank[j] + 1);
    }
  }

  lemma {:induction false} AgreesUpTo(s: System, rank: seq<nat>, mem: Memory, vals: Values, n: nat)
    requires Settled(s, Same(s), mem, {}) && Ranked(s.table, s.groups, rank) && IsSolution(s, vals)
    ensures forall j :: j in mem.valid && rank[j] < n ==> mem.cells[j].curr == vals[j]
    decreases n
  {
    hide ValueOf, ValuationOf, Visibility, SelectedIn;
    forall j | j in mem.valid && rank[j] < n
      ensures mem.cells[j].curr == vals[j]
    {
      AgreesUpTo(s, rank, mem, vals, rank[j]);
      var mixed := seq(|vals|, k requires 0 <= k < |vals| => if k in mem.valid then mem.cells[k].curr else vals[k]);
      assert Extends(mem, {}, mixed);
      assert RightThen(Same(s), mem, j, mixed);
      WithinLower(s, rank, j);
      ValueAgrees(s, j, Lower(rank, rank[j]), mixed, vals);
    }
  }

  /** When all have been calculated, their values are the solution. */
  lemma AllIsSolution(s: System, mem: Memory)
    requires Settled(s, Same(s), mem, {}) && forall i :: 0 <= i < |s.table| ==> i in mem.valid
    ensures IsSolution(s, Currs(mem))
  {
    hide ValueOf, ValuationOf, Visibility, SelectedIn;
    forall i | 0 <= i < |s.table|
      ensures Currs(mem)[i] == ValueOf(s, i, Currs(mem))
    {
      assert Extends(mem, {}, Currs(mem));
      assert RightThen(Same(s), mem, i, Currs(mem));
    }
  }
}
