/** A run on a table that the dependency check can accept although a choice, taken with its
    members, depends on itself: the order of calculation then matters
    (package/config/symbol.c). */
module Orders {
  import opened Wrappers
  import opened Exprs
  import opened Graphs
  import opened Dependence
  import opened Symbols
  import opened Evaluation
  import opened Calculation
  import opened Settling
  import opened Choices

  // ---------- single steps ----------

  lemma {:induction false} AllValid(s: System, mem: Memory, ids: seq<nat>)
    requires MemoryOk(s, mem) && InTable(s, ids) && forall j :: j in ids ==> j in mem.valid
    ensures CalcSyms(s, mem, ids) == mem
    decreases |ids|
  {
    hide SystemOk, Goes;
    if ids != [] {
      assert ids[0] in ids && forall j :: j in ids[1..] ==> j in ids;
      AllValid(s, mem, ids[1..]);
    }
  }

  lemma OnePrompt(d: SymDef, modules: Tri, v: Valuation, cond: Option<Expr>)
    requires d.ty == Boolean && d.props == [Prompt(cond)]
    ensures Visibility(d, modules, v) == if EvalOpt(cond, v) == NO then NO else YES
    ensures PromptIds(d.props) == OptIds(cond)
  {
    assert d.props[..0] == [];
    assert PromptMax(d.props[..0], v) == NO && PromptIds(d.props[..0]) == [];
  }

  // a member is looked at when what its prompt mentions has been calculated
  lemma LookAfter(s: System, mem: Memory, m: nat, m1: Memory)
    requires MemoryOk(s, mem) && m < |s.table| && m in s.groups.choiceOf && InTable(s, PromptIds(s.table[m].props))
    requires m1 == CalcSyms(s, mem, PromptIds(s.table[m].props))
    ensures CalcVisible(s, mem, m) == SetVisible(m1, m, Visibility(s.table[m], s.modules, Now(s, m1)))
  {
    hide SystemOk, Goes, Visibility, Now;
  }

  lemma LookAtMember(s: System, mem: Memory, m: nat)
    requires MemoryOk(s, mem) && m < |s.table| && m in s.groups.choiceOf
    requires forall j :: j in PromptIds(s.table[m].props) ==> j in mem.valid
    ensures CalcVisible(s, mem, m) == SetVisible(mem, m, Visibility(s.table[m], s.modules, Now(s, mem)))
  {
    PartsInTable(s, m);
    AllValid(s, mem, PromptIds(s.table[m].props));
    LookAfter(s, mem, m, mem);
  }

  lemma BooleanLast(s: System, mem: Memory, i: nat, newval: Value)
    requires MemoryOk(s, mem) && i < |s.table| && i in mem.valid && s.table[i].ty == Boolean
    requires !(i in s.groups.members && newval.tri == YES)
    ensures CalcLast(s, mem, i, newval) == SetCurr(mem, i, newval)
  {
    hide SystemOk, Goes;
    assert newval.(raw := newval.raw) == newval;
  }

  // what is calculated for a boolean, when its visibility is known
  lemma BooleanValue(s: System, mem: Memory, i: nat, m1: Memory, newval: Value)
    requires MemoryOk(s, mem) && i < |s.table| && i !in mem.valid && s.table[i].ty == Boolean
    requires var m := CalcVisible(s, mem.(valid := mem.valid + {i}), i);
      CalcOwn(s, SetCurr(m, i, Value(NO, "n", None)), i) == (m1, newval)
    ensures MemoryOk(s, m1) && i in m1.valid
    ensures CalcValue(s, mem, i) == CalcLast(s, m1, i, newval)
  {
    assert i in Invalid(s, mem);
    hide SystemOk, Goes, CalcOwn, CalcVisible, CalcLast;
    assert Empty(Boolean) == Value(NO, "n", None);
  }

  lemma NoDefaultProps(cond: Option<Expr>)
    ensures Defaults([Prompt(cond)]) == []
  {
    assert [Prompt(cond)][1..] == [];
  }

  lemma NoDefaultTri(s: System, mem: Memory, i: nat, cond: Option<Expr>)
    requires MemoryOk(s, mem) && i < |s.table| && s.table[i].props == [Prompt(cond)]
    ensures CalcDefault(s, mem, i) == (mem, NO)
  {
    NoDefaultProps(cond);
    hide SystemOk, Goes;
  }

  lemma MemberOwn(s: System, mem: Memory, m: nat, cond: Option<Expr>)
    requires MemoryOk(s, mem) && m < |s.table| && m in s.groups.choiceOf && m in mem.valid && m !in s.groups.members
    requires s.table[m].ty == Boolean && s.table[m].props == [Prompt(cond)] && mem.cells[m].selected == NO
    requires mem.cells[m].visible == YES || mem.cells[m].visible == NO
    ensures CalcOwn(s, mem, m) ==
      (mem, Value(if mem.cells[m].visible == YES && ChosenBy(s, mem, m) == Some(m) then YES else NO, "n", None))
  {
    NoDefaultTri(s, mem, m, cond);
    hide SystemOk, Goes, CalcDefault, ChosenBy;
    if mem.cells[m].visible == NO {
      assert CalcTri(s, mem, m) == (mem, NO);
    }
  }

  /** A boolean member without defaults, when what its prompt mentions is VALID. */
  lemma FinishMember(s: System, mem: Memory, m: nat, cond: Option<Expr>)
    requires MemoryOk(s, mem) && m < |s.table| && m in s.groups.choiceOf && m !in mem.valid
    requires s.table[m].ty == Boolean && s.table[m].props == [Prompt(cond)] && mem.cells[m].selected == NO
    requires forall j :: j in OptIds(cond) ==> j in mem.valid
    ensures var shown := if EvalOpt(cond, Now(s, mem)) == NO then NO else YES;
      var tri := if shown == YES && ChosenBy(s, mem, m) == Some(m) then YES else NO;
      CalcValue(s, mem, m) == Memory(mem.valid + {m}, mem.cells[m := Cell(Value(tri, "n", None), shown, NO)])
  {
    var m0 := mem.(valid := mem.valid + {m});
    var shown := if EvalOpt(cond, Now(s, mem)) == NO then NO else YES;
    OnePrompt(s.table[m], s.modules, Now(s, m0), cond);
    assert Currs(m0) == Currs(mem);
    LookAtMember(s, m0, m);
    FinishShown(s, mem, m, cond, shown);
  }

  lemma FinishShown(s: System, mem: Memory, m: nat, cond: Option<Expr>, shown: Tri)
    requires MemoryOk(s, mem) && m < |s.table| && m in s.groups.choiceOf && m !in mem.valid
    requires s.table[m].ty == Boolean && s.table[m].props == [Prompt(cond)] && mem.cells[m].selected == NO
    requires shown == YES || shown == NO
    requires var m0 := mem.(valid := mem.valid + {m}); CalcVisible(s, m0, m) == SetVisible(m0, m, shown)
    ensures var tri := if shown == YES && ChosenBy(s, mem, m) == Some(m) then YES else NO;
      CalcValue(s, mem, m) == Memory(mem.valid + {m}, mem.cells[m := Cell(Value(tri, "n", None), shown, NO)])
  {
    var c := s.groups.choiceOf[m];
    assert InGroup(s.groups, c, m);
    MemberOk(s.table, s.groups, c, m);
    var m1 := SetCurr(SetVisible(mem.(valid := mem.valid + {m}), m, shown), m, Value(NO, "n", None));
    assert MemoryOk(s, m1) && c != m && m1.cells[c] == mem.cells[c];
    assert ChosenBy(s, m1, m) == ChosenBy(s, mem, m);
    hide SystemOk, Goes, CalcOwn, CalcLast, CalcVisible, CalcValue, ChosenBy;
    MemberOwn(s, m1, m, cond);
    var newval := CalcOwn(s, m1, m).1;
    BooleanValue(s, mem, m, m1, newval);
    BooleanLast(s, m1, m, newval);
  }

  lemma ChoiceOwn(s: System, mem: Memory, c: nat)
    requires MemoryOk(s, mem) && c < |s.table| && c in s.groups.members && c !in s.groups.choiceOf && c in mem.valid
    requires s.table[c].ty == Boolean && mem.cells[c].selected == YES
    ensures CalcOwn(s, mem, c) == (mem, Value(YES, "n", None))
  {
    assert |s.user| == |s.table|;
    hide SystemOk, Goes;
  }

  /** A choice that a select forces to y comes to look at its members. */
  lemma ForcedChoice(s: System, mem: Memory, c: nat)
    requires MemoryOk(s, mem) && c < |s.table| && c in s.groups.members && c !in mem.valid && s.table[c].ty == Boolean
    requires CalcVisible(s, mem.(valid := mem.valid + {c}), c).cells[c].selected == YES
    ensures TriedOk(s, c, Candidates(s, c))
    ensures var m1 := SetCurr(CalcVisible(s, mem.(valid := mem.valid + {c}), c), c, Value(YES, "n", None));
      var (m2, pick) := PickFrom(s, m1, c, Candidates(s, c));
      CalcValue(s, mem, c) == SetCurr(m2, c, Value(if pick.None? then NO else YES, "n", pick))
  {
    CandidatesOk(s, c);
    assert c !in s.groups.choiceOf;
    hide SystemOk, Goes, CalcVisible, PickFrom, Candidates, CandidateOk, TriedOk, CalcOwn, CalcValue;
    var m := CalcVisible(s, mem.(valid := mem.valid + {c}), c);
    var m1 := SetCurr(m, c, Value(NO, "n", None));
    ChoiceOwn(s, m1, c);
    BooleanValue(s, mem, c, m1, Value(YES, "n", None));
    assert SetCurr(m1, c, Value(YES, "n", None)) == SetCurr(m, c, Value(YES, "n", None));
  }

  // the first candidate, with no condition, is taken when it is visible
  lemma TakesFirst(s: System, mem: Memory, c: nat, ks: seq<Candidate>)
    requires MemoryOk(s, mem) && TriedOk(s, c, ks) && ks != [] && ks[0].cond.None? && ks[0].member < |s.table|
    requires CalcVisible(s, mem, ks[0].member).cells[ks[0].member].visible != NO
    ensures PickFrom(s, mem, c, ks) == (CalcVisible(s, mem, ks[0].member), Some(ks[0].member))
  {
    assert CalcSyms(s, mem, []) == mem;
    hide SystemOk, Goes, CalcVisible, CandidateOk;
  }

  // a choice whose prompt has no condition, and whose only select is its own
  lemma LookAtChoice(s: System, mem: Memory, c: nat)
    requires MemoryOk(s, mem) && c < |s.table| && c !in s.groups.choiceOf && s.table[c].ty == Boolean
    requires s.table[c].props == [Prompt(None)] && s.table[c].revDep == Some(Symbol(SymMod))
    ensures CalcVisible(s, mem, c) == SetSelected(SetVisible(mem, c, YES), c, YES)
  {
    OnePrompt(s.table[c], s.modules, Now(s, mem), None);
    var m2 := SetVisible(mem, c, YES);
    assert Eval(Symbol(SymMod), Now(s, m2)) == MOD;
    assert CalcSyms(s, mem, []) == mem && CalcSyms(s, m2, []) == m2;
  }

  // a symbol with nothing but a default
  lemma LookAtPlain(s: System, mem: Memory, i: nat, cond: Option<Expr>, e: Expr)
    requires MemoryOk(s, mem) && i < |s.table| && i !in s.groups.choiceOf && s.table[i].ty == Boolean
    requires s.table[i].props == [Default(cond, e)] && s.table[i].revDep == None
    ensures CalcVisible(s, mem, i) == SetSelected(SetVisible(mem, i, NO), i, NO)
  {
    var d := s.table[i];
    assert d.props[..0] == [];
    assert PromptMax(d.props[..0], Now(s, mem)) == NO && PromptIds(d.props[..0]) == [];
    assert PromptIds(d.props) == [] && Visibility(d, s.modules, Now(s, mem)) == NO;
    var m2 := SetVisible(mem, i, NO);
    assert CalcSyms(s, mem, []) == mem && CalcSyms(s, m2, []) == m2;
  }

  lemma OneDefault(s: System, mem: Memory, i: nat, cond: Option<Expr>)
    requires MemoryOk(s, mem) && i < |s.table| && s.table[i].props == [Default(cond, Symbol(SymYes))]
    requires InTable(s, OptIds(cond)) && EvalOpt(cond, Now(s, CalcSyms(s, mem, OptIds(cond)))) == YES
    ensures CalcDefault(s, mem, i) == (CalcSyms(s, mem, OptIds(cond)), YES)
  {
    var m1, p := CalcSyms(s, mem, OptIds(cond)), Default(cond, Symbol(SymYes));
    assert Defaults(s.table[i].props) == [p] by { assert s.table[i].props[1..] == []; }
    assert CalcSyms(s, m1, []) == m1;
    PartsInTable(s, i);
    hide SystemOk, Goes;
    assert FindProp(s, mem, [p]) == (m1, Some(p));
  }

  // it comes to y when its condition does
  lemma FinishPlain(s: System, mem: Memory, i: nat, cond: Option<Expr>)
    requires MemoryOk(s, mem) && i < |s.table| && Ordinary(s.groups, i) && i !in mem.valid && s.table[i].ty == Boolean
    requires s.table[i].props == [Default(cond, Symbol(SymYes))] && s.table[i].revDep == None
    requires InTable(s, OptIds(cond))
    requires var m1 := Memory(mem.valid + {i}, mem.cells[i := Cell(Value(NO, "n", None), NO, NO)]);
      EvalOpt(cond, Now(s, CalcSyms(s, m1, OptIds(cond)))) == YES
    ensures var m1 := Memory(mem.valid + {i}, mem.cells[i := Cell(Value(NO, "n", None), NO, NO)]);
      CalcValue(s, mem, i) == SetCurr(CalcSyms(s, m1, OptIds(cond)), i, Value(YES, "n", None))
  {
    var m := mem.(valid := mem.valid + {i});
    LookAtPlain(s, m, i, cond, Symbol(SymYes));
    var m1 := Memory(m.valid, mem.cells[i := Cell(Value(NO, "n", None), NO, NO)]);
    assert SetCurr(SetSelected(SetVisible(m, i, NO), i, NO), i, Value(NO, "n", None)) == m1;
    OneDefault(s, m1, i, cond);
    var m2 := CalcSyms(s, m1, OptIds(cond));
    PlainOwn(s, m1, m2, i);
    hide SystemOk, Goes, CalcVisible, CalcOwn, CalcSyms, CalcLast;
    BooleanValue(s, mem, i, m2, Value(YES, "n", None));
    BooleanLast(s, m2, i, Value(YES, "n", None));
  }

  lemma PlainOwn(s: System, m1: Memory, m2: Memory, i: nat)
    requires MemoryOk(s, m1) && i < |s.table| && Ordinary(s.groups, i) && i in m1.valid && s.table[i].ty == Boolean
    requires m1.cells[i].visible == NO && m1.cells[i].selected == NO && CalcDefault(s, m1, i) == (m2, YES)
    ensures CalcOwn(s, m1, i) == (m2, Value(YES, "n", None))
  {
    assert |s.user| == |s.table|;
    hide SystemOk, Goes, CalcDefault;
  }

  // a choice with a prompt and nothing else
  predicate IsPlainChoice(s: System, c: nat) {
    && c < |s.table| && c in s.groups.members && c !in s.groups.choiceOf && s.table[c].ty == Boolean
    && s.table[c].props == [Prompt(None)] && s.table[c].revDep == Some(Symbol(SymMod))
  }

  /** A forced choice takes its first candidate, when that comes to be visible. */
  lemma TakesWhenVisible(s: System, mem: Memory, c: nat, mc: Memory, m: nat, m2: Memory)
    requires MemoryOk(s, mem) && c < |s.table| && c in s.groups.members && c !in mem.valid && s.table[c].ty == Boolean
    requires mc == CalcVisible(s, mem.(valid := mem.valid + {c}), c) && mc.cells[c].selected == YES
    requires m < |s.table| && |Candidates(s, c)| > 0 && Candidates(s, c)[0] == Candidate(None, m)
    requires MemoryOk(s, mc) && m2 == CalcVisible(s, SetCurr(mc, c, Value(YES, "n", None)), m)
    requires m2.cells[m].visible != NO
    ensures MemoryOk(s, m2) && CalcValue(s, mem, c) == SetCurr(m2, c, Value(YES, "n", Some(m)))
  {
    ForcedChoice(s, mem, c);
    hide *;
    TakesFirst(s, SetCurr(mc, c, Value(YES, "n", None)), c, Candidates(s, c));
  }

  // the two halves of sym_calc_visibility
  lemma VisibleIs(s: System, mem: Memory, i: nat, m1: Memory, tri: Tri, m3: Memory, sel: Tri)
    requires MemoryOk(s, mem) && i < |s.table| && i !in s.groups.choiceOf && InTable(s, PromptIds(s.table[i].props))
    requires m1 == CalcSyms(s, mem, PromptIds(s.table[i].props)) && tri == Visibility(s.table[i], s.modules, Now(s, m1))
    requires InTable(s, OptIds(s.table[i].revDep)) &&
      m3 == CalcSyms(s, SetVisible(m1, i, tri), OptIds(s.table[i].revDep))
    requires sel == Selected(s.table[i], s.modules, Now(s, m3))
    ensures CalcVisible(s, mem, i) == SetSelected(m3, i, sel)
  {
    hide SystemOk, Goes, Visibility, Selected, Now;
  }

  /** It takes its first candidate, when that comes to be visible. */
  lemma TakesVisible(s: System, mem: Memory, c: nat, m: nat, m2: Memory)
    requires MemoryOk(s, mem) && IsPlainChoice(s, c) && c !in mem.valid && m < |s.table|
    requires |Candidates(s, c)| > 0 && Candidates(s, c)[0] == Candidate(None, m)
    requires m2 == CalcVisible(s, Memory(mem.valid + {c}, mem.cells[c := Cell(Value(YES, "n", None), YES, YES)]), m)
    requires m2.cells[m].visible != NO
    ensures MemoryOk(s, m2) && CalcValue(s, mem, c) == SetCurr(m2, c, Value(YES, "n", Some(m)))
  {
    var m0 := mem.(valid := mem.valid + {c});
    var m1 := Memory(m0.valid, mem.cells[c := Cell(Value(YES, "n", None), YES, YES)]);
    LookAtChoice(s, m0, c);
    ForcedChoice(s, mem, c);
    assert MemoryOk(s, m1);
    hide *;
    ChoiceCell(m0, c, m1);
    TakesFirst(s, m1, c, Candidates(s, c));
  }

  /** And that is so at once when all its prompt mentions is VALID. */
  lemma PlainChoice(s: System, mem: Memory, c: nat, m: nat, cond: Expr)
    requires MemoryOk(s, mem) && IsPlainChoice(s, c) && c !in mem.valid && m < |s.table| && m != c
    requires |Candidates(s, c)| > 0 && Candidates(s, c)[0] == Candidate(None, m) && m in s.groups.choiceOf
    requires s.table[m].ty == Boolean && s.table[m].props == [Prompt(Some(cond))]
    requires forall j :: j in ExprIds(cond) ==> j == c || j in mem.valid
    requires Eval(cond, Now(s, Memory(mem.valid + {c}, mem.cells[c := Cell(Value(YES, "n", None), YES, YES)]))) != NO
    ensures CalcValue(s, mem, c) == Memory(mem.valid + {c},
      mem.cells[c := Cell(Value(YES, "n", Some(m)), YES, YES)][m := mem.cells[m].(visible := YES)])
  {
    var m1 := Memory(mem.valid + {c}, mem.cells[c := Cell(Value(YES, "n", None), YES, YES)]);
    assert MemoryOk(s, m1) && forall j :: j in ExprIds(cond) ==> j in m1.valid;
    hide *;
    MemberShown(s, m1, m, cond);
    TakesVisible(s, mem, c, m, CalcVisible(s, m1, m));
    PickedCells(mem, c, m, m1);
  }

  lemma ChoiceCell(mem: Memory, c: nat, m1: Memory)
    requires c < |mem.cells| && m1 == Memory(mem.valid, mem.cells[c := Cell(Value(YES, "n", None), YES, YES)])
    ensures SetCurr(SetSelected(SetVisible(mem, c, YES), c, YES), c, Value(YES, "n", None)) == m1
    ensures SetSelected(SetVisible(mem, c, YES), c, YES).cells[c].selected == YES
  {
  }

  lemma MemberShown(s: System, mem: Memory, m: nat, cond: Expr)
    requires MemoryOk(s, mem) && m < |s.table| && m in s.groups.choiceOf
    requires s.table[m].ty == Boolean && s.table[m].props == [Prompt(Some(cond))]
    requires (forall j :: j in ExprIds(cond) ==> j in mem.valid) && Eval(cond, Now(s, mem)) != NO
    ensures CalcVisible(s, mem, m) == SetVisible(mem, m, YES) && SetVisible(mem, m, YES).cells[m].visible == YES
  {
    OnePrompt(s.table[m], s.modules, Now(s, mem), Some(cond));
    LookAtMember(s, mem, m);
  }

  lemma PickedCells(mem: Memory, c: nat, m: nat, m1: Memory)
    requires c < |mem.cells| && m < |mem.cells| && m != c
    requires m1 == Memory(mem.valid + {c}, mem.cells[c := Cell(Value(YES, "n", None), YES, YES)])
    ensures SetCurr(SetVisible(m1, m, YES), c, Value(YES, "n", Some(m))) == Memory(mem.valid + {c},
      mem.cells[c := Cell(Value(YES, "n", Some(m)), YES, YES)][m := mem.cells[m].(visible := YES)])
  {
  }

  // ---------- a choice at y without a member at y ----------

  function B(i: nat): Expr {
    Symbol(Config(i, Boolean))
  }

  const ChoiceDef := SymDef(Boolean, "", [Prompt(None)], Some(Symbol(SymMod)))
  const NoUser := UserValue(false, NO, "")

  /** A choice, its members J, "depends on !X", and K, and X, which stands in a menu within
      the choice and is y by default. */
  function Shared(modules: Tri): System {
    System(
      [ChoiceDef,
       SymDef(Boolean, "J", [Prompt(Some(Bin(AndOp, B(0), Not(B(3)))))], None),
       SymDef(Boolean, "K", [Prompt(Some(B(0)))], None),
       SymDef(Boolean, "X", [Default(Some(B(0)), Symbol(SymYes))], None)],
      Groups(map[0 := [1, 2]], map[1 := 0, 2 := 0]), modules, [NoUser, NoUser, NoUser, NoUser], map[])
  }

  const Untouched := Cell(Value(NO, "", None), NO, NO)

  // as the program's memory is at the start
  function Start(s: System): Memory {
    Memory({}, seq(|s.table|, i => Untouched))
  }

  lemma SharedOk(modules: Tri)
    ensures SystemOk(Shared(modules))
  {
    var s := Shared(modules);
    var t := s.table;
    assert ExprOk(t, B(0)) && ExprOk(t, Not(B(3))) && ExprOk(t, Bin(AndOp, B(0), Not(B(3))));
    forall i | 0 <= i < |t|
      ensures OptOk(t, t[i].revDep) && forall p :: p in t[i].props ==> PropOk(t, p)
    {
      assert t[i].props == [t[i].props[0]] && PropOk(t, t[i].props[0]);
    }
    assert forall p :: p in t[0].props ==> p == Prompt(None);
  }

  // the choice, when X has its provisional value
  lemma SharedChoice(modules: Tri, mem: Memory)
    requires MemoryOk(Shared(modules), mem)
    requires mem == Memory({3}, [Untouched, Untouched, Untouched, Cell(Value(NO, "n", None), NO, NO)])
    ensures CalcValue(Shared(modules), mem, 0) == Memory({3, 0},
      [Cell(Value(YES, "n", Some(1)), YES, YES), Cell(Value(NO, "", None), YES, NO), Untouched,
        Cell(Value(NO, "n", None), NO, NO)])
  {
    var s, cond := Shared(modules), Bin(AndOp, B(0), Not(B(3)));
    SharedParts(modules);
    hide *;
    PlainChoice(s, mem, 0, 1, cond);
    TwoCells(mem);
  }

  lemma SharedParts(modules: Tri)
    ensures var s, cond := Shared(modules), Bin(AndOp, B(0), Not(B(3)));
      && IsPlainChoice(s, 0) && |s.table| == 4 && 1 in s.groups.choiceOf
      && s.table[1].ty == Boolean && s.table[1].props == [Prompt(Some(cond))]
      && |Candidates(s, 0)| > 0 && Candidates(s, 0)[0] == Candidate(None, 1)
    ensures forall j :: j in ExprIds(Bin(AndOp, B(0), Not(B(3)))) ==> j == 0 || j == 3
    ensures forall mem: Memory :: |mem.cells| == 4 && mem.cells[0].curr.tri == YES && mem.cells[3].curr.tri == NO ==>
      Eval(Bin(AndOp, B(0), Not(B(3))), Now(Shared(modules), mem)) == YES
  {
    var s := Shared(modules);
    assert IsPlainChoice(s, 0);
    FirstCandidate(s, 0);
    forall mem: Memory | |mem.cells| == 4 && mem.cells[0].curr.tri == YES && mem.cells[3].curr.tri == NO
      ensures Eval(Bin(AndOp, B(0), Not(B(3))), Now(Shared(modules), mem)) == YES
    {
      SharedState(modules, mem);
    }
  }

  lemma TwoCells(mem: Memory)
    requires mem.cells == [Untouched, Untouched, Untouched, Cell(Value(NO, "n", None), NO, NO)]
    ensures mem.cells[0 := Cell(Value(YES, "n", Some(1)), YES, YES)][1 := mem.cells[1].(visible := YES)] ==
      [Cell(Value(YES, "n", Some(1)), YES, YES), Cell(Value(NO, "", None), YES, NO), Untouched,
        Cell(Value(NO, "n", None), NO, NO)]
  {
  }

  // the choice at y, X at n
  lemma SharedState(modules: Tri, mem: Memory)
    requires |mem.cells| == 4 && mem.cells[0].curr.tri == YES && mem.cells[3].curr.tri == NO
    ensures Eval(Bin(AndOp, B(0), Not(B(3))), Now(Shared(modules), mem)) == YES
  {
    var v := Now(Shared(modules), mem);
    assert Eval(B(0), v) == YES && Eval(B(3), v) == NO;
    assert Eval(Not(B(3)), v) == YES;
  }

  lemma FirstCandidate(s: System, c: nat)
    requires IsPlainChoice(s, c) && |s.groups.members[c]| > 0 && c !in s.picks
    ensures |Candidates(s, c)| > 0 && Candidates(s, c)[0] == Candidate(None, s.groups.members[c][0])
  {
    assert DefaultCandidates(s.table[c].props) == [] by { assert s.table[c].props[1..] == []; }
  }

  /** Nothing that the dependency check watches is cyclic. But the choice, taken with its
      members, is. */
  lemma SharedUnwatched(modules: Tri)
    ensures var s := Shared(modules);
      && GroupsPlain(s) && ConstantRanges(s.table)
      && !Cyclic(Watched(s.table, s.groups)) && Cyclic(Contracted(s.table, s.groups))
  {
    SharedOk(modules);
    SharedPlain(modules);
    SharedFollows(modules);
    assert GroupsPlain(Shared(modules));
    hide *;
    SharedWatched(Shared(modules).table, Shared(modules).groups);
    SharedContracted(Shared(modules).table, Shared(modules).groups);
  }

  lemma SharedPlain(modules: Tri)
    ensures var s := Shared(modules);
      MembersGuarded(s.table, s.groups) && MembersPlain(s.table, s.groups) && ConstantRanges(s.table)
      && s.groups == Groups(map[0 := [1, 2]], map[1 := 0, 2 := 0])
  {
    var s := Shared(modules);
    assert forall i, p :: 0 <= i < |s.table| && p in s.table[i].props ==> p == s.table[i].props[0];
    assert Guarded(B(0), ChoiceSym(s.table, 0)) && Guarded(Bin(AndOp, B(0), Not(B(3))), ChoiceSym(s.table, 0));
  }

  ghost predicate FollowsShared(t: Table, gs: Groups) {
    forall i: nat, j: nat :: Follows(t, gs, i, j) <==>
      (i == 1 && (j == 0 || j == 3)) || (i == 2 && j == 0) || (i == 3 && j == 0)
  }

  lemma SharedWatched(t: Table, gs: Groups)
    requires FollowsShared(t, gs) && gs == Groups(map[0 := [1, 2]], map[1 := 0, 2 := 0])
    ensures !Cyclic(Watched(t, gs))
  {
    hide Follows;
    var order := [Own(0), Own(3), Members(0)];
    forall a: Stage, b: Stage | (a, b) in Watched(t, gs)
      ensures a == Own(3) || a == Members(0)
      ensures b == Own(0) || (a == Members(0) && b == Own(3))
    {
    }
    assert order[..1] == [Own(0)] && order[..2] == [Own(0), Own(3)];
    OrderedIsAcyclic(Watched(t, gs), order);
  }

  lemma SharedContracted(t: Table, gs: Groups)
    requires FollowsShared(t, gs) && gs == Groups(map[0 := [1, 2]], map[1 := 0, 2 := 0])
    ensures Cyclic(Contracted(t, gs))
  {
    hide Follows;
    assert InGroup(gs, 0, 1);
    assert Connects(t, gs, 0, 3) by { assert WholeOf(gs, 1) == 0 && WholeOf(gs, 3) == 3 && !InGroup(gs, 3, 1); }
    assert Connects(t, gs, 3, 0) by { assert WholeOf(gs, 3) == 3 && WholeOf(gs, 0) == 0 && !InGroup(gs, 0, 3); }
    var p: seq<nat> := [0, 3, 0];
    assert IsCycle(Contracted(t, gs), p);
  }

  lemma SharedFollows(modules: Tri)
    ensures FollowsShared(Shared(modules).table, Shared(modules).groups)
  {
    var t, gs := Shared(modules).table, Shared(modules).groups;
    assert forall i: nat, p :: i < 4 && p in t[i].props ==> p == t[i].props[0];
    assert forall i: nat :: i < 4 ==> t[i].props[0] in t[i].props;
    assert FollowedRefs(t[0].props[0], true) == {};
    assert FollowedRefs(t[1].props[0], false) == {0, 3};
    assert FollowedRefs(t[2].props[0], false) == {0};
    assert FollowedRefs(t[3].props[0], false) == {0};
    assert OptRefs(t[0].revDep) == {};
  }

  /** X is calculated first, and on the way the choice, which sees X at n and picks J. When all
      are calculated the choice is at y, K is visible, and no member is at y. */
  lemma NoMemberAtYes(modules: Tri) returns (mem: Memory)
    ensures var s := Shared(modules);
      && MemoryOk(s, Start(s)) && mem == CalcValue(s, CalcValue(s, CalcValue(s, Start(s), 3), 1), 2)
      && mem.valid == {0, 1, 2, 3}
      && mem.cells[0].curr == Value(YES, "n", Some(1)) && mem.cells[3].curr.tri == YES
      && mem.cells[1].curr.tri == NO && mem.cells[2].curr.tri == NO && mem.cells[2].visible == YES
  {
    var m3 := SharedFirst(modules);
    SharedOk(modules);
    SharedMembers(modules);
    hide SystemOk, CalcValue, Shared, Goes, Start;
    SharedJ(modules, m3);
    var m1 := CalcValue(Shared(modules), m3, 1);
    SharedK(modules, m1);
    mem := CalcValue(Shared(modules), m1, 2);
  }

  // J depends on X, which is at y
  lemma SharedJ(modules: Tri, mem: Memory)
    requires MemoryOk(Shared(modules), mem) && 0 in mem.valid && 3 in mem.valid && 1 !in mem.valid
    requires |mem.cells| == 4 && mem.cells[3].curr.tri == YES && mem.cells[1].selected == NO
    ensures CalcValue(Shared(modules), mem, 1) ==
      Memory(mem.valid + {1}, mem.cells[1 := Cell(Value(NO, "n", None), NO, NO)])
  {
    var s, cond := Shared(modules), Bin(AndOp, B(0), Not(B(3)));
    SharedMembers(modules);
    ReadsCell(s, mem, 3);
    assert EvalOpt(Some(cond), Now(s, mem)) == NO;
    assert forall j :: j in OptIds(Some(cond)) ==> j == 0 || j == 3;
    hide *;
    FinishMember(s, mem, 1, Some(cond));
  }

  // K is visible, but the choice has chosen J
  lemma SharedK(modules: Tri, mem: Memory)
    requires MemoryOk(Shared(modules), mem) && 0 in mem.valid && 2 !in mem.valid
    requires |mem.cells| == 4 && mem.cells[0].curr == Value(YES, "n", Some(1)) && mem.cells[2].selected == NO
    ensures CalcValue(Shared(modules), mem, 2) ==
      Memory(mem.valid + {2}, mem.cells[2 := Cell(Value(NO, "n", None), YES, NO)])
  {
    var s := Shared(modules);
    SharedMembers(modules);
    ReadsCell(s, mem, 0);
    assert EvalOpt(Some(B(0)), Now(s, mem)) == YES && ChosenBy(s, mem, 2) == Some(1);
    assert forall j :: j in OptIds(Some(B(0))) ==> j == 0;
    hide *;
    FinishMember(s, mem, 2, Some(B(0)));
  }

  lemma ReadsCell(s: System, mem: Memory, i: nat)
    requires MemoryOk(s, mem) && i < |s.table| && s.table[i].ty == Boolean
    ensures Eval(B(i), Now(s, mem)) == mem.cells[i].curr.tri
  {
    hide SystemOk;
  }

  lemma SharedMembers(modules: Tri)
    ensures var s := Shared(modules);
      && |s.table| == 4 && (forall i :: 0 <= i < 4 ==> s.table[i].ty == Boolean)
      && s.table[1].props == [Prompt(Some(Bin(AndOp, B(0), Not(B(3)))))] && s.table[2].props == [Prompt(Some(B(0)))]
      && 1 in s.groups.choiceOf && s.groups.choiceOf[1] == 0 && 2 in s.groups.choiceOf && s.groups.choiceOf[2] == 0
    ensures ExprIds(Bin(AndOp, B(0), Not(B(3)))) == [0, 3] && ExprIds(B(0)) == [0]
  {
  }

  lemma SharedFirst(modules: Tri) returns (mem: Memory)
    ensures var s := Shared(modules); MemoryOk(s, Start(s)) && mem == CalcValue(s, Start(s), 3)
    ensures mem == Memory({3, 0}, [Cell(Value(YES, "n", Some(1)), YES, YES), Cell(Value(NO, "", None), YES, NO),
      Untouched,
      Cell(Value(YES, "n", None), NO, NO)])
  {
    var s := Shared(modules);
    var m1 := Memory({3}, [Untouched, Untouched, Untouched, Cell(Value(NO, "n", None), NO, NO)]);
    SharedX(modules);
    hide *;
    SharedChoice(modules, m1);
    var m2 := CalcValue(s, m1, 0);
    OneSym(s, m1, 0);
    ReadsCell(s, m2, 0);
    OptIs(B(0), Now(s, m2));
    FinishPlain(s, Start(s), 3, Some(B(0)));
    SetsLast(m2, Value(YES, "n", None));
    mem := SetCurr(m2, 3, Value(YES, "n", None));
  }

  // what is known of X, and memory as it is when X has its provisional value
  lemma SharedX(modules: Tri)
    ensures var s := Shared(modules); var x := s.table[3];
      && |s.table| == 4 && s.table[0].ty == Boolean && x.ty == Boolean && x.revDep == None
      && x.props == [Default(Some(B(0)), Symbol(SymYes))] && Ordinary(s.groups, 3)
      && OptIds(Some(B(0))) == [0] && InTable(s, [0]) && MemoryOk(s, Start(s)) && Start(s).valid == {}
    ensures var s := Shared(modules); var cell := Cell(Value(NO, "n", None), NO, NO);
      var m1 := Memory({3}, [Untouched, Untouched, Untouched, cell]);
      MemoryOk(s, m1) && Memory(Start(s).valid + {3}, Start(s).cells[3 := cell]) == m1
  {
    SharedOk(modules);
    hide SystemOk;
  }

  lemma OptIs(e: Expr, v: Valuation)
    ensures EvalOpt(Some(e), v) == Eval(e, v)
  {
  }

  lemma SetsLast(mem: Memory, val: Value)
    requires |mem.cells| == 4
    ensures SetCurr(mem, 3, val) == mem.(cells := mem.cells[3 := mem.cells[3].(curr := val)])
  {
  }

  lemma OneSym(s: System, mem: Memory, i: nat)
    requires MemoryOk(s, mem) && i < |s.table|
    ensures CalcSyms(s, mem, [i]) == CalcValue(s, mem, i)
  {
    hide SystemOk, CalcValue, Goes;
    assert [i][1..] == [];
  }
}
