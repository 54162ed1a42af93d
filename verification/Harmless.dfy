/** A table in which a choice, taken with its members, depends on itself, and which is
    calculated alike in every order: that condition is not necessary
    (package/config/symbol.c). */
module Harmless {
  import opened Wrappers
  import opened Exprs
  import opened Graphs
  import opened Symbols
  import opened Evaluation
  import opened Calculation
  import opened Evaluator
  import opened Orders

  // "depends on X || !X", under the choice
  const Always := Bin(AndOp, B(0), Bin(OrOp, B(2), Not(B(2))))

  function Loose(modules: Tri): System {
    System(
      [ChoiceDef,
       SymDef(Boolean, "M", [Prompt(Some(Always))], None),
       SymDef(Boolean, "X", [Default(Some(B(0)), Symbol(SymYes))], None)],
      Groups(map[0 := [1]], map[1 := 0]), modules, [NoUser, NoUser, NoUser], map[])
  }

  ghost predicate IsLoose(s: System) {
    exists modules: Tri :: s == Loose(modules)
  }

  lemma LooseOk(modules: Tri)
    ensures SystemOk(Loose(modules))
  {
    var s := Loose(modules);
    var t := s.table;
    assert ExprOk(t, B(0)) && ExprOk(t, B(2)) && ExprOk(t, Not(B(2))) && ExprOk(t, Bin(OrOp, B(2), Not(B(2))));
    assert ExprOk(t, Always);
    forall i | 0 <= i < |t|
      ensures OptOk(t, t[i].revDep) && forall p :: p in t[i].props ==> PropOk(t, p)
    {
      assert t[i].props == [t[i].props[0]] && PropOk(t, t[i].props[0]);
    }
    assert forall p :: p in t[0].props ==> p == Prompt(None);
  }

  lemma LooseParts(s: System)
    requires IsLoose(s)
    ensures |s.table| == 3 && (forall i :: 0 <= i < 3 ==> s.table[i].ty == Boolean) && IsPlainChoice(s, 0)
    ensures s.table[1].props == [Prompt(Some(Always))] && Ordinary(s.groups, 2) && s.table[2].revDep == None
    ensures s.table[2].props == [Default(Some(B(0)), Symbol(SymYes))]
    ensures s.groups == Groups(map[0 := [1]], map[1 := 0])
    ensures |Candidates(s, 0)| > 0 && Candidates(s, 0)[0] == Candidate(None, 1)
    ensures ExprIds(Always) == [0, 2, 2] && ExprIds(B(0)) == [0] && OptIds(Some(B(0))) == [0]
  {
    assert IsPlainChoice(s, 0);
    FirstCandidate(s, 0);
  }

  lemma AlwaysMet(s: System, mem: Memory)
    requires IsLoose(s) && MemoryOk(s, mem)
    requires mem.cells[0].curr.tri == YES && mem.cells[2].curr.tri != MOD
    ensures Eval(Always, Now(s, mem)) == YES
  {
    LooseParts(s);
    ReadsCell(s, mem, 0);
    ReadsCell(s, mem, 2);
  }

  // X, once the choice is at y
  lemma LooseX(s: System, mem: Memory)
    requires IsLoose(s) && MemoryOk(s, mem) && 0 in mem.valid && 2 !in mem.valid
    requires mem.cells[0].curr.tri == YES
    ensures CalcValue(s, mem, 2) == Memory(mem.valid + {2}, mem.cells[2 := Cell(Value(YES, "n", None), NO, NO)])
  {
    LooseParts(s);
    var m1 := Memory(mem.valid + {2}, mem.cells[2 := Cell(Value(NO, "n", None), NO, NO)]);
    assert MemoryOk(s, m1);
    ReadsCell(s, m1, 0);
    AllValid(s, m1, [0]);
    assert SetCurr(m1, 2, Value(YES, "n", None)) ==
      Memory(mem.valid + {2}, mem.cells[2 := Cell(Value(YES, "n", None), NO, NO)]);
    hide SystemOk, CalcValue, Goes, Now, IsLoose, CalcSyms;
    FinishPlain(s, mem, 2, Some(B(0)));
  }

  // the choice takes its member, whether X is calculated already or not
  function ChoiceTaken(mem: Memory): Memory
    requires |mem.cells| == 3
  {
    var cells := mem.cells[0 := Cell(Value(YES, "n", Some(1)), YES, YES)][1 := mem.cells[1].(visible := YES)];
    if 2 in mem.valid then Memory(mem.valid + {0}, cells)
    else Memory(mem.valid + {0, 2}, cells[2 := Cell(Value(YES, "n", None), NO, NO)])
  }

  lemma LooseChoice(s: System, mem: Memory)
    requires IsLoose(s) && MemoryOk(s, mem) && 0 !in mem.valid
    requires mem.cells[2].curr.tri != MOD
    ensures CalcValue(s, mem, 0) == ChoiceTaken(mem)
  {
    LooseParts(s);
    var m1 := Memory(mem.valid + {0}, mem.cells[0 := Cell(Value(YES, "n", None), YES, YES)]);
    assert MemoryOk(s, m1);
    LookAtM(s, m1);
    var m2 := CalcVisible(s, m1, 1);
    TakenCells(mem, m1);
    hide SystemOk, CalcValue, CalcVisible, Goes, Now, IsLoose, Candidates, ChoiceTaken, XKnown;
    TakesVisible(s, mem, 0, 1, m2);
  }

  // X is calculated, and M visible
  function XKnown(mem: Memory): Memory
    requires |mem.cells| == 3
  {
    var m := if 2 in mem.valid then mem else Memory(mem.valid + {2},
      mem.cells[2 := Cell(Value(YES, "n", None), NO, NO)]);
    SetVisible(m, 1, YES)
  }

  lemma TakenCells(mem: Memory, m1: Memory)
    requires |mem.cells| == 3 && m1 == Memory(mem.valid + {0}, mem.cells[0 := Cell(Value(YES, "n", None), YES, YES)])
    ensures SetCurr(XKnown(m1), 0, Value(YES, "n", Some(1))) == ChoiceTaken(mem) && XKnown(m1).cells[1].visible == YES
  {
    assert mem.valid + {0} + {2} == mem.valid + {0, 2};
  }

  lemma LookAtM(s: System, mem: Memory)
    requires IsLoose(s) && MemoryOk(s, mem) && 0 in mem.valid
    requires mem.cells[0].curr.tri == YES && mem.cells[2].curr.tri != MOD
    ensures CalcVisible(s, mem, 1) == XKnown(mem)
  {
    LooseParts(s);
    if 2 !in mem.valid {
      LooseX(s, mem);
    }
    var m1 := if 2 in mem.valid then mem else CalcValue(s, mem, 2);
    AlwaysMet(s, m1);
    AlwaysSyms(s, mem, m1);
    OnePrompt(s.table[1], s.modules, Now(s, m1), Some(Always));
    hide SystemOk, CalcValue, Goes, Now, IsLoose, CalcSyms;
  }

  lemma AlwaysSyms(s: System, mem: Memory, m1: Memory)
    requires MemoryOk(s, mem) && |s.table| == 3 && 0 in mem.valid
    requires m1 == if 2 in mem.valid then mem else CalcValue(s, mem, 2)
    ensures InTable(s, [0, 2, 2]) && CalcSyms(s, mem, [0, 2, 2]) == m1
  {
    AllValid(s, mem, [0]);
    AllValid(s, m1, [2]);
    if 2 in mem.valid {
      AllValid(s, mem, [2]);
    } else {
      OneSym(s, mem, 2);
    }
    assert [0, 2, 2] == [0] + ([2] + [2]);
    hide SystemOk, Goes, CalcValue, CalcSyms;
    SymsAppend(s, mem, [0], [2] + [2]);
    SymsAppend(s, mem, [2], [2]);
  }

  // X first: the choice is calculated on the way, and takes its member all the same
  lemma LooseXFirst(s: System, mem: Memory)
    requires IsLoose(s) && MemoryOk(s, mem) && 0 !in mem.valid && 2 !in mem.valid
    ensures var m1 := Memory(mem.valid + {2}, mem.cells[2 := Cell(Value(NO, "n", None), NO, NO)]);
      CalcValue(s, mem, 2) == SetCurr(ChoiceTaken(m1), 2, Value(YES, "n", None))
  {
    LooseParts(s);
    var m1 := Memory(mem.valid + {2}, mem.cells[2 := Cell(Value(NO, "n", None), NO, NO)]);
    assert MemoryOk(s, m1);
    LooseChoice(s, m1);
    OneSym(s, m1, 0);
    ReadsCell(s, ChoiceTaken(m1), 0);
    hide SystemOk, CalcValue, Goes, Now, IsLoose, CalcSyms;
    FinishPlain(s, mem, 2, Some(B(0)));
  }

  // M first: the same
  lemma LooseMFirst(s: System, mem: Memory)
    requires IsLoose(s) && MemoryOk(s, mem) && 0 !in mem.valid && 1 !in mem.valid
    requires mem.cells[2].curr.tri != MOD && mem.cells[1].selected == NO
    ensures var m0 := mem.(valid := mem.valid + {1});
      CalcValue(s, mem, 1) == SetCurr(ChoiceTaken(m0), 1, Value(YES, "n", None))
  {
    LooseParts(s);
    var m0 := mem.(valid := mem.valid + {1});
    var mc := ChoiceTaken(m0);
    LooseMLook(s, m0);
    var m1 := SetCurr(mc, 1, Value(NO, "n", None));
    assert MemoryOk(s, m1) && m1.cells[1].visible == YES && m1.cells[1].selected == NO && 1 in m1.valid;
    assert ChosenBy(s, m1, 1) == Some(1) && 1 in s.groups.choiceOf && 1 !in s.groups.members;
    assert SetCurr(m1, 1, Value(YES, "n", None)) == SetCurr(mc, 1, Value(YES, "n", None));
    hide *;
    MemberOwn(s, m1, 1, Some(Always));
    BooleanValue(s, mem, 1, m1, Value(YES, "n", None));
    BooleanLast(s, m1, 1, Value(YES, "n", None));
  }

  lemma LooseMLook(s: System, mem: Memory)
    requires IsLoose(s) && MemoryOk(s, mem) && 0 !in mem.valid
    requires mem.cells[2].curr.tri != MOD
    ensures MemoryOk(s, ChoiceTaken(mem)) && CalcVisible(s, mem, 1) == ChoiceTaken(mem)
  {
    LooseParts(s);
    MLooked(s, mem);
    MShown(s, ChoiceTaken(mem));
    hide *;
    LookAfter(s, mem, 1, ChoiceTaken(mem));
  }

  lemma MLooked(s: System, mem: Memory)
    requires IsLoose(s) && MemoryOk(s, mem) && 0 !in mem.valid && mem.cells[2].curr.tri != MOD
    ensures var mc := ChoiceTaken(mem);
      && MemoryOk(s, mc) && SetVisible(mc, 1, YES) == mc && mc.cells[0].curr.tri == YES && mc.cells[2].curr.tri != MOD
      && InTable(s, [0, 2, 2]) && mc == CalcSyms(s, mem, [0, 2, 2])
  {
    LooseParts(s);
    LooseChoice(s, mem);
    hide CalcValue, SystemOk, IsLoose;
    ChoiceSyms(s, mem, ChoiceTaken(mem));
  }

  lemma MShown(s: System, mem: Memory)
    requires IsLoose(s) && MemoryOk(s, mem)
    requires mem.cells[0].curr.tri == YES && mem.cells[2].curr.tri != MOD
    ensures PromptIds(s.table[1].props) == [0, 2, 2] && Visibility(s.table[1], s.modules, Now(s, mem)) == YES
  {
    LooseParts(s);
    AlwaysMet(s, mem);
    OnePrompt(s.table[1], s.modules, Now(s, mem), Some(Always));
  }

  lemma ChoiceSyms(s: System, mem: Memory, mc: Memory)
    requires MemoryOk(s, mem) && MemoryOk(s, mc) && |s.table| == 3 && mc == CalcValue(s, mem, 0) && 2 in mc.valid
    ensures InTable(s, [0, 2, 2]) && CalcSyms(s, mem, [0, 2, 2]) == mc
  {
    AllValid(s, mc, [2]);
    OneSym(s, mem, 0);
    assert [0, 2, 2] == [0] + ([2] + [2]);
    hide SystemOk, Goes, CalcValue, CalcSyms;
    SymsAppend(s, mem, [0], [2] + [2]);
    SymsAppend(s, mc, [2], [2]);
  }

  // M, once the rest is calculated
  lemma LooseMLast(s: System, mem: Memory)
    requires IsLoose(s) && MemoryOk(s, mem) && 1 !in mem.valid
    requires 0 in mem.valid && 2 in mem.valid && mem.cells[1].selected == NO
    requires mem.cells[0].curr == Value(YES, "n", Some(1)) && mem.cells[2].curr.tri == YES
    ensures CalcValue(s, mem, 1) == Memory(mem.valid + {1}, mem.cells[1 := Cell(Value(YES, "n", None), YES, NO)])
  {
    LooseParts(s);
    AlwaysMet(s, mem);
    assert ChosenBy(s, mem, 1) == Some(1) && EvalOpt(Some(Always), Now(s, mem)) == YES;
    assert forall j :: j in OptIds(Some(Always)) ==> j == 0 || j == 2;
    hide *;
    FinishMember(s, mem, 1, Some(Always));
  }

  /** What is calculated is so for good: the choice and its member at y, and X. */
  ghost predicate Fine(mem: Memory) {
    && |mem.cells| == 3 && mem.cells[1].selected == NO && mem.cells[2].curr.tri != MOD
    && (0 in mem.valid ==> mem.cells[0].curr == Value(YES, "n", Some(1)) && 2 in mem.valid)
    && (1 in mem.valid ==> mem.cells[1].curr.tri == YES && 0 in mem.valid)
    && (2 in mem.valid ==> mem.cells[2].curr.tri == YES && 0 in mem.valid)
  }

  lemma StaysFine(s: System, mem: Memory, i: nat)
    requires IsLoose(s) && MemoryOk(s, mem) && Fine(mem) && i < |s.table|
    ensures Fine(CalcValue(s, mem, i))
  {
    LooseParts(s);
    FineCells(mem);
    if i in mem.valid {
      assert CalcValue(s, mem, i) == mem;
    } else {
      hide *;
      if i == 0 {
        LooseChoice(s, mem);
      } else if i == 1 {
        if 0 in mem.valid {
          LooseMLast(s, mem);
        } else {
          LooseMFirst(s, mem);
        }
      } else {
        LooseXFirst(s, mem);
      }
    }
  }

  // the cells after each of the steps
  lemma FineCells(mem: Memory)
    requires Fine(mem)
    ensures |mem.cells| == 3
    ensures 0 !in mem.valid ==>
      mem.cells[2].curr.tri != MOD && 2 !in mem.valid && 1 !in mem.valid && Fine(ChoiceTaken(mem))
    ensures 2 !in mem.valid ==> 0 !in mem.valid
    ensures 0 in mem.valid ==>
      2 in mem.valid && mem.cells[2].curr.tri == YES && mem.cells[0].curr == Value(YES, "n", Some(1))
    ensures mem.cells[1].selected == NO
    ensures 0 in mem.valid ==> Fine(Memory(mem.valid + {1}, mem.cells[1 := Cell(Value(YES, "n", None), YES, NO)]))
    ensures 0 !in mem.valid ==>
      Fine(SetCurr(ChoiceTaken(mem.(valid := mem.valid + {1})), 1, Value(YES, "n", None)))
    ensures 2 !in mem.valid ==>
      var m1 := Memory(mem.valid + {2}, mem.cells[2 := Cell(Value(NO, "n", None), NO, NO)]);
      Fine(SetCurr(ChoiceTaken(m1), 2, Value(YES, "n", None)))
  {
  }

  /** Whatever is calculated, in whatever order, comes to the same; and yet the choice, taken
      with its members, depends on itself. */
  lemma {:induction false} AnyOrder(modules: Tri, ids: seq<nat>)
    requires forall j :: j in ids ==> j < 3
    ensures var s := Loose(modules);
      MemoryOk(s, Start(s)) && InTable(s, ids) && Fine(CalcSyms(s, Start(s), ids))
  {
    LooseOk(modules);
    var s := Loose(modules);
    FineSyms(s, Start(s), ids);
  }

  lemma {:induction false} FineSyms(s: System, mem: Memory, ids: seq<nat>)
    requires IsLoose(s) && MemoryOk(s, mem) && Fine(mem) && InTable(s, ids)
    ensures Fine(CalcSyms(s, mem, ids))
    decreases |ids|
  {
    hide SystemOk, Goes, IsLoose, CalcValue, Fine;
    if ids != [] {
      assert ids[0] in ids && forall j :: j in ids[1..] ==> j in ids;
      StaysFine(s, mem, ids[0]);
      FineSyms(s, CalcValue(s, mem, ids[0]), ids[1..]);
    }
  }

  lemma LooseCyclic(modules: Tri)
    ensures var s := Loose(modules); Cyclic(Contracted(s.table, s.groups))
  {
    var t, gs := Loose(modules).table, Loose(modules).groups;
    assert t[1].props[0] in t[1].props && t[2].props[0] in t[2].props;
    assert 2 in FollowedRefs(t[1].props[0], false) && 0 in FollowedRefs(t[2].props[0], false);
    assert Follows(t, gs, 1, 2) && Follows(t, gs, 2, 0);
    assert Connects(t, gs, 0, 2) by { assert WholeOf(gs, 1) == 0 && WholeOf(gs, 2) == 2 && !InGroup(gs, 2, 1); }
    assert Connects(t, gs, 2, 0) by { assert WholeOf(gs, 2) == 2 && WholeOf(gs, 0) == 0 && !InGroup(gs, 0, 2); }
    var p: seq<nat> := [0, 2, 0];
    assert IsCycle(Contracted(t, gs), p);
  }
}
