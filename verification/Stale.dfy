/** A run on a table that the dependency check can accept, after which two members of one
    choice are at y: while the choice is calculated, its value of before is read
    (package/config/symbol.c). */
module Stale {
  import opened Wrappers
  import opened Exprs
  import opened Graphs
  import opened Dependence
  import opened Symbols
  import opened Evaluation
  import opened Calculation
  import opened Settling
  import opened Choices
  import opened AtMostOne
  import opened Evaluator
  import opened Orders

  // the condition of the other choice's member, on a member of the first
  const OnMember := Bin(AndOp, B(3), Bin(OrOp, B(1), Not(B(1))))
  const Forced := Bin(AndOp, B(3), Symbol(SymMod))

  /** A choice with members M1 and M2 that depends on another choice, and the member of that,
      which "depends on M1 || !M1". */
  function Crossed(modules: Tri): System {
    System(
      [SymDef(Boolean, "", [Prompt(Some(B(3)))], Some(Forced)),
       SymDef(Boolean, "M1", [Prompt(Some(B(0)))], None),
       SymDef(Boolean, "M2", [Prompt(Some(B(0)))], None),
       ChoiceDef,
       SymDef(Boolean, "B", [Prompt(Some(OnMember))], None)],
      Groups(map[0 := [1, 2], 3 := [4]], map[1 := 0, 2 := 0, 4 := 3]), modules,
      [NoUser, NoUser, NoUser, NoUser, NoUser], map[])
  }

  // under any user
  ghost predicate IsCrossed(s: System) {
    SystemOk(s) && exists modules: Tri :: SameTable(s, Crossed(modules))
  }

  lemma CrossedOk(modules: Tri)
    ensures SystemOk(Crossed(modules)) && IsCrossed(Crossed(modules))
  {
    var s := Crossed(modules);
    CrossedTable(modules);
    CrossedGroups(s.table);
    CrossedChoices(modules);
    hide TableOk, GroupsOk, ChoicesOk;
    assert SameTable(s, s);
  }

  lemma CrossedGroups(t: Table)
    requires |t| == 5
    ensures GroupsOk(t, Groups(map[0 := [1, 2], 3 := [4]], map[1 := 0, 2 := 0, 4 := 3]))
  {
  }

  lemma CrossedChoices(modules: Tri)
    ensures ChoicesOk(Crossed(modules).table, Crossed(modules).groups)
  {
    CrossedProps(modules);
  }

  lemma CrossedTable(modules: Tri)
    ensures TableOk(Crossed(modules).table)
  {
    var t := Crossed(modules).table;
    assert ExprOk(t, B(0)) && ExprOk(t, B(3)) && ExprOk(t, Not(B(1))) && ExprOk(t, Bin(OrOp, B(1), Not(B(1))));
    assert ExprOk(t, OnMember) && ExprOk(t, Symbol(SymMod)) && ExprOk(t, Forced);
    forall i | 0 <= i < |t|
      ensures OptOk(t, t[i].revDep) && forall p :: p in t[i].props ==> PropOk(t, p)
    {
      assert t[i].props == [t[i].props[0]] && PropOk(t, t[i].props[0]);
    }
  }

  lemma CrossedParts(s: System)
    requires IsCrossed(s)
    ensures |s.table| == 5 && (forall i :: 0 <= i < 5 ==> s.table[i].ty == Boolean)
    ensures s.table[0].props == [Prompt(Some(B(3)))] && s.table[0].revDep == Some(Forced)
    ensures s.table[1].props == [Prompt(Some(B(0)))] && s.table[2].props == [Prompt(Some(B(0)))]
    ensures IsPlainChoice(s, 3) && s.table[4].props == [Prompt(Some(OnMember))]
    ensures s.groups == Groups(map[0 := [1, 2], 3 := [4]], map[1 := 0, 2 := 0, 4 := 3])
    ensures ExprIds(OnMember) == [3, 1, 1] && ExprIds(Forced) == [3] && ExprIds(B(0)) == [0] && ExprIds(B(3)) == [3]
  {
  }

  // M1 sees its choice as it was
  function SeenThen(c: Cell): Tri {
    if c.curr.tri == NO then NO else YES
  }

  function First(c: Cell): Cell {
    Cell(Value(if SeenThen(c) == YES && c.curr.chosen == Some(1) then YES else NO, "n", None), SeenThen(c), NO)
  }

  /** The other choice is calculated while the first is VALID already. Its member comes to
      look at M1, and that at the first choice. */
  lemma OtherChoice(s: System, mem: Memory)
    requires IsCrossed(s) && MemoryOk(s, mem) && mem.valid == {0} && mem.cells[1].selected == NO
    ensures CalcValue(s, mem, 3) == Memory({0, 3, 1},
      mem.cells[3 := Cell(Value(YES, "n", Some(4)), YES,
        YES)][1 := First(mem.cells[0])][4 := mem.cells[4].(visible := YES)])
  {
    CrossedParts(s);
    var m1 := Memory(mem.valid + {3}, mem.cells[3 := Cell(Value(YES, "n", None), YES, YES)]);
    OnlyCandidate(s);
    assert MemoryOk(s, m1) && m1.valid == {0, 3};
    hide SystemOk, CalcValue, CalcVisible, Goes, IsCrossed, Candidates, IsPlainChoice;
    LookAtOther(s, m1);
    TakesVisible(s, mem, 3, 4, CalcVisible(s, m1, 4));
    CellsThen(mem, m1);
  }

  lemma CellsThen(mem: Memory, m1: Memory)
    requires |mem.cells| == 5 && m1.cells == mem.cells[3 := Cell(Value(YES, "n", None), YES, YES)]
    ensures SetCurr(Memory({0, 3, 1}, m1.cells[1 := First(m1.cells[0])][4 := m1.cells[4].(visible := YES)]), 3,
      Value(YES, "n", Some(4))) == Memory({0, 3, 1}, mem.cells[3 := Cell(Value(YES, "n", Some(4)), YES, YES)]
        [1 := First(mem.cells[0])][4 := mem.cells[4].(visible := YES)])
  {
  }

  lemma OnlyCandidate(s: System)
    requires IsCrossed(s)
    ensures |Candidates(s, 3)| > 0 && Candidates(s, 3)[0] == Candidate(None, 4)
  {
    assert InGroup(s.groups, 3, 4);
    assert DefaultCandidates(s.table[3].props) == [] by { assert s.table[3].props[1..] == []; }
  }

  lemma LookAtOther(s: System, mem: Memory)
    requires IsCrossed(s) && MemoryOk(s, mem) && mem.valid == {0, 3} && mem.cells[1].selected == NO
    requires mem.cells[3].curr.tri == YES
    ensures CalcVisible(s, mem, 4) == Memory({0, 3, 1},
      mem.cells[1 := First(mem.cells[0])][4 := mem.cells[4].(visible := YES)])
  {
    CrossedParts(s);
    var m1 := Memory({0, 3, 1}, mem.cells[1 := First(mem.cells[0])]);
    OtherLooks(s, mem, m1);
    OtherShown(s, m1);
    hide *;
    LookAfter(s, mem, 4, m1);
    OtherCells(mem, m1);
  }

  lemma OtherCells(mem: Memory, m1: Memory)
    requires |mem.cells| == 5 && m1 == Memory({0, 3, 1}, mem.cells[1 := First(mem.cells[0])])
    ensures SetVisible(m1, 4, YES) == Memory({0, 3, 1},
      mem.cells[1 := First(mem.cells[0])][4 := mem.cells[4].(visible := YES)])
  {
  }

  lemma OtherLooks(s: System, mem: Memory, m1: Memory)
    requires IsCrossed(s) && MemoryOk(s, mem) && mem.valid == {0, 3} && mem.cells[1].selected == NO
    requires mem.cells[3].curr.tri == YES && m1 == Memory({0, 3, 1}, mem.cells[1 := First(mem.cells[0])])
    ensures InTable(s, [3, 1, 1]) && m1 == CalcSyms(s, mem, [3, 1, 1])
    ensures MemoryOk(s, m1) && m1.cells[3].curr.tri == YES && m1.cells[1].curr.tri != MOD
  {
    CrossedParts(s);
    FinishFirst(s, mem);
    hide CalcValue, IsCrossed;
    ThreeSyms(s, mem);
  }

  lemma OtherShown(s: System, mem: Memory)
    requires IsCrossed(s) && MemoryOk(s, mem) && mem.cells[3].curr.tri == YES && mem.cells[1].curr.tri != MOD
    ensures PromptIds(s.table[4].props) == [3, 1, 1] && Visibility(s.table[4], s.modules, Now(s, mem)) == YES
  {
    CrossedParts(s);
    MetByBoth(s, mem);
    OnePrompt(s.table[4], s.modules, Now(s, mem), Some(OnMember));
  }

  lemma FinishFirst(s: System, mem: Memory)
    requires IsCrossed(s) && MemoryOk(s, mem) && mem.valid == {0, 3} && mem.cells[1].selected == NO
    ensures CalcValue(s, mem, 1) == Memory({0, 3, 1}, mem.cells[1 := First(mem.cells[0])])
  {
    CrossedParts(s);
    ReadsCell(s, mem, 0);
    hide SystemOk, CalcValue, Goes, IsCrossed, Now;
    FinishMember(s, mem, 1, Some(B(0)));
  }

  lemma MetByBoth(s: System, mem: Memory)
    requires IsCrossed(s) && MemoryOk(s, mem) && mem.cells[3].curr.tri == YES && mem.cells[1].curr.tri != MOD
    ensures Eval(OnMember, Now(s, mem)) == YES
  {
    CrossedParts(s);
    ReadsCell(s, mem, 3);
    ReadsCell(s, mem, 1);
  }

  lemma ThreeSyms(s: System, mem: Memory)
    requires MemoryOk(s, mem) && |s.table| == 5 && 3 in mem.valid
    ensures CalcSyms(s, mem, [3, 1, 1]) == CalcValue(s, mem, 1)
  {
    var m1 := CalcValue(s, mem, 1);
    AllValid(s, m1, [1]);
    AllValid(s, mem, [3]);
    assert [3, 1, 1] == [3] + ([1] + [1]);
    hide SystemOk, Goes, CalcValue, CalcSyms;
    SymsAppend(s, mem, [3], [1] + [1]);
    SymsAppend(s, mem, [1], [1]);
    OneSym(s, mem, 1);
  }

  /** The first choice, calculated with that on the way, takes its first candidate. */
  lemma FirstChoice(s: System, mem: Memory, p: nat)
    requires IsCrossed(s) && MemoryOk(s, mem) && mem.valid == {} && mem.cells[1].selected == NO
    requires c0First(s, p)
    ensures CalcValue(s, mem, 0) == After(mem, p)
  {
    var mc := Looked(mem);
    var m1 := SetCurr(mc, 0, Value(YES, "n", None));
    LookAtFirst(s, mem);
    MemberLookedAt(s, m1, p);
    CellsAfter(mem, p);
    assert mc.cells[0].selected == YES && MemoryOk(s, mc);
    CrossedParts(s);
    hide *;
    TakesWhenVisible(s, mem, 0, mc, p, SetVisible(m1, p, YES));
  }

  lemma MemberLookedAt(s: System, mem: Memory, p: nat)
    requires IsCrossed(s) && MemoryOk(s, mem) && mem.cells[0].curr.tri == YES && 0 in mem.valid && (p == 1 || p == 2)
    ensures CalcVisible(s, mem, p) == SetVisible(mem, p, YES) && SetVisible(mem, p, YES).cells[p].visible == YES
  {
    CrossedParts(s);
    ReadsCell(s, mem, 0);
    hide SystemOk, IsCrossed, Now, CalcVisible, Goes;
    MemberShown(s, mem, p, B(0));
  }

  lemma CellsAfter(mem: Memory, p: nat)
    requires |mem.cells| == 5 && (p == 1 || p == 2)
    ensures var mc := Looked(mem);
      SetCurr(SetVisible(SetCurr(mc, 0, Value(YES, "n", None)), p, YES), 0, Value(YES, "n", Some(p))) == After(mem, p)
  {
  }

  // the user's member, or else M1
  ghost predicate c0First(s: System, p: nat)
    requires IsCrossed(s)
  {
    (p == 1 || p == 2) && |s.table| == 5 && 0 in s.groups.members && |Candidates(s, 0)| > 0 &&
      Candidates(s, 0)[0] == Candidate(None, p)
  }

  function OthersThen(mem: Memory): seq<Cell>
    requires |mem.cells| == 5
  {
    mem.cells[3 := Cell(Value(YES, "n", Some(4)), YES,
      YES)][1 := First(mem.cells[0])][4 := mem.cells[4].(visible := YES)]
  }

  function Looked(mem: Memory): Memory
    requires |mem.cells| == 5
  {
    Memory({0, 3, 1}, OthersThen(mem)[0 := mem.cells[0].(visible := YES, selected := YES)])
  }

  function After(mem: Memory, p: nat): Memory
    requires |mem.cells| == 5 && (p == 1 || p == 2)
  {
    var cells := OthersThen(mem)[0 := Cell(Value(YES, "n", Some(p)), YES, YES)];
    Memory({0, 3, 1}, cells[p := cells[p].(visible := YES)])
  }

  lemma LookAtFirst(s: System, mem: Memory)
    requires IsCrossed(s) && MemoryOk(s, mem) && mem.valid == {} && mem.cells[1].selected == NO
    ensures CalcVisible(s, mem.(valid := mem.valid + {0}), 0) == Looked(mem)
  {
    var m0, m1 := Memory({0}, mem.cells), Memory({0, 3, 1}, OthersThen(mem));
    assert mem.(valid := mem.valid + {0}) == m0;
    LookedIs(mem);
    CrossedParts(s);
    FirstPrompts(s, m0, m1);
    FirstSelects(s, SetVisible(m1, 0, YES));
    hide *;
    VisibleIs(s, m0, 0, m1, YES, SetVisible(m1, 0, YES), YES);
  }

  lemma FirstPrompts(s: System, mem: Memory, m1: Memory)
    requires IsCrossed(s) && MemoryOk(s, mem) && mem.valid == {0} && mem.cells[1].selected == NO
    requires m1 == Memory({0, 3, 1}, OthersThen(mem))
    ensures InTable(s, PromptIds(s.table[0].props)) && MemoryOk(s, m1) && m1.cells[3].curr.tri == YES
    ensures m1 == CalcSyms(s, mem, PromptIds(s.table[0].props)) && YES == Visibility(s.table[0], s.modules, Now(s, m1))
  {
    OtherSyms(s, mem);
    FirstShown(s, m1);
  }

  lemma FirstSelects(s: System, mem: Memory)
    requires IsCrossed(s) && MemoryOk(s, mem) && mem.cells[3].curr.tri == YES && 3 in mem.valid
    ensures InTable(s, OptIds(s.table[0].revDep)) && mem == CalcSyms(s, mem, OptIds(s.table[0].revDep))
    ensures YES == Selected(s.table[0], s.modules, Now(s, mem))
  {
    CrossedParts(s);
    FirstForced(s, mem);
    AllValid(s, mem, [3]);
  }

  lemma LookedIs(mem: Memory)
    requires |mem.cells| == 5
    ensures SetSelected(SetVisible(Memory({0, 3, 1}, OthersThen(mem)), 0, YES), 0, YES) == Looked(mem)
  {
  }

  lemma OtherSyms(s: System, mem: Memory)
    requires IsCrossed(s) && MemoryOk(s, mem) && mem.valid == {0} && mem.cells[1].selected == NO
    ensures var m1 := Memory({0, 3, 1}, OthersThen(mem));
      InTable(s, [3]) && m1 == CalcSyms(s, mem, [3]) && MemoryOk(s, m1) && m1.cells[3].curr.tri == YES
  {
    CrossedParts(s);
    OtherChoice(s, mem);
    hide CalcValue, IsCrossed;
    OneSym(s, mem, 3);
  }

  lemma FirstShown(s: System, mem: Memory)
    requires IsCrossed(s) && MemoryOk(s, mem) && mem.cells[3].curr.tri == YES
    ensures PromptIds(s.table[0].props) == [3] && Visibility(s.table[0], s.modules, Now(s, mem)) == YES
  {
    CrossedParts(s);
    ReadsCell(s, mem, 3);
    OnePrompt(s.table[0], s.modules, Now(s, mem), Some(B(3)));
  }

  lemma FirstForced(s: System, mem: Memory)
    requires IsCrossed(s) && MemoryOk(s, mem) && mem.cells[3].curr.tri == YES
    ensures OptIds(s.table[0].revDep) == [3] && Selected(s.table[0], s.modules, Now(s, mem)) == YES
  {
    CrossedParts(s);
    ReadsCell(s, mem, 3);
    assert Eval(Forced, Now(s, mem)) == MOD;
  }

  // M2, once the choice is at y
  lemma FinishSecond(s: System, mem: Memory)
    requires IsCrossed(s) && MemoryOk(s, mem) && 0 in mem.valid && 2 !in mem.valid
    requires mem.cells[0].curr.tri == YES && mem.cells[2].selected == NO
    ensures CalcValue(s, mem, 2) == Memory(mem.valid + {2}, mem.cells[2 :=
      Cell(Value(if mem.cells[0].curr.chosen == Some(2) then YES else NO, "n", None), YES, NO)])
  {
    CrossedParts(s);
    ReadsCell(s, mem, 0);
    assert EvalOpt(Some(B(0)), Now(s, mem)) == YES && ChosenBy(s, mem, 2) == mem.cells[0].curr.chosen;
    assert forall j :: j in OptIds(Some(B(0))) ==> j == 0;
    hide *;
    FinishMember(s, mem, 2, Some(B(0)));
  }

  lemma FirstIsPick(s: System)
    requires IsCrossed(s)
    ensures 0 !in s.picks ==> c0First(s, 1)
    ensures 0 in s.picks && s.picks[0] == 2 ==> c0First(s, 2)
  {
    CrossedParts(s);
    assert DefaultCandidates(s.table[0].props) == [] by { assert s.table[0].props[1..] == []; }
  }

  /** All is calculated, the user sets M2 to y, and all is calculated again, the choice first:
      M1 is at y, because on the way it saw the choice as it was before, and M2 is. */
  lemma TwoAtYes(modules: Tri) returns (b: Memory, s: System, d: Memory)
    ensures var s0 := Crossed(modules);
      && MemoryOk(s0, Start(s0)) && b == CalcValue(s0, CalcValue(s0, Start(s0), 0), 2)
      && b.cells[2].curr.tri == NO && WithinRange(s0, b, 2, YES) && s == AfterSet(s0, b, 2, YES)
      && MemoryOk(s, Memory({}, b.cells)) && d == CalcValue(s, CalcValue(s, Memory({}, b.cells), 0), 2)
      && d.valid == {0, 1, 2, 3} && d.cells[0].curr == Value(YES, "n", Some(2))
      && d.cells[1].curr.tri == YES && d.cells[2].curr.tri == YES
  {
    var s0 := Crossed(modules);
    CrossedStart(modules);
    b := FirstRound(s0);
    s := AfterSet(s0, b, 2, YES);
    CrossedSet(s0, b);
    assert WithinRange(s0, b, 2, YES);
    hide *;
    d := SecondRound(s, Memory({}, b.cells));
  }

  lemma CrossedStart(modules: Tri)
    ensures var s := Crossed(modules); IsCrossed(s) && MemoryOk(s, Start(s)) && c0First(s, 1) && |s.table| == 5
  {
    CrossedOk(modules);
    CrossedParts(Crossed(modules));
    FirstIsPick(Crossed(modules));
  }

  // what the user's setting M2 to y records
  lemma CrossedSet(s: System, mem: Memory)
    requires IsCrossed(s) && MemoryOk(s, mem)
    ensures |s.table| == 5
    ensures var s' := AfterSet(s, mem, 2, YES); IsCrossed(s') && c0First(s', 2) && MemoryOk(s', Memory({}, mem.cells))
  {
    CrossedParts(s);
    AfterSetOk(s, mem, 2, YES);
    FirstIsPick(AfterSet(s, mem, 2, YES));
  }

  lemma FirstRound(s: System) returns (mem: Memory)
    requires IsCrossed(s) && MemoryOk(s, Start(s)) && c0First(s, 1)
    ensures mem == CalcValue(s, CalcValue(s, Start(s), 0), 2) && MemoryOk(s, mem)
    ensures mem.cells[0].curr == Value(YES, "n", Some(1)) && mem.cells[1].selected == NO
    ensures mem.cells[2] == Cell(Value(NO, "n", None), YES, NO)
  {
    CrossedParts(s);
    FirstChoice(s, Start(s), 1);
    var a := CalcValue(s, Start(s), 0);
    assert MemoryOk(s, a) && a.cells[0].curr == Value(YES, "n", Some(1)) && a.cells[2].selected == NO &&
      a.valid == {0, 3, 1};
    assert a.cells[1].selected == NO;
    hide SystemOk, CalcValue, IsCrossed, Goes, Start, After;
    FinishSecond(s, a);
    mem := CalcValue(s, a, 2);
  }

  lemma SecondCells(s: System, mem: Memory)
    requires IsCrossed(s) && MemoryOk(s, mem) && mem.cells[0].curr == Value(YES, "n", Some(1))
    requires mem.cells[2].selected == NO
    ensures |s.table| == 5 && |mem.cells| == 5
    ensures var c := After(mem, 2);
      && MemoryOk(s, c) && |c.cells| == 5 && c.cells[0].curr == Value(YES, "n", Some(2)) && c.cells[2].selected == NO
      && c.cells[1].curr.tri == YES && c.valid == {0, 3, 1}
  {
    CrossedParts(s);
    hide SystemOk, IsCrossed;
  }

  lemma SecondRound(s: System, mem: Memory) returns (d: Memory)
    requires IsCrossed(s) && MemoryOk(s, mem) && mem.valid == {} && mem.cells[1].selected == NO && c0First(s, 2)
    requires mem.cells[0].curr == Value(YES, "n", Some(1)) && mem.cells[2].selected == NO
    ensures d == CalcValue(s, CalcValue(s, mem, 0), 2) && d.valid == {0, 1, 2, 3}
    ensures d.cells[0].curr == Value(YES, "n", Some(2)) && d.cells[1].curr.tri == YES && d.cells[2].curr.tri == YES
  {
    SecondCells(s, mem);
    FirstChoice(s, mem, 2);
    hide *;
    var c := CalcValue(s, mem, 0);
    FinishSecond(s, c);
    d := CalcValue(s, c, 2);
    EndCells(c, d);
  }

  lemma EndCells(c: Memory, d: Memory)
    requires |c.cells| == 5 && c.valid == {0, 3, 1} && c.cells[0].curr == Value(YES, "n", Some(2)) &&
      c.cells[1].curr.tri == YES
    requires d == Memory(c.valid + {2}, c.cells[2 := Cell(Value(YES, "n", None), YES, NO)])
    ensures d.valid == {0, 1, 2, 3} && d.cells[0].curr == Value(YES, "n", Some(2))
    ensures d.cells[1].curr.tri == YES && d.cells[2].curr.tri == YES
  {
  }

  /** Nothing the dependency check watches is cyclic, for it does not watch that calculating a
      choice looks at its members. */
  lemma CrossedUnwatched(modules: Tri)
    ensures var s := Crossed(modules);
      && GroupsPlain(s) && ConstantRanges(s.table)
      && !Cyclic(Watched(s.table, s.groups)) && OwnPath(s.table, s.groups, 0)
  {
    CrossedOk(modules);
    CrossedPlain(modules);
    CrossedFollows(modules);
    assert GroupsPlain(Crossed(modules));
    var s := Crossed(modules);
    hide *;
    CrossedWatched(s.table, s.groups);
    CrossedOwnPath(s.table, s.groups);
  }

  lemma CrossedPlain(modules: Tri)
    ensures var s := Crossed(modules);
      MembersGuarded(s.table, s.groups) && MembersPlain(s.table, s.groups) && ConstantRanges(s.table)
      && s.groups == Groups(map[0 := [1, 2], 3 := [4]], map[1 := 0, 2 := 0, 4 := 3]) && |s.table| == 5
  {
    var s := Crossed(modules);
    CrossedProps(modules);
    assert Guarded(B(0), ChoiceSym(s.table, 0)) && Guarded(B(3), ChoiceSym(s.table, 3));
    assert Guarded(OnMember, ChoiceSym(s.table, 3));
    hide Guarded;
  }

  lemma CrossedProps(modules: Tri)
    ensures var t := Crossed(modules).table;
      forall i, p :: 0 <= i < |t| && p in t[i].props ==> p == t[i].props[0]
  {
  }

  ghost predicate FollowsCrossed(t: Table, gs: Groups) {
    forall i: nat, j: nat :: Follows(t, gs, i, j) <==>
      (i == 0 && j == 3) || (i == 1 && j == 0) || (i == 2 && j == 0) || (i == 4 && (j == 3 || j == 1))
  }

  lemma CrossedFollows(modules: Tri)
    ensures FollowsCrossed(Crossed(modules).table, Crossed(modules).groups)
  {
    var t, gs := Crossed(modules).table, Crossed(modules).groups;
    assert forall i: nat, p :: i < 5 && p in t[i].props ==> p == t[i].props[0];
    assert forall i: nat :: i < 5 ==> t[i].props[0] in t[i].props;
    assert FollowedRefs(t[0].props[0], true) == {3} && OptRefs(t[0].revDep) == {3};
    assert FollowedRefs(t[1].props[0], false) == {0} && FollowedRefs(t[2].props[0], false) == {0};
    assert FollowedRefs(t[3].props[0], true) == {} && OptRefs(t[3].revDep) == {};
    assert FollowedRefs(t[4].props[0], false) == {3, 1};
  }

  lemma CrossedWatched(t: Table, gs: Groups)
    requires FollowsCrossed(t, gs) && gs == Groups(map[0 := [1, 2], 3 := [4]], map[1 := 0, 2 := 0, 4 := 3])
    ensures !Cyclic(Watched(t, gs))
  {
    hide Follows;
    var order := [Own(3), Own(0), Members(0), Members(3)];
    forall a: Stage, b: Stage | (a, b) in Watched(t, gs)
      ensures (a == Own(0) && b == Own(3)) || (a == Members(0) && b == Own(0))
        || (a == Members(3) && (b == Own(3) || b == Members(0)))
    {
    }
    assert order[..1] == [Own(3)] && order[..2] == [Own(3), Own(0)] && order[..3] == [Own(3), Own(0), Members(0)];
    OrderedIsAcyclic(Watched(t, gs), order);
  }

  lemma CrossedOwnPath(t: Table, gs: Groups)
    requires FollowsCrossed(t, gs) && gs == Groups(map[0 := [1, 2], 3 := [4]], map[1 := 0, 2 := 0, 4 := 3])
    ensures OwnPath(t, gs, 0)
  {
    FollowsIsMention(t, gs, 0, 3);
    FollowsIsMention(t, gs, 4, 1);
    assert InGroup(gs, 3, 4) && Mentions(t, gs, 4, 1);
    assert Reads(t, gs, 3, 1);
    ReachesSelf(t, gs, 1);
    ReachesNext(t, gs, 3, 1, 1);
    assert InGroup(gs, 0, 1);
  }
}
