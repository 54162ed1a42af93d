/** When the user's value for a bool or tristate is accepted, and what is then recorded, read
    off what was calculated and what the symbol comes to (package/config/symbol.c). */
module Setting {
  import opened Exprs
  import opened Symbols
  import opened Evaluation
  import opened Calculation
  import opened Settling
  import opened Evaluator

  /** A value is in range if and only if the symbol can be seen above what selects it and comes
      to have the value once that is recorded. */
  lemma InRangeIff(s: System, rank: seq<nat>, mem: Memory, i: nat, val: Tri, vals: Values)
    requires Settled(s, Same(s), mem, {}) && Ranked(s.table, s.groups, rank) && i in mem.valid && i < |s.table|
    requires s.table[i].ty == Boolean || s.table[i].ty == Tristate
    requires i !in s.groups.members && i !in s.groups.choiceOf
    requires IsSolution(s.(user := s.user[i := UserValue(true, val, s.user[i].raw)]), vals)
    ensures WithinRange(s, mem, i, val) <==> mem.cells[i].visible > mem.cells[i].selected && vals[i].tri == val
  {
    var u, was := UserValue(true, val, s.user[i].raw), Solution(s, rank);
    SolutionOfMemory(s, rank, mem, was, i);
    hide Visibility, Selected, Settled, Ranked, IsSolution, ValuationOf;
    if mem.cells[i].visible > mem.cells[i].selected {
      UserValueSticksIff(s, rank, was, i, u, vals);
    }
  }

  /** A member of a choice that is shown at y can only be set to y. */
  lemma MemberInRange(s: System, mem: Memory, i: nat, val: Tri)
    requires MemoryOk(s, mem) && i < |s.table| && i in s.groups.choiceOf
    requires s.table[i].ty == Boolean || s.table[i].ty == Tristate
    requires mem.cells[i].visible == YES && mem.cells[i].selected == NO
    ensures WithinRange(s, mem, i, val) <==> val == YES
  {
  }

  /** What is recorded: that the symbol has this value; of a member set to y, that it is the
      choice's pick, and that the choice and the members that are shown have been set, too,
      to whatever they were. */
  lemma RecordedIs(s: System, mem: Memory, i: nat, val: Tri, j: nat)
    requires MemoryOk(s, mem) && i < |s.table| && j < |s.table|
    ensures var s' := AfterSet(s, mem, i, val);
      && s'.table == s.table && s'.groups == s.groups && s'.modules == s.modules && |s'.user| == |s.table|
      && s'.user[i].given && s'.user[i].tri == val && s'.user[i].raw == s.user[i].raw
      && (j != i ==> s'.user[j].tri == s.user[j].tri && s'.user[j].raw == s.user[j].raw)
      && (j != i && (i !in s.groups.choiceOf || val != YES) ==> s'.user[j] == s.user[j])
      && (i !in s.groups.choiceOf || val != YES ==> s'.picks == s.picks)
      && (i in s.groups.choiceOf && val == YES ==>
          var c := s.groups.choiceOf[i];
          && s'.picks == s.picks[c := i]
          && (j == c ==> s'.user[j].given)
          && (j in s.groups.members[c] && mem.cells[j].visible != NO ==> s'.user[j].given)
          && (j != i && j != c && (j !in s.groups.members[c] || mem.cells[j].visible == NO) ==>
              s'.user[j] == s.user[j]))
  {
    hide TableOk, ChoicesOk;
  }
}
