/** conf_parse followed by conf_read: the dependency check decides whether the evaluator
    may be trusted (package/config/zconf.tab.c, package/config/confdata.c). */
module Startup {
  import opened Wrappers
  import opened Exprs
  import opened Graphs
  import opened Symbols
  import opened Evaluation
  import opened Settling
  import opened Choices
  import Evaluator
  import DepCheck

  /** At most one member of a choice is at y, and only in a choice at y that has chosen it. */
  ghost predicate Single(s: System, vals: Values) {
    |vals| == |s.table| && forall c: nat, m: nat ::
      InGroup(s.groups, c, m) && c < |vals| && m < |vals| && vals[m].tri == YES ==>
      vals[c].tri == YES && vals[c].chosen == Some(m)
  }

  /** A table that is refused has a choice, taken as one with its members, or another symbol
      that depends on itself; without choices these are the tables that are refused. One that
      is not refused is evaluated, and the evaluation ends. No choice has two members at y.
      Where no symbol reads itself, by range operands or through a choice, the result is the
      one solution of the equations, and a choice at y has its member at y. */
  method ParseAndEvaluate(s: System, hashed: seq<nat>) returns (r: Option<Values>)
    requires SystemOk(s) && forall i :: i in hashed <==> i < |s.table|
    ensures r.None? ==> Cyclic(Contracted(s.table, s.groups))
    ensures r.Some? ==> !Cyclic(Watched(s.table, s.groups))
    ensures s.groups == NoGroups ==> (r.None? <==> SelfDependent(s.table))
    ensures r.Some? ==> |r.value| == |s.table| && (GroupsPlain(s) ==> Single(s, r.value))
    ensures r.Some? && MembersGuarded(s.table, s.groups) && !CyclicReads(s.table, s.groups) ==>
      IsSolution(s, r.value) && OnlySolution(s, r.value) && (GroupsPlain(s) ==> AllExclusive(s, r.value))
  {
    hide SystemOk, MembersGuarded, MembersPlain, IsSolution, CyclicReads, Single, AllExclusive;
    assert TableOk(s.table) && GroupsOk(s.table, s.groups) by { SystemParts(s); }
    var checker := new DepCheck.Checker(s.table, s.groups);
    checker.CheckAll(hashed);
    if s.groups == NoGroups {
      StagesAreSymbols(s.table);
    }
    if checker.nerrs != 0 {
      return None;
    }
    var vals := Evaluate(s);
    r := Some(vals);
  }

  // the loop of conf_read over all symbols
  method Evaluate(s: System) returns (vals: Values)
    requires SystemOk(s)
    ensures |vals| == |s.table| && (GroupsPlain(s) ==> Single(s, vals))
    ensures MembersGuarded(s.table, s.groups) && !CyclicReads(s.table, s.groups) ==>
      IsSolution(s, vals) && OnlySolution(s, vals) && (GroupsPlain(s) ==> AllExclusive(s, vals))
  {
    hide SystemOk, Settled, MembersGuarded, MembersPlain, Ranked, OnlyChosen, IsSolution, CyclicReads;
    assert TableOk(s.table) && GroupsOk(s.table, s.groups) by { SystemParts(s); }
    ghost var rank: Option<seq<nat>> := None;
    if !CyclicReads(s.table, s.groups) && MembersGuarded(s.table, s.groups) {
      ghost var upwards := RankOf(s.table, s.groups);
      rank := Some(upwards);
    }
    var symbols := new Evaluator.SymbolTable(s, rank);
    symbols.CalcAll();
    vals := symbols.Values();
    if rank.Some? {
      symbols.Solved(vals);
      Follow(s, rank.value, vals);
    }
    if GroupsPlain(s) {
      symbols.NoTwo(vals);
    }
  }

  ghost predicate OnlySolution(s: System, vals: Values) {
    forall w :: IsSolution(s, w) ==> w == vals
  }

  ghost predicate AllExclusive(s: System, vals: Values)
    requires SystemOk(s)
  {
    |vals| == |s.table| && forall c :: c in s.groups.members && c < |s.table| && Logical(s.table[c].ty) ==>
      OnlyChosen(s, c, Below(|vals|), vals)
  }

  lemma Follow(s: System, rank: seq<nat>, vals: Values)
    requires Ranked(s.table, s.groups, rank) && IsSolution(s, vals)
    ensures OnlySolution(s, vals) && (GroupsPlain(s) ==> AllExclusive(s, vals))
  {
    hide SystemOk, MembersGuarded, MembersPlain, Ranked, OnlyChosen;
    forall w | IsSolution(s, w)
      ensures w == vals
    {
      SolutionUnique(s, rank, vals, w);
    }
    if GroupsPlain(s) {
      forall c | c in s.groups.members && c < |s.table| && Logical(s.table[c].ty)
        ensures OnlyChosen(s, c, Below(|vals|), vals)
      {
        Exclusive(s, vals, c);
      }
    }
  }

  lemma SystemParts(s: System)
    requires SystemOk(s)
    ensures TableOk(s.table) && GroupsOk(s.table, s.groups)
  {
  }
}
