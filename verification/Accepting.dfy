/** Tables that the dependency check lets pass: its runs on those whose calculation goes wrong
    (package/config/symbol.c). */
module Accepting {
  import opened Wrappers
  import opened Exprs
  import opened Symbols
  import opened Checking
  import opened Orders
  import opened Stale

  // ---------- the table of Orders.NoMemberAtYes ----------

  /** The table is accepted if and only if the check does not come to X first: while the members
      of the choice are checked the choice counts as finished, and X finds nothing. */
  lemma SharedAcceptedIff(modules: Tri, order: seq<nat>)
    requires order != [] && forall i :: i in order <==> i < |Shared(modules).table|
    ensures var s := Shared(modules);
      && MarksOk(s.table, s.groups, NoMarks) && AllIn(s.table, order)
      && All(s.table, s.groups, NoMarks, order).nerrs == (if order[0] == 3 then 1 else 0)
  {
    var s := Shared(modules);
    assert |s.table| == 4 && order[0] in order;
    SharedFirst(modules, order[0]);
    hide *;
    FirstFinishes(s.table, s.groups, NoMarks, order, Marks({}, {0, 1, 2, 3}, if order[0] == 3 then 1 else 0));
  }

  // whichever is first finishes them all
  lemma SharedFirst(modules: Tri, first: nat)
    requires first < |Shared(modules).table|
    ensures var s := Shared(modules); var m := Marks({}, {0, 1, 2, 3}, if first == 3 then 1 else 0);
      && MarksOk(s.table, s.groups, NoMarks) && MarksOk(s.table, s.groups, m)
      && Deps(s.table, s.groups, NoMarks, first) == (m, None)
  {
    var s := Shared(modules);
    SharedReferences(modules);
    SharedStart(modules);
    SharedRefused(modules);
    hide MarksOk, Follow, Deps, FollowedIds, MembersIds, Shared, TableOk, GroupsOk;
    if first == 1 || first == 2 {
      DepsOfMember(s.table, s.groups, NoMarks, first, Marks({}, {0, 1, 2, 3}, 0));
    }
  }

  lemma SharedReferences(modules: Tri)
    ensures var s := Shared(modules); var t, gs := s.table, s.groups;
      && |t| == 4 && gs.members == map[0 := [1, 2]] && gs.choiceOf == map[1 := 0, 2 := 0]
      && FollowedIds(t, gs, 0) == [] && FollowedIds(t, gs, 3) == [0]
      && MembersIds(t, gs, [1, 2]) == [0, 3, 0]
  {
    var s := Shared(modules);
    var t, gs := s.table, s.groups;
    SingleProp(t, gs, 0);
    SingleProp(t, gs, 1);
    SingleProp(t, gs, 2);
    SingleProp(t, gs, 3);
    assert FollowedIds(t, gs, 1) == [0, 3] && FollowedIds(t, gs, 2) == [0];
    TwoMembers(t, gs, 1, 2);
  }

  lemma SingleProp(t: Table, gs: Groups, i: nat)
    requires i < |t| && |t[i].props| == 1
    ensures FollowedIds(t, gs, i) == OptIds(t[i].revDep) + PropIds(t[i].props[0], i in gs.members)
  {
    var ps := t[i].props;
    assert ps[..0] == [];
    assert PropsIds(ps, i in gs.members) == PropIds(ps[0], i in gs.members);
  }

  lemma TwoMembers(t: Table, gs: Groups, i: nat, j: nat)
    requires i < |t| && j < |t|
    ensures MembersIds(t, gs, [i, j]) == FollowedIds(t, gs, i) + FollowedIds(t, gs, j)
  {
    assert [i, j][..1] == [i] && [i][..0] == [];
    assert MembersIds(t, gs, [i]) == FollowedIds(t, gs, i);
  }

  lemma SharedIsTable(modules: Tri)
    ensures TableOk(Shared(modules).table) && GroupsOk(Shared(modules).table, Shared(modules).groups)
  {
    SharedOk(modules);
    hide Shared;
  }

  lemma SharedStart(modules: Tri)
    ensures var s := Shared(modules);
      && MarksOk(s.table, s.groups, NoMarks)
      && MarksOk(s.table, s.groups, Marks({}, {0, 1, 2, 3}, 0))
      && Deps(s.table, s.groups, NoMarks, 0) == (Marks({}, {0, 1, 2, 3}, 0), None)
  {
    var s := Shared(modules);
    var t, gs := s.table, s.groups;
    SharedIsTable(modules);
    SharedReferences(modules);
    hide Follow, Deps, FollowedIds, MembersIds, Shared, TableOk, GroupsOk;
    var m, m1 := Marks({1, 2}, {0, 1, 2}, 0), Marks({1, 2}, {0, 1, 2, 3}, 0);
    DepsOfPlain(t, gs, m, 3);
    assert m1 == m.(checked := m.checked + {3});
    DepsQuiet(t, gs, m, 0);
    FollowNext(t, gs, m, [0, 3, 0], m);
    assert [0, 3, 0][1..] == [3, 0] && [3, 0][1..] == [0];
    FollowNext(t, gs, m, [3, 0], m1);
    FollowQuiet(t, gs, m1, [0]);
    assert Set([1, 2]) == {1, 2};
    assert Unflag(Flag(NoMarks, {0} + Set([1, 2])), {0}) == m;
    DepsOfChoice(t, gs, NoMarks, 0, m1, None);
    assert Unflag(m1, Set([1, 2])) == Marks({}, {0, 1, 2, 3}, 0);
  }

  // with X first, the path leads back to it
  lemma SharedRefused(modules: Tri)
    ensures var s := Shared(modules); var m := Marks({}, {0, 1, 2, 3}, 1);
      && MarksOk(s.table, s.groups, NoMarks) && MarksOk(s.table, s.groups, m)
      && Deps(s.table, s.groups, NoMarks, 3) == (m, None)
  {
    var s := Shared(modules);
    var t, gs := s.table, s.groups;
    SharedIsTable(modules);
    SharedReferences(modules);
    hide Follow, Deps, FollowedIds, MembersIds, Shared, TableOk, GroupsOk;
    assert Marks({3}, {3}, 0) == Flag(NoMarks, {3});
    SharedMeets(modules);
    MeetsAgain(t, gs, NoMarks, 3, 0, Marks({3}, {0, 1, 2, 3}, 0));
    assert Unflag(Marks({3}, {0, 1, 2, 3}, 0), {3}) == Marks({}, {0, 1, 2, 3}, 0);
  }

  // J is met on the way from X
  lemma SharedMeets(modules: Tri)
    ensures var s := Shared(modules);
      && MarksOk(s.table, s.groups, Marks({3}, {3}, 0))
      && Deps(s.table, s.groups, Marks({3}, {3}, 0), 0) == (Marks({3}, {0, 1, 2, 3}, 0), Some(3))
  {
    var s := Shared(modules);
    var t, gs := s.table, s.groups;
    SharedIsTable(modules);
    SharedReferences(modules);
    hide Follow, Deps, FollowedIds, MembersIds, Shared, TableOk, GroupsOk;
    var m0, m := Marks({3}, {3}, 0), Marks({1, 2, 3}, {0, 1, 2, 3}, 0);
    DepsQuiet(t, gs, m, 0);
    FollowNext(t, gs, m, [0, 3, 0], m);
    assert [0, 3, 0][1..] == [3, 0] && [3, 0][1..] == [0];
    FollowMeets(t, gs, m, [3, 0]);
    assert Set([1, 2]) == {1, 2};
    assert Flag(m0, {0} + Set([1, 2])) == Marks({0, 1, 2, 3}, {0, 1, 2, 3}, 0);
    assert Unflag(Flag(m0, {0} + Set([1, 2])), {0}) == m;
    assert Unflag(m, Set([1, 2])) == Marks({3}, {0, 1, 2, 3}, 0);
    DepsOfChoice(t, gs, m0, 0, m, Some(3));
  }

  // ---------- the table of Stale.TwoAtYes ----------

  /** Where the check comes to the member of the other choice first, that choice is on the path,
      half finished, while the one with the members M1 and M2 is checked: the table is
      accepted. */
  lemma CrossedAccepted(modules: Tri, order: seq<nat>)
    requires order != [] && order[0] == 4 && forall i :: i in order <==> i < |Crossed(modules).table|
    ensures var s := Crossed(modules);
      && MarksOk(s.table, s.groups, NoMarks) && AllIn(s.table, order)
      && All(s.table, s.groups, NoMarks, order).nerrs == 0
  {
    var s := Crossed(modules);
    var m := Marks({}, {0, 1, 2, 3, 4}, 0);
    assert |s.table| == 5;
    CrossedFinishes(modules);
    hide *;
    FirstFinishes(s.table, s.groups, NoMarks, order, m);
  }

  lemma CrossedFinishes(modules: Tri)
    ensures var s := Crossed(modules); var m := Marks({}, {0, 1, 2, 3, 4}, 0);
      && MarksOk(s.table, s.groups, NoMarks) && MarksOk(s.table, s.groups, m)
      && Deps(s.table, s.groups, NoMarks, 4) == (m, None)
  {
    var s := Crossed(modules);
    CrossedReferences(modules);
    CrossedStart(modules);
    hide MarksOk, Deps, Crossed, FollowedIds, MembersIds;
    DepsOfMember(s.table, s.groups, NoMarks, 4, Marks({}, {0, 1, 2, 3, 4}, 0));
  }

  lemma CrossedReferences(modules: Tri)
    ensures var s := Crossed(modules); var t, gs := s.table, s.groups;
      && |t| == 5 && gs.members == map[0 := [1, 2], 3 := [4]] && gs.choiceOf == map[1 := 0, 2 := 0, 4 := 3]
      && FollowedIds(t, gs, 0) == [3, 3] && FollowedIds(t, gs, 3) == []
      && MembersIds(t, gs, [1, 2]) == [0, 0] && MembersIds(t, gs, [4]) == [3, 1, 1]
  {
    var s := Crossed(modules);
    var t, gs := s.table, s.groups;
    CrossedFirst(modules);
    CrossedOther(modules);
    hide FollowedIds;
    TwoMembers(t, gs, 1, 2);
    assert [4][..0] == [];
  }

  lemma CrossedFirst(modules: Tri)
    ensures var s := Crossed(modules); var t, gs := s.table, s.groups;
      FollowedIds(t, gs, 0) == [3, 3] && FollowedIds(t, gs, 1) == [0] && FollowedIds(t, gs, 2) == [0]
  {
    var s := Crossed(modules);
    var t, gs := s.table, s.groups;
    SingleProp(t, gs, 0);
    SingleProp(t, gs, 1);
    SingleProp(t, gs, 2);
    hide FollowedIds;
  }

  lemma CrossedOther(modules: Tri)
    ensures var s := Crossed(modules); var t, gs := s.table, s.groups;
      FollowedIds(t, gs, 3) == [] && FollowedIds(t, gs, 4) == [3, 1, 1]
  {
    var s := Crossed(modules);
    var t, gs := s.table, s.groups;
    SingleProp(t, gs, 3);
    SingleProp(t, gs, 4);
    hide FollowedIds;
  }

  lemma CrossedIsTable(modules: Tri)
    ensures TableOk(Crossed(modules).table) && GroupsOk(Crossed(modules).table, Crossed(modules).groups)
  {
    CrossedOk(modules);
    hide Crossed;
  }

  lemma CrossedStart(modules: Tri)
    ensures var s := Crossed(modules);
      && MarksOk(s.table, s.groups, NoMarks)
      && MarksOk(s.table, s.groups, Marks({}, {0, 1, 2, 3, 4}, 0))
      && Deps(s.table, s.groups, NoMarks, 3) == (Marks({}, {0, 1, 2, 3, 4}, 0), None)
  {
    var s := Crossed(modules);
    var t, gs := s.table, s.groups;
    CrossedIsTable(modules);
    CrossedReferences(modules);
    CrossedInner(modules);
    hide Follow, Deps, FollowedIds, MembersIds, Crossed, TableOk, GroupsOk;
    var m, m1 := Marks({4}, {3, 4}, 0), Marks({4}, {0, 1, 2, 3, 4}, 0);
    DepsQuiet(t, gs, m, 3);
    FollowNext(t, gs, m, [3, 1, 1], m);
    assert [3, 1, 1][1..] == [1, 1] && [1, 1][1..] == [1];
    DepsOfMember(t, gs, m, 1, m1);
    FollowNext(t, gs, m, [1, 1], m1);
    FollowQuiet(t, gs, m1, [1]);
    assert Set([4]) == {4};
    assert Unflag(Flag(NoMarks, {3} + Set([4])), {3}) == m;
    DepsOfChoice(t, gs, NoMarks, 3, m1, None);
    assert Unflag(m1, Set([4])) == Marks({}, {0, 1, 2, 3, 4}, 0);
  }

  // the choice with M1 and M2, while the other is on the path
  lemma CrossedInner(modules: Tri)
    ensures var s := Crossed(modules);
      && MarksOk(s.table, s.groups, Marks({4}, {3, 4}, 0))
      && Deps(s.table, s.groups, Marks({4}, {3, 4}, 0), 0) == (Marks({4}, {0, 1, 2, 3, 4}, 0), None)
  {
    var s := Crossed(modules);
    var t, gs := s.table, s.groups;
    CrossedIsTable(modules);
    CrossedReferences(modules);
    hide Follow, Deps, FollowedIds, MembersIds, Crossed, TableOk, GroupsOk;
    var m0, m := Marks({4}, {3, 4}, 0), Marks({1, 2, 4}, {0, 1, 2, 3, 4}, 0);
    FollowQuiet(t, gs, m, [0, 0]);
    assert Set([1, 2]) == {1, 2};
    assert Flag(m0, {0} + Set([1, 2])) == Marks({0, 1, 2, 4}, {0, 1, 2, 3, 4}, 0);
    assert Unflag(Flag(m0, {0} + Set([1, 2])), {0}) == m;
    assert Unflag(m, Set([1, 2])) == Marks({4}, {0, 1, 2, 3, 4}, 0);
    DepsOfChoice(t, gs, m0, 0, m, None);
  }
}
