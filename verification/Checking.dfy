/** What the check for recursive dependencies does to its flags, as functions: sym_check_deps and
    what it calls (package/config/symbol.c). */
module Checking {
  import opened Wrappers
  import opened Symbols

  /** The symbols flagged SYMBOL_CHECK and SYMBOL_CHECKED, and zconfnerrs. */
  datatype Marks = Marks(check: set<nat>, checked: set<nat>, nerrs: nat)

  const NoMarks := Marks({}, {}, 0)

  ghost predicate MarksOk(t: Table, gs: Groups, m: Marks) {
    TableOk(t) && GroupsOk(t, gs) && forall i :: i in m.checked ==> i < |t|
  }

  ghost predicate AllIn(t: Table, ids: seq<nat>) {
    forall i :: i in ids ==> i < |t|
  }

  ghost function Unchecked(t: Table, m: Marks): set<nat> {
    Below(|t|) - m.checked
  }

  // what is followed of one property
  function PropIds(p: Property, choice: bool): seq<nat> {
    if p.Select? then [] else OptIds(p.cond) + if p.Default? && !choice then ExprIds(p.value) else []
  }

  function PropsIds(ps: seq<Property>, choice: bool): seq<nat> {
    if ps == [] then [] else PropsIds(ps[..|ps| - 1], choice) + PropIds(ps[|ps| - 1], choice)
  }

  // sym_check_sym_deps: all that a symbol follows, in order
  function FollowedIds(t: Table, gs: Groups, i: nat): seq<nat>
    requires i < |t|
  {
    OptIds(t[i].revDep) + PropsIds(t[i].props, i in gs.members)
  }

  function MembersIds(t: Table, gs: Groups, ms: seq<nat>): seq<nat>
    requires AllIn(t, ms)
  {
    if ms == [] then [] else
    var last := |ms| - 1;
    assert ms[last] in ms && forall m :: m in ms[..last] ==> m in ms;
    MembersIds(t, gs, ms[..last]) + FollowedIds(t, gs, ms[last])
  }

  /** The lists hold what is followed, and nothing else. */
  lemma {:induction false} PropsIdsAre(ps: seq<Property>, choice: bool, j: nat)
    ensures j in PropsIds(ps, choice) <==> exists p :: p in ps && j in FollowedRefs(p, choice)
  {
    if ps != [] {
      var n := |ps| - 1;
      PropsIdsAre(ps[..n], choice, j);
      assert ps == ps[..n] + [ps[n]];
      assert j in PropIds(ps[n], choice) <==> j in FollowedRefs(ps[n], choice);
    }
  }

  lemma FollowedIdsAre(t: Table, gs: Groups, i: nat, j: nat)
    requires i < |t|
    ensures j in FollowedIds(t, gs, i) <==> Follows(t, gs, i, j)
  {
    PropsIdsAre(t[i].props, i in gs.members, j);
  }

  lemma {:induction false} MembersIdsAre(t: Table, gs: Groups, ms: seq<nat>, j: nat)
    requires AllIn(t, ms)
    ensures j in MembersIds(t, gs, ms) <==> exists m :: m in ms && Follows(t, gs, m, j)
  {
    if ms != [] {
      var n := |ms| - 1;
      assert ms == ms[..n] + [ms[n]];
      assert ms[n] in ms && forall m :: m in ms[..n] ==> m in ms;
      MembersIdsAre(t, gs, ms[..n], j);
      FollowedIdsAre(t, gs, ms[n], j);
    }
  }

  lemma PropIdsIn(t: Table, p: Property, choice: bool)
    requires PropOk(t, p)
    ensures AllIn(t, PropIds(p, choice))
  {
    if p.cond.Some? {
      ExprRefsOk(t, p.cond.value);
    }
    if p.Default? {
      ExprRefsOk(t, p.value);
    }
  }

  lemma {:induction false} PropsIdsIn(t: Table, ps: seq<Property>, choice: bool)
    requires forall p :: p in ps ==> PropOk(t, p)
    ensures AllIn(t, PropsIds(ps, choice))
  {
    if ps != [] {
      assert ps[|ps| - 1] in ps;
      PropIdsIn(t, ps[|ps| - 1], choice);
      PropsIdsIn(t, ps[..|ps| - 1], choice);
    }
  }

  lemma FollowedIn(t: Table, gs: Groups, i: nat)
    requires TableOk(t) && i < |t|
    ensures AllIn(t, OptIds(t[i].revDep)) && AllIn(t, PropsIds(t[i].props, i in gs.members))
    ensures AllIn(t, FollowedIds(t, gs, i))
  {
    if t[i].revDep.Some? {
      ExprRefsOk(t, t[i].revDep.value);
    }
    PropsIdsIn(t, t[i].props, i in gs.members);
  }

  lemma {:induction false} MembersIn(t: Table, gs: Groups, ms: seq<nat>)
    requires TableOk(t) && AllIn(t, ms)
    ensures AllIn(t, MembersIds(t, gs, ms))
  {
    if ms != [] {
      var last := |ms| - 1;
      assert ms[last] in ms && forall m :: m in ms[..last] ==> m in ms;
      FollowedIn(t, gs, ms[last]);
      MembersIn(t, gs, ms[..last]);
    }
  }

  lemma MembersInTable(t: Table, gs: Groups, c: nat)
    requires GroupsOk(t, gs) && c in gs.members
    ensures c < |t| && AllIn(t, gs.members[c])
  {
    forall m | m in gs.members[c]
      ensures m < |t|
    {
      MemberOk(t, gs, c, m);
    }
  }

  /** One after the other, until one of them reports a symbol that was met again. */
  function Follow(t: Table, gs: Groups, m: Marks, ids: seq<nat>): (r: (Marks, Option<nat>))
    requires MarksOk(t, gs, m) && AllIn(t, ids)
    ensures MarksOk(t, gs, r.0) && m.checked <= r.0.checked
    decreases Unchecked(t, m), 5, |ids|
  {
    if ids == [] then (m, None) else
    assert ids[0] in ids && forall i :: i in ids[1..] ==> i in ids;
    var (m1, r) := Deps(t, gs, m, ids[0]);
    if r.Some? then (m1, r) else
    assert Unchecked(t, m1) <= Unchecked(t, m);
    Follow(t, gs, m1, ids[1..])
  }

  /** sym_check_deps: a symbol met again is reported to the place where it was met first, and
      counted there. */
  function Deps(t: Table, gs: Groups, m: Marks, i: nat): (r: (Marks, Option<nat>))
    requires MarksOk(t, gs, m) && i < |t|
    ensures MarksOk(t, gs, r.0) && m.checked <= r.0.checked
    decreases Unchecked(t, m), if i in gs.choiceOf then 4 else 2
  {
    if i in m.check then (m, Some(i))
    else if i in m.checked then (m, None)
    else
      var (m1, r) := Walk(t, gs, m, i);
      if r == Some(i) then (m1.(nerrs := m1.nerrs + 1), None) else (m1, r)
  }

  // a member leaves it to its choice
  function Walk(t: Table, gs: Groups, m: Marks, i: nat): (r: (Marks, Option<nat>))
    requires MarksOk(t, gs, m) && i < |t| && i !in m.checked
    ensures MarksOk(t, gs, r.0) && m.checked <= r.0.checked
    decreases Unchecked(t, m), if i in gs.choiceOf then 3 else 1
  {
    if i in gs.choiceOf then
      assert InGroup(gs, gs.choiceOf[i], i);
      MemberOk(t, gs, gs.choiceOf[i], i);
      Deps(t, gs, m, gs.choiceOf[i])
    else if i in gs.members then ChoiceDeps(t, gs, m, i)
    else
      FollowedIn(t, gs, i);
      assert i in Unchecked(t, m) && i !in Unchecked(t, Flag(m, {i}));
      assert Unchecked(t, Flag(m, {i})) <= Unchecked(t, m);
      var (m1, r) := Follow(t, gs, Flag(m, {i}), FollowedIds(t, gs, i));
      (Unflag(m1, {i}), r)
  }

  /** sym_check_choice_deps: what the choice follows, then what its members follow; to meet a
      member again is to meet the choice. */
  function ChoiceDeps(t: Table, gs: Groups, m: Marks, c: nat): (r: (Marks, Option<nat>))
    requires MarksOk(t, gs, m) && c in gs.members && c !in m.checked
    ensures MarksOk(t, gs, r.0) && m.checked <= r.0.checked
    decreases Unchecked(t, m), 0
  {
    MembersInTable(t, gs, c);
    FollowedIn(t, gs, c);
    MembersIn(t, gs, gs.members[c]);
    var all := {c} + Set(gs.members[c]);
    assert c in Unchecked(t, m) && c !in Unchecked(t, Flag(m, all));
    assert Unchecked(t, Flag(m, all)) <= Unchecked(t, m);
    var (m1, r1) := Follow(t, gs, Flag(m, all), FollowedIds(t, gs, c));
    var m2 := Unflag(m1, {c});
    assert c !in Unchecked(t, m2);
    assert Unchecked(t, m2) <= Unchecked(t, m);
    var (m3, r3) := if r1.Some? then (m2, r1) else Follow(t, gs, m2, MembersIds(t, gs, gs.members[c]));
    (Unflag(m3, Set(gs.members[c])), Whole(gs, c, r3))
  }

  function Set(s: seq<nat>): (r: set<nat>)
    ensures forall i :: i in r <==> i in s
  {
    set i | i in s
  }

  // a member of the choice is reported as the choice
  function Whole(gs: Groups, c: nat, r: Option<nat>): Option<nat> {
    if r.Some? && r.value in gs.choiceOf && gs.choiceOf[r.value] == c then Some(c) else r
  }

  function Flag(m: Marks, s: set<nat>): Marks {
    m.(check := m.check + s, checked := m.checked + s)
  }

  function Unflag(m: Marks, s: set<nat>): Marks {
    m.(check := m.check - s)
  }

  // two parts are followed one after the other
  lemma {:induction false} FollowBoth(t: Table, gs: Groups, m: Marks, a: seq<nat>, b: seq<nat>)
    requires MarksOk(t, gs, m) && AllIn(t, a + b)
    ensures AllIn(t, a) && AllIn(t, b)
    ensures var (m1, r) := Follow(t, gs, m, a);
      Follow(t, gs, m, a + b) == if r.Some? then (m1, r) else Follow(t, gs, m1, b)
    decreases |a|
  {
    assert forall i :: i in a || i in b ==> i in a + b;
    if a == [] {
      assert a + b == b;
    } else {
      assert (a + b)[0] == a[0] && (a + b)[1..] == a[1..] + b && a[0] in a;
      assert forall i :: i in (a + b)[1..] ==> i in a + b;
      var (m1, r) := Deps(t, gs, m, a[0]);
      if r.None? {
        FollowBoth(t, gs, m1, a[1..], b);
      }
    }
  }

  /** From the flags m, these symbols are followed one after the other, and then the flags are
      m1 and r is reported. */
  ghost predicate Ran(t: Table, gs: Groups, m: Marks, ids: seq<nat>, m1: Marks, r: Option<nat>) {
    MarksOk(t, gs, m) && AllIn(t, ids) && (m1, r) == Follow(t, gs, m, ids)
  }

  // nothing is followed
  lemma RanNothing(t: Table, gs: Groups, m: Marks)
    requires MarksOk(t, gs, m)
    ensures Ran(t, gs, m, [], m, None)
  {
  }

  lemma RanBoth(t: Table, gs: Groups, m: Marks, a: seq<nat>, m1: Marks, b: seq<nat>, m2: Marks, r: Option<nat>)
    requires Ran(t, gs, m, a, m1, None) && Ran(t, gs, m1, b, m2, r)
    ensures Ran(t, gs, m, a + b, m2, r)
  {
    FollowBoth(t, gs, m, a, b);
  }

  // the second part is given up when the first reports
  lemma RanFirst(t: Table, gs: Groups, m: Marks, a: seq<nat>, b: seq<nat>, m1: Marks, r: Option<nat>)
    requires Ran(t, gs, m, a, m1, r) && r.Some? && AllIn(t, b)
    ensures Ran(t, gs, m, a + b, m1, r)
  {
    FollowBoth(t, gs, m, a, b);
  }

  lemma AllInParts(t: Table, ids: seq<nat>, k: nat)
    requires AllIn(t, ids) && k <= |ids|
    ensures AllIn(t, ids[..k]) && AllIn(t, ids[k..])
  {
    forall i | i in ids[..k] || i in ids[k..]
      ensures i < |t|
    {
      assert i in ids;
    }
  }

  // a property that reports is the last to be looked at
  lemma {:induction false} RanProps(t: Table, gs: Groups, m: Marks, ps: seq<Property>, k: nat, choice: bool, m1: Marks,
      r: Option<nat>)
    requires k <= |ps| && (forall p :: p in ps ==> PropOk(t, p)) && r.Some?
    requires Ran(t, gs, m, PropsIds(ps[..k], choice), m1, r)
    ensures Ran(t, gs, m, PropsIds(ps, choice), m1, r)
    decreases |ps| - k
  {
    if k < |ps| {
      assert ps[..k + 1][..k] == ps[..k] && ps[k] in ps;
      PropIdsIn(t, ps[k], choice);
      RanFirst(t, gs, m, PropsIds(ps[..k], choice), PropIds(ps[k], choice), m1, r);
      RanProps(t, gs, m, ps, k + 1, choice, m1, r);
    } else {
      assert ps[..k] == ps;
    }
  }

  // and so is a member
  lemma {:induction false} RanMembers(t: Table, gs: Groups, m: Marks, ms: seq<nat>, k: nat, m1: Marks, r: Option<nat>)
    requires k <= |ms| && AllIn(t, ms) && AllIn(t, ms[..k]) && r.Some?
    requires Ran(t, gs, m, MembersIds(t, gs, ms[..k]), m1, r)
    ensures Ran(t, gs, m, MembersIds(t, gs, ms), m1, r)
    decreases |ms| - k
  {
    if k < |ms| {
      assert ms[..k + 1][..k] == ms[..k] && ms[k] in ms;
      AllInParts(t, ms, k + 1);
      FollowedIn(t, gs, ms[k]);
      RanFirst(t, gs, m, MembersIds(t, gs, ms[..k]), FollowedIds(t, gs, ms[k]), m1, r);
      RanMembers(t, gs, m, ms, k + 1, m1, r);
    } else {
      assert ms[..k] == ms;
    }
  }

  /** The loop of conf_parse over all symbols, in the order of the hash table. */
  function All(t: Table, gs: Groups, m: Marks, order: seq<nat>): (r: Marks)
    requires MarksOk(t, gs, m) && AllIn(t, order)
    ensures MarksOk(t, gs, r)
    decreases |order|
  {
    if order == [] then m else
    assert order[0] in order && forall i :: i in order[1..] ==> i in order;
    var (m1, r) := Deps(t, gs, m, order[0]);
    All(t, gs, if r.Some? then m1.(nerrs := m1.nerrs + 1) else m1, order[1..])
  }

  // ---------- single steps ----------

  // symbols that are finished
  predicate Quiet(m: Marks, ids: seq<nat>) {
    forall i :: i in ids ==> i in m.checked && i !in m.check
  }

  lemma {:induction false} FollowQuiet(t: Table, gs: Groups, m: Marks, ids: seq<nat>)
    requires MarksOk(t, gs, m) && Quiet(m, ids)
    ensures AllIn(t, ids) && Follow(t, gs, m, ids) == (m, None)
    decreases |ids|
  {
    if ids != [] {
      assert ids[0] in ids && forall i :: i in ids[1..] ==> i in ids;
      FollowQuiet(t, gs, m, ids[1..]);
    }
  }

  lemma DepsQuiet(t: Table, gs: Groups, m: Marks, i: nat)
    requires MarksOk(t, gs, m) && i < |t| && i in m.checked && i !in m.check
    ensures Deps(t, gs, m, i) == (m, None)
  {
  }

  lemma FollowNext(t: Table, gs: Groups, m: Marks, ids: seq<nat>, m1: Marks)
    requires MarksOk(t, gs, m) && AllIn(t, ids) && ids != [] && ids[0] < |t| && Deps(t, gs, m, ids[0]) == (m1, None)
    ensures AllIn(t, ids[1..]) && Follow(t, gs, m, ids) == Follow(t, gs, m1, ids[1..])
  {
    assert forall i :: i in ids[1..] ==> i in ids;
  }

  // the first reports
  lemma FollowStops(t: Table, gs: Groups, m: Marks, ids: seq<nat>, m1: Marks, r: Option<nat>)
    requires MarksOk(t, gs, m) && AllIn(t, ids) && ids != [] && ids[0] < |t|
    requires Deps(t, gs, m, ids[0]) == (m1, r) && r.Some?
    ensures Follow(t, gs, m, ids) == (m1, r)
  {
    hide Deps;
  }

  // the first is on the path
  lemma FollowMeets(t: Table, gs: Groups, m: Marks, ids: seq<nat>)
    requires MarksOk(t, gs, m) && AllIn(t, ids) && ids != [] && ids[0] in m.check
    ensures Follow(t, gs, m, ids) == (m, Some(ids[0]))
  {
    assert ids[0] in ids;
  }

  lemma AllNext(t: Table, gs: Groups, m: Marks, order: seq<nat>, m1: Marks)
    requires MarksOk(t, gs, m) && AllIn(t, order) && order != [] && order[0] < |t|
    requires Deps(t, gs, m, order[0]) == (m1, None)
    ensures AllIn(t, order[1..]) && All(t, gs, m, order) == All(t, gs, m1, order[1..])
  {
    assert forall i :: i in order[1..] ==> i in order;
  }

  // what is finished is passed over
  lemma {:induction false} AllQuiet(t: Table, gs: Groups, m: Marks, order: seq<nat>)
    requires MarksOk(t, gs, m) && Quiet(m, order)
    ensures AllIn(t, order) && All(t, gs, m, order) == m
    decreases |order|
  {
    if order != [] {
      assert order[0] in order && forall i :: i in order[1..] ==> i in order;
      AllQuiet(t, gs, m, order[1..]);
    }
  }

  /** The first one finishes them all, and so the others are passed over. */
  lemma FirstFinishes(t: Table, gs: Groups, m: Marks, order: seq<nat>, m1: Marks)
    requires MarksOk(t, gs, m) && order != [] && (forall i :: i in order <==> i < |t|)
    requires order[0] < |t| && Deps(t, gs, m, order[0]) == (m1, None)
    requires m1.check == {} && forall i: nat :: i < |t| ==> i in m1.checked
    ensures AllIn(t, order) && All(t, gs, m, order) == m1
  {
    hide Deps, All;
    assert forall i :: i in order[1..] ==> i in order;
    AllNext(t, gs, m, order, m1);
    AllQuiet(t, gs, m1, order[1..]);
  }

  // neither the choice nor one of its members
  predicate Elsewhere(gs: Groups, c: nat, r: Option<nat>) {
    r.Some? ==> r.value != c && Whole(gs, c, r) == r
  }

  /** A choice whose own references are finished; the references of its members lead to m1, and
      not back to it. */
  lemma DepsOfChoice(t: Table, gs: Groups, m: Marks, c: nat, m1: Marks, r: Option<nat>)
    requires MarksOk(t, gs, m) && c < |t| && c in gs.members && c !in m.checked && c !in m.check
    requires Quiet(Flag(m, {c} + Set(gs.members[c])), FollowedIds(t, gs, c)) && Elsewhere(gs, c, r)
    requires AllIn(t, gs.members[c]) && AllIn(t, MembersIds(t, gs, gs.members[c]))
    requires var m2 := Unflag(Flag(m, {c} + Set(gs.members[c])), {c});
      MarksOk(t, gs, m2) && Follow(t, gs, m2, MembersIds(t, gs, gs.members[c])) == (m1, r)
    ensures Deps(t, gs, m, c) == (Unflag(m1, Set(gs.members[c])), r)
  {
    FlaggedOk(t, gs, m, c);
    FollowQuiet(t, gs, Flag(m, {c} + Set(gs.members[c])), FollowedIds(t, gs, c));
    assert c !in gs.choiceOf && r != Some(c);
    hide Follow, FollowedIds, MembersIds, Flag, Unflag, Quiet, GroupsOk, TableOk, MarksOk, Set;
    StagesOf(t, gs, m, c, m1, r);
    assert Walk(t, gs, m, c) == (Unflag(m1, Set(gs.members[c])), r);
    hide *;
    DepsWalks(t, gs, m, c);
  }

  lemma StagesOf(t: Table, gs: Groups, m: Marks, c: nat, m1: Marks, r: Option<nat>)
    requires MarksOk(t, gs, m) && c in gs.members && c !in m.checked && Elsewhere(gs, c, r)
    requires var m0 := Flag(m, {c} + Set(gs.members[c]));
      AllIn(t, FollowedIds(t, gs, c)) && MarksOk(t, gs, m0) && Follow(t, gs, m0, FollowedIds(t, gs, c)) == (m0, None)
    requires AllIn(t, gs.members[c]) && AllIn(t, MembersIds(t, gs, gs.members[c]))
    requires var m2 := Unflag(Flag(m, {c} + Set(gs.members[c])), {c});
      MarksOk(t, gs, m2) && Follow(t, gs, m2, MembersIds(t, gs, gs.members[c])) == (m1, r)
    ensures ChoiceDeps(t, gs, m, c) == (Unflag(m1, Set(gs.members[c])), r)
  {
    hide Follow, FollowedIds, MembersIds, Flag, Unflag, GroupsOk, TableOk, MarksOk, Set, AllIn, Unchecked;
  }

  lemma DepsWalks(t: Table, gs: Groups, m: Marks, i: nat)
    requires MarksOk(t, gs, m) && i < |t| && i !in m.check && i !in m.checked && Walk(t, gs, m, i).1 != Some(i)
    ensures Deps(t, gs, m, i) == Walk(t, gs, m, i)
  {
    hide Walk;
  }

  lemma FlaggedOk(t: Table, gs: Groups, m: Marks, c: nat)
    requires MarksOk(t, gs, m) && c in gs.members
    ensures MarksOk(t, gs, Flag(m, {c} + Set(gs.members[c])))
  {
    MembersInTable(t, gs, c);
  }

  // a member leads to its choice
  lemma DepsOfMember(t: Table, gs: Groups, m: Marks, i: nat, m1: Marks)
    requires MarksOk(t, gs, m) && i < |t| && i in gs.choiceOf && i !in m.checked && i !in m.check
    requires gs.choiceOf[i] < |t| && Deps(t, gs, m, gs.choiceOf[i]) == (m1, None)
    ensures Deps(t, gs, m, i) == (m1, None)
  {
    assert Walk(t, gs, m, i) == (m1, None);
    hide Walk;
  }

  /** Another symbol whose references are finished. */
  lemma DepsOfPlain(t: Table, gs: Groups, m: Marks, i: nat)
    requires MarksOk(t, gs, m) && i < |t| && i !in gs.choiceOf && i !in gs.members && i !in m.checked && i !in m.check
    requires Quiet(m, FollowedIds(t, gs, i)) && i !in FollowedIds(t, gs, i)
    ensures Deps(t, gs, m, i) == (m.(checked := m.checked + {i}), None)
  {
    var m1 := Flag(m, {i});
    assert MarksOk(t, gs, m1) && Unflag(m1, {i}) == m.(checked := m.checked + {i});
    FollowQuiet(t, gs, m1, FollowedIds(t, gs, i));
    hide *;
    PlainWalk(t, gs, m, i, m1, None);
    DepsWalks(t, gs, m, i);
  }

  /** And one that is met again by its only reference: an error. */
  lemma MeetsAgain(t: Table, gs: Groups, m: Marks, i: nat, j: nat, m1: Marks)
    requires MarksOk(t, gs, m) && i < |t| && i !in gs.choiceOf && i !in gs.members && i !in m.checked && i !in m.check
    requires FollowedIds(t, gs, i) == [j] && j < |t|
    requires MarksOk(t, gs, Flag(m, {i})) && Deps(t, gs, Flag(m, {i}), j) == (m1, Some(i))
    ensures var m2 := Unflag(m1, {i}); Deps(t, gs, m, i) == (m2.(nerrs := m2.nerrs + 1), None)
  {
    hide *;
    OneIn(t, j);
    FollowStops(t, gs, Flag(m, {i}), [j], m1, Some(i));
    PlainWalk(t, gs, m, i, m1, Some(i));
    Counted(t, gs, m, i);
  }

  lemma OneIn(t: Table, j: nat)
    requires j < |t|
    ensures [j][0] == j && AllIn(t, [j])
  {
  }

  lemma PlainWalk(t: Table, gs: Groups, m: Marks, i: nat, m1: Marks, r: Option<nat>)
    requires MarksOk(t, gs, m) && i < |t| && i !in gs.choiceOf && i !in gs.members && i !in m.checked
    requires AllIn(t, FollowedIds(t, gs, i)) && MarksOk(t, gs, Flag(m, {i}))
    requires Follow(t, gs, Flag(m, {i}), FollowedIds(t, gs, i)) == (m1, r)
    ensures Walk(t, gs, m, i) == (Unflag(m1, {i}), r)
  {
    hide Follow, FollowedIds, MarksOk;
  }

  lemma Counted(t: Table, gs: Groups, m: Marks, i: nat)
    requires MarksOk(t, gs, m) && i < |t| && i !in m.check && i !in m.checked && Walk(t, gs, m, i).1 == Some(i)
    ensures var m1 := Walk(t, gs, m, i).0; Deps(t, gs, m, i) == (m1.(nerrs := m1.nerrs + 1), None)
  {
    hide Walk;
  }

  // ---------- what is reported ----------

  /** What is on the way has been met, and a choice has been met with its members. */
  ghost predicate Consistent(gs: Groups, m: Marks) {
    m.check <= m.checked && forall i :: i in gs.choiceOf ==> (i in m.checked <==> gs.choiceOf[i] in m.checked)
  }

  // the flags are those of before, more is finished, and what is reported is on the way
  ghost predicate Reported(gs: Groups, m: Marks, m1: Marks, r: Option<nat>) {
    Consistent(gs, m1) && m1.check == m.check && m.checked <= m1.checked && (r.Some? ==> r.value in m.check)
  }

  /** The check leaves the flags as they were and reports nothing but a symbol on the way to it;
      so nothing is reported to whoever comes from outside. */
  lemma {:induction false} DepsReports(t: Table, gs: Groups, m: Marks, i: nat)
    requires MarksOk(t, gs, m) && Consistent(gs, m) && i < |t|
    ensures var (m1, r) := Deps(t, gs, m, i); Reported(gs, m, m1, r) && (i in m1.checked || r == Some(i))
    decreases Unchecked(t, m), if i in gs.choiceOf then 4 else 2
  {
    if i !in m.checked {
      if i in gs.choiceOf {
        var c := gs.choiceOf[i];
        assert InGroup(gs, c, i);
        MemberOk(t, gs, c, i);
        assert c !in m.check;
        DepsReports(t, gs, m, c);
      } else if i in gs.members {
        ChoiceReports(t, gs, m, i);
      } else {
        FollowedIn(t, gs, i);
        assert i in Unchecked(t, m) && i !in Unchecked(t, Flag(m, {i}));
        assert Unchecked(t, Flag(m, {i})) <= Unchecked(t, m);
        FollowReports(t, gs, Flag(m, {i}), FollowedIds(t, gs, i));
      }
    }
  }

  lemma {:induction false} FollowReports(t: Table, gs: Groups, m: Marks, ids: seq<nat>)
    requires MarksOk(t, gs, m) && Consistent(gs, m) && AllIn(t, ids)
    ensures var (m1, r) := Follow(t, gs, m, ids); Reported(gs, m, m1, r)
    decreases Unchecked(t, m), 5, |ids|
  {
    if ids != [] {
      assert ids[0] in ids && forall i :: i in ids[1..] ==> i in ids;
      var (m1, r) := Deps(t, gs, m, ids[0]);
      DepsReports(t, gs, m, ids[0]);
      assert Unchecked(t, m1) <= Unchecked(t, m);
      hide Deps;
      if r.None? {
        FollowReports(t, gs, m1, ids[1..]);
      }
    }
  }

  lemma {:induction false} ChoiceReports(t: Table, gs: Groups, m: Marks, c: nat)
    requires MarksOk(t, gs, m) && Consistent(gs, m) && c in gs.members && c !in m.checked
    ensures var (m1, r) := ChoiceDeps(t, gs, m, c);
      && Consistent(gs, m1) && m1.check == m.check && m.checked <= m1.checked && c in m1.checked
      && (r.Some? ==> r.value == c || r.value in m.check)
    decreases Unchecked(t, m), 0
  {
    MembersInTable(t, gs, c);
    FollowedIn(t, gs, c);
    MembersIn(t, gs, gs.members[c]);
    var all := {c} + Set(gs.members[c]);
    ChoiceNotMet(t, gs, m, c);
    assert c in Unchecked(t, m) && c !in Unchecked(t, Flag(m, all));
    assert Unchecked(t, Flag(m, all)) <= Unchecked(t, m);
    FollowReports(t, gs, Flag(m, all), FollowedIds(t, gs, c));
    var (m1, r1) := Follow(t, gs, Flag(m, all), FollowedIds(t, gs, c));
    var m2 := Unflag(m1, {c});
    hide Follow;
    if r1.None? {
      assert c !in Unchecked(t, m2);
      assert Unchecked(t, m2) <= Unchecked(t, m);
      FollowReports(t, gs, m2, MembersIds(t, gs, gs.members[c]));
    }
  }

  lemma ChoiceNotMet(t: Table, gs: Groups, m: Marks, c: nat)
    requires MarksOk(t, gs, m) && Consistent(gs, m) && c in gs.members && c !in m.checked
    ensures c !in m.check && c !in gs.choiceOf
    ensures forall i :: i in Set(gs.members[c]) ==>
      i !in m.checked && i !in m.check && i in gs.choiceOf && gs.choiceOf[i] == c
    ensures forall i :: i in gs.choiceOf && gs.choiceOf[i] == c ==> i in Set(gs.members[c])
  {
    forall i | i in Set(gs.members[c])
      ensures i in gs.choiceOf && gs.choiceOf[i] == c
    {
      assert InGroup(gs, c, i);
      MemberOk(t, gs, c, i);
    }
  }
}
