/** The check for recursive dependencies: sym_check_deps and its helpers
    (package/config/symbol.c), run over all symbols by conf_parse
    (package/config/zconf.tab.c). */
module DepCheck {
  import opened Wrappers
  import opened Exprs
  import opened Graphs
  import opened Symbols
  import opened Checking

  lemma PathPrefix<T(!new)>(g: Graph<T>, p: seq<T>, a: T)
    requires IsPath(g, p + [a]) && p != []
    ensures IsPath(g, p)
  {
    forall k | 0 <= k < |p| - 1
      ensures (p[k], p[k + 1]) in g
    {
      assert ((p + [a])[k], (p + [a])[k + 1]) in g;
    }
  }

  // the symbol whose check goes through the stage
  function RootOf(a: Stage): nat {
    if a.Own? then a.sym else a.choice
  }

  class Checker {
    const table: Table
    const groups: Groups
    var check: set<nat>    // symbols flagged SYMBOL_CHECK
    var checked: set<nat>  // symbols flagged SYMBOL_CHECKED
    var nerrs: nat         // zconfnerrs

    ghost var trail: seq<nat>    // the path being followed
    ghost var open: set<Stage>   // the stages it goes through
    ghost var order: seq<Stage>  // stages in the order in which they were finished
    ghost var clean: bool        // no symbol has been met twice on the path so far

    /** The flag says that the symbol is on the path, or is a member of a choice that is. */
    ghost predicate OnPath(i: nat)
      reads this
    {
      if i in groups.choiceOf then Own(groups.choiceOf[i]) in open || Members(groups.choiceOf[i]) in open
      else Own(i) in open
    }

    ghost predicate Valid()
      reads this
    {
      FlagsOk() && PathOk() && OrderOk()
    }

    ghost predicate FlagsOk()
      reads this
    {
      && TableOk(table) && GroupsOk(table, groups)
      && check <= checked
      && (forall i :: i in checked ==> i < |table|)
      && (forall m :: m in groups.choiceOf ==> (m in checked <==> groups.choiceOf[m] in checked))
      && (forall i :: i in check <==> OnPath(i))
      && (forall a :: a in open ==> RootOf(a) in checked)
      && (forall c :: Own(c) in open ==> Members(c) !in open)
    }

    ghost predicate PathOk()
      reads this
    {
      && (trail != [] ==> IsPath(Contracted(table, groups), trail))
      && (forall a :: a in open ==> RootOf(a) in trail)
    }

    ghost predicate OrderOk()
      reads this
    {
      && (clean ==> Topological(Watched(table, groups), order) && forall i :: i in checked - check ==>
          StageOf(groups, i) in order)
      && (!clean ==> Cyclic(Contracted(table, groups)))
      && (nerrs > 0 ==> !clean)
    }

    // between calls, a cycle that was met has also been counted
    ghost predicate Settled()
      reads this
    {
      Valid() && (clean || nerrs > 0)
    }

    ghost function Unchecked(): set<nat>
      reads this
    {
      Below(|table|) - checked
    }

    ghost function Flags(): (m: Marks)
      reads this
    {
      Marks(check, checked, nerrs)
    }

    lemma FlagsAreOk()
      requires FlagsOk()
      ensures MarksOk(table, groups, Flags())
    {
    }

    /** The reference that a call follows. That of a member to its own choice finds nothing
        to do: the choice is flagged no longer. */
    ghost predicate Next(i: nat)
      reads this
    {
      trail != [] ==>
        || (trail[|trail| - 1], WholeOf(groups, i)) in Contracted(table, groups)
        || (i in groups.members && Members(i) in open)
    }

    constructor (t: Table, gs: Groups)
      requires TableOk(t) && GroupsOk(t, gs)
      ensures table == t && groups == gs && Fresh()
    {
      table, groups := t, gs;
      check, checked, nerrs := {}, {}, 0;
      trail, open, order, clean := [], {}, [], true;
    }

    // nothing is checked yet
    ghost predicate Fresh()
      reads this
    {
      Settled() && check == {} && checked == {} && nerrs == 0 && trail == [] && open == {} && clean
    }

    /** What a call reports: either a symbol that was met again, to be passed up to the place
        where it was met first, or nothing. Flags set by callers are put back. */
    twostate predicate Reports(new r: Option<nat>)
      reads this
    {
      && Valid()
      && check == old(check) && trail == old(trail) && open == old(open)
      && (forall a :: a in old(order) ==> a in order)
      && checked >= old(checked) && nerrs >= old(nerrs)
      && (clean ==> old(clean))
      && (r.None? ==> Settled())
      && (r.Some? ==> !clean && r.value in check)
    }

    // all these were finished before
    ghost predicate Finished(refs: set<nat>)
      reads this
    {
      clean ==> forall j :: j in refs ==> StageOf(groups, j) in order
    }

    // the path ends at the symbol whose references are followed
    ghost predicate AtEnd(i: nat, refs: set<nat>)
      reads this
    {
      && trail != [] && trail[|trail| - 1] == WholeOf(groups, i)
      && (i in groups.choiceOf ==> Members(groups.choiceOf[i]) in open)
      && forall j :: j in refs ==> Follows(table, groups, i, j)
    }

    method CheckSymbol(s: Sym, ghost i: nat) returns (r: Option<nat>)
      requires Settled() && SymOk(table, s) && AtEnd(i, SymRefs(s))
      modifies this
      ensures Reports(r)
      ensures Finished(SymRefs(s))
      ensures Ran(table, groups, old(Flags()), SymIds(s), Flags(), r)
      decreases Unchecked(), 5
    {
      // constants carry no properties
      if s.Config? {
        assert s.id in SymRefs(s);
        NextReference(i, s.id);
        r := CheckDeps(s.id);
      } else {
        r := None;
      }
    }

    lemma NextReference(i: nat, j: nat)
      requires Valid() && AtEnd(i, {j})
      ensures Next(j)
    {
      assert j in {j};
      if InGroup(groups, j, i) {
        assert groups.choiceOf[i] == j;
      } else {
        assert Connects(table, groups, WholeOf(groups, i), WholeOf(groups, j));
      }
    }

    // sym_check_expr_deps
    method CheckExprDeps(e: Expr, ghost i: nat) returns (r: Option<nat>)
      requires Settled() && ExprOk(table, e) && AtEnd(i, ExprRefs(e))
      modifies this
      ensures Reports(r)
      ensures Finished(ExprRefs(e))
      ensures Ran(table, groups, old(Flags()), ExprIds(e), Flags(), r)
      decreases Unchecked(), 6, e
    {
      FlagsAreOk();
      ExprRefsOk(table, e);
      hide FlagsOk, PathOk, OrderOk, StageOf, MarksOk, Follows, Ran;
      ghost var m := Flags();
      match e {
        case Bin(_, left, right) =>
          assert ExprRefs(left) <= ExprRefs(e) && ExprRefs(right) <= ExprRefs(e);
          r := CheckExprDeps(left, i);
          if r.None? {
            ghost var m1 := Flags();
            r := CheckExprDeps(right, i);
            RanBoth(table, groups, m, ExprIds(left), m1, ExprIds(right), Flags(), r);
          } else {
            RanFirst(table, groups, m, ExprIds(left), ExprIds(right), Flags(), r);
          }
        case Not(a) =>
          assert ExprRefs(a) <= ExprRefs(e);
          r := CheckExprDeps(a, i);
        case Cmp(_, a, b) =>
          assert SymRefs(a) <= ExprRefs(e) && SymRefs(b) <= ExprRefs(e);
          r := CheckSymbol(a, i);
          if r.None? {
            ghost var m1 := Flags();
            r := CheckSymbol(b, i);
            RanBoth(table, groups, m, SymIds(a), m1, SymIds(b), Flags(), r);
          } else {
            RanFirst(table, groups, m, SymIds(a), SymIds(b), Flags(), r);
          }
        case Symbol(s) =>
          assert SymRefs(s) <= ExprRefs(e);
          r := CheckSymbol(s, i);
      }
    }

    method CheckOptDeps(e: Option<Expr>, ghost i: nat) returns (r: Option<nat>)
      requires Settled() && OptOk(table, e) && AtEnd(i, OptRefs(e))
      modifies this
      ensures Reports(r)
      ensures Finished(OptRefs(e))
      ensures Ran(table, groups, old(Flags()), OptIds(e), Flags(), r)
      decreases Unchecked(), 7
    {
      if e.None? {
        r := None;
      } else {
        assert ExprRefs(e.value) <= OptRefs(e);
        r := CheckExprDeps(e.value, i);
      }
    }

    // what the loop of sym_check_sym_deps does with a property
    method CheckPropDeps(p: Property, i: nat) returns (r: Option<nat>)
      requires Settled() && PropOk(table, p) && AtEnd(i, FollowedRefs(p, i in groups.members))
      modifies this
      ensures Reports(r)
      ensures Finished(FollowedRefs(p, i in groups.members))
      ensures Ran(table, groups, old(Flags()), PropIds(p, i in groups.members), Flags(), r)
      decreases Unchecked(), 8
    {
      FlagsAreOk();
      ghost var m := Flags();
      RanNothing(table, groups, m);
      assert OptIds(p.cond) + [] == OptIds(p.cond);
      PropIdsIn(table, p, i in groups.members);
      if p.Default? {
        ExprRefsOk(table, p.value);
      }
      hide FlagsOk, PathOk, OrderOk, StageOf, MarksOk, Follows, Ran;
      if p.Select? {
        return None;
      }
      r := CheckOptDeps(p.cond, i);
      if p.Default? && i !in groups.members {
        ghost var m1 := Flags();
        if r.None? {
          r := CheckExprDeps(p.value, i);
          RanBoth(table, groups, m, OptIds(p.cond), m1, ExprIds(p.value), Flags(), r);
        } else {
          RanFirst(table, groups, m, OptIds(p.cond), ExprIds(p.value), Flags(), r);
        }
      }
    }

    // sym_check_sym_deps
    method CheckSymDeps(i: nat) returns (r: Option<nat>)
      requires Settled() && i < |table| && AtEnd(i, {})
      modifies this
      ensures Reports(r)
      ensures clean ==> forall j :: Follows(table, groups, i, j) ==> StageOf(groups, j) in order
      ensures Ran(table, groups, old(Flags()), FollowedIds(table, groups, i), Flags(), r)
      decreases Unchecked(), 11
    {
      ghost var m, ids, props := Flags(), PropsIds(table[i].props, i in groups.members), table[i].props;
      FollowedIn(table, groups, i);
      assert AtEnd(i, OptRefs(table[i].revDep));
      assert props[..|props|] == props;
      hide FlagsOk, PathOk, OrderOk, StageOf, MarksOk, PropsIds, Follows, FollowedRefs, PropOk, OptOk, AllIn, WholeOf,
        PropsFinished, Ran;
      r := CheckOptDeps(table[i].revDep, i);
      if r.None? {
        ghost var m1 := Flags();
        r := CheckProps(i);
        RanBoth(table, groups, m, OptIds(table[i].revDep), m1, ids, Flags(), r);
      } else {
        RanFirst(table, groups, m, OptIds(table[i].revDep), ids, Flags(), r);
      }
      AllFinished(i);
    }

    // its loop
    method CheckProps(i: nat) returns (r: Option<nat>)
      requires Settled() && i < |table| && AtEnd(i, {})
      modifies this
      ensures Reports(r)
      ensures clean ==> PropsFinished(i, |table[i].props|, order)
      ensures PropsRan(i, |table[i].props|, old(Flags()), Flags(), r)
      decreases Unchecked(), 10
    {
      var props := table[i].props;
      ghost var m := Flags();
      PropsStart(i, m);
      hide FlagsOk, PathOk, OrderOk, PropsFinished, PropsRan, Follows, WholeOf;
      r := None;
      var k := 0;
      while k < |props|
        invariant 0 <= k <= |props|
        invariant r.None? && Reports(r)
        invariant clean ==> PropsFinished(i, k, order)
        invariant PropsRan(i, k, m, Flags(), None)
      {
        r := CheckOneProp(i, k, m);
        if r.Some? {
          return;
        }
        k := k + 1;
      }
    }

    // one round: the properties before were looked at, from the flags m
    method CheckOneProp(i: nat, k: nat, ghost m: Marks) returns (r: Option<nat>)
      requires Settled() && i < |table| && AtEnd(i, {}) && k < |table[i].props|
      requires clean ==> PropsFinished(i, k, order)
      requires PropsRan(i, k, m, Flags(), None)
      modifies this
      ensures Reports(r)
      ensures clean ==> r.None? && PropsFinished(i, k + 1, order)
      ensures PropsRan(i, if r.None? then k + 1 else |table[i].props|, m, Flags(), r)
      decreases Unchecked(), 9
    {
      ghost var was, m1 := order, Flags();
      var p := table[i].props[k];
      SymAtEnd(i, p);
      hide FlagsOk, PathOk, OrderOk, StageOf, Follows, FollowedRefs, PropOk, WholeOf, PropsFinished, Ran, PropIds,
        AtEnd, PropsRan;
      r := CheckPropDeps(p, i);
      OnePropRan(i, k, m, m1, Flags(), r);
      if clean {
        OneMore(i, k, was, order);
      }
    }

    // from the flags m, the first k properties lead to m1 and r
    ghost predicate PropsRan(i: nat, k: nat, m: Marks, m1: Marks, r: Option<nat>)
      requires i < |table| && k <= |table[i].props|
    {
      Ran(table, groups, m, PropsIds(table[i].props[..k], i in groups.members), m1, r)
    }

    lemma PropsStart(i: nat, m: Marks)
      requires FlagsOk() && i < |table| && m == Flags()
      ensures PropsRan(i, 0, m, m, None) && PropsFinished(i, 0, order)
    {
      RanNothing(table, groups, m);
    }

    lemma OnePropRan(i: nat, k: nat, m: Marks, m1: Marks, m2: Marks, r: Option<nat>)
      requires TableOk(table) && i < |table| && k < |table[i].props| && PropsRan(i, k, m, m1, None)
      requires Ran(table, groups, m1, PropIds(table[i].props[k], i in groups.members), m2, r)
      ensures PropsRan(i, if r.None? then k + 1 else |table[i].props|, m, m2, r)
    {
      var props, choice := table[i].props, i in groups.members;
      assert props[..k + 1][..k] == props[..k] && props[..|props|] == props;
      RanBoth(table, groups, m, PropsIds(props[..k], choice), m1, PropIds(props[k], choice), m2, r);
      if r.Some? {
        RanProps(table, groups, m, props, k + 1, choice, m2, r);
      }
    }

    // what the first k properties refer to is among these
    ghost predicate PropsFinished(i: nat, k: nat, done: seq<Stage>)
      requires i < |table| && k <= |table[i].props|
    {
      forall n, j :: 0 <= n < k && j in FollowedRefs(table[i].props[n], i in groups.members) ==>
        StageOf(groups, j) in done
    }

    lemma OneMore(i: nat, k: nat, was: seq<Stage>, done: seq<Stage>)
      requires i < |table| && k < |table[i].props| && PropsFinished(i, k, was)
      requires forall j :: j in FollowedRefs(table[i].props[k], i in groups.members) ==> StageOf(groups, j) in done
      requires forall a :: a in was ==> a in done
      ensures PropsFinished(i, k + 1, done)
    {
    }

    lemma AllFinished(i: nat)
      requires i < |table| && Finished(OptRefs(table[i].revDep))
      requires clean ==> PropsFinished(i, |table[i].props|, order)
      ensures clean ==> forall j :: Follows(table, groups, i, j) ==> StageOf(groups, j) in order
    {
    }

    lemma SymAtEnd(i: nat, p: Property)
      requires FlagsOk() && i < |table| && AtEnd(i, {}) && p in table[i].props
      ensures PropOk(table, p) && AtEnd(i, FollowedRefs(p, i in groups.members)) && TableOk(table)
    {
    }

    // sym_check_deps
    method CheckDeps(i: nat) returns (r: Option<nat>)
      requires Settled() && i < |table| && Next(i)
      modifies this
      ensures Reports(r)
      ensures Finished({i}) && i in checked
      ensures MarksOk(table, groups, old(Flags())) && (Flags(), r) == Deps(table, groups, old(Flags()), i)
      decreases Unchecked(), if i in groups.choiceOf then 4 else 2
    {
      FlagsAreOk();
      hide FlagsOk, PathOk, OrderOk, StageOf, MarksOk, Walk, ChoiceDeps;
      FlagsHave(i);
      if i in check {
        MetAgain(i);
        return Some(i);
      }
      if i in checked {
        DoneIsFinished(i);
        return None;
      }
      if i in groups.choiceOf {
        r := CheckValueDeps(i);
      } else if i in groups.members {
        r := CheckChoiceDeps(i);
      } else {
        r := CheckOneDeps(i);
      }
      DoneIsFinished(i);
      if r == Some(i) {
        CountError();
        r := None;
      }
    }

    method CountError()
      requires Valid() && !clean
      modifies this`nerrs
      ensures Settled() && nerrs == old(nerrs) + 1
    {
      nerrs := nerrs + 1;
    }

    lemma FlagsHave(i: nat)
      requires Valid() && i < |table|
      ensures i in check ==> i in checked
      ensures i in groups.choiceOf ==>
        var c := groups.choiceOf[i]; c < |table| && c !in groups.choiceOf && (i in checked <==> c in checked)
      ensures i in groups.members ==> i !in groups.choiceOf
    {
    }

    lemma DoneIsFinished(i: nat)
      requires Valid() && i in checked && i !in check
      ensures Finished({i})
    {
    }

    // a member: the check starts with its choice
    method CheckValueDeps(i: nat) returns (r: Option<nat>)
      requires Settled() && i < |table| && i in groups.choiceOf && i !in check && i !in checked && Next(i)
      modifies this
      ensures Reports(r) && i in checked
      ensures MarksOk(table, groups, old(Flags())) && (Flags(), r) == Walk(table, groups, old(Flags()), i)
      decreases Unchecked(), 3
    {
      hide PathOk, OrderOk, StageOf;
      r := CheckDeps(groups.choiceOf[i]);
    }

    // a symbol outside choice groups
    method CheckOneDeps(i: nat) returns (r: Option<nat>)
      requires Settled() && i < |table| && i !in checked && i !in groups.choiceOf && i !in groups.members && Next(i)
      modifies this
      ensures Returns(i, r)
      ensures MarksOk(table, groups, old(Flags())) && (Flags(), r) == Walk(table, groups, old(Flags()), i)
      decreases Unchecked(), 1
    {
      ghost var was, around, flagged, m := trail, open, check, Flags();
      assert i !in check && forall a :: a in around ==> RootOf(a) in was;
      FlagsAreOk();
      Enter(i);
      assert Flags() == Flag(m, {i});
      r := CheckSymDeps(i);
      ghost var m1 := Flags();
      assert trail == was + [i] && open == around + {Own(i)} && check == flagged + {i};
      LeaveOne(i, was, around, flagged);
      OneWalk(i, m, m1, r);
    }

    lemma OneWalk(i: nat, m: Marks, m1: Marks, r: Option<nat>)
      requires MarksOk(table, groups, m) && i < |table| && i !in m.checked
      requires i !in groups.choiceOf && i !in groups.members
      requires Ran(table, groups, Flag(m, {i}), FollowedIds(table, groups, i), m1, r)
      ensures Walk(table, groups, m, i) == (Unflag(m1, {i}), r)
    {
    }

    // as Reports, but the symbol itself may be reported
    twostate predicate Returns(i: nat, new r: Option<nat>)
      reads this
    {
      && Valid()
      && check == old(check) && trail == old(trail) && open == old(open)
      && (forall a :: a in old(order) ==> a in order)
      && checked >= old(checked) + {i} && nerrs >= old(nerrs)
      && (clean ==> old(clean))
      && (r.None? ==> Settled())
      && (r.Some? ==> !clean && (r.value == i || r.value in check))
    }

    // sym_check_choice_deps
    method CheckChoiceDeps(c: nat) returns (r: Option<nat>)
      requires Settled() && c in groups.members && c !in checked && Next(c)
      modifies this
      ensures Returns(c, r)
      ensures MarksOk(table, groups, old(Flags())) && (Flags(), r) == ChoiceDeps(table, groups, old(Flags()), c)
      decreases Unchecked(), 1, 1
    {
      ghost var was, around, flagged, m := trail, open, check, Flags();
      assert forall a :: a in around ==> RootOf(a) in was;
      NotFlagged(c);
      FlagsAreOk();
      hide FlagsOk, PathOk, OrderOk, StageOf, MembersFinished, RootOf, Set, MarksOk, ChoiceDeps, StagesRan;
      r := CheckStages(c);
      ghost var m1, r1 := Flags(), r;
      assert open - {Members(c)} == around;
      CloseMembers(c, was);
      assert check == flagged;
      MembersAre(c);
      if r.Some? && r.value in groups.choiceOf && groups.choiceOf[r.value] == c {
        r := Some(c);
      }
      StagesAre(c, m, m1, r1);
    }

    // both stages, the members being flagged still
    method CheckStages(c: nat) returns (r: Option<nat>)
      requires Settled() && c in groups.members && c !in checked && Next(c)
      modifies this
      ensures Valid() && checked >= old(checked) + {c} && nerrs >= old(nerrs) && (clean ==> old(clean))
      ensures check == old(check) + Set(groups.members[c]) && trail == old(trail) + [c]
      ensures open == old(open) + {Members(c)}
      ensures forall a :: a in old(order) ==> a in order
      ensures clean ==> Own(c) in order && MembersFinished(c, |groups.members[c]|, order)
      ensures r.None? ==> Settled()
      ensures r.Some? ==> !clean && (r.value == c || r.value in check)
      ensures StagesRan(c, old(Flags()), Flags(), r)
      decreases Unchecked(), 1, 0
    {
      ghost var m := Flags();
      NotFlagged(c);
      hide FlagsOk, PathOk, OrderOk, StageOf, MembersFinished, RootOf, Set, FollowedIds, MembersIds, AllIn, Ran;
      ghost var members := groups.members[c];
      assert members[..|members|] == members;
      r := CheckOwn(c);
      ghost var m1, r1 := Flags(), r;
      if r.None? {
        r := CheckMembers(c);
      }
      assert OneStage(c, m, m1, r1);
    }

    // the first stage leads to m1 and r
    ghost predicate OneStage(c: nat, m: Marks, m1: Marks, r: Option<nat>)
      requires c in groups.members && c < |table|
    {
      exists m2 ::
        Ran(table, groups, Flag(m, {c} + Set(groups.members[c])), FollowedIds(table, groups, c), m2, r) &&
        m1 == Unflag(m2, {c})
    }

    // and the second to m2 and r
    ghost predicate StagesRan(c: nat, m: Marks, m2: Marks, r: Option<nat>)
      requires c in groups.members && c < |table|
    {
      exists m1, r1 :: OneStage(c, m, m1, r1) &&
        if r1.Some? then (m2, r) == (m1, r1)
        else
          (AllIn(table, groups.members[c]) &&
           Ran(table, groups, m1, MembersIds(table, groups, groups.members[c]), m2, r))
    }

    lemma StagesAre(c: nat, m: Marks, m1: Marks, r: Option<nat>)
      requires MarksOk(table, groups, m) && c in groups.members && c !in m.checked && StagesRan(c, m, m1, r)
      ensures ChoiceDeps(table, groups, m, c) == (Unflag(m1, Set(groups.members[c])), Whole(groups, c, r))
    {
      hide Follow, FollowedIds, MembersIds;
    }

    // the choice's own properties; then it is flagged no longer, but its members are
    method CheckOwn(c: nat) returns (r: Option<nat>)
      requires Settled() && c in groups.members && c !in checked && Next(c)
      modifies this
      ensures Valid() && checked >= old(checked) + {c} && nerrs >= old(nerrs) && (clean ==> old(clean))
      ensures check == old(check) + Set(groups.members[c]) && trail == old(trail) + [c]
      ensures open == old(open) + {Members(c)}
      ensures forall a :: a in old(order) ==> a in order
      ensures clean ==> Own(c) in order
      ensures r.None? ==> Settled()
      ensures r.Some? ==> !clean && (r.value == c || r.value in check)
      ensures OneStage(c, old(Flags()), Flags(), r)
      decreases Unchecked(), 0
    {
      NotFlagged(c);
      FlagsAreOk();
      hide FlagsOk, PathOk, OrderOk, StageOf, FollowedIds, MarksOk, Ran;
      ghost var flagged, around, m0 := check, open, Flags();
      OpenChoice(c);
      assert Flags() == Flag(m0, {c} + Set(groups.members[c]));
      r := CheckSymDeps(c);
      ghost var m2 := Flags();
      OpenMembers(c);
      assert Flags() == Unflag(m2, {c});
      assert check == flagged + Set(groups.members[c]);
      assert open == around + {Members(c)};
    }

    lemma NotFlagged(c: nat)
      requires Valid() && c in groups.members && c !in checked
      ensures c < |table| && c !in check && Set(groups.members[c]) !! check && Own(c) !in open && Members(c) !in open
    {
    }

    lemma MembersAre(c: nat)
      requires FlagsOk() && c in groups.members
      ensures forall m :: m in groups.members[c] ==> m in groups.choiceOf && groups.choiceOf[m] == c
    {
    }

    method CheckMembers(c: nat) returns (r: Option<nat>)
      requires Settled() && c in groups.members && c in checked && AtMembers(c)
      modifies this
      ensures Reports(r)
      ensures r.None? && clean ==> MembersFinished(c, |groups.members[c]|, order)
      ensures MembersRan(c, |groups.members[c]|, old(Flags()), Flags(), r)
      decreases Unchecked(), 13
    {
      var members := groups.members[c];
      ghost var m := Flags();
      MembersStart(c, m);
      hide FlagsOk, PathOk, OrderOk, MembersFinished, MembersRan;
      r := None;
      var k := 0;
      while k < |members|
        invariant 0 <= k <= |members|
        invariant r.None? && Reports(r)
        invariant clean ==> MembersFinished(c, k, order)
        invariant MembersRan(c, k, m, Flags(), None)
      {
        r := CheckOneMember(c, k, m);
        if r.Some? {
          return;
        }
        k := k + 1;
      }
    }

    // one round: the members before were looked at, from the flags m
    method CheckOneMember(c: nat, k: nat, ghost m: Marks) returns (r: Option<nat>)
      requires Settled() && c in groups.members && k < |groups.members[c]| && AtMembers(c)
      requires clean ==> MembersFinished(c, k, order)
      requires MembersRan(c, k, m, Flags(), None)
      modifies this
      ensures Reports(r)
      ensures clean ==> r.None? && MembersFinished(c, k + 1, order)
      ensures MembersRan(c, if r.None? then k + 1 else |groups.members[c]|, m, Flags(), r)
      decreases Unchecked(), 12
    {
      ghost var was, m1 := order, Flags();
      MemberAtEnd(c, groups.members[c][k]);
      hide FlagsOk, PathOk, OrderOk, StageOf, FollowedIds, Follows, MembersFinished, Ran, AtEnd, WholeOf, MembersRan;
      r := CheckSymDeps(groups.members[c][k]);
      OneMemberRan(c, k, m, m1, Flags(), r);
      if clean {
        AnotherMember(c, k, was, order);
      }
    }

    // from the flags m, the first k members lead to m1 and r
    ghost predicate MembersRan(c: nat, k: nat, m: Marks, m1: Marks, r: Option<nat>)
      requires c in groups.members && k <= |groups.members[c]|
    {
      AllIn(table, groups.members[c][..k]) &&
      Ran(table, groups, m, MembersIds(table, groups, groups.members[c][..k]), m1, r)
    }

    lemma OneMemberRan(c: nat, k: nat, m: Marks, m1: Marks, m2: Marks, r: Option<nat>)
      requires TableOk(table) && GroupsOk(table, groups) && c in groups.members && k < |groups.members[c]|
      requires MembersRan(c, k, m, m1, None) && groups.members[c][k] < |table|
      requires Ran(table, groups, m1, FollowedIds(table, groups, groups.members[c][k]), m2, r)
      ensures MembersRan(c, if r.None? then k + 1 else |groups.members[c]|, m, m2, r)
    {
      var members := groups.members[c];
      assert members[..k + 1][..k] == members[..k] && members[..|members|] == members;
      MembersInTable(table, groups, c);
      AllInParts(table, members, k + 1);
      RanBoth(table, groups, m, MembersIds(table, groups, members[..k]), m1, FollowedIds(table, groups, members[k]), m2,
        r);
      if r.Some? {
        RanMembers(table, groups, m, members, k + 1, m2, r);
      }
    }

    // the path ends at the choice, in its second stage
    ghost predicate AtMembers(c: nat)
      reads this
    {
      trail != [] && trail[|trail| - 1] == c && Members(c) in open
    }

    lemma MembersStart(c: nat, m: Marks)
      requires FlagsOk() && c in groups.members && m == Flags()
      ensures MembersRan(c, 0, m, m, None) && MembersFinished(c, 0, order)
    {
      RanNothing(table, groups, m);
    }

    lemma AnotherMember(c: nat, k: nat, was: seq<Stage>, done: seq<Stage>)
      requires c in groups.members && k < |groups.members[c]| && MembersFinished(c, k, was)
      requires forall j :: Follows(table, groups, groups.members[c][k], j) ==> StageOf(groups, j) in done
      requires forall a :: a in was ==> a in done
      ensures MembersFinished(c, k + 1, done)
    {
    }

    lemma MemberAtEnd(c: nat, m: nat)
      requires FlagsOk() && c in groups.members && m in groups.members[c]
      requires AtMembers(c)
      ensures m < |table| && AtEnd(m, {}) && TableOk(table) && GroupsOk(table, groups)
    {
    }

    // what the first k members refer to is among these
    ghost predicate MembersFinished(c: nat, k: nat, done: seq<Stage>)
      requires c in groups.members && k <= |groups.members[c]|
    {
      forall n, j :: 0 <= n < k && Follows(table, groups, groups.members[c][n], j) ==> StageOf(groups, j) in done
    }

    // ---------- the path ----------

    // a symbol of the path is referred to again
    ghost method MetAgain(i: nat)
      requires Valid() && i in check && Next(i)
      modifies this`clean
      ensures Valid() && !clean
    {
      assert WholeOf(groups, i) in trail;
      var k :| 0 <= k < |trail| && trail[k] == WholeOf(groups, i);
      CloseCycle(Contracted(table, groups), trail, k);
      clean := false;
    }

    // the check of a symbol outside choice groups begins
    method Enter(i: nat)
      requires Settled() && i < |table| && i !in checked && i !in groups.choiceOf && i !in groups.members && Next(i)
      modifies this`check, this`checked, this`trail, this`open
      ensures Settled()
      ensures check == old(check) + {i} && checked == old(checked) + {i} && trail == old(trail) + [i]
      ensures open == old(open) + {Own(i)} && Own(i) !in old(open)
    {
      check, checked := check + {i}, checked + {i};
      ExtendPath(Contracted(table, groups), trail, i);
      trail, open := trail + [i], open + {Own(i)};
    }

    // and ends: what was before is as it was
    method LeaveOne(i: nat, ghost was: seq<nat>, ghost around: set<Stage>, ghost flagged: set<nat>)
      requires Valid() && i !in groups.choiceOf && i !in groups.members
      requires trail == was + [i] && open == around + {Own(i)} && Own(i) !in around
      requires check == flagged + {i} && i !in flagged && forall a :: a in around ==> RootOf(a) in was
      requires clean ==> forall j :: Follows(table, groups, i, j) ==> StageOf(groups, j) in order
      modifies this`check, this`trail, this`open, this`order
      ensures Valid() && check == flagged && trail == was && open == around
      ensures forall a :: a in old(order) ==> a in order
    {
      hide FlagsOk, PathOk, OrderOk, Follows, StageOf, RootOf;
      assert trail[..|trail| - 1] == was && open - {Own(i)} == around;
      Leave(i);
    }

    method Leave(i: nat)
      requires Valid() && i !in groups.choiceOf && i !in groups.members
      requires trail != [] && trail[|trail| - 1] == i
      requires forall a :: a in open - {Own(i)} ==> RootOf(a) in trail[..|trail| - 1]
      requires clean ==> forall j :: Follows(table, groups, i, j) ==> StageOf(groups, j) in order
      modifies this`check, this`trail, this`open, this`order
      ensures Valid()
      ensures check == old(check) - {i} && trail == old(trail)[..|old(trail)| - 1] && open == old(open) - {Own(i)}
      ensures forall a :: a in old(order) ==> a in order
    {
      check, open := check - {i}, open - {Own(i)};
      trail := trail[..|trail| - 1];
      if clean {
        ExtendOrder(Watched(table, groups), order, Own(i));
        order := order + [Own(i)];
      }
    }

    // the check of a choice begins: the flags of all members are set, too
    method OpenChoice(c: nat)
      requires Settled() && c in groups.members && c !in checked && Next(c)
      modifies this`check, this`checked, this`trail, this`open
      ensures Settled()
      ensures check == old(check) + {c} + Set(groups.members[c]) &&
          checked == old(checked) + {c} + Set(groups.members[c])
      ensures trail == old(trail) + [c] && open == old(open) + {Own(c)} && Own(c) !in old(open) &&
          Members(c) !in old(open)
    {
      hide Topological, Watched, Contracted, Cyclic, IsPath, TableOk;
      var all := {c} + Set(groups.members[c]);
      check, checked := check + all, checked + all;
      ExtendPath(Contracted(table, groups), trail, c);
      trail, open := trail + [c], open + {Own(c)};
      OpenedChoice(c);
      hide FlagsOk;
    }

    twostate lemma OpenedChoice(c: nat)
      requires old(FlagsOk()) && c in groups.members && old(c !in checked) && open == old(open) + {Own(c)}
      requires check == old(check) + ({c} + Set(groups.members[c])) &&
          checked == old(checked) + ({c} + Set(groups.members[c]))
      ensures FlagsOk()
      ensures Own(c) !in old(open) && Members(c) !in old(open)
    {
      hide TableOk;
      forall i
        ensures i in check <==> OnPath(i)
      {
        assert i in old(check) <==> old(OnPath(i));
      }
    }

    // its own properties are checked
    method OpenMembers(c: nat)
      requires Valid() && c in groups.members && c in checked && Own(c) in open && Members(c) !in open
      requires clean ==> forall j :: Follows(table, groups, c, j) ==> StageOf(groups, j) in order
      modifies this`check, this`open, this`order
      ensures Valid()
      ensures check == old(check) - {c} && open == old(open) - {Own(c)} + {Members(c)}
      ensures forall a :: a in old(order) ==> a in order
      ensures clean ==> Own(c) in order
    {
      hide Topological, Watched, Contracted, IsPath, Cyclic, TableOk, Follows;
      if clean {
        OwnWatches(c);
      }
      check, open := check - {c}, open - {Own(c)} + {Members(c)};
      OpenedMembers(c);
      if clean {
        ExtendOrder(Watched(table, groups), order, Own(c));
        order := order + [Own(c)];
      }
    }

    twostate lemma OpenedMembers(c: nat)
      requires old(FlagsOk()) && c in groups.members && old(Own(c) in open && Members(c) !in open)
      requires check == old(check) - {c} && open == old(open) - {Own(c)} + {Members(c)} && checked == old(checked)
      ensures FlagsOk()
    {
      hide TableOk;
      forall i
        ensures i in check <==> OnPath(i)
      {
        assert i in old(check) <==> old(OnPath(i));
      }
    }

    // the properties of its members are checked, or the check was given up
    method CloseMembers(c: nat, ghost was: seq<nat>)
      requires Valid() && c in groups.members && c in checked && Members(c) in open && Own(c) !in open
      requires trail == was + [c]
      requires forall a :: a in open - {Members(c)} ==> RootOf(a) in was
      requires clean ==> Own(c) in order && MembersFinished(c, |groups.members[c]|, order)
      modifies this`check, this`trail, this`open, this`order
      ensures Valid()
      ensures check == old(check) - Set(groups.members[c]) && trail == was && open == old(open) - {Members(c)}
      ensures forall a :: a in old(order) ==> a in order
    {
      hide Topological, Watched, Contracted, IsPath, Cyclic, TableOk, Follows, MembersFinished;
      if clean {
        MembersWatch(c);
      }
      check, open := check - Set(groups.members[c]), open - {Members(c)};
      ClosedFlags(c);
      if was != [] {
        PathPrefix(Contracted(table, groups), was, c);
      }
      trail := was;
      if clean {
        ExtendOrder(Watched(table, groups), order, Members(c));
        order := order + [Members(c)];
      }
      ClosedOrder(c);
    }

    twostate lemma ClosedFlags(c: nat)
      requires old(FlagsOk()) && c in groups.members && old(Members(c) in open && Own(c) !in open)
      requires check == old(check) - Set(groups.members[c]) && open == old(open) - {Members(c)} &&
          checked == old(checked)
      ensures FlagsOk()
    {
      hide TableOk;
      forall i
        ensures i in check <==> OnPath(i)
      {
        assert i in old(check) <==> old(OnPath(i));
      }
    }

    twostate lemma ClosedOrder(c: nat)
      requires old(OrderOk()) && GroupsOk(table, groups) && c in groups.members
      requires check == old(check) - Set(groups.members[c]) && checked == old(checked) && clean == old(clean) &&
          nerrs == old(nerrs)
      requires clean ==> Topological(Watched(table, groups), order) && order == old(order) + [Members(c)]
      ensures OrderOk()
    {
      hide Topological, Watched, Contracted, Cyclic;
      if clean {
        forall i | i in checked - check
          ensures StageOf(groups, i) in order
        {
          if i in Set(groups.members[c]) {
            assert StageOf(groups, i) == Members(c);
          } else {
            assert i in old(checked) - old(check);
          }
        }
      }
    }

    lemma OwnWatches(i: nat)
      requires i !in groups.choiceOf && forall j :: Follows(table, groups, i, j) ==> StageOf(groups, j) in order
      ensures forall b :: (Own(i), b) in Watched(table, groups) ==> b in order
    {
    }

    lemma MembersWatch(c: nat)
      requires c in groups.members && Own(c) in order && MembersFinished(c, |groups.members[c]|, order)
      ensures forall b :: (Members(c), b) in Watched(table, groups) ==> b in order
    {
      forall b | (Members(c), b) in Watched(table, groups)
        ensures b in order
      {
        var m :| InGroup(groups, c, m) &&
          (b == Own(c) || exists j :: Follows(table, groups, m, j) && b == StageOf(groups, j));
        var n :| 0 <= n < |groups.members[c]| && groups.members[c][n] == m;
      }
    }

    /** The loop of conf_parse, in the order of the hash table. If no error is counted, no cycle
        is left among the stages that are watched; if one is counted, some symbol depends on
        itself. */
    method CheckAll(hashed: seq<nat>)
      requires Fresh() && AllIn(table, hashed) && forall i: nat :: i < |table| ==> i in hashed
      modifies this
      ensures Settled()
      ensures nerrs == 0 ==> !Cyclic(Watched(table, groups))
      ensures nerrs > 0 ==> Cyclic(Contracted(table, groups))
      ensures MarksOk(table, groups, NoMarks) && Flags() == All(table, groups, NoMarks, hashed)
    {
      var k := 0;
      FlagsAreOk();
      assert hashed[0..] == hashed;
      while k < |hashed|
        invariant 0 <= k <= |hashed|
        invariant Settled() && check == {} && trail == [] && open == {}
        invariant forall j :: 0 <= j < k ==> Finished({hashed[j]})
        invariant MarksOk(table, groups, Flags()) && AllIn(table, hashed[k..])
        invariant All(table, groups, NoMarks, hashed) == All(table, groups, Flags(), hashed[k..])
      {
        assert hashed[k] in hashed && hashed[k..][0] == hashed[k] && hashed[k..][1..] == hashed[k + 1..];
        AllInParts(table, hashed, k + 1);
        var r := CheckDeps(hashed[k]);
        FlagsAreOk();
        if r.Some? {
          // would be counted as one more error, but no path is left for it to be on
          assert false;
        }
        k := k + 1;
      }
      if clean {
        forall i: nat | i < |table|
          ensures StageOf(groups, i) in order
        {
          assert i in hashed;
          var j :| 0 <= j < |hashed| && hashed[j] == i;
          assert Finished({hashed[j]}) && i in {i};
        }
        AllOrdered(table, groups, order);
      }
    }
  }

  lemma AllOrdered(t: Table, gs: Groups, order: seq<Stage>)
    requires TableOk(t) && GroupsOk(t, gs) && Topological(Watched(t, gs), order)
    requires forall i: nat :: i < |t| ==> StageOf(gs, i) in order
    ensures !Cyclic(Watched(t, gs))
  {
    forall a, b | (a, b) in Watched(t, gs)
      ensures a in order
    {
      if a.Own? {
        assert StageOf(gs, a.sym) == a;
      } else {
        var m :| InGroup(gs, a.choice, m);
        assert StageOf(gs, m) == a;
      }
    }
    OrderedIsAcyclic(Watched(t, gs), order);
  }
}
