/** What the equations say of choice groups: which member is chosen, and that it is the only
    one at y (package/config/symbol.c). */
module Choices {
  import opened Wrappers
  import opened Exprs
  import opened Dependence
  import opened Symbols
  import opened Evaluation
  import opened Calculation
  import opened Settling

  /** Defaults of members are not supported, as the program warns. */
  ghost predicate MembersPlain(t: Table, gs: Groups) {
    forall c: nat, m: nat, p :: InGroup(gs, c, m) && m < |t| && p in t[m].props ==> !p.Default?
  }

  ghost predicate GroupsPlain(s: System) {
    SystemOk(s) && MembersGuarded(s.table, s.groups) && MembersPlain(s.table, s.groups)
  }

  lemma {:induction false} NoneVisible(s: System, ks: seq<Candidate>, v: Valuation)
    requires (forall k :: k in ks ==> k.member < |s.table|) && FirstVisible(s, ks, v).None?
    ensures forall k :: k in ks && EvalOpt(k.cond, v) != NO ==> Visibility(s.table[k.member], s.modules, v) == NO
  {
    hide Visibility;
    if ks != [] {
      NoneVisible(s, ks[1..], v);
    }
  }

  /** The picked member is one of the choice and visible; when none is picked, none is
      visible. */
  lemma PickIsVisible(s: System, c: nat, v: Valuation)
    requires SystemOk(s) && c in s.groups.members && c < |s.table|
    requires forall k :: k in Candidates(s, c) ==> k.member < |s.table|
    ensures var pick := FirstVisible(s, Candidates(s, c), v);
      && (pick.Some? ==> InGroup(s.groups, c, pick.value) && Visibility(s.table[pick.value], s.modules, v) != NO)
      && (pick.None? ==> forall m: nat :: InGroup(s.groups, c, m) && m < |s.table| ==>
            Visibility(s.table[m], s.modules, v) == NO)
  {
    CandidatesAreMembers(s, c);
    hide Visibility, SystemOk;
    if FirstVisible(s, Candidates(s, c), v).None? {
      NoneVisible(s, Candidates(s, c), v);
      forall m: nat | InGroup(s.groups, c, m) && m < |s.table|
        ensures Visibility(s.table[m], s.modules, v) == NO
      {
        var ms := s.groups.members[c];
        var n :| 0 <= n < |ms| && ms[n] == m;
        assert MemberCandidates(ms)[n] == Candidate(None, m);
        assert Candidate(None, m) in Candidates(s, c);
      }
    }
  }

  // in a state where the symbol is n, what it guards is n
  lemma {:induction false} GuardedByNo(t: Table, vals: Values, e: Expr, c: nat)
    requires c < |t| == |vals| && Logical(t[c].ty) && vals[c].tri == NO
    requires Guarded(e, ChoiceSym(t, c))
    ensures Eval(e, ValuationOf(t, vals)) == NO
  {
    match e
    case Bin(_, l, r) =>
      if Guarded(l, ChoiceSym(t, c)) {
        GuardedByNo(t, vals, l, c);
      } else {
        GuardedByNo(t, vals, r, c);
      }
    case _ =>
  }

  /** A member is visible only in a choice that is set. */
  lemma InvisibleInUnsetChoice(s: System, c: nat, m: nat, vals: Values)
    requires SystemOk(s) && MembersGuarded(s.table, s.groups) && InGroup(s.groups, c, m)
    requires |vals| == |s.table| && c < |vals| && m < |vals| && Logical(s.table[c].ty) && vals[c].tri == NO
    ensures Visibility(s.table[m], s.modules, ValuationOf(s.table, vals)) == NO
  {
    var v := ValuationOf(s.table, vals);
    if PromptMax(s.table[m].props, v) != NO {
      var p := PromptMet(s.table[m].props, v);
      GuardedByNo(s.table, vals, p.cond.value, c);
    }
  }

  // a choice at y, for whoever is the user, has chosen a visible member
  lemma ChoiceIs(s: System, c: nat, vals: Values)
    requires SystemOk(s) && c in s.groups.members && c < |s.table| == |vals| && vals[c] == ValueOf(s, c, vals)
    ensures vals[c].tri == YES <==> vals[c].chosen.Some?
    ensures vals[c].chosen.Some? ==>
      var m := vals[c].chosen.value;
      InGroup(s.groups, c, m) && m < |vals| && Visibility(s.table[m], s.modules, ValuationOf(s.table, vals)) != NO
  {
    CandidatesAreMembers(s, c);
    hide Visibility, TriValue, Candidates, SystemOk;
    var p := Provisional(vals, c);
    PickIsVisible(s, c, ValuationOf(s.table, p));
    if vals[c].chosen.Some? {
      MemberOk(s.table, s.groups, c, vals[c].chosen.value);
      SeesNoChosen(s.table, vals, c, Value(YES, "n", None));
      SameVisibility(s, vals[c].chosen.value, ValuationOf(s.table, p), ValuationOf(s.table, vals));
    }
  }

  // which member is chosen is no part of a state
  lemma SeesNoChosen(t: Table, vals: Values, c: nat, val: Value)
    requires c < |t| == |vals| && val.tri == vals[c].tri && val.raw == vals[c].raw
    ensures var v, w := ValuationOf(t, vals), ValuationOf(t, vals[c := val]);
      forall x: Sym :: v.tri(x) == w.tri(x) && v.str(x) == w.str(x)
  {
  }

  lemma SameVisibility(s: System, m: nat, v: Valuation, w: Valuation)
    requires m < |s.table| && forall x: Sym :: v.tri(x) == w.tri(x) && v.str(x) == w.str(x)
    ensures Visibility(s.table[m], s.modules, v) == Visibility(s.table[m], s.modules, w)
  {
    var all := set j | j in PromptIds(s.table[m].props);
    KnownVisible(s.table[m], s.modules, all, v, w);
  }

  // the member is a bool or tristate, is shown for certain, and is chosen
  ghost predicate Takes(s: System, c: nat, m: nat, vals: Values)
    requires c < |vals| && m < |s.table|
  {
    && Logical(s.table[m].ty) && vals[c].chosen == Some(m)
    && Visibility(s.table[m], s.modules, ValuationOf(s.table, vals)) == YES
  }

  // then, and only then, it is at y
  lemma MemberIs(s: System, c: nat, m: nat, vals: Values)
    requires SystemOk(s) && MembersPlain(s.table, s.groups) && InGroup(s.groups, c, m)
    requires c < |vals| && m < |s.table| == |vals| && vals[m] == ValueOf(s, m, vals)
    ensures vals[m].tri == YES <==> Takes(s, c, m, vals)
  {
    var d, v := s.table[m], ValuationOf(s.table, vals);
    MemberOk(s.table, s.groups, c, m);
    NoDefaults(d.props);
    assert FirstDefault(d, v).None?;
    hide PromptMax;
  }

  lemma {:induction false} NoDefaults(props: seq<Property>)
    requires forall p :: p in props ==> !p.Default?
    ensures Defaults(props) == []
  {
    if props != [] {
      NoDefaults(props[1..]);
    }
  }

  /** The members at y, of those that are known. */
  ghost predicate OnlyChosen(s: System, c: nat, known: set<nat>, vals: Values)
    requires SystemOk(s) && |vals| == |s.table| && c < |vals|
  {
    var v := ValuationOf(s.table, vals);
    && (vals[c].tri == YES <==> vals[c].chosen.Some?)
    && (forall m: nat :: InGroup(s.groups, c, m) && m in known && m < |vals| ==>
          (vals[m].tri == YES <==> Takes(s, c, m, vals)))
    && (vals[c].chosen.Some? ==>
          var m := vals[c].chosen.value;
          InGroup(s.groups, c, m) && m < |vals| && Visibility(s.table[m], s.modules, v) != NO)
    && (vals[c].tri == NO ==> forall m: nat :: InGroup(s.groups, c, m) && m < |vals| ==>
          Visibility(s.table[m], s.modules, v) == NO)
  }

  /** Choice exclusivity in a solution: a choice at y has chosen one member, which is visible
      and alone may be y, and is unless it is a tristate shown at m; in any other choice no
      member is y, and in a choice at n none is visible. */
  lemma Exclusive(s: System, vals: Values, c: nat)
    requires IsSolution(s, vals) && GroupsPlain(s) && c in s.groups.members && Logical(s.table[c].ty)
    ensures OnlyChosen(s, c, Below(|vals|), vals)
  {
    assert c < |s.table|;
    hide Visibility, ValueOf, SystemOk, MembersPlain, MembersGuarded, Takes;
    assert vals[c] == ValueOf(s, c, vals);
    ChoiceIs(s, c, vals);
    forall m: nat | InGroup(s.groups, c, m) && m < |vals|
      ensures vals[m].tri == YES <==> Takes(s, c, m, vals)
      ensures vals[c].tri == NO ==> Visibility(s.table[m], s.modules, ValuationOf(s.table, vals)) == NO
    {
      assert vals[m] == ValueOf(s, m, vals);
      MemberIs(s, c, m, vals);
      if vals[c].tri == NO {
        InvisibleInUnsetChoice(s, c, m, vals);
      }
    }
  }

  /** The same in every state between calculations of an acyclic table, whatever has been
      calculated and whoever was the user then. */
  lemma ExclusiveSoFar(s: System, hist: seq<System>, mem: Memory, c: nat)
    requires Settled(s, hist, mem, {}) && GroupsPlain(s)
    requires c in s.groups.members && c in mem.valid && Logical(s.table[c].ty)
    ensures OnlyChosen(s, c, mem.valid, Currs(mem))
  {
    hide Visibility, ValueOf, SystemOk, MembersPlain, MembersGuarded, SelectedIn;
    var vals := Currs(mem);
    assert Extends(mem, {}, vals);
    assert RightThen(hist, mem, c, vals);
    ChoiceIs(hist[c], c, vals);
    forall m: nat | InGroup(s.groups, c, m) && m < |vals|
      ensures m in mem.valid ==> (vals[m].tri == YES <==> Takes(s, c, m, vals))
      ensures vals[c].tri == NO ==> Visibility(s.table[m], s.modules, ValuationOf(s.table, vals)) == NO
    {
      if m in mem.valid {
        assert RightThen(hist, mem, m, vals);
        MemberIs(hist[m], c, m, vals);
      }
      if vals[c].tri == NO {
        InvisibleInUnsetChoice(s, c, m, vals);
      }
    }
  }

  // ---------- setting values ----------

  // what lies below a choice is as before, and so is what is visible under it
  lemma BelowChoice(s: System, s': System, rank: seq<nat>, vals: Values, vals': Values, c: nat)
    requires IsSolution(s, vals) && IsSolution(s', vals') && SameTable(s, s') && Ranked(s.table, s.groups, rank)
    requires c in s.groups.members && c < |s.table|
    requires forall j :: 0 <= j < |s.table| && rank[j] < rank[c] ==> SameUser(s, s', j)
    ensures var d, v, v' := s.table[c], ValuationOf(s.table, vals), ValuationOf(s.table, vals');
      Visibility(d, s.modules, v) == Visibility(d, s.modules, v') &&
        Selected(d, s.modules, v) == Selected(d, s.modules, v')
    ensures var p, p' := ValuationOf(s.table, Provisional(vals, c)), ValuationOf(s.table, Provisional(vals', c));
      forall m: nat :: InGroup(s.groups, c, m) && m < |s.table| ==>
        Visibility(s.table[m], s.modules, p) == Visibility(s.table[m], s.modules, p')
  {
    var refs := Lower(rank, rank[c]);
    SolutionsAgreeBelow(s, s', rank, vals, vals', rank[c]);
    SameAgree(s.table, vals, vals', refs);
    SameAgree(s.table, Provisional(vals, c), Provisional(vals', c), refs + {c});
    WithinLower(s, rank, c);
    hide Visibility, Selected, Lower, SystemOk, ValuationOf, DefWithin, ValueOf;
    SelectedAgrees(s.table[c], s.modules, true, refs, ValuationOf(s.table, vals), ValuationOf(s.table, vals'));
    var p, p' := ValuationOf(s.table, Provisional(vals, c)), ValuationOf(s.table, Provisional(vals', c));
    forall m: nat | InGroup(s.groups, c, m) && m < |s.table|
      ensures Visibility(s.table[m], s.modules, p) == Visibility(s.table[m], s.modules, p')
    {
      SelectedAgrees(s.table[m], s.modules, false, refs + {c}, p, p');
    }
  }

  /** A member that is shown for certain in a choice at y, and that the user picks, is the one
      chosen, and at y. */
  lemma MemberTakes(s: System, s': System, rank: seq<nat>, vals: Values, vals': Values, c: nat, m: nat)
    requires IsSolution(s, vals) && IsSolution(s', vals') && SameTable(s, s') && Ranked(s.table, s.groups, rank)
    requires InGroup(s.groups, c, m) && c < |s.table| && m < |s.table|
    requires Logical(s.table[c].ty) && Logical(s.table[m].ty)
    requires forall j :: 0 <= j < |s.table| && rank[j] < rank[c] ==> SameUser(s, s', j)
    requires s'.user[c] == s.user[c].(given := true) && c in s'.picks && s'.picks[c] == m
    requires vals[c].tri == YES && Visibility(s.table[m], s.modules, ValuationOf(s.table, vals)) == YES
    ensures vals'[c] == Value(YES, "n", Some(m)) && vals'[m] == Value(YES, "n", None)
  {
    MemberOk(s.table, s.groups, c, m);
    BelowChoice(s, s', rank, vals, vals', c);
    CandidatesAreMembers(s', c);
    assert vals[c] == ValueOf(s, c, vals) && vals'[c] == ValueOf(s', c, vals') && vals'[m] == ValueOf(s', m, vals');
    assert Candidates(s', c)[0] == Candidate(None, m);
    hide Visibility, Selected, ValuationOf, Candidates, SystemOk;
    SameAsProvisional(s, vals, c, m);
    assert TriValue(s', c, ValuationOf(s.table, vals')) == YES;
    assert vals'[c].chosen == Some(m);
    SameAsProvisional(s, vals', c, m);
  }

  // in a choice at y members are shown as when they were looked at
  lemma SameAsProvisional(s: System, vals: Values, c: nat, m: nat)
    requires c < |s.table| == |vals| && m < |vals| && vals[c].tri == YES && vals[c].raw == "n"
    ensures Visibility(s.table[m], s.modules, ValuationOf(s.table, Provisional(vals, c)))
         == Visibility(s.table[m], s.modules, ValuationOf(s.table, vals))
  {
    SeesNoChosen(s.table, vals, c, Value(YES, "n", None));
    SameVisibility(s, m, ValuationOf(s.table, Provisional(vals, c)), ValuationOf(s.table, vals));
  }

  ghost predicate AnyVisible(s: System, c: nat, v: Valuation) {
    exists m: nat :: InGroup(s.groups, c, m) && m < |s.table| && Visibility(s.table[m], s.modules, v) != NO
  }

  /** A choice takes the value that its user sets within range; y only if a member is then
      visible, and n otherwise. */
  lemma ChoiceTakes(s: System, rank: seq<nat>, vals: Values, c: nat, u: UserValue, vals': Values)
    requires IsSolution(s, vals) && Ranked(s.table, s.groups, rank)
    requires c in s.groups.members && c < |s.table| && Logical(s.table[c].ty) && u.given
    requires IsSolution(s.(user := s.user[c := u]), vals')
    requires var d, v := s.table[c], ValuationOf(s.table, vals);
      && Visibility(d, s.modules, v) != NO && !(u.tri == MOD && EffectiveType(d.ty, s.modules) == Boolean)
      && Selected(d, s.modules, v) <= u.tri <= Visibility(d, s.modules, v)
    ensures u.tri != YES ==> vals'[c].tri == u.tri
    ensures u.tri == YES ==>
      vals'[c].tri == if AnyVisible(s, c, ValuationOf(s.table, Provisional(vals, c))) then YES else NO
  {
    var s' := s.(user := s.user[c := u]);
    BelowChoice(s, s', rank, vals, vals', c);
    CandidatesAreMembers(s', c);
    assert vals'[c] == ValueOf(s', c, vals');
    hide Visibility, Selected, ValuationOf, Candidates, SystemOk, FirstVisible;
    PickIsVisible(s', c, ValuationOf(s.table, Provisional(vals', c)));
    assert TriValue(s', c, ValuationOf(s.table, vals')) == u.tri;
    var pick := FirstVisible(s', Candidates(s', c), ValuationOf(s.table, Provisional(vals', c)));
    if pick.Some? {
      MemberOk(s.table, s.groups, c, pick.value);
    }
  }

  // ---------- members with defaults ----------

  // a choice, a hidden member J that is y by default, and a member K
  predicate IsDefaulted(s: System) {
    var c := Symbol(Config(0, Boolean));
    && s.table == [
         SymDef(Boolean, "", [Prompt(None)], Some(Symbol(SymMod))),
         SymDef(Boolean, "J", [Prompt(Some(Symbol(SymNo))), Default(Some(c), Symbol(SymYes))], None),
         SymDef(Boolean, "K", [Prompt(Some(c))], None)]
    && s.groups == Groups(map[0 := [1, 2]], map[1 := 0, 2 := 0]) && s.picks == map[] && |s.user| == 3
    && forall i :: 0 <= i < 3 ==> !s.user[i].given
  }

  /** Without the condition on members: K is chosen, and both members are at y. */
  lemma DefaultedMember(s: System, vals: Values)
    requires IsDefaulted(s)
    requires |vals| == 3 && vals[0] == Value(YES, "n", Some(2)) && vals[1] == vals[2] == Value(YES, "n", None)
    ensures IsSolution(s, vals) && MembersGuarded(s.table, s.groups) && !MembersPlain(s.table, s.groups)
  {
    DefaultedTable(s);
    DefaultedGuarded(s);
    DefaultedNotPlain(s);
    DefaultedPick(s, vals);
    DefaultedState(s, vals);
    DefaultedFacts(s);
    hide *;
    ForcedValue(s, 0, vals, 2);
    MembersValue(s, 1, vals);
    MembersValue(s, 2, vals);
    Three(s, vals);
  }

  lemma Three(s: System, vals: Values)
    requires SystemOk(s) && |s.table| == |vals| == 3
    requires vals[0] == ValueOf(s, 0, vals) && vals[1] == ValueOf(s, 1, vals) && vals[2] == ValueOf(s, 2, vals)
    ensures IsSolution(s, vals)
  {
    hide ValueOf, SystemOk;
  }

  lemma DefaultedNotPlain(s: System)
    requires IsDefaulted(s)
    ensures !MembersPlain(s.table, s.groups)
  {
    DefaultedFacts(s);
    hide IsDefaulted;
    assert InGroup(s.groups, 0, 1) && s.table[1].props[1] in s.table[1].props && s.table[1].props[1].Default?;
  }

  // a choice that is selected, and the member it takes
  lemma ForcedValue(s: System, c: nat, vals: Values, m: nat)
    requires SystemOk(s) && c < |s.table| == |vals| && c in s.groups.members && s.table[c].ty == Boolean
    requires !s.user[c].given && Selected(s.table[c], s.modules, ValuationOf(s.table, vals)) == YES
    requires forall k :: k in Candidates(s, c) ==> k.member < |s.table|
    requires FirstVisible(s, Candidates(s, c), ValuationOf(s.table, Provisional(vals, c))) == Some(m)
    ensures ValueOf(s, c, vals) == Value(YES, "n", Some(m))
  {
    assert c !in s.groups.choiceOf;
    hide SystemOk, ValuationOf, Visibility, FirstVisible, Candidates, Selected;
  }

  // a member that is chosen, or hidden and y by default
  lemma MembersValue(s: System, m: nat, vals: Values)
    requires SystemOk(s) && m < |s.table| == |vals| && m in s.groups.choiceOf && s.table[m].ty == Boolean
    requires m !in s.groups.members && s.groups.choiceOf[m] < |vals| && !s.user[m].given
    requires var v := ValuationOf(s.table, vals);
      || (Visibility(s.table[m], s.modules, v) == YES && vals[s.groups.choiceOf[m]].chosen == Some(m))
      || (Visibility(s.table[m], s.modules, v) == NO && DefaultTri(s.table[m], v) == YES)
    ensures ValueOf(s, m, vals) == Value(YES, "n", None)
  {
    hide SystemOk, ValuationOf, Visibility, DefaultTri;
  }

  lemma DefaultedFacts(s: System)
    requires IsDefaulted(s)
    ensures |s.table| == 3 && |s.user| == 3 && (forall i :: 0 <= i < 3 ==> s.table[i].ty == Boolean && !s.user[i].given)
    ensures s.table[0].props == [Prompt(None)] && s.table[0].revDep == Some(Symbol(SymMod))
    ensures s.table[1].props ==
      [Prompt(Some(Symbol(SymNo))), Default(Some(Symbol(Config(0, Boolean))), Symbol(SymYes))]
    ensures s.table[2].props == [Prompt(Some(Symbol(Config(0, Boolean))))]
    ensures s.table[1].revDep == None && s.table[2].revDep == None && s.picks == map[]
    ensures s.groups == Groups(map[0 := [1, 2]], map[1 := 0, 2 := 0])
  {
  }

  // visibilities, selects and the default in that state
  lemma DefaultedState(s: System, vals: Values)
    requires IsDefaulted(s)
    requires |vals| == 3 && vals[0] == Value(YES, "n", Some(2)) && vals[1] == vals[2] == Value(YES, "n", None)
    ensures var v := ValuationOf(s.table, vals);
      && Visibility(s.table[0], s.modules, v) == YES && Visibility(s.table[1], s.modules, v) == NO
      && Visibility(s.table[2], s.modules, v) == YES && Selected(s.table[0], s.modules, v) == YES
      && DefaultTri(s.table[1], v) == YES
  {
    DefaultedFacts(s);
    hide IsDefaulted;
    var v, c := ValuationOf(s.table, vals), Config(0, Boolean);
    assert v.tri(SymNo) == NO && v.tri(SymMod) == MOD && v.tri(SymYes) == YES && v.tri(c) == YES;
    DefaultedParts(s, v);
    hide ValuationOf, Visibility, Defaults;
    assert Eval(Symbol(c), v) == YES && Eval(Symbol(SymYes), v) == YES && Eval(Symbol(SymMod), v) == MOD;
  }

  lemma DefaultedPick(s: System, vals: Values)
    requires IsDefaulted(s) && SystemOk(s)
    requires |vals| == 3 && vals[0] == Value(YES, "n", Some(2)) && vals[1] == vals[2] == Value(YES, "n", None)
    ensures forall k :: k in Candidates(s, 0) ==> k.member < |s.table|
    ensures FirstVisible(s, Candidates(s, 0), ValuationOf(s.table, Provisional(vals, 0))) == Some(2)
  {
    var p := ValuationOf(s.table, Provisional(vals, 0));
    assert p.tri(SymNo) == NO && p.tri(SymYes) == YES && p.tri(Config(0, Boolean)) == YES by { DefaultedFacts(s); }
    DefaultedCandidates(s);
    DefaultedFacts(s);
    hide *;
    DefaultedParts(s, p);
    SecondVisible(s, 1, 2, p);
  }

  lemma DefaultedCandidates(s: System)
    requires IsDefaulted(s)
    ensures |s.table| == 3 && Candidates(s, 0) == [Candidate(None, 1), Candidate(None, 2)]
    ensures forall k :: k in Candidates(s, 0) ==> k.member < |s.table|
  {
    DefaultedFacts(s);
    hide IsDefaulted;
    assert s.table[0].props[1..] == [];
    assert DefaultCandidates(s.table[0].props) == [];
  }

  lemma SecondVisible(s: System, j: nat, k: nat, v: Valuation)
    requires j < |s.table| && k < |s.table|
    requires Visibility(s.table[j], s.modules, v) == NO && Visibility(s.table[k], s.modules, v) != NO
    ensures FirstVisible(s, [Candidate(None, j), Candidate(None, k)], v) == Some(k)
  {
    hide Visibility;
    assert [Candidate(None, j), Candidate(None, k)][1..] == [Candidate(None, k)];
  }

  lemma DefaultedTable(s: System)
    requires IsDefaulted(s)
    ensures SystemOk(s)
  {
    DefaultedFacts(s);
    var t, c := s.table, Symbol(Config(0, Boolean));
    assert ExprOk(t, c) && ExprOk(t, Symbol(SymNo)) && ExprOk(t, Symbol(SymYes)) && ExprOk(t, Symbol(SymMod));
    hide IsDefaulted, ExprOk;
    DefaultedProps(t);
    assert ChoicesOk(t, s.groups) && GroupsOk(t, s.groups);
  }

  lemma DefaultedProps(t: Table)
    requires |t| == 3 && |t[0].props| == 1 && |t[1].props| == 2 && |t[2].props| == 1
    ensures forall p :: p in t[0].props ==> p == t[0].props[0]
    ensures forall p :: p in t[1].props ==> p == t[1].props[0] || p == t[1].props[1]
    ensures forall p :: p in t[2].props ==> p == t[2].props[0]
  {
  }

  lemma DefaultedGuarded(s: System)
    requires IsDefaulted(s)
    ensures MembersGuarded(s.table, s.groups)
  {
    DefaultedFacts(s);
    var t, c := s.table, Symbol(Config(0, Boolean));
    hide IsDefaulted;
    DefaultedProps(t);
    assert Guarded(c, ChoiceSym(t, 0)) && Guarded(Symbol(SymNo), ChoiceSym(t, 0));
  }

  lemma DefaultedParts(s: System, v: Valuation)
    requires |s.table| == 3 && (forall i :: 0 <= i < 3 ==> s.table[i].ty == Boolean)
    requires s.table[0].props == [Prompt(None)] && s.table[2].props == [Prompt(Some(Symbol(Config(0, Boolean))))]
    requires s.table[1].props ==
      [Prompt(Some(Symbol(SymNo))), Default(Some(Symbol(Config(0, Boolean))), Symbol(SymYes))]
    requires v.tri(SymNo) == NO && v.tri(Config(0, Boolean)) == YES
    ensures Visibility(s.table[0], s.modules, v) == YES && Visibility(s.table[1], s.modules, v) == NO
    ensures Visibility(s.table[2], s.modules, v) == YES
    ensures DefaultCandidates(s.table[0].props) == [] && FirstDefault(s.table[1], v) == Some(s.table[1].props[1])
  {
    assert forall i :: 0 <= i < 3 ==>
      s.table[i].props[..1] == [s.table[i].props[0]] && s.table[i].props[..1][..0] == [];
    assert s.table[0].props[1..] == [] && s.table[1].props[1..][1..] == [];
    var q := s.table[1].props;
    assert PromptMax(q[..1], v) == NO && PromptMax(q, v) == PromptMax(q[..1], v);
    assert Defaults(q[1..]) == [q[1]] + Defaults([]) && Defaults(q) == [] + Defaults(q[1..]);
    assert s.table[0].props[..0] == [] && s.table[2].props[..0] == [];
  }
}
