/** What holds of choices on every table, in whatever order symbols are calculated: at most
    one member is at y, and none in a choice that is not (package/config/symbol.c). */
module AtMostOne {
  import opened Wrappers
  import opened Exprs
  import opened Graphs
  import opened Symbols
  import opened Numbers
  import opened Evaluation
  import opened Calculation
  import opened Settling
  import opened Choices

  // ---------- what is calculated on the way ----------

  ghost predicate Reaches(t: Table, gs: Groups, i: nat, j: nat) {
    exists p :: IsPath(ReadGraph(t, gs), p) && p[0] == i && p[|p| - 1] == j
  }

  lemma ReachesSelf(t: Table, gs: Groups, i: nat)
    ensures Reaches(t, gs, i, i)
  {
    var p: seq<nat> := [i];
    assert IsPath(ReadGraph(t, gs), p);
  }

  lemma ReachesNext(t: Table, gs: Groups, i: nat, j: nat, k: nat)
    requires Reads(t, gs, i, j) && Reaches(t, gs, j, k)
    ensures Reaches(t, gs, i, k)
  {
    var g := ReadGraph(t, gs);
    var p :| IsPath(g, p) && p[0] == j && p[|p| - 1] == k;
    var q := [i] + p;
    forall n | 0 <= n < |q| - 1
      ensures (q[n], q[n + 1]) in g
    {
      if n > 0 {
        assert (p[n - 1], p[n]) in g;
      }
    }
    assert IsPath(g, q);
  }

  /** The choice's own properties are calculated by way of one of its members. */
  ghost predicate OwnPath(t: Table, gs: Groups, c: nat) {
    exists j: nat, m: nat :: Mentions(t, gs, c, j) && InGroup(gs, c, m) && Reaches(t, gs, j, m)
  }

  // no member of these choices is calculated on the way
  ghost predicate Clear(s: System, stale: set<nat>, i: nat) {
    forall c, m: nat :: c in stale && InGroup(s.groups, c, m) ==> !Reaches(s.table, s.groups, i, m)
  }

  ghost predicate AllClear(s: System, stale: set<nat>, ids: seq<nat>) {
    forall j :: j in ids ==> Clear(s, stale, j)
  }

  lemma ClearNext(s: System, stale: set<nat>, i: nat, j: nat)
    requires Clear(s, stale, i) && (j == i || Reads(s.table, s.groups, i, j))
    ensures Clear(s, stale, j)
  {
    forall c, m: nat | c in stale && InGroup(s.groups, c, m)
      ensures !Reaches(s.table, s.groups, j, m)
    {
      if j != i && Reaches(s.table, s.groups, j, m) {
        ReachesNext(s.table, s.groups, i, j, m);
      }
    }
  }

  // ---------- the invariant ----------

  /** Finished members at y are the one chosen by their choice, which is finished. */
  ghost predicate OneChosen(s: System, mem: Memory, active: set<nat>)
    requires MemoryOk(s, mem)
  {
    forall m :: m in mem.valid && m !in active && m in s.groups.choiceOf && mem.cells[m].curr.tri == YES ==>
      var c := s.groups.choiceOf[m];
      c in mem.valid && c !in active && mem.cells[c].curr.chosen == Some(m)
  }

  /** `stale` are the choices being calculated that still have the value of before. */
  ghost predicate Kept(s: System, mem: Memory, active: set<nat>, stale: set<nat>) {
    && MemoryOk(s, mem) && active <= mem.valid && stale <= active
    && (forall m :: 0 <= m < |s.table| && m in s.groups.choiceOf ==> mem.cells[m].selected == NO)
    && (forall c :: 0 <= c < |s.table| && mem.cells[c].curr.chosen.Some? ==> mem.cells[c].curr.tri == YES)
    && (forall c :: c in active && c !in stale ==> mem.cells[c].curr.chosen.None?)
    && (forall c :: 0 <= c < |s.table| && c in s.groups.members && c !in mem.valid ==>
          mem.cells[c].curr.chosen.None? || !OwnPath(s.table, s.groups, c))
    && (forall c :: 0 <= c < |s.table| && c !in s.groups.members ==> mem.cells[c].curr.chosen.None?)
    && OneChosen(s, mem, active)
  }

  ghost predicate Keeping(s: System, mem: Memory, active: set<nat>, stale: set<nat>) {
    MemoryOk(s, mem) && GroupsPlain(s) && Kept(s, mem, active, stale)
  }

  lemma {:induction false} SymsKeep(s: System, mem: Memory, active: set<nat>, stale: set<nat>, ids: seq<nat>)
    requires Keeping(s, mem, active, stale) && InTable(s, ids) && AllClear(s, stale, ids)
    ensures Keeping(s, CalcSyms(s, mem, ids), active, stale)
    decreases Invalid(s, mem), 2, |ids|
  {
    hide Kept, SystemOk, Goes, Clear, MembersGuarded, MembersPlain;
    if ids != [] {
      assert ids[0] in ids && forall j :: j in ids[1..] ==> j in ids;
      ValueKeeps(s, mem, active, stale, ids[0]);
      SymsKeep(s, CalcValue(s, mem, ids[0]), active, stale, ids[1..]);
    }
  }

  lemma SetVisibleKeeps(s: System, mem: Memory, active: set<nat>, stale: set<nat>, i: nat, tri: Tri)
    requires Kept(s, mem, active, stale) && i < |s.table|
    ensures Kept(s, SetVisible(mem, i, tri), active, stale)
    ensures i !in s.groups.choiceOf ==> Kept(s, SetSelected(mem, i, tri), active, stale)
  {
    hide SystemOk;
  }

  lemma {:induction false} VisibleKeeps(s: System, mem: Memory, active: set<nat>, stale: set<nat>, i: nat)
    requires Keeping(s, mem, active, stale) && i < |s.table|
    requires AllClear(s, stale, PromptIds(s.table[i].props))
    requires i !in s.groups.choiceOf ==> AllClear(s, stale, OptIds(s.table[i].revDep))
    ensures Keeping(s, CalcVisible(s, mem, i), active, stale)
    decreases Invalid(s, mem), 3, 0
  {
    PartsInTable(s, i);
    hide Kept, SystemOk, Goes, Clear, AllClear, MembersGuarded, MembersPlain, Visibility, Selected, Now, InTable;
    SymsKeep(s, mem, active, stale, PromptIds(s.table[i].props));
    var m1 := CalcSyms(s, mem, PromptIds(s.table[i].props));
    var tri := Visibility(s.table[i], s.modules, Now(s, m1));
    SetVisibleKeeps(s, m1, active, stale, i, tri);
    if i !in s.groups.choiceOf {
      var m2 := SetVisible(m1, i, tri);
      SymsKeep(s, m2, active, stale, OptIds(s.table[i].revDep));
      var m3 := CalcSyms(s, m2, OptIds(s.table[i].revDep));
      SetVisibleKeeps(s, m3, active, stale, i, Selected(s.table[i], s.modules, Now(s, m3)));
    }
  }

  lemma {:induction false} FindKeeps(s: System, mem: Memory, active: set<nat>, stale: set<nat>, ps: seq<Property>)
    requires Keeping(s, mem, active, stale) && PropsOk(s, ps)
    requires forall p :: p in ps ==> AllClear(s, stale, OptIds(p.cond))
    ensures Keeping(s, FindProp(s, mem, ps).0, active, stale)
    decreases Invalid(s, mem), 3, |ps|
  {
    hide Kept, SystemOk, Goes, Clear, AllClear, MembersGuarded, MembersPlain, Now, ExprOk, InTable;
    if ps != [] {
      assert ps[0] in ps && PropOk(s.table, ps[0]);
      OptInTable(s, ps[0].cond);
      SymsKeep(s, mem, active, stale, OptIds(ps[0].cond));
      FindKeeps(s, CalcSyms(s, mem, OptIds(ps[0].cond)), active, stale, ps[1..]);
    }
  }

  ghost predicate CandidateClear(s: System, stale: set<nat>, k: Candidate) {
    && k.member < |s.table|
    && AllClear(s, stale, OptIds(k.cond)) && AllClear(s, stale, PromptIds(s.table[k.member].props))
  }

  lemma {:induction false} PickKeeps(s: System, mem: Memory, active: set<nat>, stale: set<nat>, c: nat,
      ks: seq<Candidate>)
    requires Keeping(s, mem, active, stale) && TriedOk(s, c, ks)
    requires forall k :: k in ks ==> CandidateClear(s, stale, k)
    ensures Keeping(s, PickFrom(s, mem, c, ks).0, active, stale)
    decreases Invalid(s, mem), 4, |ks|
  {
    hide Kept, SystemOk, Goes, Clear, AllClear, MembersGuarded, MembersPlain, Now, InTable, CandidateOk;
    if ks != [] {
      var k := ks[0];
      assert k in ks && CandidateOk(s, c, k) && CandidateClear(s, stale, k);
      CandidateParts(s, c, k);
      SymsKeep(s, mem, active, stale, OptIds(k.cond));
      var m1 := CalcSyms(s, mem, OptIds(k.cond));
      if EvalOpt(k.cond, Now(s, m1)) == NO {
        PickKeeps(s, m1, active, stale, c, ks[1..]);
      } else {
        VisibleKeeps(s, m1, active, stale, k.member);
        PickKeeps(s, CalcVisible(s, m1, k.member), active, stale, c, ks[1..]);
      }
    }
  }

  // what a symbol reads is clear if the symbol is
  lemma PartsClear(s: System, stale: set<nat>, i: nat)
    requires SystemOk(s) && i < |s.table| && Clear(s, stale, i)
    ensures AllClear(s, stale, PromptIds(s.table[i].props)) && AllClear(s, stale, OptIds(s.table[i].revDep))
    ensures forall p :: p in Defaults(s.table[i].props) ==>
      AllClear(s, stale, OptIds(p.cond)) && (i !in s.groups.members ==> AllClear(s, stale, ExprIds(p.value)))
    ensures forall p :: p in Ranges(s.table[i].props) ==>
      AllClear(s, stale, OptIds(p.cond)) && AllClear(s, stale, SymIds(p.lo)) && AllClear(s, stale, SymIds(p.hi))
  {
    hide Clear;
    forall j: nat | Mentions(s.table, s.groups, i, j)
      ensures Clear(s, stale, j)
    {
      ClearNext(s, stale, i, j);
    }
    MentionedClear(s, stale, i);
  }

  lemma MentionedClear(s: System, stale: set<nat>, i: nat)
    requires SystemOk(s) && i < |s.table|
    requires forall j: nat :: Mentions(s.table, s.groups, i, j) ==> Clear(s, stale, j)
    ensures AllClear(s, stale, PromptIds(s.table[i].props)) && AllClear(s, stale, OptIds(s.table[i].revDep))
    ensures forall p :: p in Defaults(s.table[i].props) ==>
      AllClear(s, stale, OptIds(p.cond)) && (i !in s.groups.members ==> AllClear(s, stale, ExprIds(p.value)))
    ensures forall p :: p in Ranges(s.table[i].props) ==>
      AllClear(s, stale, OptIds(p.cond)) && AllClear(s, stale, SymIds(p.lo)) && AllClear(s, stale, SymIds(p.hi))
  {
    hide Clear;
    var d, choice := s.table[i], i in s.groups.members;
    var refs := set j | j in Below(|s.table|) && Mentions(s.table, s.groups, i, j);
    MentionsWithin(s.table, s.groups, i, refs);
    DefPartsWithin(d, choice, refs);
    PromptIdsWithin(d.props, refs);
  }

  lemma CandidatesClear(s: System, stale: set<nat>, c: nat)
    requires SystemOk(s) && c in s.groups.members && c < |s.table| && Clear(s, stale, c)
    ensures forall k :: k in Candidates(s, c) ==> CandidateClear(s, stale, k)
  {
    hide Clear;
    PartsClear(s, stale, c);
    CandidatesAreMembers(s, c);
    var refs := set j | j in Below(|s.table|) && Reads(s.table, s.groups, c, j);
    forall j: nat | j < |s.table| && Reads(s.table, s.groups, c, j)
      ensures Clear(s, stale, j)
    {
      ClearNext(s, stale, c, j);
    }
    forall m: nat | InGroup(s.groups, c, m) && m < |s.table|
      ensures DefWithin(s.table[m], false, refs + {c})
    {
      MemberOk(s.table, s.groups, c, m);
      MentionsWithin(s.table, s.groups, m, refs + {c});
    }
    MentionsWithin(s.table, s.groups, c, refs);
    assert ValueWithin(s, c, refs);
    CandidatesWithin(s, c, refs);
    forall k | k in Candidates(s, c)
      ensures AllClear(s, stale, OptIds(k.cond)) && AllClear(s, stale, PromptIds(s.table[k.member].props))
    {
      DefPartsWithin(s.table[k.member], false, refs + {c});
      PromptIdsWithin(s.table[k.member].props, refs + {c});
    }
  }

  lemma {:induction false} DefaultKeeps(s: System, mem: Memory, active: set<nat>, stale: set<nat>, i: nat)
    requires Keeping(s, mem, active, stale) && i < |s.table| && i !in s.groups.members && Clear(s, stale, i)
    ensures Keeping(s, CalcDefault(s, mem, i).0, active, stale)
    decreases Invalid(s, mem), 4, 0
  {
    PartsInTable(s, i);
    PartsClear(s, stale, i);
    hide Kept, SystemOk, Goes, Clear, AllClear, MembersGuarded, MembersPlain, Now, ExprOk;
    FindKeeps(s, mem, active, stale, Defaults(s.table[i].props));
    var (m1, p) := FindProp(s, mem, Defaults(s.table[i].props));
    if p.Some? {
      assert PropOk(s.table, p.value);
      ExprRefsOk(s.table, p.value.value);
      SymsKeep(s, m1, active, stale, ExprIds(p.value.value));
    }
  }

  // members have none
  lemma NoDefault(s: System, mem: Memory, i: nat)
    requires MemoryOk(s, mem) && GroupsPlain(s) && i < |s.table| && i in s.groups.choiceOf
    ensures CalcDefault(s, mem, i) == (mem, NO)
  {
    assert InGroup(s.groups, s.groups.choiceOf[i], i);
    NoDefaults(s.table[i].props);
  }

  /** What a member's visibility says: that its choice was looked at, and m only for tristates. */
  ghost predicate MemberSeen(s: System, mem: Memory, i: nat)
    requires MemoryOk(s, mem) && i < |s.table|
  {
    i in s.groups.choiceOf ==>
      && (mem.cells[i].visible != NO ==> s.groups.choiceOf[i] in mem.valid)
      && (mem.cells[i].visible == MOD ==> s.table[i].ty == Tristate && s.modules != NO)
  }

  lemma VisibleIsSeen(s: System, mem: Memory, i: nat)
    requires MemoryOk(s, mem) && GroupsPlain(s) && i < |s.table|
    ensures MemberSeen(s, CalcVisible(s, mem, i), i)
  {
    if i in s.groups.choiceOf {
      PartsInTable(s, i);
      var c, m1 := s.groups.choiceOf[i], CalcSyms(s, mem, PromptIds(s.table[i].props));
      assert InGroup(s.groups, c, i) && c < |s.table|;
      if Visibility(s.table[i], s.modules, Now(s, m1)) != NO {
        VisibleMentions(s.table, s.groups, c, i, s.modules, Now(s, m1));
      }
    }
  }

  // a member at y is chosen by its choice, which is finished
  ghost predicate Deserves(s: System, mem: Memory, active: set<nat>, i: nat, val: Value)
    requires MemoryOk(s, mem)
  {
    i in s.groups.choiceOf && val.tri == YES ==>
      var c := s.groups.choiceOf[i];
      c in mem.valid && c !in active && mem.cells[c].curr.chosen == Some(i)
  }

  lemma {:induction false} OwnKeeps(s: System, mem: Memory, active: set<nat>, stale: set<nat>, i: nat)
    requires Keeping(s, mem, active, stale) && i in active && i in mem.valid && i < |s.table| && Clear(s, stale, i)
    requires MemberSeen(s, mem, i) && s.table[i].ty != Unknown
    ensures var (r, val) := CalcOwn(s, mem, i);
      Keeping(s, r, active, stale) && val.chosen.None? && Deserves(s, r, active, i, val)
    decreases Invalid(s, mem), 6, 0
  {
    if !Logical(s.table[i].ty) {
      assert i !in s.groups.members;
      hide SystemOk, Kept;
      RawKeeps(s, mem, active, stale, i);
    } else if i in s.groups.choiceOf && mem.cells[i].visible == YES {
      var c := s.groups.choiceOf[i];
      assert InGroup(s.groups, c, i);
      ReachesSelf(s.table, s.groups, i);
    } else {
      TriKeeps(s, mem, active, stale, i);
    }
  }

  lemma {:induction false} TriKeeps(s: System, mem: Memory, active: set<nat>, stale: set<nat>, i: nat)
    requires Keeping(s, mem, active, stale) && i in active && i in mem.valid && i < |s.table| && Clear(s, stale, i)
    requires MemberSeen(s, mem, i)
    ensures var (r, tri) := CalcTri(s, mem, i);
      && Keeping(s, r, active, stale)
      && (i in s.groups.choiceOf && mem.cells[i].visible != YES ==> tri != YES)
    decreases Invalid(s, mem), 5, 0
  {
    assert i in s.groups.choiceOf ==> mem.cells[i].selected == NO && i !in s.groups.members;
    hide Kept, Goes, Clear, MembersGuarded, MembersPlain, SystemOk;
    if !(mem.cells[i].visible != NO && s.user[i].given) && i !in s.groups.members {
      DefaultKeeps(s, mem, active, stale, i);
      if i in s.groups.choiceOf {
        NoDefault(s, mem, i);
      }
    }
  }

  lemma {:induction false} RawKeeps(s: System, mem: Memory, active: set<nat>, stale: set<nat>, i: nat)
    requires Keeping(s, mem, active, stale) && i in mem.valid && i < |s.table| && i !in s.groups.members
    requires Clear(s, stale, i)
    ensures Keeping(s, CalcRaw(s, mem, i).0, active, stale)
    decreases Invalid(s, mem), 5, 0
  {
    hide *;
    DefaultsClear(s, mem, active, stale, i);
    var ps := Defaults(s.table[i].props);
    FindKeeps(s, mem, active, stale, ps);
    RawIs(s, mem, i);
    var (m1, p) := FindProp(s, mem, ps);
    if p.Some? && p.value.value.Symbol? {
      SymsKeep(s, m1, active, stale, SymIds(p.value.value.sym));
    }
  }

  lemma DefaultsClear(s: System, mem: Memory, active: set<nat>, stale: set<nat>, i: nat)
    requires Keeping(s, mem, active, stale) && i < |s.table| && i !in s.groups.members && Clear(s, stale, i)
    ensures MemoryOk(s, mem) && PropsOk(s, Defaults(s.table[i].props))
    ensures forall p :: p in Defaults(s.table[i].props) ==>
      AllClear(s, stale, OptIds(p.cond)) && AllClear(s, stale, ExprIds(p.value))
  {
    PartsInTable(s, i);
    PartsClear(s, stale, i);
    hide Clear, AllClear, Kept, MembersGuarded, MembersPlain;
  }

  // the three ways in which it ends
  lemma RawIs(s: System, mem: Memory, i: nat)
    requires MemoryOk(s, mem) && i in mem.valid && i < |s.table| && PropsOk(s, Defaults(s.table[i].props))
    ensures var (m1, p) := FindProp(s, mem, Defaults(s.table[i].props));
      var r := CalcRaw(s, mem, i).0;
      && Invalid(s, m1) <= Invalid(s, mem)
      && (p.Some? ==> p.value in Defaults(s.table[i].props) && p.value.Default?)
      && (p.Some? && p.value.value.Symbol? ==>
            var ids := SymIds(p.value.value.sym); ids == ExprIds(p.value.value) && InTable(s, ids))
      && (r == mem || r == m1 ||
          (p.Some? && p.value.value.Symbol? && r == CalcSyms(s, m1, SymIds(p.value.value.sym))))
  {
    var (m1, p) := FindProp(s, mem, Defaults(s.table[i].props));
    if p.Some? {
      assert PropOk(s.table, p.value);
    }
    hide SystemOk, Goes, Now;
  }

  lemma {:induction false} RangeKeeps(s: System, mem: Memory, active: set<nat>, stale: set<nat>, i: nat, raw: string)
    requires Keeping(s, mem, active, stale) && i < |s.table| && Clear(s, stale, i)
    ensures Keeping(s, CalcRange(s, mem, i, raw).0, active, stale)
    decreases Invalid(s, mem), 5, 0
  {
    PartsInTable(s, i);
    PartsClear(s, stale, i);
    assert PropsOk(s, Ranges(s.table[i].props));
    hide *;
    var ps := Ranges(s.table[i].props);
    FindKeeps(s, mem, active, stale, ps);
    var (m1, p) := FindProp(s, mem, ps);
    if p.Some? {
      OneOk(s, ps, p.value);
      SymsKeep(s, m1, active, stale, SymIds(p.value.lo));
      SymsKeep(s, CalcSyms(s, m1, SymIds(p.value.lo)), active, stale, SymIds(p.value.hi));
    }
    RangeIs(s, mem, i, raw);
  }

  // the three ways in which it ends
  lemma RangeIs(s: System, mem: Memory, i: nat, raw: string)
    requires MemoryOk(s, mem) && i < |s.table| && PropsOk(s, Ranges(s.table[i].props))
    ensures var (m1, p) := FindProp(s, mem, Ranges(s.table[i].props));
      var r := CalcRange(s, mem, i, raw).0;
      && (p.Some? ==> p.value.Range? && InTable(s, SymIds(p.value.lo)) && InTable(s, SymIds(p.value.hi)))
      && (r == mem || r == m1 || (p.Some? &&
            var m2 := CalcSyms(s, m1, SymIds(p.value.lo)); r == m2 || r == CalcSyms(s, m2, SymIds(p.value.hi))))
  {
    var ps := Ranges(s.table[i].props);
    var (m1, p) := FindProp(s, mem, ps);
    if p.Some? {
      assert PropOk(s.table, p.value);
    }
    hide SystemOk, Goes, Now, ParseInt, FormatInt, RangeOperand;
  }

  lemma OneOk(s: System, ps: seq<Property>, p: Property)
    requires PropsOk(s, ps) && p in ps && p.Range?
    ensures InTable(s, SymIds(p.lo)) && InTable(s, SymIds(p.hi))
  {
    assert PropOk(s.table, p);
  }

  // the value that a symbol is finished with
  lemma Finishes(s: System, mem: Memory, active: set<nat>, stale: set<nat>, i: nat, val: Value)
    requires Keeping(s, mem, active, stale) && i in active && i !in stale && i < |s.table|
    requires (val.chosen.Some? ==> val.tri == YES && i in s.groups.members) && Deserves(s, mem, active, i, val)
    ensures Keeping(s, SetCurr(mem, i, val), active - {i}, stale)
  {
    assert i in s.groups.members ==> i !in s.groups.choiceOf;
    hide SystemOk, MembersGuarded, MembersPlain;
  }

  lemma SetsPlain(s: System, mem: Memory, active: set<nat>, stale: set<nat>, i: nat, val: Value)
    requires Keeping(s, mem, active, stale) && i in active && i < |s.table| && val.chosen.None?
    ensures Keeping(s, SetCurr(mem, i, val), active, stale - {i})
  {
    hide SystemOk, MembersGuarded, MembersPlain;
  }

  lemma {:induction false} LastKeeps(s: System, mem: Memory, active: set<nat>, stale: set<nat>, i: nat, newval: Value)
    requires Keeping(s, mem, active, stale) && i in active && i !in stale && i in mem.valid && i < |s.table|
    requires Clear(s, stale, i) && newval.chosen.None? && Deserves(s, mem, active, i, newval)
    ensures Keeping(s, CalcLast(s, mem, i, newval), active - {i}, stale)
    decreases Invalid(s, mem), 6, 0
  {
    var m1 := SetCurr(mem, i, newval);
    SetsPlain(s, mem, active, stale, i, newval);
    assert stale - {i} == stale;
    if i in s.groups.members && newval.tri == YES {
      assert i !in s.groups.choiceOf;
      CandidatesClear(s, stale, i);
      CandidatesOk(s, i);
      hide Kept, SystemOk, Goes, Clear, MembersGuarded, MembersPlain, Candidates;
      PickKeeps(s, m1, active, stale, i, Candidates(s, i));
      var (m2, pick) := PickFrom(s, m1, i, Candidates(s, i));
      Finishes(s, m2, active, stale, i, Value(if pick.None? then NO else YES, newval.raw, pick));
    } else {
      hide Kept, SystemOk, Clear, MembersGuarded, MembersPlain, Candidates;
      RangeKeeps(s, m1, active, stale, i, newval.raw);
      var (m2, raw) := CalcRange(s, m1, i, newval.raw);
      StillDeserves(s, mem, m1, m2, active, i, newval);
      Finishes(s, m2, active, stale, i, newval.(raw := raw));
    }
  }

  lemma StillDeserves(s: System, mem: Memory, m1: Memory, m2: Memory, active: set<nat>, i: nat, val: Value)
    requires MemoryOk(s, mem) && i < |s.table| && i in active && m1 == SetCurr(mem, i, val) && Goes(s, m1, m2, {}, {})
    requires Deserves(s, mem, active, i, val)
    ensures Deserves(s, m2, active, i, val)
  {
    hide SystemOk;
  }

  lemma {:induction false} ValueKeeps(s: System, mem: Memory, active: set<nat>, stale: set<nat>, i: nat)
    requires Keeping(s, mem, active, stale) && i < |s.table| && Clear(s, stale, i)
    ensures Keeping(s, CalcValue(s, mem, i), active, stale)
    decreases Invalid(s, mem), 1, 0
  {
    if i !in mem.valid {
      var m, now := mem.(valid := mem.valid + {i}), active + {i};
      var before := if mem.cells[i].curr.chosen.Some? then stale + {i} else stale;
      assert i in Invalid(s, mem);
      hide Kept, SystemOk, Goes, Clear, AllClear, MembersGuarded, MembersPlain, CalcTyped;
      Begins(s, mem, active, stale, i);
      assert now - {i} == active && before - {i} == stale;
      if s.table[i].ty == Unknown {
        UnknownKeeps(s, m, now, before, stale, i);
      } else {
        TypedKeeps(s, m, now, before, stale, i);
      }
    }
  }

  lemma UnknownKeeps(s: System, mem: Memory, active: set<nat>, before: set<nat>, stale: set<nat>, i: nat)
    requires Keeping(s, mem, active, before) && i in active && i < |s.table| && stale == before - {i}
    ensures Keeping(s, SetCurr(mem, i, Value(NO, s.table[i].name, None)), active - {i}, stale)
  {
    hide Kept, SystemOk, MembersGuarded, MembersPlain;
    var val := Value(NO, s.table[i].name, None);
    SetsPlain(s, mem, active, before, i, val);
    Finishes(s, SetCurr(mem, i, val), active, stale, i, val);
    assert SetCurr(SetCurr(mem, i, val), i, val) == SetCurr(mem, i, val);
  }

  lemma Begins(s: System, mem: Memory, active: set<nat>, stale: set<nat>, i: nat)
    requires Keeping(s, mem, active, stale) && i < |s.table| && i !in mem.valid && Clear(s, stale, i)
    ensures var before := if mem.cells[i].curr.chosen.Some? then stale + {i} else stale;
      && Keeping(s, mem.(valid := mem.valid + {i}), active + {i}, before) && i !in active && i !in stale
      && AllClear(s, before, PromptIds(s.table[i].props)) && AllClear(s, before, OptIds(s.table[i].revDep))
  {
    var before := if mem.cells[i].curr.chosen.Some? then stale + {i} else stale;
    forall j: nat | Mentions(s.table, s.groups, i, j)
      ensures Clear(s, before, j)
    {
      ClearNext(s, stale, i, j);
      OwnClear(s, stale, i, j);
    }
    MentionedClear(s, before, i);
    hide SystemOk, MembersGuarded, MembersPlain, AllClear, Clear;
  }

  lemma OwnClear(s: System, stale: set<nat>, i: nat, j: nat)
    requires Mentions(s.table, s.groups, i, j) && Clear(s, stale, j)
    ensures !OwnPath(s.table, s.groups, i) ==> Clear(s, stale + {i}, j)
  {
  }

  lemma {:induction false} TypedKeeps(s: System, mem: Memory, active: set<nat>, before: set<nat>, stale: set<nat>,
      i: nat)
    requires Keeping(s, mem, active, before) && i in active && i in mem.valid && i < |s.table| && Clear(s, stale, i)
    requires stale == before - {i} && s.table[i].ty != Unknown
    requires AllClear(s, before, PromptIds(s.table[i].props)) && AllClear(s, before, OptIds(s.table[i].revDep))
    ensures Keeping(s, CalcTyped(s, mem, i), active - {i}, stale)
    decreases Invalid(s, mem), 7, 0
  {
    hide Kept, SystemOk, Goes, Clear, MembersGuarded, MembersPlain, AllClear, Deserves;
    VisibleKeeps(s, mem, active, before, i);
    VisibleIsSeen(s, mem, i);
    var m1 := CalcVisible(s, mem, i);
    var m2 := SetCurr(m1, i, Empty(s.table[i].ty));
    SetsPlain(s, m1, active, before, i, Empty(s.table[i].ty));
    OwnKeeps(s, m2, active, stale, i);
    var (m3, newval) := CalcOwn(s, m2, i);
    LastKeeps(s, m3, active, stale, i, newval);
  }

  // ---------- what follows ----------

  // in memory as it is at the start
  lemma StartKept(s: System, mem: Memory)
    requires MemoryOk(s, mem) && mem.valid == {}
    requires forall i :: 0 <= i < |s.table| ==> mem.cells[i].curr.chosen.None? && mem.cells[i].selected == NO
    ensures Kept(s, mem, {}, {})
  {
  }

  /** Between calculations at most one member of a choice is at y, and then the choice is at y
      and has chosen that member. */
  lemma OneAtMost(s: System, mem: Memory, c: nat, m: nat)
    requires Kept(s, mem, {}, {}) && InGroup(s.groups, c, m) && m in mem.valid && mem.cells[m].curr.tri == YES
    ensures c in mem.valid && c < |mem.cells| && mem.cells[c].curr.tri == YES && mem.cells[c].curr.chosen == Some(m)
    ensures forall n: nat :: InGroup(s.groups, c, n) && n in mem.valid && mem.cells[n].curr.tri == YES ==> n == m
  {
    MemberOk(s.table, s.groups, c, m);
    forall n: nat | InGroup(s.groups, c, n) && n in mem.valid && mem.cells[n].curr.tri == YES
      ensures n == m
    {
      MemberOk(s.table, s.groups, c, n);
    }
  }

  // no choice calculates its own properties by way of a member
  ghost predicate NoOwnPaths(t: Table, gs: Groups) {
    forall c :: c in gs.members ==> !OwnPath(t, gs, c)
  }

  /** Whoever is the user, and also when all is to be calculated again, unless a choice has a
      path from its own properties to a member. */
  lemma UserKept(s: System, mem: Memory, s': System, valid: set<nat>)
    requires Kept(s, mem, {}, {}) && SystemOk(s') && SameTable(s, s')
    requires valid == mem.valid || (valid == {} && NoOwnPaths(s.table, s.groups))
    ensures Kept(s', Memory(valid, mem.cells), {}, {})
  {
  }

  /** A table that can be evaluated upwards has no such path. */
  lemma UpwardsHasNone(t: Table, gs: Groups, rank: seq<nat>)
    requires Ranked(t, gs, rank)
    ensures NoOwnPaths(t, gs)
  {
    forall c | c in gs.members
      ensures !OwnPath(t, gs, c)
    {
      if OwnPath(t, gs, c) {
        var j: nat, m: nat :| Mentions(t, gs, c, j) && InGroup(gs, c, m) && Reaches(t, gs, j, m);
        assert Reads(t, gs, c, j);
        ReachesNext(t, gs, c, j, m);
        var p :| IsPath(ReadGraph(t, gs), p) && p[0] == c && p[|p| - 1] == m;
        MemberOk(t, gs, c, m);
        RanksFall(t, gs, rank, p);
        assert Reads(t, gs, m, c);
      }
    }
  }

  /** Nor has a table with one choice only that the dependency check accepts, where ranges are
      constants. */
  lemma OneChoiceHasNone(t: Table, gs: Groups, c: nat)
    requires TableOk(t) && GroupsOk(t, gs) && ConstantRanges(t) && !Cyclic(Watched(t, gs))
    requires gs.members.Keys == {c}
    ensures NoOwnPaths(t, gs)
  {
    if OwnPath(t, gs, c) {
      var j: nat, m: nat :| Mentions(t, gs, c, j) && InGroup(gs, c, m) && Reaches(t, gs, j, m);
      FollowsIsMention(t, gs, c, j);
      var p :| IsPath(ReadGraph(t, gs), p) && p[0] == j && p[|p| - 1] == m;
      var start: seq<nat> := [c, j];
      FirstInGroup(t, gs, c, start, p);
    }
  }

  // following what outside symbols mention comes to the choice or a member only by a path
  // that the check follows
  lemma {:induction false} FirstInGroup(t: Table, gs: Groups, c: nat, before: seq<nat>, p: seq<nat>)
    requires TableOk(t) && GroupsOk(t, gs) && ConstantRanges(t) && !Cyclic(Watched(t, gs)) && gs.members.Keys == {c}
    requires IsPath(Followed(t, gs), before) && |before| >= 2 && before[0] == c
    requires IsPath(ReadGraph(t, gs), p) && p[0] == before[|before| - 1]
    ensures WholeOf(gs, p[|p| - 1]) != c
    decreases |p|
  {
    UnwatchedCycles(t, gs, before);
    var i := p[0];
    assert i != c && i !in gs.choiceOf by {
      if i in gs.choiceOf {
        assert InGroup(gs, gs.choiceOf[i], i);
      }
    }
    if |p| >= 2 {
      assert (p[0], p[1]) in ReadGraph(t, gs) && i !in gs.members;
      FollowsIsMention(t, gs, i, p[1]);
      ExtendPath(Followed(t, gs), before, p[1]);
      PathRest(ReadGraph(t, gs), p);
      FirstInGroup(t, gs, c, before + [p[1]], p[1..]);
    }
  }
}
