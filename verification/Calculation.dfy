/** What the memoising evaluator does to its cells, as functions: sym_calc_value and what it
    calls (package/config/symbol.c). A symbol is marked VALID before anything it depends on
    is looked at, so the recursion ends on every table, cyclic or not. */
module Calculation {
  import opened Wrappers
  import opened Exprs
  import opened Symbols
  import opened Numbers
  import opened Evaluation

  /** The part of struct symbol that evaluation writes. */
  datatype Cell = Cell(curr: Value, visible: Tri, selected: Tri)

  /** The symbols flagged SYMBOL_VALID, and the cells of all. */
  datatype Memory = Memory(valid: set<nat>, cells: seq<Cell>)

  function Currs(mem: Memory): (r: Values)
    ensures |r| == |mem.cells| && forall i :: 0 <= i < |r| ==> r[i] == mem.cells[i].curr
  {
    seq(|mem.cells|, i requires 0 <= i < |mem.cells| => mem.cells[i].curr)
  }

  // what the cells say about all symbols
  function Now(s: System, mem: Memory): Valuation {
    ValuationOf(s.table, Currs(mem))
  }

  ghost predicate MemoryOk(s: System, mem: Memory) {
    SystemOk(s) && |mem.cells| == |s.table| && forall i :: i in mem.valid ==> i < |s.table|
  }

  ghost function Invalid(s: System, mem: Memory): set<nat> {
    Below(|s.table|) - mem.valid
  }

  // a symbol that no state shows
  ghost predicate Unseen(s: System, j: nat)
    requires j < |s.table|
  {
    forall v: Valuation :: v.tri(SymNo) == NO ==> Visibility(s.table[j], s.modules, v) == NO
  }

  // the visibility of a member is looked at again while its choice is calculated
  ghost predicate Looked(s: System, mem: Memory, shown: set<nat>, j: nat)
    requires j < |s.table| == |mem.cells|
  {
    && j in s.groups.choiceOf && (j in shown || s.groups.choiceOf[j] !in mem.valid)
    && !(Unseen(s, j) && mem.cells[j].visible == NO)
  }

  /** What a calculation leaves alone: symbols that are VALID keep what they have, apart from
      those in `but` and the visibility of members. What selects a member is never set. */
  ghost predicate Goes(s: System, mem: Memory, mem': Memory, but: set<nat>, shown: set<nat>) {
    && MemoryOk(s, mem') && |mem.cells| == |s.table| && mem.valid <= mem'.valid
    && (forall j :: j in mem.valid && j < |s.table| && j !in but ==>
          && mem'.cells[j].curr == mem.cells[j].curr && mem'.cells[j].selected == mem.cells[j].selected
          && (!Looked(s, mem, shown, j) ==> mem'.cells[j].visible == mem.cells[j].visible))
    && (forall j :: 0 <= j < |s.table| && j in s.groups.choiceOf ==> mem'.cells[j].selected == mem.cells[j].selected)
  }

  function SetCurr(mem: Memory, i: nat, val: Value): Memory
    requires i < |mem.cells|
  {
    mem.(cells := mem.cells[i := mem.cells[i].(curr := val)])
  }

  function SetVisible(mem: Memory, i: nat, tri: Tri): Memory
    requires i < |mem.cells|
  {
    mem.(cells := mem.cells[i := mem.cells[i].(visible := tri)])
  }

  function SetSelected(mem: Memory, i: nat, tri: Tri): Memory
    requires i < |mem.cells|
  {
    mem.(cells := mem.cells[i := mem.cells[i].(selected := tri)])
  }

  // ---------- the symbols that are calculated on the way, in order ----------

  function PromptIds(props: seq<Property>): seq<nat> {
    if props == [] then [] else
    var last := props[|props| - 1];
    PromptIds(props[..|props| - 1]) + if last.Prompt? then OptIds(last.cond) else []
  }

  lemma {:induction false} PromptIdsAre(props: seq<Property>)
    ensures forall j :: j in PromptIds(props) <==> exists p :: p in props && p.Prompt? && j in OptRefs(p.cond)
  {
    if props != [] {
      PromptIdsAre(props[..|props| - 1]);
      assert props == props[..|props| - 1] + [props[|props| - 1]];
    }
  }

  ghost predicate InTable(s: System, ids: seq<nat>) {
    forall j :: j in ids ==> j < |s.table|
  }

  lemma PartsInTable(s: System, i: nat)
    requires SystemOk(s) && i < |s.table|
    ensures InTable(s, PromptIds(s.table[i].props)) && InTable(s, OptIds(s.table[i].revDep))
    ensures PropsOk(s, s.table[i].props)
  {
    var d := s.table[i];
    PromptIdsAre(d.props);
    OptInTable(s, d.revDep);
    forall p | p in d.props
      ensures PropOk(s.table, p) && InTable(s, OptIds(p.cond))
    {
      OptInTable(s, p.cond);
    }
  }

  lemma OptInTable(s: System, e: Option<Expr>)
    requires OptOk(s.table, e)
    ensures InTable(s, OptIds(e))
  {
    if e.Some? {
      ExprRefsOk(s.table, e.value);
    }
  }

  // ---------- the calculation ----------

  // more symbols are VALID, and nothing is out of shape
  ghost predicate Grows(s: System, mem: Memory, mem': Memory) {
    MemoryOk(s, mem') && mem.valid <= mem'.valid
  }

  lemma GoesThen(s: System, m0: Memory, m1: Memory, m2: Memory, but: set<nat>, shown: set<nat>)
    requires Goes(s, m0, m1, but, shown) && Goes(s, m1, m2, but, shown)
    ensures Goes(s, m0, m2, but, shown)
  {
  }

  lemma GoesMore(s: System, mem: Memory, mem': Memory, but: set<nat>, shown: set<nat>)
    requires Goes(s, mem, mem', {}, {})
    ensures Goes(s, mem, mem', but, shown)
  {
  }

  lemma GoesSelf(s: System, mem: Memory)
    requires MemoryOk(s, mem)
    ensures Goes(s, mem, mem, {}, {})
  {
  }

  // the cell that is being calculated
  lemma GoesSet(s: System, mem: Memory, i: nat, val: Value, tri: Tri)
    requires MemoryOk(s, mem) && i < |s.table| && (Unseen(s, i) ==> tri == NO)
    ensures Goes(s, mem, SetCurr(mem, i, val), {i}, {})
    ensures Goes(s, mem, SetVisible(mem, i, tri), ButVisible(s, i), {i})
    ensures forall sel: Tri :: i !in s.groups.choiceOf ==> Goes(s, mem, SetSelected(mem, i, sel), {i}, {i})
  {
  }

  function ButVisible(s: System, i: nat): set<nat> {
    if i in s.groups.choiceOf then {} else {i}
  }

  function CalcSyms(s: System, mem: Memory, ids: seq<nat>): (r: Memory)
    requires MemoryOk(s, mem) && InTable(s, ids)
    ensures Grows(s, mem, r) && Goes(s, mem, r, {}, {}) && forall j :: j in ids ==> j in r.valid
    decreases Invalid(s, mem), 2, |ids|
  {
    hide SystemOk, Goes;
    GoesSelf(s, mem);
    if ids == [] then mem else
    assert ids[0] in ids && forall j :: j in ids[1..] ==> j in ids;
    var m1 := CalcValue(s, mem, ids[0]);
    var m2 := CalcSyms(s, m1, ids[1..]);
    GoesThen(s, mem, m1, m2, {}, {});
    m2
  }

  /** sym_calc_visibility. */
  function CalcVisible(s: System, mem: Memory, i: nat): (r: Memory)
    requires MemoryOk(s, mem) && i < |s.table|
    ensures Grows(s, mem, r) && Goes(s, mem, r, ButVisible(s, i), {i})
    ensures i in mem.valid ==> r.cells[i].curr == mem.cells[i].curr
    decreases Invalid(s, mem), 3, 0
  {
    PartsInTable(s, i);
    hide SystemOk, Visibility, Selected, Now, InTable, Goes, Unseen;
    var but := ButVisible(s, i);
    var m1 := CalcSyms(s, mem, PromptIds(s.table[i].props));
    var tri := Visibility(s.table[i], s.modules, Now(s, m1));
    var m2 := SetVisible(m1, i, tri);
    NoIsNo(s, m1, i);
    GoesMore(s, mem, m1, but, {i});
    GoesSet(s, m1, i, Empty(Int), tri);
    GoesThen(s, mem, m1, m2, but, {i});
    KeepsCurr(s, mem, m1, i);
    if i in s.groups.choiceOf then m2 else
    var m3 := CalcSyms(s, m2, OptIds(s.table[i].revDep));
    KeepsCurr(s, m2, m3, i);
    var sel := Selected(s.table[i], s.modules, Now(s, m3));
    GoesMore(s, m2, m3, {i}, {i});
    GoesSet(s, m3, i, Empty(Int), NO);
    GoesThen(s, mem, m2, m3, {i}, {i});
    GoesThen(s, mem, m3, SetSelected(m3, i, sel), {i}, {i});
    SetSelected(m3, i, sel)
  }

  lemma NoIsNo(s: System, mem: Memory, i: nat)
    requires MemoryOk(s, mem) && i < |s.table|
    ensures Unseen(s, i) ==> Visibility(s.table[i], s.modules, Now(s, mem)) == NO
  {
    hide Visibility;
  }

  lemma KeepsCurr(s: System, mem: Memory, mem': Memory, i: nat)
    requires Goes(s, mem, mem', {}, {}) && i < |s.table|
    ensures i in mem.valid ==>
      mem'.cells[i].curr == mem.cells[i].curr && mem'.cells[i].selected == mem.cells[i].selected
  {
  }

  ghost predicate PropsOk(s: System, ps: seq<Property>) {
    forall p :: p in ps ==> PropOk(s.table, p)
  }

  /** sym_get_default_prop and sym_get_range_prop, given the defaults or the ranges. */
  function FindProp(s: System, mem: Memory, ps: seq<Property>): (r: (Memory, Option<Property>))
    requires MemoryOk(s, mem) && PropsOk(s, ps)
    ensures Grows(s, mem, r.0) && Goes(s, mem, r.0, {}, {}) && (r.1.Some? ==> r.1.value in ps)
    decreases Invalid(s, mem), 3, |ps|
  {
    hide SystemOk, Now, InTable, ExprOk, Goes;
    GoesSelf(s, mem);
    if ps == [] then (mem, None) else
    assert ps[0] in ps && PropOk(s.table, ps[0]);
    OptInTable(s, ps[0].cond);
    var m1 := CalcSyms(s, mem, OptIds(ps[0].cond));
    if EvalOpt(ps[0].cond, Now(s, m1)) != NO then (m1, Some(ps[0])) else
    var r := FindProp(s, m1, ps[1..]);
    GoesThen(s, mem, m1, r.0, {}, {});
    r
  }

  // the condition is in the table, and the candidate a member
  ghost predicate CandidateOk(s: System, c: nat, k: Candidate) {
    OptOk(s.table, k.cond) && k.member < |s.table| && InGroup(s.groups, c, k.member) && k.member in s.groups.choiceOf
  }

  lemma CandidatesOk(s: System, c: nat)
    requires SystemOk(s) && c in s.groups.members
    ensures c < |s.table| && TriedOk(s, c, Candidates(s, c))
  {
    CandidatesAreMembers(s, c);
    forall k | k in Candidates(s, c)
      ensures CandidateOk(s, c, k)
    {
      MemberOk(s.table, s.groups, c, k.member);
      if k in DefaultCandidates(s.table[c].props) {
        var p :| p in s.table[c].props && p.Default? && p.cond == k.cond;
        assert PropOk(s.table, p);
      }
    }
  }

  lemma CandidateParts(s: System, c: nat, k: Candidate)
    requires CandidateOk(s, c, k)
    ensures InTable(s, OptIds(k.cond)) && k.member < |s.table| && k.member in s.groups.choiceOf
    ensures InGroup(s.groups, c, k.member)
  {
    OptInTable(s, k.cond);
  }

  // for a choice, its members
  function MembersOf(s: System, i: nat): set<nat> {
    if i in s.groups.members then set m | m in s.groups.members[i] else {}
  }

  ghost predicate TriedOk(s: System, c: nat, ks: seq<Candidate>) {
    forall k :: k in ks ==> CandidateOk(s, c, k)
  }

  /** sym_calc_choice. */
  function PickFrom(s: System, mem: Memory, c: nat, ks: seq<Candidate>): (r: (Memory, Option<nat>))
    requires MemoryOk(s, mem) && TriedOk(s, c, ks)
    ensures Grows(s, mem, r.0) && Goes(s, mem, r.0, {}, MembersOf(s, c))
    ensures r.1.Some? ==> exists k :: k in ks && k.member == r.1.value
    decreases Invalid(s, mem), 4, |ks|
  {
    hide SystemOk, Now, InTable, ExprOk, Goes;
    GoesSelf(s, mem);
    GoesMore(s, mem, mem, {}, MembersOf(s, c));
    if ks == [] then (mem, None) else
    var k := ks[0];
    assert k in ks && CandidateOk(s, c, k);
    OptInTable(s, k.cond);
    var m1 := CalcSyms(s, mem, OptIds(k.cond));
    GoesMore(s, mem, m1, {}, MembersOf(s, c));
    if EvalOpt(k.cond, Now(s, m1)) == NO then
      var r := PickFrom(s, m1, c, ks[1..]);
      GoesThen(s, mem, m1, r.0, {}, MembersOf(s, c));
      r
    else
      var m2 := CalcVisible(s, m1, k.member);
      GoesMember(s, m1, m2, c, k.member);
      GoesThen(s, mem, m1, m2, {}, MembersOf(s, c));
      if m2.cells[k.member].visible != NO then (m2, Some(k.member)) else
      var r := PickFrom(s, m2, c, ks[1..]);
      GoesThen(s, mem, m2, r.0, {}, MembersOf(s, c));
      r
  }

  lemma GoesMember(s: System, mem: Memory, mem': Memory, c: nat, m: nat)
    requires InGroup(s.groups, c, m) && m in s.groups.choiceOf && Goes(s, mem, mem', ButVisible(s, m), {m})
    ensures Goes(s, mem, mem', {}, MembersOf(s, c))
  {
  }

  /** The value of the first default whose condition is met, and no more than it. */
  function CalcDefault(s: System, mem: Memory, i: nat): (r: (Memory, Tri))
    requires MemoryOk(s, mem) && i < |s.table|
    ensures Grows(s, mem, r.0) && Goes(s, mem, r.0, {}, {})
    decreases Invalid(s, mem), 4, 0
  {
    PartsInTable(s, i);
    hide SystemOk, Now, Goes, ExprOk;
    var (m1, p) := FindProp(s, mem, Defaults(s.table[i].props));
    if p.None? then (m1, NO) else
    assert PropOk(s.table, p.value);
    ExprRefsOk(s.table, p.value.value);
    var m2 := CalcSyms(s, m1, ExprIds(p.value.value));
    GoesThen(s, mem, m1, m2, {}, {});
    (m2, Combine(AndOp, Eval(p.value.value, Now(s, m2)), EvalOpt(p.value.cond, Now(s, m2))))
  }

  function CalcTri(s: System, mem: Memory, i: nat): (r: (Memory, Tri))
    requires MemoryOk(s, mem) && i in mem.valid && i < |s.table|
    ensures Grows(s, mem, r.0) && Goes(s, mem, r.0, {}, {})
    decreases Invalid(s, mem), 5, 0
  {
    GoesSelf(s, mem);
    var c, d := mem.cells[i], s.table[i];
    var asks := !(c.visible != NO && s.user[i].given) && i !in s.groups.members;
    var (m1, tri) := if asks then CalcDefault(s, mem, i) else (mem, UserTri(s.user[i], c.visible, NO));
    (m1, Promote(d, s.modules, Combine(OrOp, tri, c.selected)))
  }

  function CalcRaw(s: System, mem: Memory, i: nat): (r: (Memory, string))
    requires MemoryOk(s, mem) && i in mem.valid && i < |s.table|
    ensures Grows(s, mem, r.0) && Goes(s, mem, r.0, {}, {})
    decreases Invalid(s, mem), 5, 0
  {
    GoesSelf(s, mem);
    if mem.cells[i].visible != NO && s.user[i].given then (mem, s.user[i].raw) else
    PartsInTable(s, i);
    hide SystemOk, Now, Goes;
    var (m1, p) := FindProp(s, mem, Defaults(s.table[i].props));
    if p.None? || !p.value.value.Symbol? then (m1, "") else
    assert PropOk(s.table, p.value);
    var x := p.value.value.sym;
    var m2 := CalcSyms(s, m1, SymIds(x));
    GoesThen(s, mem, m1, m2, {}, {});
    (m2, RawOf(x, Now(s, m2)))
  }

  // the value before a choice looks at its members and before the range is applied
  function CalcOwn(s: System, mem: Memory, i: nat): (r: (Memory, Value))
    requires MemoryOk(s, mem) && i in mem.valid && i < |s.table|
    ensures Grows(s, mem, r.0) && Goes(s, mem, r.0, {}, {})
    decreases Invalid(s, mem), 6, 0
  {
    GoesSelf(s, mem);
    if !Logical(s.table[i].ty) then
      var (m1, raw) := CalcRaw(s, mem, i);
      (m1, Value(NO, raw, None))
    else if i in s.groups.choiceOf && mem.cells[i].visible == YES then
      (mem, Value(if ChosenBy(s, mem, i) == Some(i) then YES else NO, "n", None))
    else
      var (m1, tri) := CalcTri(s, mem, i);
      (m1, Value(tri, "n", None))
  }

  // the member that the choice of a member points to
  function ChosenBy(s: System, mem: Memory, m: nat): Option<nat>
    requires MemoryOk(s, mem) && m in s.groups.choiceOf
  {
    mem.cells[s.groups.choiceOf[m]].curr.chosen
  }

  /** sym_validate_range, answering the string to store. */
  function CalcRange(s: System, mem: Memory, i: nat, raw: string): (r: (Memory, string))
    requires MemoryOk(s, mem) && i < |s.table|
    ensures Grows(s, mem, r.0) && Goes(s, mem, r.0, {}, {})
    decreases Invalid(s, mem), 5, 0
  {
    GoesSelf(s, mem);
    var d := s.table[i];
    if d.ty != Int && d.ty != Hex then (mem, raw) else
    PartsInTable(s, i);
    hide SystemOk, Now, ParseInt, FormatInt, RangeOperand, Goes;
    var (m1, p) := FindProp(s, mem, Ranges(d.props));
    if p.None? then (m1, raw) else
    assert PropOk(s.table, p.value);
    var base := BaseOf(d.ty);
    var m2 := CalcSyms(s, m1, SymIds(p.value.lo));
    GoesThen(s, mem, m1, m2, {}, {});
    var lo := RangeOperand(p.value.lo, base, Now(s, m2));
    if ParseInt(raw, base) < lo then (m2, FormatInt(lo, base)) else
    var m3 := CalcSyms(s, m2, SymIds(p.value.hi));
    GoesThen(s, mem, m2, m3, {}, {});
    var hi := RangeOperand(p.value.hi, base, Now(s, m3));
    (m3, if ParseInt(raw, base) <= hi then raw else FormatInt(hi, base))
  }

  // what a recursive reference to the symbol would see
  function Empty(ty: SymType): Value {
    Value(NO, if Logical(ty) then "n" else "", None)
  }

  // the end of sym_calc_value: a choice at y looks at its members
  function CalcLast(s: System, mem: Memory, i: nat, newval: Value): (r: Memory)
    requires MemoryOk(s, mem) && i in mem.valid && i < |s.table|
    ensures Grows(s, mem, r) && Goes(s, mem, r, {i}, MembersOf(s, i))
    decreases Invalid(s, mem), 6, 0
  {
    var m1 := SetCurr(mem, i, newval);
    GoesSet(s, mem, i, newval, NO);
    if i in s.groups.members && newval.tri == YES then
      CandidatesOk(s, i);
      hide SystemOk, Goes, Candidates;
      var (m2, pick) := PickFrom(s, m1, i, Candidates(s, i));
      var val := Value(if pick.None? then NO else YES, newval.raw, pick);
      ThenSet(s, mem, m1, m2, i, val);
      SetCurr(m2, i, val)
    else
      hide SystemOk, Goes;
      var (m2, raw) := CalcRange(s, m1, i, newval.raw);
      var val := newval.(raw := raw);
      GoesMore(s, m1, m2, {}, MembersOf(s, i));
      ThenSet(s, mem, m1, m2, i, val);
      SetCurr(m2, i, val)
  }

  lemma ThenSet(s: System, m0: Memory, m1: Memory, m2: Memory, i: nat, val: Value)
    requires Goes(s, m0, m1, {i}, {}) && Goes(s, m1, m2, {}, MembersOf(s, i)) && i < |s.table|
    ensures Grows(s, m0, SetCurr(m2, i, val)) && Goes(s, m0, SetCurr(m2, i, val), {i}, MembersOf(s, i))
  {
  }

  function CalcTyped(s: System, mem: Memory, i: nat): (r: Memory)
    requires MemoryOk(s, mem) && i in mem.valid && i < |s.table|
    ensures Grows(s, mem, r) && Goes(s, mem, r, {i}, MembersOf(s, i))
    decreases Invalid(s, mem), 7, 0
  {
    hide SystemOk, Goes;
    var m1 := CalcVisible(s, mem, i);
    var m2 := SetCurr(m1, i, Empty(s.table[i].ty));
    GoesSet(s, m1, i, Empty(s.table[i].ty), NO);
    var (m3, newval) := CalcOwn(s, m2, i);
    var m4 := CalcLast(s, m3, i, newval);
    AllBut(s, mem, m1, m2, m3, m4, i);
    m4
  }

  lemma AllBut(s: System, m0: Memory, m1: Memory, m2: Memory, m3: Memory, m4: Memory, i: nat)
    requires Goes(s, m0, m1, ButVisible(s, i), {i}) && Goes(s, m1, m2, {i}, {})
    requires Goes(s, m2, m3, {}, {}) && Goes(s, m3, m4, {i}, MembersOf(s, i))
    ensures Grows(s, m0, m4) && Goes(s, m0, m4, {i}, MembersOf(s, i))
  {
  }

  /** sym_calc_value. */
  function CalcValue(s: System, mem: Memory, i: nat): (r: Memory)
    requires MemoryOk(s, mem) && i < |s.table|
    ensures Grows(s, mem, r) && Goes(s, mem, r, {}, {}) && i in r.valid
    decreases Invalid(s, mem), 1, 0
  {
    GoesSelf(s, mem);
    if i in mem.valid then mem else
    assert i in Invalid(s, mem);
    hide SystemOk;
    var m := mem.(valid := mem.valid + {i});
    if s.table[i].ty == Unknown then SetCurr(m, i, Value(NO, s.table[i].name, None)) else CalcTyped(s, m, i)
  }
}
