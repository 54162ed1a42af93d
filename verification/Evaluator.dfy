/** The memoising evaluator: sym_calc_value and what it calls, sym_clear_all_valid,
    sym_set_tristate_value (package/config/symbol.c) and expr_calc_value
    (package/config/expr.c). The modules symbol's value is fixed. */
module Evaluator {
  import opened Wrappers
  import opened Exprs
  import opened Symbols
  import opened Numbers
  import opened Evaluation
  import opened Calculation
  import opened Settling
  import opened Choices
  import AtMostOne

  // ---------- calculations in a row ----------

  lemma {:induction false} SymsAppend(s: System, mem: Memory, a: seq<nat>, b: seq<nat>)
    requires MemoryOk(s, mem) && InTable(s, a) && InTable(s, b)
    ensures InTable(s, a + b)
    ensures CalcSyms(s, mem, a + b) == CalcSyms(s, CalcSyms(s, mem, a), b)
    decreases |a|
  {
    hide SystemOk, Goes;
    if a == [] {
      assert a + b == b;
    } else {
      assert a[0] in a && (a + b)[0] == a[0] && (a + b)[1..] == a[1..] + b;
      assert forall j :: j in a[1..] ==> j in a;
      SymsAppend(s, Calculation.CalcValue(s, mem, a[0]), a[1..], b);
    }
  }

  // what was calculated stays
  lemma StaysEval(s: System, mem: Memory, mem': Memory, shown: set<nat>, e: Option<Expr>)
    requires MemoryOk(s, mem) && Goes(s, mem, mem', {}, shown)
    requires forall j :: j in OptIds(e) ==> j in mem.valid
    ensures EvalOpt(e, Now(s, mem')) == EvalOpt(e, Now(s, mem))
  {
    SameAgree(s.table, Currs(mem), Currs(mem'), mem.valid);
    OptAgrees(e, mem.valid, Now(s, mem), Now(s, mem'));
  }

  lemma StaysMax(s: System, mem: Memory, mem': Memory, props: seq<Property>)
    requires MemoryOk(s, mem) && Goes(s, mem, mem', {}, {})
    requires forall j :: j in PromptIds(props) ==> j in mem.valid
    ensures PromptMax(props, Now(s, mem')) == PromptMax(props, Now(s, mem))
  {
    PromptIdsAre(props);
    forall p | p in props && p.Prompt?
      ensures OptRefs(p.cond) <= mem.valid
    {
      assert forall j :: j in OptRefs(p.cond) ==> j in PromptIds(props);
    }
    SameAgree(s.table, Currs(mem), Currs(mem'), mem.valid);
    PromptsAgree(props, mem.valid, Now(s, mem), Now(s, mem'));
  }

  class SymbolTable {
    const table: Table
    const groups: Groups
    const modules: Tri           // modules_val
    var user: seq<UserValue>     // def[S_DEF_USER]
    var picks: map<nat, nat>     // def[S_DEF_USER].val of choices
    var valid: set<nat>          // symbols flagged SYMBOL_VALID
    var cells: seq<Cell>

    function Sys(): System
      reads this
    {
      System(table, groups, modules, user, picks)
    }

    function Mem(): Memory
      reads this
    {
      Memory(valid, cells)
    }

    ghost predicate Valid()
      reads this
    {
      MemoryOk(Sys(), Mem())
    }

    ghost function Left(): set<nat>
      reads this
    {
      Invalid(Sys(), Mem())
    }

    // sym_calc_value on the symbol of an expression
    method CalcSym(x: Sym)
      requires Valid() && SymOk(table, x)
      modifies this`valid, this`cells
      ensures Valid() && Mem() == CalcSyms(Sys(), old(Mem()), SymIds(x))
      decreases Left(), 3
    {
      hide SystemOk, Goes;
      if x.Config? {
        CalcValue(x.id);
      }
    }

    // expr_calc_value
    method CalcExpr(e: Expr) returns (r: Tri)
      requires Valid() && ExprOk(table, e)
      modifies this`valid, this`cells
      ensures Valid() && InTable(Sys(), ExprIds(e))
      ensures Mem() == CalcSyms(Sys(), old(Mem()), ExprIds(e))
      ensures r == Eval(e, Now(Sys(), Mem()))
      decreases Left(), 4, e
    {
      hide SystemOk, Goes, Now;
      ghost var s, m0 := Sys(), Mem();
      ExprRefsOk(table, e);
      match e {
        case Symbol(x) =>
          CalcSym(x);
          r := SymTri(table, Currs(Mem()), x);
          NowIs(x);
        case Not(a) =>
          var val := CalcExpr(a);
          r := YES - val;
        case Bin(op, left, right) =>
          var val1 := CalcExpr(left);
          ghost var m1 := Mem();
          var val2 := CalcExpr(right);
          StaysEval(s, m1, Mem(), {}, Some(left));
          SymsAppend(s, m0, ExprIds(left), ExprIds(right));
          r := Combine(op, val1, val2);
        case Cmp(eq, a, b) =>
          assert InTable(s, SymIds(a)) && InTable(s, SymIds(b));
          CalcSym(a);
          CalcSym(b);
          SymsAppend(s, m0, SymIds(a), SymIds(b));
          var str1, str2 := SymString(table, Currs(Mem()), a), SymString(table, Currs(Mem()), b);
          NowIs(a);
          NowIs(b);
          r := if eq == (str1 == str2) then YES else NO;
      }
    }

    lemma NowIs(x: Sym)
      ensures Now(Sys(), Mem()).tri(x) == SymTri(table, Currs(Mem()), x)
      ensures Now(Sys(), Mem()).str(x) == SymString(table, Currs(Mem()), x)
    {
    }

    method CalcOpt(e: Option<Expr>) returns (r: Tri)
      requires Valid() && OptOk(table, e)
      modifies this`valid, this`cells
      ensures Valid() && InTable(Sys(), OptIds(e))
      ensures Mem() == CalcSyms(Sys(), old(Mem()), OptIds(e))
      ensures r == EvalOpt(e, Now(Sys(), Mem()))
      decreases Left(), 5, 0
    {
      if e.None? {
        r := YES;
      } else {
        r := CalcExpr(e.value);
      }
    }

    // how far its prompts are open
    method CalcPrompts(i: nat) returns (tri: Tri)
      requires Valid() && i < |table|
      modifies this`valid, this`cells
      ensures Valid() && InTable(Sys(), PromptIds(table[i].props))
      ensures Mem() == CalcSyms(Sys(), old(Mem()), PromptIds(table[i].props))
      ensures tri == Visibility(table[i], modules, Now(Sys(), Mem()))
      decreases Left(), 6
    {
      hide SystemOk, Goes, Now, CalcSyms, PromptIds, PromptMax, InTable;
      tri := MaxPrompt(i);
      if tri == MOD && (table[i].ty != Tristate || modules == NO) {
        tri := YES;
      }
    }

    // for_all_prompts
    method MaxPrompt(i: nat) returns (tri: Tri)
      requires Valid() && i < |table|
      modifies this`valid, this`cells
      ensures Valid() && InTable(Sys(), PromptIds(table[i].props))
      ensures Mem() == CalcSyms(Sys(), old(Mem()), PromptIds(table[i].props))
      ensures tri == PromptMax(table[i].props, Now(Sys(), Mem()))
      decreases Left(), 5, 2
    {
      PartsInTable(Sys(), i);
      hide SystemOk, Goes, Now, CalcSyms, PromptIds, PromptMax, InTable, PropsOk, ExprOk;
      ghost var s, m0 := Sys(), Mem();
      var props := table[i].props;
      tri := NO;
      NoPrompts(s, m0);
      var k := 0;
      assert props[..0] == [];
      while k < |props|
        invariant 0 <= k <= |props| && Valid() && m0.valid <= valid
        invariant InTable(s, PromptIds(props[..k]))
        invariant Mem() == CalcSyms(s, m0, PromptIds(props[..k]))
        invariant tri == PromptMax(props[..k], Now(s, Mem()))
      {
        assert props[..k + 1] == props[..k] + [props[k]];
        PropAt(s, props, k);
        tri := NextPrompt(tri, props[k], m0, props[..k]);
        k := k + 1;
      }
      assert props[..k] == props;
    }

    lemma NoPrompts(s: System, mem: Memory)
      requires MemoryOk(s, mem)
      ensures PromptIds([]) == [] && InTable(s, []) && CalcSyms(s, mem, []) == mem
      ensures PromptMax([], Now(s, mem)) == NO
    {
    }

    lemma PropAt(s: System, ps: seq<Property>, k: nat)
      requires PropsOk(s, ps) && k < |ps|
      ensures PropOk(s.table, ps[k]) && OptOk(s.table, ps[k].cond)
    {
      assert ps[k] in ps;
    }

    // one round of that loop
    method NextPrompt(max: Tri, p: Property, ghost m0: Memory, ghost before: seq<Property>) returns (tri: Tri)
      requires Valid() && MemoryOk(Sys(), m0) && OptOk(table, p.cond) && InTable(Sys(), PromptIds(before))
      requires Mem() == CalcSyms(Sys(), m0, PromptIds(before)) && max == PromptMax(before, Now(Sys(), Mem()))
      modifies this`valid, this`cells
      ensures Valid() && InTable(Sys(), PromptIds(before + [p])) && old(valid) <= valid
      ensures Mem() == CalcSyms(Sys(), m0, PromptIds(before + [p]))
      ensures tri == PromptMax(before + [p], Now(Sys(), Mem()))
      decreases Left(), 5, 1
    {
      hide SystemOk, Goes, Now, CalcSyms, InTable;
      assert (before + [p])[..|before|] == before;
      tri := max;
      if p.Prompt? {
        ghost var m1 := Mem();
        var c := CalcOpt(p.cond);
        StaysMax(Sys(), m1, Mem(), before);
        SymsAppend(Sys(), m0, PromptIds(before), OptIds(p.cond));
        tri := Combine(OrOp, max, c);
      } else {
        assert PromptIds(before) + [] == PromptIds(before);
      }
    }

    // sym_calc_visibility
    method CalcVisibility(i: nat)
      requires Valid() && i < |table|
      modifies this`valid, this`cells
      ensures Valid() && Mem() == CalcVisible(Sys(), old(Mem()), i)
      decreases Left(), 7
    {
      PartsInTable(Sys(), i);
      assert OptOk(table, table[i].revDep);
      hide SystemOk, Goes, Now, ExprOk, Visibility;
      var tri := CalcPrompts(i);
      cells := cells[i := cells[i].(visible := tri)];
      if i in groups.choiceOf {
        return;
      }
      tri := NO;
      if table[i].revDep.Some? {
        tri := CalcExpr(table[i].revDep.value);
      }
      if tri == MOD && EffectiveType(table[i].ty, modules) == Boolean {
        tri := YES;
      }
      cells := cells[i := cells[i].(selected := tri)];
    }

    // sym_get_default_prop, with the value of the condition that was met
    method GetDefaultProp(i: nat) returns (r: Option<Property>, cond: Tri)
      requires Valid() && i < |table|
      modifies this`valid, this`cells
      ensures Valid() && PropsOk(Sys(), Defaults(table[i].props))
      ensures (Mem(), r) == FindProp(Sys(), old(Mem()), Defaults(table[i].props))
      ensures r.Some? ==> cond == EvalOpt(r.value.cond, Now(Sys(), Mem()))
      ensures r.Some? ==> forall j :: j in OptIds(r.value.cond) ==> j in valid
      decreases Left(), 6
    {
      PartsInTable(Sys(), i);
      KindsOk(Sys(), table[i].props);
      hide *;
      ghost var s, m0 := Sys(), Mem();
      var props := table[i].props;
      var k := 0;
      cond := NO;
      assert props[0..] == props;
      while k < |props|
        invariant 0 <= k <= |props| && Valid() && m0.valid <= valid
        invariant PropsOk(s, props) && PropsOk(s, Defaults(props)) && PropsOk(s, Defaults(props[k..]))
        invariant FindProp(s, m0, Defaults(props)) == FindProp(s, Mem(), Defaults(props[k..]))
      {
        var p := props[k];
        KindsNext(s, props, k);
        if p.Default? {
          cond := TryProp(p, Defaults(props[k + 1..]));
          if cond != NO {
            return Some(p), cond;
          }
        }
        k := k + 1;
      }
      NoProp(s, Mem());
      assert props[k..] == [];
      r, cond := None, NO;
    }

    lemma KindsOk(s: System, ps: seq<Property>)
      requires PropsOk(s, ps)
      ensures PropsOk(s, Defaults(ps)) && PropsOk(s, Ranges(ps))
    {
    }

    lemma KindsNext(s: System, ps: seq<Property>, k: nat)
      requires PropsOk(s, ps) && k < |ps|
      ensures PropOk(s.table, ps[k]) && OptOk(s.table, ps[k].cond) && PropsOk(s, Defaults(ps[k..])) &&
        PropsOk(s, Ranges(ps[k..]))
      ensures PropsOk(s, Defaults(ps[k + 1..])) && PropsOk(s, Ranges(ps[k + 1..]))
      ensures Defaults(ps[k..]) == (if ps[k].Default? then [ps[k]] + Defaults(ps[k + 1..]) else Defaults(ps[k + 1..]))
      ensures Ranges(ps[k..]) == (if ps[k].Range? then [ps[k]] + Ranges(ps[k + 1..]) else Ranges(ps[k + 1..]))
    {
      assert ps[k..][1..] == ps[k + 1..] && ps[k] in ps;
      assert PropsOk(s, ps[k..]) && PropsOk(s, ps[k + 1..]);
      KindsOk(s, ps[k..]);
      KindsOk(s, ps[k + 1..]);
    }

    lemma NoProp(s: System, mem: Memory)
      requires MemoryOk(s, mem)
      ensures Defaults([]) == [] && Ranges([]) == [] && PropsOk(s, []) && FindProp(s, mem, []) == (mem, None)
    {
    }

    // one round of either loop: the value of the condition
    method TryProp(p: Property, ghost ps: seq<Property>) returns (cond: Tri)
      requires Valid() && OptOk(table, p.cond) && PropsOk(Sys(), [p] + ps) && PropsOk(Sys(), ps)
      modifies this`valid, this`cells
      ensures Valid() && old(valid) <= valid && cond == EvalOpt(p.cond, Now(Sys(), Mem()))
      ensures forall j :: j in OptIds(p.cond) ==> j in valid
      ensures FindProp(Sys(), old(Mem()), [p] + ps) ==
        if cond != NO then (Mem(), Some(p)) else FindProp(Sys(), Mem(), ps)
      decreases Left(), 5, 1
    {
      hide SystemOk, Goes, Now, CalcSyms, InTable, PropsOk;
      assert ([p] + ps)[1..] == ps;
      cond := CalcOpt(p.cond);
    }

    // sym_get_range_prop
    method GetRangeProp(i: nat) returns (r: Option<Property>)
      requires Valid() && i < |table|
      modifies this`valid, this`cells
      ensures Valid() && PropsOk(Sys(), Ranges(table[i].props))
      ensures (Mem(), r) == FindProp(Sys(), old(Mem()), Ranges(table[i].props))
      decreases Left(), 6
    {
      PartsInTable(Sys(), i);
      KindsOk(Sys(), table[i].props);
      hide *;
      ghost var s, m0 := Sys(), Mem();
      var props := table[i].props;
      var k := 0;
      assert props[0..] == props;
      while k < |props|
        invariant 0 <= k <= |props| && Valid() && m0.valid <= valid
        invariant PropsOk(s, props) && PropsOk(s, Ranges(props)) && PropsOk(s, Ranges(props[k..]))
        invariant FindProp(s, m0, Ranges(props)) == FindProp(s, Mem(), Ranges(props[k..]))
      {
        var p := props[k];
        KindsNext(s, props, k);
        if p.Range? {
          var cond := TryProp(p, Ranges(props[k + 1..]));
          if cond != NO {
            return Some(p);
          }
        }
        k := k + 1;
      }
      NoProp(s, Mem());
      assert props[k..] == [];
      r := None;
    }

    // sym_get_range_val
    method GetRangeVal(x: Sym, base: nat) returns (r: CInt)
      requires Valid() && SymOk(table, x)
      modifies this`valid, this`cells
      ensures Valid() && Mem() == CalcSyms(Sys(), old(Mem()), SymIds(x))
      ensures r == RangeOperand(x, base, Now(Sys(), Mem()))
      decreases Left(), 4
    {
      hide ParseInt, SystemOk, Goes, Now;
      CalcSym(x);
      NowIs(x);
      var raw := if Logical(TypeOf(x)) then "n" else SymString(table, Currs(Mem()), x);
      r := ParseInt(raw, if TypeOf(x) == Int then 10 else if TypeOf(x) == Hex then 16 else base);
    }

    // sym_validate_range, answering the string to store
    method ValidateRange(i: nat, raw: string) returns (r: string)
      requires Valid() && i < |table|
      modifies this`valid, this`cells
      ensures Valid() && (Mem(), r) == Calculation.CalcRange(Sys(), old(Mem()), i, raw)
      decreases Left(), 7
    {
      hide ParseInt, FormatInt, SystemOk, Goes, Now, RangeOperand, ExprOk;
      if table[i].ty != Int && table[i].ty != Hex {
        return raw;
      }
      var base := BaseOf(table[i].ty);
      var p := GetRangeProp(i);
      if p.None? {
        return raw;
      }
      assert PropOk(table, p.value);
      var val := ParseInt(raw, base);
      var val2 := GetRangeVal(p.value.lo, base);
      if val >= val2 {
        val2 := GetRangeVal(p.value.hi, base);
        if val <= val2 {
          return raw;
        }
      }
      r := FormatInt(val2, base);
    }

    // the value of the default that counts
    method CalcDefault(i: nat) returns (tri: Tri)
      requires Valid() && i < |table|
      modifies this`valid, this`cells
      ensures Valid() && (Mem(), tri) == Calculation.CalcDefault(Sys(), old(Mem()), i)
      decreases Left(), 7
    {
      hide SystemOk, Goes, Now, ExprOk;
      tri := NO;
      var p, cond := GetDefaultProp(i);
      if p.Some? {
        ghost var m1 := Mem();
        assert PropOk(table, p.value);
        var val := CalcExpr(p.value.value);
        StaysEval(Sys(), m1, Mem(), {}, p.value.cond);
        tri := Combine(AndOp, val, cond);
      }
    }

    // the part of sym_calc_value for booleans and tristates that are not members shown at y
    method CalcTri(i: nat) returns (tri: Tri)
      requires Valid() && i in valid && i < |table|
      modifies this`valid, this`cells
      ensures Valid() && (Mem(), tri) == Calculation.CalcTri(Sys(), old(Mem()), i)
      decreases Left(), 8
    {
      assert |user| == |table|;
      hide SystemOk, Now, Goes, Calculation.CalcDefault;
      tri := NO;
      ghost var m0 := Mem();
      var cell := cells[i];
      if cell.visible != NO && user[i].given {
        tri := Combine(AndOp, user[i].tri, cell.visible);
      } else if i !in groups.members {
        tri := CalcDefault(i);
      }
      tri := Combine(OrOp, tri, cell.selected);
      if tri == MOD && EffectiveType(table[i].ty, modules) == Boolean {
        tri := YES;
      }
    }

    lemma PropOfProps(s: System, ps: seq<Property>, p: Property)
      requires PropsOk(s, ps) && p in ps
      ensures PropOk(s.table, p)
    {
    }

    // the part for strings and numbers
    method CalcRaw(i: nat) returns (raw: string)
      requires Valid() && i in valid && i < |table|
      modifies this`valid, this`cells
      ensures Valid() && (Mem(), raw) == Calculation.CalcRaw(Sys(), old(Mem()), i)
      decreases Left(), 8
    {
      assert |user| == |table|;
      hide SystemOk, Now, Goes, ExprOk, FindProp, CalcSyms, Defaults, PropsOk;
      raw := "";
      if cells[i].visible != NO && user[i].given {
        return user[i].raw;
      }
      var p, cond := GetDefaultProp(i);
      if p.Some? && p.value.value.Symbol? {
        var x := p.value.value.sym;
        PropOfProps(Sys(), Defaults(table[i].props), p.value);
        CalcSym(x);
        NowIs(x);
        raw := if Logical(TypeOf(x)) then "n" else SymString(table, Currs(Mem()), x);
      }
    }

    // the value before a choice looks at its members and before the range is applied
    method CalcOwn(i: nat) returns (newval: Value)
      requires Valid() && i in valid && i < |table|
      modifies this`valid, this`cells
      ensures Valid() && (Mem(), newval) == Calculation.CalcOwn(Sys(), old(Mem()), i)
      decreases Left(), 9
    {
      if !Logical(table[i].ty) {
        hide SystemOk, Goes, Calculation.CalcRaw;
        var raw := CalcRaw(i);
        newval := Value(NO, raw, None);
      } else if i in groups.choiceOf && cells[i].visible == YES {
        newval := Value(if cells[groups.choiceOf[i]].curr.chosen == Some(i) then YES else NO, "n", None);
      } else {
        hide SystemOk, Goes, Calculation.CalcTri;
        var tri := CalcTri(i);
        newval := Value(tri, "n", None);
      }
    }

    // sym_calc_choice, when the choice is at y for the time being
    method CalcChoice(c: nat) returns (r: Option<nat>)
      requires Valid() && c in groups.members && c < |table|
      modifies this`valid, this`cells
      ensures Valid() && TriedOk(Sys(), c, Candidates(Sys(), c))
      ensures (Mem(), r) == PickFrom(Sys(), old(Mem()), c, Candidates(Sys(), c))
      decreases Left(), 9
    {
      CandidatesOk(Sys(), c);
      Parts(Sys(), c);
      hide SystemOk, Goes, PickFrom, TriedOk, CandidateOk, Now, ExprOk, PropOk, Candidates, Listed;
      r := TryPick(c, Listed(Sys(), c));
      if r.None? {
        r := TryListed(c);
      }
    }

    // the defaults and the members
    function Listed(s: System, c: nat): seq<Candidate>
      requires c < |s.table| && c in s.groups.members
    {
      DefaultCandidates(s.table[c].props) + MemberCandidates(s.groups.members[c])
    }

    method TryListed(c: nat) returns (r: Option<nat>)
      requires Valid() && c in groups.members && c < |table| && TriedOk(Sys(), c, Listed(Sys(), c))
      modifies this`valid, this`cells
      ensures Valid() && (Mem(), r) == PickFrom(Sys(), old(Mem()), c, Listed(Sys(), c))
      decreases Left(), 8, 2
    {
      hide SystemOk, Goes, PickFrom, DefaultCandidates, TriedOk, CandidateOk, Now, ExprOk, PropOk;
      r := TryDefaults(c, MemberCandidates(groups.members[c]));
      if r.None? {
        r := TryMembers(c);
      }
    }

    function PickCandidate(s: System, c: nat): seq<Candidate> {
      if c in s.picks then [Candidate(None, s.picks[c])] else []
    }

    lemma Parts(s: System, c: nat)
      requires c < |s.table| && c in s.groups.members
      ensures Candidates(s, c) == PickCandidate(s, c) + Listed(s, c)
    {
      var ds, ms := DefaultCandidates(s.table[c].props), MemberCandidates(s.groups.members[c]);
      assert PickCandidate(s, c) + (ds + ms) == PickCandidate(s, c) + ds + ms;
    }

    // is there a user choice, and is it visible?
    method TryPick(c: nat, ghost ks: seq<Candidate>) returns (r: Option<nat>)
      requires Valid() && TriedOk(Sys(), c, PickCandidate(Sys(), c) + ks)
      modifies this`valid, this`cells
      ensures Valid() && old(valid) <= valid && TriedOk(Sys(), c, ks)
      ensures PickFrom(Sys(), old(Mem()), c, PickCandidate(Sys(), c) + ks) ==
        if r.Some? then (Mem(), r) else PickFrom(Sys(), Mem(), c, ks)
      decreases Left(), 8, 1
    {
      hide SystemOk, Goes, PickFrom, TriedOk, CandidateOk, Now;
      r := None;
      if c in picks {
        var shown := TryCandidate(c, Candidate(None, picks[c]), ks);
        if shown {
          r := Some(picks[c]);
        }
      } else {
        assert [] + ks == ks;
      }
    }

    // one candidate: is its condition met, and is it visible?
    method TryCandidate(c: nat, k: Candidate, ghost ks: seq<Candidate>) returns (shown: bool)
      requires Valid() && TriedOk(Sys(), c, [k] + ks)
      modifies this`valid, this`cells
      ensures Valid() && old(valid) <= valid && TriedOk(Sys(), c, ks)
      ensures PickFrom(Sys(), old(Mem()), c, [k] + ks) ==
        if shown then (Mem(), Some(k.member)) else PickFrom(Sys(), Mem(), c, ks)
      decreases Left(), 8, 0
    {
      assert k in [k] + ks && ([k] + ks)[1..] == ks && CandidateOk(Sys(), c, k);
      assert TriedOk(Sys(), c, ks);
      hide SystemOk, Goes, Now, CalcSyms, CalcVisible, InTable, TriedOk;
      shown := false;
      var cond := CalcOpt(k.cond);
      if cond != NO {
        CalcVisibility(k.member);
        shown := cells[k.member].visible != NO;
      }
    }

    // any of the defaults of the choice
    method TryDefaults(c: nat, ghost rest: seq<Candidate>) returns (r: Option<nat>)
      requires Valid() && c in groups.members && c < |table|
      requires TriedOk(Sys(), c, DefaultCandidates(table[c].props) + rest)
      modifies this`valid, this`cells
      ensures Valid() && old(valid) <= valid && TriedOk(Sys(), c, rest)
      ensures PickFrom(Sys(), old(Mem()), c, DefaultCandidates(table[c].props) + rest) ==
        if r.Some? then (Mem(), r) else PickFrom(Sys(), Mem(), c, rest)
      decreases Left(), 8, 1
    {
      hide SystemOk, Goes, PickFrom, CalcVisible, CalcSyms, DefaultCandidates, TriedOk, CandidateOk, Candidates, Now;
      hide Symbols.ExprOk, PropOk;
      ghost var s, m0 := Sys(), Mem();
      var props := table[c].props;
      assert props[0..] == props;
      var k := 0;
      while k < |props|
        invariant 0 <= k <= |props| && Valid() && m0.valid <= valid
        invariant TriedOk(s, c, DefaultCandidates(props[k..]) + rest)
        invariant PickFrom(s, m0, c, DefaultCandidates(props) + rest) ==
          PickFrom(s, Mem(), c, DefaultCandidates(props[k..]) + rest)
      {
        var p := props[k];
        CandidatesNext(props, k, rest);
        if p.Default? && p.value.Symbol? && p.value.sym.Config? {
          var shown := TryCandidate(c, Candidate(p.cond, p.value.sym.id), DefaultCandidates(props[k + 1..]) + rest);
          if shown {
            TriedEnd(s, c, DefaultCandidates(props[k + 1..]), rest);
            return Some(p.value.sym.id);
          }
        }
        k := k + 1;
      }
      CandidatesNone(rest);
      assert props[k..] == [];
      r := None;
    }

    lemma CandidatesNext(props: seq<Property>, k: nat, rest: seq<Candidate>)
      requires k < |props|
      ensures var p := props[k]; var more := DefaultCandidates(props[k + 1..]) + rest;
        DefaultCandidates(props[k..]) + rest ==
          if p.Default? && p.value.Symbol? && p.value.sym.Config? then [Candidate(p.cond,
            p.value.sym.id)] + more else more
    {
      assert props[k..][1..] == props[k + 1..];
    }

    lemma CandidatesNone(rest: seq<Candidate>)
      ensures DefaultCandidates([]) + rest == rest
    {
    }

    lemma TriedEnd(s: System, c: nat, ks: seq<Candidate>, rest: seq<Candidate>)
      requires TriedOk(s, c, ks + rest)
      ensures TriedOk(s, c, rest)
    {
      assert forall k :: k in rest ==> k in ks + rest;
    }

    // the members in their order
    method TryMembers(c: nat) returns (r: Option<nat>)
      requires Valid() && c in groups.members && c < |table|
      requires TriedOk(Sys(), c, MemberCandidates(groups.members[c]))
      modifies this`valid, this`cells
      ensures Valid() && (Mem(), r) == PickFrom(Sys(), old(Mem()), c, MemberCandidates(groups.members[c]))
      decreases Left(), 8, 1
    {
      hide SystemOk, Goes, PickFrom, CalcVisible, CalcSyms, DefaultCandidates, TriedOk, CandidateOk, Candidates, Now;
      hide Symbols.ExprOk, PropOk;
      ghost var s, m0 := Sys(), Mem();
      var ms := groups.members[c];
      assert ms[0..] == ms;
      var k := 0;
      while k < |ms|
        invariant 0 <= k <= |ms| && Valid() && m0.valid <= valid
        invariant TriedOk(s, c, MemberCandidates(ms[k..]))
        invariant PickFrom(s, m0, c, MemberCandidates(ms)) == PickFrom(s, Mem(), c, MemberCandidates(ms[k..]))
      {
        assert MemberCandidates(ms[k..]) == [Candidate(None, ms[k])] + MemberCandidates(ms[k + 1..]);
        var shown := TryCandidate(c, Candidate(None, ms[k]), MemberCandidates(ms[k + 1..]));
        if shown {
          return Some(ms[k]);
        }
        k := k + 1;
      }
      NoCandidate(s, Mem(), c);
      assert MemberCandidates(ms[k..]) == [];
      r := None;
    }

    lemma NoCandidate(s: System, mem: Memory, c: nat)
      requires MemoryOk(s, mem)
      ensures TriedOk(s, c, []) && PickFrom(s, mem, c, []) == (mem, None)
    {
    }

    // the end of sym_calc_value
    method CalcLast(i: nat, newval: Value)
      requires Valid() && i in valid && i < |table|
      modifies this`valid, this`cells
      ensures Valid() && Mem() == Calculation.CalcLast(Sys(), old(Mem()), i, newval)
      decreases Left(), 10
    {
      if i in groups.members {
        CandidatesOk(Sys(), i);
      }
      hide SystemOk, Goes, Candidates, Calculation.CalcRange;
      cells := cells[i := cells[i].(curr := newval)];
      if i in groups.members && newval.tri == YES {
        var pick := CalcChoice(i);
        cells := cells[i := cells[i].(curr := Value(if pick.None? then NO else YES, newval.raw, pick))];
      } else {
        var raw := ValidateRange(i, newval.raw);
        cells := cells[i := cells[i].(curr := newval.(raw := raw))];
      }
    }

    /** sym_calc_value. A symbol is marked VALID before anything it depends on is looked at,
        so the recursion ends on every table, cyclic or not. */
    method CalcValue(i: nat)
      requires Valid() && i < |table|
      modifies this`valid, this`cells
      ensures Valid() && Mem() == Calculation.CalcValue(Sys(), old(Mem()), i)
      decreases Left(), 2
    {
      hide SystemOk, Goes, Calculation.CalcOwn, CalcVisible, Calculation.CalcLast;
      if i in valid {
        return;
      }
      ghost var s, m0 := Sys(), Mem();
      valid := valid + {i};
      if table[i].ty == Unknown {
        cells := cells[i := cells[i].(curr := Value(NO, table[i].name, None))];
        return;
      }
      CalcVisibility(i);
      // what a recursive reference to the symbol would see
      cells := cells[i := cells[i].(curr := Empty(table[i].ty))];
      var newval := CalcOwn(i);
      CalcLast(i, newval);
      assert Mem() == Calculation.CalcTyped(s, m0.(valid := m0.valid + {i}), i);
    }

    // ---------- between calculations ----------

    // for tables that can be evaluated upwards, a numbering
    ghost const rank: Option<seq<nat>>
    // under which user's values every symbol was calculated
    ghost var hist: seq<System>

    /** Every state between calculations: on a table that can be evaluated upwards every VALID
        symbol is right, whatever is still to be calculated. */
    ghost predicate Consistent()
      reads this
    {
      Valid() && ConsistentIn(Sys(), rank, hist, Mem())
    }

    /** And right under the user's values of now. */
    ghost predicate UpToDate()
      reads this
    {
      UpToDateIn(Sys(), rank, Mem())
    }

    /** On every table, if no member has a default: a member that is calculated and at y is the
        one that its choice has chosen. */
    ghost predicate OneEach()
      reads this
    {
      OneEachIn(Sys(), Mem())
    }

    /** Nothing is calculated yet. `r` numbers an acyclic table upwards; for a table that is
        not known to be acyclic there is none. */
    constructor (s: System, ghost r: Option<seq<nat>>)
      requires SystemOk(s) && (r.Some? ==> Ranked(s.table, s.groups, r.value) && MembersGuarded(s.table, s.groups))
      ensures Consistent() && UpToDate() && valid == {} && Sys() == s && rank == r
      ensures Fresh() && OneEach()
    {
      table, groups, modules, user, picks := s.table, s.groups, s.modules, s.user, s.picks;
      valid, cells := {}, seq(|s.table|, i => Cell(Value(NO, "", None), NO, NO));
      rank, hist := r, Same(s);
      new;
      AtMostOne.StartKept(Sys(), Mem());
    }

    // all cells are as the program's memory is at the start
    ghost predicate Fresh()
      reads this
    {
      Mem() == Memory({}, seq(|table|, i => Cell(Value(NO, "", None), NO, NO)))
    }

    /** sym_calc_value, called from outside. */
    method Calc(i: nat)
      requires Consistent() && i < |table|
      modifies this`valid, this`cells
      ensures Consistent() && i in valid && Mem() == Calculation.CalcValue(Sys(), old(Mem()), i)
      ensures old(UpToDate()) ==> UpToDate()
      ensures old(OneEach()) ==> OneEach()
    {
      if OneEach() && GroupsPlain(Sys()) {
        AtMostOne.ValueKeeps(Sys(), Mem(), {}, {}, i);
      }
      if rank.Some? {
        CalcSettles(i, hist);
        if UpToDate() {
          CalcSettles(i, Same(Sys()));
        }
      }
      hide Settled, SystemOk, Goes, Ranked, MembersGuarded, MembersPlain, Calculation.CalcValue, AtMostOne.Kept;
      CalcValue(i);
    }

    lemma CalcSettles(i: nat, h: seq<System>)
      requires Consistent() && rank.Some? && Settled(Sys(), h, Mem(), {}) && i < |table|
      ensures Settled(Sys(), h, Calculation.CalcValue(Sys(), Mem(), i), {})
    {
      hide Settled, SystemOk, Goes, Ranked, MembersGuarded, Calculation.CalcValue;
      assert Choosing(Mem(), {}, None) && BelowAll(rank.value, {}, i);
      ValueSettles(Sys(), h, rank.value, Mem(), {}, i);
    }

    /** Choice exclusivity, in every such state. */
    lemma Exclusive(c: nat)
      requires Consistent() && rank.Some? && MembersPlain(table, groups)
      requires c in groups.members && c in valid && Logical(table[c].ty)
      ensures OnlyChosen(Sys(), c, valid, Currs(Mem()))
    {
      ExclusiveSoFar(Sys(), hist, Mem(), c);
    }

    /** Whatever was calculated, in whatever order, agrees with every solution of the
        equations; on an acyclic table there is exactly one. */
    lemma ValidAgrees(i: nat, vals: Values)
      requires Consistent() && UpToDate() && rank.Some? && i in valid && IsSolution(Sys(), vals)
      ensures cells[i].curr == vals[i]
    {
      AgreesWithSolution(Sys(), rank.value, Mem(), vals);
    }

    // the loop of conf_read over all symbols
    method CalcAll()
      requires Consistent()
      modifies this`valid, this`cells
      ensures Consistent() && forall i :: 0 <= i < |table| ==> i in valid
      ensures old(UpToDate()) ==> UpToDate()
      ensures old(OneEach()) ==> OneEach()
    {
      hide Settled, SystemOk, Goes, Ranked, MembersGuarded, MembersPlain, Calculation.CalcValue, AtMostOne.Kept;
      var i := 0;
      while i < |table|
        invariant 0 <= i <= |table| && Consistent()
        invariant (old(UpToDate()) ==> UpToDate()) && (old(OneEach()) ==> OneEach())
        invariant forall j :: 0 <= j < i ==> j in valid
      {
        ghost var m0 := Mem();
        Calc(i);
        assert Grows(Sys(), m0, Mem());
        i := i + 1;
      }
    }

    // the values of all
    function Values(): (r: Evaluation.Values)
      reads this
      ensures |r| == |cells| && forall i :: 0 <= i < |r| ==> r[i] == cells[i].curr
    {
      Currs(Mem())
    }

    lemma Solved(vals: Evaluation.Values)
      requires Consistent() && UpToDate() && rank.Some? && vals == Values()
      requires forall i :: 0 <= i < |table| ==> i in valid
      ensures IsSolution(Sys(), vals)
    {
      AllIsSolution(Sys(), Mem());
    }

    lemma NoTwo(vals: Evaluation.Values)
      requires Valid() && OneEach() && GroupsPlain(Sys()) && vals == Values()
      requires forall i :: 0 <= i < |table| ==> i in valid
      ensures forall c: nat, m: nat :: InGroup(groups, c, m) && c < |vals| && m < |vals| && vals[m].tri == YES ==>
        vals[c].tri == YES && vals[c].chosen == Some(m)
    {
      forall c: nat, m: nat | InGroup(groups, c, m) && c < |vals| && m < |vals| && vals[m].tri == YES
        ensures vals[c].tri == YES && vals[c].chosen == Some(m)
      {
        AtMostOne.OneAtMost(Sys(), Mem(), c, m);
      }
    }

    // ---------- setting values ----------

    /** sym_clear_all_valid. */
    method ClearAllValid()
      requires Valid() && (rank.Some? ==> Ranked(table, groups, rank.value) && MembersGuarded(table, groups))
      requires Unselected()
      modifies this`valid, this`hist
      ensures Consistent() && UpToDate() && valid == {}
    {
      valid := {};
      hist := Same(Sys());
    }

    ghost predicate Unselected()
      reads this
    {
      rank.Some? ==> forall m :: 0 <= m < |table| && m < |cells| && m in groups.choiceOf ==> cells[m].selected == NO
    }

    /** sym_set_tristate_value. It is accepted if the value is there already or is in range, by
        what was last calculated; what is recorded says AfterSet. If the value differs, all
        symbols are to be calculated again. If not, nothing is cleared, and what was
        calculated under the user's values of before stays so. */
    method SetTristateValue(i: nat, val: Tri) returns (ok: bool)
      requires Consistent() && i < |table|
      modifies this`user, this`picks, this`valid, this`hist
      ensures Consistent() && cells == old(cells)
      ensures ok <==> old(cells[i].curr.tri == val || WithinRange(Sys(), Mem(), i, val))
      ensures Sys() == if ok then AfterSet(old(Sys()), old(Mem()), i, val) else old(Sys())
      ensures valid == if ok && old(cells[i].curr.tri) != val then {} else old(valid)
      ensures old(OneEach()) && (valid == old(valid) || AtMostOne.NoOwnPaths(table, groups)) ==> OneEach()
      ensures old(UpToDate()) && (!ok || old(cells[i].curr.tri) != val) ==> UpToDate()
      ensures rank.Some? && old(UpToDate() && i in valid && cells[i].curr.tri != val) && ok ==>
        Taken(old(Sys()), old(Mem()), Sys(), i, val)
      ensures old(UpToDate() && Ordinary(groups, i) && (i !in valid || Keeps(Sys(), Mem(), i, val))) ==> UpToDate()
    {
      hide AfterSet, Settled, SystemOk, Ranked, MembersGuarded, MembersPlain, Taken, WithinRange, AtMostOne.Kept;
      hide AtMostOne.NoOwnPaths;
      if cells[i].curr.tri == val {
        SetUnchanged(i, val);
        return true;
      }
      if !WithinRange(Sys(), Mem(), i, val) {
        return false;
      }
      SetChanged(i, val);
      ok := true;
    }

    // a value that differs: all is to be calculated again
    method SetChanged(i: nat, val: Tri)
      requires Consistent() && i < |table| && WithinRange(Sys(), Mem(), i, val)
      modifies this`user, this`picks, this`valid, this`hist
      ensures Consistent() && UpToDate() && valid == {}
      ensures Sys() == AfterSet(old(Sys()), old(Mem()), i, val)
      ensures rank.Some? && old(UpToDate() && i in valid) ==> Taken(old(Sys()), old(Mem()), Sys(), i, val)
      ensures old(OneEach()) && (old(valid) == {} || AtMostOne.NoOwnPaths(table, groups)) ==> OneEach()
    {
      ghost var s, mem := Sys(), Mem();
      AfterSetOk(s, mem, i, val);
      SetDiffers(s, rank, hist, mem, i, val);
      hide AfterSet, Settled, SystemOk, Ranked, MembersGuarded, MembersPlain, Taken, WithinRange, AtMostOne.Kept;
      hide AtMostOne.NoOwnPaths;
      RecordUser(i, val);
      valid := {};
      hist := Same(Sys());
    }

    // the value that is there already: nothing is cleared
    method SetUnchanged(i: nat, val: Tri)
      requires Consistent() && i < |table| && cells[i].curr.tri == val
      modifies this`user, this`picks, this`hist
      ensures Consistent() && Sys() == AfterSet(old(Sys()), old(Mem()), i, val)
      ensures old(OneEach()) ==> OneEach()
      ensures old(UpToDate() && Ordinary(groups, i) && (i !in valid || Keeps(Sys(), Mem(), i, val))) ==> UpToDate()
    {
      ghost var s, mem := Sys(), Mem();
      AfterSetOk(s, mem, i, val);
      SetSame(s, rank, hist, mem, i, val);
      hide AfterSet, Settled, SystemOk, Ranked, MembersGuarded, MembersPlain, AtMostOne.Kept;
      RecordUser(i, val);
      hist := Since(hist, mem, Sys());
    }

    // what is recorded as set by the user
    method RecordUser(i: nat, val: Tri)
      requires Valid() && i < |table|
      modifies this`user, this`picks
      ensures Sys() == AfterSet(old(Sys()), Mem(), i, val)
    {
      ghost var s, mem := Sys(), Mem();
      assert |user| == |table| == |cells| && GroupsOk(table, groups);
      hide SystemOk, GroupsOk;
      user := user[i := user[i].(given := true)];
      if i in groups.choiceOf && val == YES {
        GivePick(i);
      }
      user := user[i := user[i].(tri := val)];
      SetsAll(s, mem, i, val, Sys());
    }

    // the member is the one picked
    method GivePick(i: nat)
      requires GroupsOk(table, groups) && |user| == |table| == |cells| && i in groups.choiceOf && i < |table|
      modifies this`user, this`picks
      ensures |user| == |table| && picks == old(picks)[groups.choiceOf[i] := i]
      ensures forall j :: 0 <= j < |user| ==> user[j] == GivenIf(old(user[j]), Sibling(Sys(), Mem(), i, j))
    {
      var c := groups.choiceOf[i];
      MembersInTable(c);
      hide GroupsOk;
      picks := picks[c := i];
      user := user[c := user[c].(given := true)];
      GiveMembers(c);
    }

    lemma MembersInTable(c: nat)
      requires GroupsOk(table, groups) && c in groups.members
      ensures c < |table|
      ensures forall m :: m in groups.members[c] <==> m in groups.choiceOf && groups.choiceOf[m] == c
      ensures forall m :: m in groups.members[c] ==> m < |table|
    {
      forall m | m in groups.members[c]
        ensures m < |table| && m in groups.choiceOf && groups.choiceOf[m] == c
      {
        MemberOk(table, groups, c, m);
      }
    }

    predicate Shows(j: nat)
      reads this
    {
      j < |cells| && cells[j].visible != NO
    }

    // the loop over all members of the choice
    method GiveMembers(c: nat)
      requires c in groups.members && |user| == |table| == |cells|
      requires forall m :: m in groups.members[c] ==> m < |table|
      modifies this`user
      ensures |user| == |table|
      ensures forall j :: 0 <= j < |user| ==> user[j] == GivenIf(old(user[j]), j in groups.members[c] && Shows(j))
    {
      var ms := groups.members[c];
      var k := 0;
      while k < |ms|
        invariant 0 <= k <= |ms| && |user| == |table|
        invariant forall j :: 0 <= j < |user| ==> user[j] == GivenIf(old(user[j]), j in ms[..k] && Shows(j))
      {
        assert ms[..k + 1] == ms[..k] + [ms[k]] && ms[k] in ms;
        if cells[ms[k]].visible != NO {
          user := user[ms[k] := user[ms[k]].(given := true)];
        }
        k := k + 1;
      }
      assert ms[..k] == ms;
    }
  }

  // ---------- states between calculations ----------

  ghost predicate ConsistentIn(s: System, rank: Option<seq<nat>>, hist: seq<System>, mem: Memory) {
    && (rank.Some? ==> Settled(s, hist, mem, {}))
    && (rank.Some? ==> Ranked(s.table, s.groups, rank.value) && MembersGuarded(s.table, s.groups))
  }

  ghost predicate UpToDateIn(s: System, rank: Option<seq<nat>>, mem: Memory) {
    rank.Some? ==> Settled(s, Same(s), mem, {})
  }

  ghost predicate OneEachIn(s: System, mem: Memory) {
    GroupsPlain(s) ==> AtMostOne.Kept(s, mem, {}, {})
  }

  // a value that differs has been recorded, and all is cleared
  lemma SetDiffers(s: System, rank: Option<seq<nat>>, hist: seq<System>, mem: Memory, i: nat, val: Tri)
    requires MemoryOk(s, mem) && ConsistentIn(s, rank, hist, mem) && i < |s.table|
    requires SystemOk(AfterSet(s, mem, i, val)) && WithinRange(s, mem, i, val)
    ensures var s', clear := AfterSet(s, mem, i, val), mem.(valid := {});
      && ConsistentIn(s', rank, Same(s'), clear) && UpToDateIn(s', rank, clear)
      && (OneEachIn(s, mem) && (mem.valid == {} || AtMostOne.NoOwnPaths(s.table, s.groups)) ==> OneEachIn(s', clear))
      && (rank.Some? && UpToDateIn(s, rank, mem) && i in mem.valid ==> Taken(s, mem, s', i, val))
  {
    var s' := AfterSet(s, mem, i, val);
    if GroupsPlain(s) && OneEachIn(s, mem) && (mem.valid == {} || AtMostOne.NoOwnPaths(s.table, s.groups)) {
      AtMostOne.UserKept(s, mem, s', {});
    }
    hide AfterSet, Settled, SystemOk, Ranked, MembersGuarded, MembersPlain, Taken, WithinRange, AtMostOne.Kept;
    assert SameTable(s, s') by { AfterSetOk(s, mem, i, val); }
    if rank.Some? {
      Cleared(s, hist, mem, s');
      if UpToDateIn(s, rank, mem) && i in mem.valid {
        SetTakes(s, rank.value, mem, i, val);
      }
    }
  }

  // the value that is there already has been recorded, and nothing is cleared
  lemma SetSame(s: System, rank: Option<seq<nat>>, hist: seq<System>, mem: Memory, i: nat, val: Tri)
    requires MemoryOk(s, mem) && ConsistentIn(s, rank, hist, mem) && i < |s.table|
    requires SystemOk(AfterSet(s, mem, i, val)) && mem.cells[i].curr.tri == val
    ensures var s' := AfterSet(s, mem, i, val);
      && ConsistentIn(s', rank, Since(hist, mem, s'), mem)
      && (OneEachIn(s, mem) ==> OneEachIn(s', mem))
      && (UpToDateIn(s, rank, mem) && Ordinary(s.groups, i) && (i !in mem.valid || Keeps(s, mem, i, val)) ==>
            UpToDateIn(s', rank, mem))
  {
    var s' := AfterSet(s, mem, i, val);
    if GroupsPlain(s) && OneEachIn(s, mem) {
      AtMostOne.UserKept(s, mem, s', mem.valid);
    }
    hide AfterSet, Settled, SystemOk, Ranked, MembersGuarded, MembersPlain, AtMostOne.Kept;
    assert SameTable(s, s') by { AfterSetOk(s, mem, i, val); }
    if rank.Some? {
      Recorded(s, hist, mem, s');
      if UpToDateIn(s, rank, mem) && Ordinary(s.groups, i) && (i !in mem.valid || Keeps(s, mem, i, val)) {
        KeptUpToDate(s, mem, i, val);
      }
    }
  }

  // a bool or tristate, invisible, or not above both the visibility and what selects it
  predicate Keeps(s: System, mem: Memory, i: nat, val: Tri)
    requires i < |mem.cells| && i < |s.table|
  {
    var cell := mem.cells[i];
    Logical(s.table[i].ty) && (cell.visible == NO || val <= Combine(OrOp, cell.visible, cell.selected))
  }

  // ---------- what setting a value records ----------

  /** sym_tristate_within_range, on what was last calculated. */
  predicate WithinRange(s: System, mem: Memory, i: nat, val: Tri)
    requires i < |s.table| && i < |mem.cells|
  {
    var cell := mem.cells[i];
    var shown := i in s.groups.choiceOf && cell.visible == YES;
    var ty := if s.table[i].ty == Tristate && (shown || s.modules == NO) then Boolean else s.table[i].ty;
    && cell.visible != NO && Logical(ty)
    && !(ty == Boolean && val == MOD)
    && cell.visible > cell.selected
    && if shown then val == YES else cell.selected <= val <= cell.visible
  }

  /** The value, and for a member set to y that it is the one picked: the choice, and members
      that are visible, then count as set by the user too. */
  function AfterSet(s: System, mem: Memory, i: nat, val: Tri): System
    requires MemoryOk(s, mem) && i < |s.table|
  {
    var picked := i in s.groups.choiceOf && val == YES;
    s.(user := seq(|s.user|, j requires 0 <= j < |s.user| =>
         if j == i then UserValue(true, val, s.user[i].raw)
         else if picked && Sibling(s, mem, i, j) then s.user[j].(given := true) else s.user[j]),
       picks := if picked then s.picks[s.groups.choiceOf[i] := i] else s.picks)
  }

  // the choice of the member, and the members that are visible
  predicate Sibling(s: System, mem: Memory, i: nat, j: nat)
    requires i in s.groups.choiceOf && j < |mem.cells|
  {
    var c := s.groups.choiceOf[i];
    j == c || (j in s.groups.choiceOf && s.groups.choiceOf[j] == c && mem.cells[j].visible != NO)
  }

  function GivenIf(u: UserValue, given: bool): UserValue {
    if given then u.(given := true) else u
  }

  lemma AfterSetOk(s: System, mem: Memory, i: nat, val: Tri)
    requires MemoryOk(s, mem) && i < |s.table|
    ensures SystemOk(AfterSet(s, mem, i, val)) && SameTable(s, AfterSet(s, mem, i, val))
  {
  }

  lemma SetsAll(s: System, mem: Memory, i: nat, val: Tri, s': System)
    requires MemoryOk(s, mem) && i < |s.table| && SameTable(s, s') && |s'.user| == |s.user|
    requires s'.picks == AfterSet(s, mem, i, val).picks
    requires forall j :: 0 <= j < |s.user| ==> s'.user[j] == AfterSet(s, mem, i, val).user[j]
    ensures s' == AfterSet(s, mem, i, val)
  {
    assert s'.user == AfterSet(s, mem, i, val).user;
  }

  // with everything to be calculated again
  lemma Cleared(s: System, hist: seq<System>, mem: Memory, s': System)
    requires Settled(s, hist, mem, {}) && SystemOk(s') && SameTable(s, s')
    ensures Settled(s', Same(s'), mem.(valid := {}), {})
  {
  }

  // the users under which symbols were calculated, when there is a new one
  ghost function Since(hist: seq<System>, mem: Memory, s': System): seq<System> {
    seq(|hist|, j requires 0 <= j < |hist| => if j in mem.valid then hist[j] else s')
  }

  lemma Recorded(s: System, hist: seq<System>, mem: Memory, s': System)
    requires Settled(s, hist, mem, {}) && SystemOk(s') && SameTable(s, s')
    ensures Settled(s', Since(hist, mem, s'), mem, {})
  {
    hide ValueOf, Visibility, SelectedIn, SystemOk;
    var h := Since(hist, mem, s');
    forall j, vals | j in mem.valid && Extends(mem, {}, vals)
      ensures RightThen(h, mem, j, vals)
    {
      assert RightThen(hist, mem, j, vals);
    }
  }

  /** Recording the value that a symbol has anyway keeps it right if and only if the symbol is
      invisible or the value is within its visibility or its selects. */
  lemma SameValueKept(s: System, i: nat, u: UserValue, vals: Values)
    requires SystemOk(s) && i < |s.table| == |vals| && Logical(s.table[i].ty) && Ordinary(s.groups, i)
    requires u.given && ValueOf(s, i, vals).tri == u.tri
    ensures var v := ValuationOf(s.table, vals); var vis := Visibility(s.table[i], s.modules, v);
      ValueOf(s.(user := s.user[i := u]), i, vals) == ValueOf(s, i, vals)
      <==> vis == NO || u.tri <= Combine(OrOp, vis, Selected(s.table[i], s.modules, v))
  {
    hide DefaultTri, ValuationOf, Visibility, Selected;
    SettledValues(s.table[i], s.modules, ValuationOf(s.table, vals));
  }

  // no m for booleans
  lemma SettledValues(d: SymDef, modules: Tri, v: Valuation)
    ensures EffectiveType(d.ty, modules) == Boolean ==> Selected(d, modules, v) != MOD
    ensures Visibility(d, modules, v) == MOD ==> EffectiveType(d.ty, modules) == Tristate
  {
  }

  /** So the values remain a solution if and only if that is so. */
  lemma SameValueSettled(s: System, vals: Values, i: nat, u: UserValue)
    requires IsSolution(s, vals) && i < |s.table| && Logical(s.table[i].ty) && Ordinary(s.groups, i)
    requires u.given && vals[i].tri == u.tri
    ensures var v := ValuationOf(s.table, vals); var vis := Visibility(s.table[i], s.modules, v);
      IsSolution(s.(user := s.user[i := u]), vals)
      <==> vis == NO || u.tri <= Combine(OrOp, vis, Selected(s.table[i], s.modules, v))
  {
    var s' := s.(user := s.user[i := u]);
    hide ValueOf, ValuationOf, Visibility, Selected;
    assert vals[i] == ValueOf(s, i, vals);
    SameValueKept(s, i, u, vals);
    forall j | 0 <= j < |s.table| && j != i
      ensures ValueOf(s', j, vals) == vals[j]
    {
      SameUserValue(s, s', j, vals);
    }
    if ValueOf(s', i, vals) == vals[i] {
      assert IsSolution(s', vals);
    }
  }

  // recording it then keeps everything up to date
  lemma KeptUpToDate(s: System, mem: Memory, i: nat, val: Tri)
    requires Settled(s, Same(s), mem, {}) && i < |s.table| && Ordinary(s.groups, i)
    requires mem.cells[i].curr.tri == val && SystemOk(AfterSet(s, mem, i, val))
    requires i in mem.valid ==>
      var c := mem.cells[i]; Logical(s.table[i].ty) && (c.visible == NO || val <= Combine(OrOp, c.visible, c.selected))
    ensures var s' := AfterSet(s, mem, i, val); Settled(s', Same(s'), mem, {})
  {
    var s', u := AfterSet(s, mem, i, val), UserValue(true, val, s.user[i].raw);
    assert s' == s.(user := s.user[i := u]) by {
      assert s'.user == s.user[i := u];
    }
    hide ValueOf, Visibility, SelectedIn, AfterSet;
    forall j, vals | j in mem.valid && Extends(mem, {}, vals)
      ensures RightThen(Same(s'), mem, j, vals)
    {
      assert RightThen(Same(s), mem, j, vals);
      if j == i {
        ShownSelected(s, i, vals);
        SameValueKept(s, i, u, vals);
      } else {
        SameUserValue(s, s', j, vals);
      }
      SameSelected(s, s', j, vals);
    }
  }

  lemma ShownSelected(s: System, i: nat, vals: Values)
    requires i < |s.table| && Ordinary(s.groups, i)
    ensures SelectedIn(s, i, ValuationOf(s.table, vals)) == Selected(s.table[i], s.modules, ValuationOf(s.table, vals))
  {
  }

  lemma SameSelected(s: System, s': System, j: nat, vals: Values)
    requires SameTable(s, s') && j < |s.table|
    ensures SelectedIn(s, j, ValuationOf(s.table, vals)) == SelectedIn(s', j, ValuationOf(s'.table, vals))
  {
  }

  // ---------- what recalculating then gives ----------

  /** In the new solution a symbol has the value set; a member set to y in a choice at y is the
      one chosen; a choice set to y is so if it has a visible member, else n. */
  ghost predicate Taken(s: System, mem: Memory, s': System, i: nat, val: Tri)
    requires MemoryOk(s, mem) && i < |s.table|
  {
    forall vals: Values :: IsSolution(s', vals) && |vals| == |s.table| ==>
      && (Ordinary(s.groups, i) ==> vals[i].tri == val)
      && (i in s.groups.choiceOf && val == YES && ChoiceAtYes(s, mem, i) ==>
            vals[i] == Value(YES, "n", None) && vals[s.groups.choiceOf[i]] == Value(YES, "n", Some(i)))
      && (i in s.groups.members ==>
            var any := AnyVisible(s, i, ValuationOf(s.table, Provisional(vals, i)));
            vals[i].tri == if val == YES && !any then NO else val)
  }

  ghost predicate ChoiceAtYes(s: System, mem: Memory, m: nat)
    requires MemoryOk(s, mem) && m in s.groups.choiceOf
  {
    var c := s.groups.choiceOf[m];
    mem.cells[m].visible == YES && c in mem.valid && mem.cells[c].curr.tri == YES && Logical(s.table[c].ty)
  }

  lemma SetTakes(s: System, rank: seq<nat>, mem: Memory, i: nat, val: Tri)
    requires Settled(s, Same(s), mem, {}) && Ranked(s.table, s.groups, rank) && i in mem.valid && i < |s.table|
    requires WithinRange(s, mem, i, val)
    ensures Taken(s, mem, AfterSet(s, mem, i, val), i, val)
  {
    var s' := AfterSet(s, mem, i, val);
    AfterSetOk(s, mem, i, val);
    forall vals: Values | IsSolution(s', vals) && |vals| == |s.table|
      ensures Ordinary(s.groups, i) ==> vals[i].tri == val
      ensures i in s.groups.choiceOf && val == YES && ChoiceAtYes(s, mem, i) ==>
        vals[i] == Value(YES, "n", None) && vals[s.groups.choiceOf[i]] == Value(YES, "n", Some(i))
      ensures i in s.groups.members ==>
        var any := AnyVisible(s, i, ValuationOf(s.table, Provisional(vals, i)));
        vals[i].tri == if val == YES && !any then NO else val
    {
      var was := Solution(s, rank);
      SolutionOfMemory(s, rank, mem, was, i);
      if i in s.groups.choiceOf {
        if val == YES && ChoiceAtYes(s, mem, i) {
          TakenMember(s, rank, mem, was, vals, i);
        }
      } else {
        TakenOther(s, rank, mem, was, vals, i, val);
      }
    }
  }

  // what is up to date is the solution
  lemma SolutionOfMemory(s: System, rank: seq<nat>, mem: Memory, vals: Values, i: nat)
    requires Settled(s, Same(s), mem, {}) && Ranked(s.table, s.groups, rank) && IsSolution(s, vals)
    requires i in mem.valid && i < |s.table|
    ensures forall j :: j in mem.valid ==> mem.cells[j].curr == vals[j]
    ensures s.table[i].ty != Unknown ==>
      var v := ValuationOf(s.table, vals);
      && mem.cells[i].visible == Visibility(s.table[i], s.modules, v)
      && mem.cells[i].selected == SelectedIn(s, i, v)
  {
    hide ValueOf, Visibility, SelectedIn;
    AgreesWithSolution(s, rank, mem, vals);
    assert Extends(mem, {}, vals);
    assert RightThen(Same(s), mem, i, vals);
  }

  lemma TakenMember(s: System, rank: seq<nat>, mem: Memory, was: Values, vals: Values, m: nat)
    requires MemoryOk(s, mem) && m in s.groups.choiceOf && m < |s.table| && ChoiceAtYes(s, mem, m)
    requires Ranked(s.table, s.groups, rank) && IsSolution(s, was) && WithinRange(s, mem, m, YES)
    requires IsSolution(AfterSet(s, mem, m, YES), vals)
    requires mem.cells[s.groups.choiceOf[m]].curr == was[s.groups.choiceOf[m]]
    requires s.table[m].ty != Unknown ==>
      mem.cells[m].visible == Visibility(s.table[m], s.modules, ValuationOf(s.table, was))
    ensures vals[m] == Value(YES, "n", None) && vals[s.groups.choiceOf[m]] == Value(YES, "n", Some(m))
  {
    var c, s' := s.groups.choiceOf[m], AfterSet(s, mem, m, YES);
    assert InGroup(s.groups, c, m) && c != m && Logical(s.table[m].ty);
    AboveChoice(s, rank, mem, m);
    hide Visibility, ValueOf, ValuationOf, Ranked;
    MemberTakes(s, s', rank, was, vals, c, m);
  }

  // setting a member touches nothing below its choice
  lemma AboveChoice(s: System, rank: seq<nat>, mem: Memory, m: nat)
    requires MemoryOk(s, mem) && Ranked(s.table, s.groups, rank) && m in s.groups.choiceOf && m < |s.table|
    ensures var c, s' := s.groups.choiceOf[m], AfterSet(s, mem, m, YES);
      && c < |s.table| && |s'.user| == |s.table|
      && forall j :: 0 <= j < |s.table| && rank[j] < rank[c] ==> SameUser(s, s', j)
  {
    var c := s.groups.choiceOf[m];
    assert forall j :: j in s.groups.choiceOf && s.groups.choiceOf[j] == c && j < |s.table| ==>
      Reads(s.table, s.groups, j, c) && rank[c] < rank[j];
  }

  lemma TakenOther(s: System, rank: seq<nat>, mem: Memory, was: Values, vals: Values, i: nat, val: Tri)
    requires MemoryOk(s, mem) && i !in s.groups.choiceOf && i < |s.table| && WithinRange(s, mem, i, val)
    requires Ranked(s.table, s.groups, rank) && IsSolution(s, was) && IsSolution(AfterSet(s, mem, i, val), vals)
    requires s.table[i].ty != Unknown ==>
      var v := ValuationOf(s.table, was);
      && mem.cells[i].visible == Visibility(s.table[i], s.modules, v)
      && mem.cells[i].selected == SelectedIn(s, i, v)
    ensures i !in s.groups.members ==> vals[i].tri == val
    ensures i in s.groups.members ==>
      var any := AnyVisible(s, i, ValuationOf(s.table, Provisional(vals, i)));
      vals[i].tri == if val == YES && !any then NO else val
  {
    var s', u := AfterSet(s, mem, i, val), UserValue(true, val, s.user[i].raw);
    assert s' == s.(user := s.user[i := u]) by {
      assert s'.user == s.user[i := u];
    }
    hide Visibility, ValueOf, ValuationOf, Selected, AfterSet, AnyVisible;
    if i in s.groups.members {
      ChoiceTakes(s, rank, was, i, u, vals);
      AnyVisibleAgain(s, s', rank, was, vals, i);
    } else {
      UserValueSticksIff(s, rank, was, i, u, vals);
    }
  }

  // whether a member is visible does not depend on the choice's own user
  lemma AnyVisibleAgain(s: System, s': System, rank: seq<nat>, vals: Values, vals': Values, c: nat)
    requires IsSolution(s, vals) && IsSolution(s', vals') && SameTable(s, s') && Ranked(s.table, s.groups, rank)
    requires c in s.groups.members && c < |s.table|
    requires forall j :: 0 <= j < |s.table| && j != c ==> SameUser(s, s', j)
    ensures AnyVisible(s, c, ValuationOf(s.table, Provisional(vals, c)))
       <==> AnyVisible(s, c, ValuationOf(s.table, Provisional(vals', c)))
  {
    hide Visibility, ValueOf, ValuationOf, Selected;
    BelowChoice(s, s', rank, vals, vals', c);
  }
}
