/** What the value of every symbol is, as equations: each symbol's value is given by the
    values of the symbols its properties mention (package/config/symbol.c). A solution of
    all equations at once is what the memoising evaluator has to find. The value of the
    modules symbol is fixed. */
module Evaluation {
  import opened Wrappers
  import opened Exprs
  import opened Graphs
  import opened Symbols
  import opened Numbers

  /** symbol.curr: the tristate value and what is stored with it, which for a choice at y is
      the chosen member, for a bool or tristate otherwise the string of symbol_no. */
  datatype Value = Value(tri: Tri, raw: string, chosen: Option<nat>)

  /** symbol.def[S_DEF_USER] and its flag. */
  datatype UserValue = UserValue(given: bool, tri: Tri, raw: string)

  type Values = seq<Value>

  /** Everything that values depend on. `picks` are the members that the user has picked. */
  datatype System = System(table: Table, groups: Groups, modules: Tri, user: seq<UserValue>, picks: map<nat, nat>)

  // a choice is a bool or tristate, and its defaults are members of it
  ghost predicate ChoicesOk(t: Table, gs: Groups) {
    forall c :: c in gs.members && c < |t| ==>
      && (Logical(t[c].ty) || t[c].ty == Unknown)
      && forall p :: p in t[c].props && p.Default? ==>
           p.value.Symbol? && p.value.sym.Config? && InGroup(gs, c, p.value.sym.id)
  }

  ghost predicate SystemOk(s: System) {
    && TableOk(s.table) && GroupsOk(s.table, s.groups) && ChoicesOk(s.table, s.groups)
    && |s.user| == |s.table|
    && forall c :: c in s.picks ==> InGroup(s.groups, c, s.picks[c])
  }

  predicate Logical(ty: SymType) {
    ty == Boolean || ty == Tristate
  }

  // sym_get_string_value
  function StringOf(ty: SymType, val: Value): string {
    if Logical(ty) then TriString(val.tri) else val.raw
  }

  function SymTri(t: Table, vals: Values, s: Sym): Tri {
    match s
    case SymYes => YES
    case SymMod => MOD
    case SymNo => NO
    case Const(_) => NO
    case Config(i, _) => if i < |vals| && SymOk(t, s) then vals[i].tri else NO
  }

  function SymString(t: Table, vals: Values, s: Sym): string {
    match s
    case SymYes => "y"
    case SymMod => "m"
    case SymNo => "n"
    case Const(c) => c
    case Config(i, ty) => StringOf(ty, if i < |vals| && SymOk(t, s) then vals[i] else Value(NO, "", None))
  }

  function ValuationOf(t: Table, vals: Values): Valuation {
    Valuation((s: Sym) => SymTri(t, vals, s), (s: Sym) => SymString(t, vals, s))
  }

  // symbol.curr.val, which for booleans and tristates stays that of symbol_no
  function RawOf(s: Sym, v: Valuation): string {
    if Logical(TypeOf(s)) then "n" else v.str(s)
  }

  // ---------- the equations ----------

  // sym_get_type, but for choice values that are visible
  function EffectiveType(ty: SymType, modules: Tri): SymType {
    if ty == Tristate && modules == NO then Boolean else ty
  }

  // m is no value of a boolean
  function Promote(d: SymDef, modules: Tri, tri: Tri): Tri {
    if tri == MOD && EffectiveType(d.ty, modules) == Boolean then YES else tri
  }

  function PromptMax(props: seq<Property>, v: Valuation): Tri {
    if props == [] then NO else
    var last := props[|props| - 1];
    var rest := PromptMax(props[..|props| - 1], v);
    if last.Prompt? then Combine(OrOp, rest, EvalOpt(last.cond, v)) else rest
  }

  function Visibility(d: SymDef, modules: Tri, v: Valuation): Tri {
    var tri := PromptMax(d.props, v);
    if tri == MOD && (d.ty != Tristate || modules == NO) then YES else tri
  }

  function Selected(d: SymDef, modules: Tri, v: Valuation): Tri {
    Promote(d, modules, if d.revDep.None? then NO else Eval(d.revDep.value, v))
  }

  // rev_dep is not looked at for the members of a choice
  function SelectedIn(s: System, i: nat, v: Valuation): Tri
    requires i < |s.table|
  {
    if i in s.groups.choiceOf then NO else Selected(s.table[i], s.modules, v)
  }

  // the defaults, or the ranges, among the properties
  function Defaults(props: seq<Property>): (ps: seq<Property>)
    ensures forall p :: p in ps ==> p in props && p.Default?
  {
    if props == [] then [] else (if props[0].Default? then [props[0]] else []) + Defaults(props[1..])
  }

  function Ranges(props: seq<Property>): (ps: seq<Property>)
    ensures forall p :: p in ps ==> p in props && p.Range?
  {
    if props == [] then [] else (if props[0].Range? then [props[0]] else []) + Ranges(props[1..])
  }

  // the first whose condition is met
  function FirstMet(ps: seq<Property>, v: Valuation): (r: Option<Property>)
    ensures r.Some? ==> r.value in ps && EvalOpt(r.value.cond, v) != NO
  {
    if ps == [] then None else if EvalOpt(ps[0].cond, v) != NO then Some(ps[0]) else FirstMet(ps[1..], v)
  }

  function FirstDefault(d: SymDef, v: Valuation): (r: Option<Property>)
    ensures r.Some? ==> r.value.Default? && r.value in d.props
  {
    FirstMet(Defaults(d.props), v)
  }

  function FirstRange(d: SymDef, v: Valuation): (r: Option<Property>)
    ensures r.Some? ==> r.value.Range? && r.value in d.props
  {
    FirstMet(Ranges(d.props), v)
  }

  // a default counts for no more than its condition
  function DefaultTri(d: SymDef, v: Valuation): Tri {
    var p := FirstDefault(d, v);
    if p.None? then NO else Combine(AndOp, Eval(p.value.value, v), EvalOpt(p.value.cond, v))
  }

  function UserTri(user: UserValue, visible: Tri, otherwise: Tri): Tri {
    if visible != NO && user.given then Combine(AndOp, user.tri, visible) else otherwise
  }

  function TriValue(s: System, i: nat, v: Valuation): Tri
    requires i < |s.table| == |s.user|
  {
    var d := s.table[i];
    var own := UserTri(s.user[i], Visibility(d, s.modules, v), if i in s.groups.members then NO else DefaultTri(d, v));
    Promote(d, s.modules, Combine(OrOp, own, SelectedIn(s, i, v)))
  }

  // prop_get_symbol: a default that is no plain symbol gives no string
  function RawDefault(e: Expr, v: Valuation): string {
    if e.Symbol? then RawOf(e.sym, v) else ""
  }

  function BaseOf(ty: SymType): nat {
    if ty == Hex then 16 else 10
  }

  // sym_get_range_val: the operand's own type decides how its string is read
  function RangeOperand(s: Sym, base: nat, v: Valuation): CInt {
    ParseInt(RawOf(s, v), if TypeOf(s) == Int then 10 else if TypeOf(s) == Hex then 16 else base)
  }

  // sym_validate_range
  function Clamp(d: SymDef, raw: string, v: Valuation): string {
    if d.ty != Int && d.ty != Hex then raw else
    var base := BaseOf(d.ty);
    var p := FirstRange(d, v);
    if p.None? then raw else
    var lo, hi := RangeOperand(p.value.lo, base, v), RangeOperand(p.value.hi, base, v);
    var val := ParseInt(raw, base);
    if val < lo then FormatInt(lo, base) else if val <= hi then raw else FormatInt(hi, base)
  }

  // the string before the range is applied
  function OwnRaw(d: SymDef, user: UserValue, modules: Tri, v: Valuation): string {
    if Visibility(d, modules, v) != NO && user.given then user.raw
    else
      var p := FirstDefault(d, v);
      if p.None? then "" else RawDefault(p.value.value, v)
  }

  // ---------- the equation of a choice ----------

  /** What sym_calc_choice tries, one after the other. */
  datatype Candidate = Candidate(cond: Option<Expr>, member: nat)

  function DefaultCandidates(ps: seq<Property>): (cs: seq<Candidate>)
    ensures forall k :: k in cs ==> exists p ::
      p in ps && p.Default? && p.cond == k.cond && p.value.Symbol? && p.value.sym.Config? && p.value.sym.id == k.member
  {
    if ps == [] then []
    else if ps[0].Default? && ps[0].value.Symbol? && ps[0].value.sym.Config?
    then [Candidate(ps[0].cond, ps[0].value.sym.id)] + DefaultCandidates(ps[1..])
    else DefaultCandidates(ps[1..])
  }

  function MemberCandidates(ms: seq<nat>): (cs: seq<Candidate>)
    ensures |cs| == |ms| && forall k :: 0 <= k < |ms| ==> cs[k] == Candidate(None, ms[k])
  {
    seq(|ms|, k requires 0 <= k < |ms| => Candidate(None, ms[k]))
  }

  /** The user's member, then the defaults, then all members. */
  function Candidates(s: System, c: nat): seq<Candidate>
    requires c < |s.table| && c in s.groups.members
  {
    (if c in s.picks then [Candidate(None, s.picks[c])] else [])
    + DefaultCandidates(s.table[c].props) + MemberCandidates(s.groups.members[c])
  }

  // the first that is visible, under a condition that is met
  function FirstVisible(s: System, cs: seq<Candidate>, v: Valuation): (r: Option<nat>)
    requires forall k :: k in cs ==> k.member < |s.table|
    ensures r.Some? ==> r.value < |s.table| && Visibility(s.table[r.value], s.modules, v) != NO && exists k ::
      k in cs && k.member == r.value
  {
    if cs == [] then None
    else if EvalOpt(cs[0].cond, v) != NO && Visibility(s.table[cs[0].member], s.modules,
      v) != NO then Some(cs[0].member)
    else FirstVisible(s, cs[1..], v)
  }

  lemma CandidatesAreMembers(s: System, c: nat)
    requires SystemOk(s) && c in s.groups.members
    ensures c < |s.table|
    ensures forall k :: k in Candidates(s, c) ==> InGroup(s.groups, c, k.member) && k.member < |s.table|
  {
    forall k | k in Candidates(s, c)
      ensures InGroup(s.groups, c, k.member) && k.member < |s.table|
    {
      var ms := s.groups.members[c];
      if k in MemberCandidates(ms) {
        var n :| 0 <= n < |ms| && MemberCandidates(ms)[n] == k;
        assert ms[n] in ms;
        assert InGroup(s.groups, c, k.member);
      } else if k in DefaultCandidates(s.table[c].props) {
        var p :| p in s.table[c].props && p.Default? && p.value.Symbol? && p.value.sym.Config? &&
          p.value.sym.id == k.member;
      }
      MemberOk(s.table, s.groups, c, k.member);
    }
  }

  // the state in which members are looked at
  function Provisional(vals: Values, c: nat): Values {
    if c < |vals| then vals[c := Value(YES, "n", None)] else vals
  }

  function ChoiceValue(s: System, c: nat, vals: Values): Value
    requires SystemOk(s) && c in s.groups.members && |vals| == |s.table|
  {
    CandidatesAreMembers(s, c);
    var tri := TriValue(s, c, ValuationOf(s.table, vals));
    if tri != YES then Value(tri, "n", None)
    else
      var pick := FirstVisible(s, Candidates(s, c), ValuationOf(s.table, Provisional(vals, c)));
      Value(if pick.None? then NO else YES, "n", pick)
  }

  /** The value of one symbol, given the values of all. */
  function ValueOf(s: System, i: nat, vals: Values): Value
    requires SystemOk(s) && i < |s.table| == |vals|
  {
    var d, v := s.table[i], ValuationOf(s.table, vals);
    if d.ty == Unknown then Value(NO, d.name, None)
    else if !Logical(d.ty) then Value(NO, Clamp(d, OwnRaw(d, s.user[i], s.modules, v), v), None)
    else if i in s.groups.members then ChoiceValue(s, i, vals)
    else if i in s.groups.choiceOf && Visibility(d, s.modules, v) == YES then
      Value(if vals[s.groups.choiceOf[i]].chosen == Some(i) then YES else NO, "n", None)
    else Value(TriValue(s, i, v), "n", None)
  }

  ghost predicate IsSolution(s: System, vals: Values) {
    && SystemOk(s) && |vals| == |s.table|
    && forall i :: 0 <= i < |s.table| ==> vals[i] == ValueOf(s, i, vals)
  }

  // ---------- which symbols the equation of a symbol mentions ----------

  /** As followed by the dependency check, plus the operands of ranges. */
  function ReadRefs(p: Property, choice: bool): set<nat> {
    FollowedRefs(p, choice) + if p.Range? then SymRefs(p.lo) + SymRefs(p.hi) else {}
  }

  ghost predicate Mentions(t: Table, gs: Groups, i: nat, j: nat) {
    i < |t| && (j in OptRefs(t[i].revDep) || exists p :: p in t[i].props && j in ReadRefs(p, i in gs.members))
  }

  /** A member reads its choice, and a choice what its members mention, but for itself. */
  ghost predicate Reads(t: Table, gs: Groups, i: nat, j: nat) {
    || Mentions(t, gs, i, j)
    || (i in gs.choiceOf && j == gs.choiceOf[i])
    || (j != i && exists m :: InGroup(gs, i, m) && Mentions(t, gs, m, j))
  }

  /** An acyclic table: every symbol is numbered above all it reads. */
  ghost predicate Ranked(t: Table, gs: Groups, rank: seq<nat>) {
    && |rank| == |t| && TableOk(t) && GroupsOk(t, gs)
    && forall i: nat, j: nat :: i < |t| && j < |t| && Reads(t, gs, i, j) ==> rank[j] < rank[i]
  }

  // the two states agree on the given symbols
  ghost predicate Agree(refs: set<nat>, v: Valuation, w: Valuation) {
    && (forall s: Sym :: SymRefs(s) <= refs ==> v.tri(s) == w.tri(s) && v.str(s) == w.str(s))
  }

  lemma {:induction false} EvalAgrees(e: Expr, refs: set<nat>, v: Valuation, w: Valuation)
    requires Agree(refs, v, w) && ExprRefs(e) <= refs
    ensures Eval(e, v) == Eval(e, w)
  {
    match e
    case Not(a) => EvalAgrees(a, refs, v, w);
    case Bin(_, l, r) => EvalAgrees(l, refs, v, w); EvalAgrees(r, refs, v, w);
    case _ =>
  }

  lemma OptAgrees(e: Option<Expr>, refs: set<nat>, v: Valuation, w: Valuation)
    requires Agree(refs, v, w) && OptRefs(e) <= refs
    ensures EvalOpt(e, v) == EvalOpt(e, w)
  {
    if e.Some? {
      EvalAgrees(e.value, refs, v, w);
    }
  }

  ghost predicate PromptsWithin(props: seq<Property>, refs: set<nat>) {
    forall p :: p in props && p.Prompt? ==> OptRefs(p.cond) <= refs
  }

  lemma {:induction false} PromptsAgree(props: seq<Property>, refs: set<nat>, v: Valuation, w: Valuation)
    requires Agree(refs, v, w) && PromptsWithin(props, refs)
    ensures PromptMax(props, v) == PromptMax(props, w)
  {
    if props != [] {
      var last := props[|props| - 1];
      assert last in props;
      PromptsAgree(props[..|props| - 1], refs, v, w);
      if last.Prompt? {
        OptAgrees(last.cond, refs, v, w);
      }
    }
  }

  lemma {:induction false} FirstMetAgrees(ps: seq<Property>, refs: set<nat>, v: Valuation, w: Valuation)
    requires Agree(refs, v, w) && forall p :: p in ps ==> OptRefs(p.cond) <= refs
    ensures FirstMet(ps, v) == FirstMet(ps, w)
  {
    if ps != [] {
      assert ps[0] in ps;
      OptAgrees(ps[0].cond, refs, v, w);
      FirstMetAgrees(ps[1..], refs, v, w);
    }
  }

  ghost predicate DefWithin(d: SymDef, choice: bool, refs: set<nat>) {
    OptRefs(d.revDep) <= refs && forall p :: p in d.props ==> ReadRefs(p, choice) <= refs
  }

  lemma DefPartsWithin(d: SymDef, choice: bool, refs: set<nat>)
    requires DefWithin(d, choice, refs)
    ensures PromptsWithin(d.props, refs)
    ensures forall p :: p in Defaults(d.props) ==> OptRefs(p.cond) <= refs && (!choice ==> ExprRefs(p.value) <= refs)
    ensures forall p :: p in Ranges(d.props) ==>
      OptRefs(p.cond) <= refs && SymRefs(p.lo) <= refs && SymRefs(p.hi) <= refs
  {
    forall p | p in d.props
      ensures !p.Select? ==> OptRefs(p.cond) <= refs
      ensures p.Default? && !choice ==> ExprRefs(p.value) <= refs
      ensures p.Range? ==> SymRefs(p.lo) <= refs && SymRefs(p.hi) <= refs
    {
      assert ReadRefs(p, choice) <= refs;
    }
  }

  lemma SelectedAgrees(d: SymDef, modules: Tri, choice: bool, refs: set<nat>, v: Valuation, w: Valuation)
    requires Agree(refs, v, w) && DefWithin(d, choice, refs)
    ensures Selected(d, modules, v) == Selected(d, modules, w)
    ensures Visibility(d, modules, v) == Visibility(d, modules, w)
  {
    DefPartsWithin(d, choice, refs);
    OptAgrees(d.revDep, refs, v, w);
    PromptsAgree(d.props, refs, v, w);
  }

  lemma DefaultAgrees(d: SymDef, refs: set<nat>, v: Valuation, w: Valuation)
    requires Agree(refs, v, w) && DefWithin(d, false, refs)
    ensures FirstDefault(d, v) == FirstDefault(d, w)
    ensures DefaultTri(d, v) == DefaultTri(d, w)
    ensures var p := FirstDefault(d, v); p.Some? ==> RawDefault(p.value.value, v) == RawDefault(p.value.value, w)
  {
    DefPartsWithin(d, false, refs);
    FirstMetAgrees(Defaults(d.props), refs, v, w);
    var p := FirstDefault(d, v);
    if p.Some? {
      EvalAgrees(p.value.value, refs, v, w);
      OptAgrees(p.value.cond, refs, v, w);
    }
  }

  lemma ClampAgrees(d: SymDef, raw: string, choice: bool, refs: set<nat>, v: Valuation, w: Valuation)
    requires Agree(refs, v, w) && DefWithin(d, choice, refs)
    ensures Clamp(d, raw, v) == Clamp(d, raw, w)
  {
    DefPartsWithin(d, choice, refs);
    FirstMetAgrees(Ranges(d.props), refs, v, w);
  }

  lemma {:induction false} FirstVisibleAgrees(s: System, cs: seq<Candidate>, refs: set<nat>, v: Valuation, w: Valuation)
    requires forall k :: k in cs ==> k.member < |s.table|
    requires Agree(refs, v, w) && forall k :: k in cs ==>
      OptRefs(k.cond) <= refs && DefWithin(s.table[k.member], false, refs)
    ensures FirstVisible(s, cs, v) == FirstVisible(s, cs, w)
  {
    hide Visibility;
    if cs != [] {
      assert cs[0] in cs;
      OptAgrees(cs[0].cond, refs, v, w);
      SelectedAgrees(s.table[cs[0].member], s.modules, false, refs, v, w);
      FirstVisibleAgrees(s, cs[1..], refs, v, w);
    }
  }

  ghost predicate SameOn(vals: Values, vals': Values, refs: set<nat>) {
    |vals| == |vals'| && forall j :: j in refs && j < |vals| ==> vals[j] == vals'[j]
  }

  lemma SameAgree(t: Table, vals: Values, vals': Values, refs: set<nat>)
    requires SameOn(vals, vals', refs)
    ensures Agree(refs, ValuationOf(t, vals), ValuationOf(t, vals'))
  {
    forall s: Sym | SymRefs(s) <= refs
      ensures SymTri(t, vals, s) == SymTri(t, vals', s) && SymString(t, vals, s) == SymString(t, vals', s)
    {
      if s.Config? {
        assert s.id in SymRefs(s);
      }
    }
  }

  // the equation of a symbol mentions no others
  ghost predicate ValueWithin(s: System, i: nat, refs: set<nat>)
    requires SystemOk(s) && i < |s.table|
  {
    && DefWithin(s.table[i], i in s.groups.members, refs)
    && (i in s.groups.choiceOf ==> s.groups.choiceOf[i] in refs)
    && forall m: nat :: InGroup(s.groups, i, m) && m < |s.table| ==> DefWithin(s.table[m], false, refs + {i})
  }

  lemma CandidatesWithin(s: System, c: nat, refs: set<nat>)
    requires SystemOk(s) && c in s.groups.members && ValueWithin(s, c, refs)
    ensures forall k :: k in Candidates(s, c) ==>
      k.member < |s.table| && OptRefs(k.cond) <= refs && DefWithin(s.table[k.member], false, refs + {c})
  {
    CandidatesAreMembers(s, c);
    forall k | k in Candidates(s, c)
      ensures OptRefs(k.cond) <= refs
    {
      if k in DefaultCandidates(s.table[c].props) {
        var p :| p in s.table[c].props && p.Default? && p.cond == k.cond;
        assert ReadRefs(p, true) <= refs;
      }
    }
  }

  lemma ChoiceAgrees(s: System, c: nat, refs: set<nat>, vals: Values, vals': Values)
    requires SystemOk(s) && c in s.groups.members && |vals| == |s.table|
    requires SameOn(vals, vals', refs) && ValueWithin(s, c, refs)
    ensures ChoiceValue(s, c, vals) == ChoiceValue(s, c, vals')
  {
    hide Visibility, Selected, DefaultTri, FirstVisible, ValuationOf, Candidates;
    var v, w := ValuationOf(s.table, vals), ValuationOf(s.table, vals');
    SameAgree(s.table, vals, vals', refs);
    SelectedAgrees(s.table[c], s.modules, true, refs, v, w);
    var p, p' := Provisional(vals, c), Provisional(vals', c);
    SameAgree(s.table, p, p', refs + {c});
    CandidatesWithin(s, c, refs);
    FirstVisibleAgrees(s, Candidates(s, c), refs + {c}, ValuationOf(s.table, p), ValuationOf(s.table, p'));
  }

  /** The equation of a symbol depends on nothing but the symbols it mentions. */
  lemma ValueAgrees(s: System, i: nat, refs: set<nat>, vals: Values, vals': Values)
    requires SystemOk(s) && i < |s.table| == |vals|
    requires SameOn(vals, vals', refs) && ValueWithin(s, i, refs)
    ensures ValueOf(s, i, vals) == ValueOf(s, i, vals')
  {
    hide Visibility, Selected, Clamp, FirstDefault, DefaultTri, RawDefault, ChoiceValue, ValuationOf;
    var d, v, w := s.table[i], ValuationOf(s.table, vals), ValuationOf(s.table, vals');
    SameAgree(s.table, vals, vals', refs);
    SelectedAgrees(d, s.modules, i in s.groups.members, refs, v, w);
    if i in s.groups.members && Logical(d.ty) {
      ChoiceAgrees(s, i, refs, vals, vals');
    } else if i !in s.groups.members {
      DefaultAgrees(d, refs, v, w);
      ClampAgrees(d, OwnRaw(d, s.user[i], s.modules, v), false, refs, v, w);
    }
  }

  // ---------- existence and uniqueness ----------

  // the symbols of smaller rank
  ghost function Lower(rank: seq<nat>, n: nat): set<nat> {
    set j | j in Below(|rank|) && rank[j] < n
  }

  lemma WithinLower(s: System, rank: seq<nat>, i: nat)
    requires SystemOk(s) && Ranked(s.table, s.groups, rank) && i < |s.table|
    ensures ValueWithin(s, i, Lower(rank, rank[i]))
  {
    var t, gs, refs := s.table, s.groups, Lower(rank, rank[i]);
    MentionsWithin(t, gs, i, refs);
    if i in gs.members {
      forall m: nat | InGroup(gs, i, m) && m < |t|
        ensures DefWithin(t[m], false, refs + {i})
      {
        MemberOk(t, gs, i, m);
        MentionsWithin(t, gs, m, refs + {i});
      }
    }
    if i in gs.choiceOf {
      assert Reads(t, gs, i, gs.choiceOf[i]);
    }
  }

  // what a symbol mentions is within any set that has all of it
  lemma MentionsWithin(t: Table, gs: Groups, i: nat, refs: set<nat>)
    requires TableOk(t) && i < |t|
    requires forall j: nat :: j < |t| && Mentions(t, gs, i, j) ==> j in refs
    ensures DefWithin(t[i], i in gs.members, refs)
  {
    forall j | j in OptRefs(t[i].revDep)
      ensures j in refs
    {
      ExprRefsOk(t, t[i].revDep.value);
      assert Mentions(t, gs, i, j);
    }
    forall p | p in t[i].props
      ensures ReadRefs(p, i in gs.members) <= refs
    {
      PropRefsOk(t, p);
      forall j | j in ReadRefs(p, i in gs.members)
        ensures j in refs
      {
        assert Mentions(t, gs, i, j);
      }
    }
  }

  lemma PropRefsOk(t: Table, p: Property)
    requires PropOk(t, p)
    ensures forall j, choice :: j in ReadRefs(p, choice) ==> j < |t|
  {
    if p.cond.Some? {
      ExprRefsOk(t, p.cond.value);
    }
    if p.Default? {
      ExprRefsOk(t, p.value);
    }
  }

  // the same table, under what may be another user
  ghost predicate SameTable(s: System, s': System) {
    s.table == s'.table && s.groups == s'.groups && s.modules == s'.modules
  }

  // the user's values for the symbol, and the user's pick if it is a choice, are the same
  ghost predicate SameUser(s: System, s': System, i: nat)
    requires i < |s.user| && i < |s'.user|
  {
    s.user[i] == s'.user[i] && (i in s.picks <==> i in s'.picks) && (i in s.picks ==> s.picks[i] == s'.picks[i])
  }

  lemma SameUserValue(s: System, s': System, i: nat, vals: Values)
    requires SystemOk(s) && SystemOk(s') && SameTable(s, s') && i < |s.table| == |vals| && SameUser(s, s', i)
    ensures ValueOf(s, i, vals) == ValueOf(s', i, vals)
  {
    hide FirstVisible, Visibility, DefaultTri, Selected, Clamp, OwnRaw;
    if i in s.groups.members {
      CandidatesAreMembers(s, i);
      assert Candidates(s, i) == Candidates(s', i);
      SameVisible(s, s', Candidates(s, i), ValuationOf(s.table, Provisional(vals, i)));
    }
  }

  lemma {:induction false} SameVisible(s: System, s': System, cs: seq<Candidate>, v: Valuation)
    requires SameTable(s, s') && forall k :: k in cs ==> k.member < |s.table|
    ensures FirstVisible(s, cs, v) == FirstVisible(s', cs, v)
  {
    if cs != [] {
      SameVisible(s, s', cs[1..], v);
    }
  }

  /** An acyclic table has at most one solution. More: two solutions under users that
      differ only above rank n agree below it. */
  lemma {:induction false} SolutionsAgreeBelow(s: System, s': System, rank: seq<nat>, vals: Values, vals': Values,
      n: nat)
    requires SameTable(s, s') && Ranked(s.table, s.groups, rank)
    requires IsSolution(s, vals) && IsSolution(s', vals')
    requires forall i :: 0 <= i < |s.table| && rank[i] < n ==> SameUser(s, s', i)
    ensures SameOn(vals, vals', Lower(rank, n))
    decreases n
  {
    hide ValueOf, ValuationOf;
    forall i | i in Lower(rank, n)
      ensures vals[i] == vals'[i]
    {
      var refs := Lower(rank, rank[i]);
      SolutionsAgreeBelow(s, s', rank, vals, vals', rank[i]);
      WithinLower(s, rank, i);
      ValueAgrees(s, i, refs, vals, vals');
      SameUserValue(s, s', i, vals');
    }
  }

  lemma SolutionUnique(s: System, rank: seq<nat>, vals: Values, vals': Values)
    requires Ranked(s.table, s.groups, rank) && IsSolution(s, vals) && IsSolution(s, vals')
    ensures vals == vals'
  {
    forall i | 0 <= i < |s.table|
      ensures vals[i] == vals'[i]
    {
      SolutionsAgreeBelow(s, s, rank, vals, vals', rank[i] + 1);
      assert i in Lower(rank, rank[i] + 1);
    }
  }

  // one round in which every symbol is computed from the values of the round before
  ghost function Rounds(s: System, n: nat): (vals: Values)
    requires SystemOk(s)
    ensures |vals| == |s.table|
  {
    if n == 0 then seq(|s.table|, i => Value(NO, "", None)) else
    var before := Rounds(s, n - 1);
    seq(|s.table|, i requires 0 <= i < |s.table| => ValueOf(s, i, before))
  }

  lemma {:induction false} RoundsSettle(s: System, rank: seq<nat>, n: nat)
    requires SystemOk(s) && Ranked(s.table, s.groups, rank)
    ensures SameOn(Rounds(s, n), Rounds(s, n + 1), Lower(rank, n))
  {
    hide ValueOf, ValuationOf;
    if n > 0 {
      var a', a := Rounds(s, n - 1), Rounds(s, n);
      RoundsSettle(s, rank, n - 1);
      forall i | i in Lower(rank, n)
        ensures Rounds(s, n)[i] == Rounds(s, n + 1)[i]
      {
        var refs := Lower(rank, rank[i]);
        assert refs <= Lower(rank, n - 1);
        WithinLower(s, rank, i);
        ValueAgrees(s, i, refs, a', a);
      }
    }
  }

  ghost function AboveAll(rank: seq<nat>): (n: nat)
    ensures forall i :: 0 <= i < |rank| ==> rank[i] < n
  {
    if rank == [] then 0 else
    var m := AboveAll(rank[1..]);
    assert forall i :: 1 <= i < |rank| ==> rank[i] == rank[1..][i - 1];
    if m > rank[0] then m else rank[0] + 1
  }

  /** The solution of an acyclic table. */
  ghost function Solution(s: System, rank: seq<nat>): (vals: Values)
    requires SystemOk(s) && Ranked(s.table, s.groups, rank)
    ensures IsSolution(s, vals)
  {
    var n := AboveAll(rank);
    var a, b := Rounds(s, n), Rounds(s, n + 1);
    RoundsSettle(s, rank, n);
    assert a == b by {
      forall i | 0 <= i < |s.table|
        ensures a[i] == b[i]
      {
        assert i in Lower(rank, n);
      }
    }
    a
  }

  // ---------- properties of the solution ----------

  /** The evaluator reports only well-typed states. */
  lemma SolutionWellTyped(s: System, vals: Values)
    requires IsSolution(s, vals)
    ensures WellTyped(ValuationOf(s.table, vals))
  {
    hide FirstVisible, Candidates;
    var v := ValuationOf(s.table, vals);
    forall x: Sym
      ensures TypeOf(x) == Boolean ==> v.tri(x) != MOD
      ensures Logical(TypeOf(x)) ==> v.str(x) == TriString(v.tri(x))
    {
      if x.Config? && x.id < |s.table| && SymOk(s.table, x) {
        assert vals[x.id] == ValueOf(s, x.id, vals);
      }
    }
  }

  // neither a choice nor a member of one
  predicate Ordinary(gs: Groups, i: nat) {
    i !in gs.members && i !in gs.choiceOf
  }

  /** A select is a lower bound that nothing overrides. */
  lemma SelectIsLowerBound(s: System, vals: Values, i: nat)
    requires IsSolution(s, vals) && i < |s.table| && Logical(s.table[i].ty) && Ordinary(s.groups, i)
    ensures s.table[i].revDep.Some? ==> vals[i].tri >= Eval(s.table[i].revDep.value, ValuationOf(s.table, vals))
    ensures s.table[i].ty == Boolean || s.modules == NO ==> vals[i].tri != MOD
  {
    hide DefaultTri;
    assert vals[i] == ValueOf(s, i, vals);
  }

  /** A symbol with an active range from lo to hi, lo <= hi, always reads as a number
      within it, whatever the user typed. */
  lemma RangeIsKept(s: System, vals: Values, i: nat)
    requires IsSolution(s, vals) && i < |s.table| && (s.table[i].ty == Int || s.table[i].ty == Hex)
    ensures var v := ValuationOf(s.table, vals); var p := FirstRange(s.table[i], v); p.Some? ==>
      var base := if s.table[i].ty == Hex then 16 else 10;
      var lo, hi := RangeOperand(p.value.lo, base, v), RangeOperand(p.value.hi, base, v);
      lo <= hi ==> lo <= ParseInt(vals[i].raw, base) <= hi
  {
    var v := ValuationOf(s.table, vals);
    assert vals[i] == ValueOf(s, i, vals);
    var p := FirstRange(s.table[i], v);
    if p.Some? {
      var base := BaseOf(s.table[i].ty);
      FormatReadsBack(RangeOperand(p.value.lo, base, v), base);
      FormatReadsBack(RangeOperand(p.value.hi, base, v), base);
      hide ParseInt, FormatInt, FirstDefault, OwnRaw;
      assert vals[i].raw == Clamp(s.table[i], OwnRaw(s.table[i], s.user[i], s.modules, v), v);
    }
  }

  /** A visible symbol takes the value its user sets if and only if that value is no less
      than what selects it, no more than its visibility unless selected, and not m where
      it cannot be m. */
  lemma UserValueSticksIff(s: System, rank: seq<nat>, vals: Values, i: nat, u: UserValue, vals': Values)
    requires Ranked(s.table, s.groups, rank) && IsSolution(s, vals)
    requires i < |s.table| && Logical(s.table[i].ty) && Ordinary(s.groups, i) && u.given
    requires IsSolution(s.(user := s.user[i := u]), vals')
    requires Visibility(s.table[i], s.modules, ValuationOf(s.table, vals)) != NO
    ensures var d, v := s.table[i], ValuationOf(s.table, vals);
      var visible, selected := Visibility(d, s.modules, v), Selected(d, s.modules, v);
      vals'[i].tri == u.tri <==>
        && selected <= u.tri <= Combine(OrOp, visible, selected)
        && !(u.tri == MOD && EffectiveType(d.ty, s.modules) == Boolean)
  {
    hide DefaultTri;
    var s' := s.(user := s.user[i := u]);
    var refs := Lower(rank, rank[i]);
    SolutionsAgreeBelow(s, s', rank, vals, vals', rank[i]);
    SameAgree(s.table, vals, vals', refs);
    WithinLower(s, rank, i);
    SelectedAgrees(s.table[i], s.modules, false, refs, ValuationOf(s.table, vals), ValuationOf(s.table, vals'));
    assert vals'[i] == ValueOf(s', i, vals');
  }

  /** A value that is there already, recorded as the user's, may not be one that the symbol
      can keep: a tristate with a prompt under m and y as its default, set to y, comes to m. */
  lemma KeptValueChanges(s: System, vals: Values)
    requires s.table == [SymDef(Tristate, "T", [Prompt(Some(Symbol(SymMod))), Default(None, Symbol(SymYes))], None)]
    requires s.groups == NoGroups && s.modules == YES && s.picks == map[]
    requires s.user == [UserValue(false, NO, "")] && vals == [Value(YES, "n", None)]
    ensures SystemOk(s) && IsSolution(s, vals)
    ensures !IsSolution(s.(user := s.user[0 := UserValue(true, YES, "")]), vals)
  {
    var v := ValuationOf(s.table, vals);
    var props := s.table[0].props;
    assert forall p :: p in props ==> p == props[0] || p == props[1];
    assert v.tri(SymMod) == MOD && v.tri(SymYes) == YES;
    KeptParts(s.table[0], v);
    hide PromptMax, Defaults, ValuationOf;
    var s' := s.(user := s.user[0 := UserValue(true, YES, "")]);
    assert TriValue(s, 0, v) == YES && TriValue(s', 0, v) == MOD;
    assert ValueOf(s', 0, vals) != vals[0];
  }

  lemma KeptParts(d: SymDef, v: Valuation)
    requires d.props == [Prompt(Some(Symbol(SymMod))), Default(None, Symbol(SymYes))]
    requires v.tri(SymMod) == MOD && v.tri(SymYes) == YES
    ensures PromptMax(d.props, v) == MOD && Defaults(d.props) == [d.props[1]]
  {
    var props := d.props;
    assert props[1..] == [props[1]] && props[1..][1..] == [] && props[..1] == [props[0]] && props[..1][..0] == [];
    assert PromptMax(props[..1], v) == MOD;
    assert Defaults(props[1..]) == [props[1]] + Defaults([]) == [props[1]];
    assert Defaults(props) == [] + Defaults(props[1..]);
  }

  // ---------- which tables are acyclic for evaluation ----------

  ghost function ReadGraph(t: Table, gs: Groups): Graph<nat> {
    iset e: (nat, nat) | Reads(t, gs, e.0, e.1)
  }

  /** Some symbol reads itself, range operands included. */
  ghost predicate CyclicReads(t: Table, gs: Groups) {
    Cyclic(ReadGraph(t, gs))
  }

  /** A table can be numbered upwards if and only if no symbol reads itself. */
  lemma RankedIff(t: Table, gs: Groups)
    requires TableOk(t) && GroupsOk(t, gs)
    ensures (exists rank :: Ranked(t, gs, rank)) <==> !CyclicReads(t, gs)
  {
    if !CyclicReads(t, gs) {
      var rank := RankOf(t, gs);
    } else {
      forall rank
        ensures !Ranked(t, gs, rank)
      {
        if Ranked(t, gs, rank) {
          var p :| IsCycle(ReadGraph(t, gs), p);
          RanksFall(t, gs, rank, p);
        }
      }
    }
  }

  lemma RankOf(t: Table, gs: Groups) returns (rank: seq<nat>)
    requires TableOk(t) && GroupsOk(t, gs) && !CyclicReads(t, gs)
    ensures Ranked(t, gs, rank)
  {
    var g := ReadGraph(t, gs);
    forall i: nat, j: nat | Reads(t, gs, i, j)
      ensures i < |t| && j < |t|
    {
      ReadsOk(t, gs, i, j);
    }
    var order := AcyclicHasOrder(g, Below(|t|));
    rank := seq(|t|, i requires 0 <= i < |t| => Place(order, i));
    forall i: nat, j: nat | i < |t| && j < |t| && Reads(t, gs, i, j)
      ensures rank[j] < rank[i]
    {
      assert (order[rank[i]], j) in g;
      PlaceFirst(order, j, rank[i]);
    }
  }

  lemma MentionsOk(t: Table, gs: Groups, i: nat, j: nat)
    requires TableOk(t) && Mentions(t, gs, i, j)
    ensures i < |t| && j < |t|
  {
    if j in OptRefs(t[i].revDep) {
      ExprRefsOk(t, t[i].revDep.value);
    } else {
      var p :| p in t[i].props && j in ReadRefs(p, i in gs.members);
      assert PropOk(t, p);
      PropRefsOk(t, p);
    }
  }

  lemma ReadsOk(t: Table, gs: Groups, i: nat, j: nat)
    requires TableOk(t) && GroupsOk(t, gs) && Reads(t, gs, i, j)
    ensures i < |t| && j < |t|
  {
    if Mentions(t, gs, i, j) {
      MentionsOk(t, gs, i, j);
    } else if j != i && exists m :: InGroup(gs, i, m) && Mentions(t, gs, m, j) {
      var m :| InGroup(gs, i, m) && Mentions(t, gs, m, j);
      MentionsOk(t, gs, m, j);
    }
  }

  lemma {:induction false} RanksFall(t: Table, gs: Groups, rank: seq<nat>, p: seq<nat>)
    requires Ranked(t, gs, rank) && IsPath(ReadGraph(t, gs), p) && |p| >= 2
    ensures p[0] < |t| && p[|p| - 1] < |t| && rank[p[|p| - 1]] < rank[p[0]]
    decreases |p|
  {
    assert (p[0], p[1]) in ReadGraph(t, gs);
    ReadsOk(t, gs, p[0], p[1]);
    if |p| > 2 {
      PathRest(ReadGraph(t, gs), p);
      RanksFall(t, gs, rank, p[1..]);
    }
  }

  predicate ConstantRanges(t: Table) {
    forall i :: 0 <= i < |t| ==> forall p :: p in t[i].props && p.Range? ==> !p.lo.Config? && !p.hi.Config?
  }

  lemma FollowsIsMention(t: Table, gs: Groups, i: nat, j: nat)
    ensures Follows(t, gs, i, j) ==> Mentions(t, gs, i, j)
    ensures ConstantRanges(t) ==> (Follows(t, gs, i, j) <==> Mentions(t, gs, i, j))
  {
    if i < |t| {
      forall p, choice | p in t[i].props
        ensures FollowedRefs(p, choice) <= ReadRefs(p, choice)
        ensures ConstantRanges(t) ==> FollowedRefs(p, choice) == ReadRefs(p, choice)
      {
      }
    }
  }
}
