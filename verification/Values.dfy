/** What the value of every symbol is in a solution, read off its properties, what the user has
    set and the values of the others (package/config/symbol.c). */
module Values {
  import opened Wrappers
  import opened Exprs
  import opened Symbols
  import opened Evaluation
  import opened Numbers

  // ---------- visibility and selects ----------

  // some prompt has a condition that is not n
  ghost predicate Shown(d: SymDef, v: Valuation) {
    exists p :: p in d.props && p.Prompt? && EvalOpt(p.cond, v) != NO
  }

  // the highest of the conditions of the prompts
  ghost predicate IsHighest(d: SymDef, v: Valuation, top: Tri) {
    && (forall p :: p in d.props && p.Prompt? ==> EvalOpt(p.cond, v) <= top)
    && (top != NO ==> exists p :: p in d.props && p.Prompt? && EvalOpt(p.cond, v) == top)
  }

  // no symbol but a tristate, and that only with modules, can be m
  predicate CanBeMod(d: SymDef, modules: Tri) {
    d.ty == Tristate && modules != NO
  }

  /** How far the user can see the symbol. */
  ghost predicate Sees(d: SymDef, modules: Tri, v: Valuation, vis: Tri) {
    exists top: Tri :: IsHighest(d, v, top) && vis == if top == MOD && !CanBeMod(d, modules) then YES else top
  }

  lemma {:induction false} PromptMaxIs(ps: seq<Property>, v: Valuation)
    ensures forall p :: p in ps && p.Prompt? ==> EvalOpt(p.cond, v) <= PromptMax(ps, v)
    ensures PromptMax(ps, v) != NO ==> exists p :: p in ps && p.Prompt? && EvalOpt(p.cond, v) == PromptMax(ps, v)
  {
    if ps != [] {
      var n := |ps| - 1;
      PromptMaxIs(ps[..n], v);
      assert ps == ps[..n] + [ps[n]];
    }
  }

  lemma VisibilityIs(d: SymDef, modules: Tri, v: Valuation)
    ensures Sees(d, modules, v, Visibility(d, modules, v))
    ensures Visibility(d, modules, v) != NO <==> Shown(d, v)
  {
    PromptMaxIs(d.props, v);
    assert IsHighest(d, v, PromptMax(d.props, v));
  }

  /** What rev_dep forces the symbol to, at least. */
  function Forced(d: SymDef, modules: Tri, v: Valuation): Tri {
    var t := if d.revDep == None then NO else Eval(d.revDep.value, v);
    if t == MOD && (d.ty == Boolean || (d.ty == Tristate && modules == NO)) then YES else t
  }

  lemma SelectedIs(d: SymDef, modules: Tri, v: Valuation)
    ensures Selected(d, modules, v) == Forced(d, modules, v)
  {
  }

  // ---------- the first default, the first range ----------

  predicate OfKind(p: Property, range: bool) {
    if range then p.Range? else p.Default?
  }

  // the condition of the k-th property is met, and of no other such property before it
  ghost predicate IsFirst(ps: seq<Property>, v: Valuation, range: bool, k: nat) {
    && k < |ps| && OfKind(ps[k], range) && EvalOpt(ps[k].cond, v) != NO
    && forall j :: 0 <= j < k && OfKind(ps[j], range) ==> EvalOpt(ps[j].cond, v) == NO
  }

  ghost predicate NoneMet(ps: seq<Property>, v: Valuation, range: bool) {
    forall p :: p in ps && OfKind(p, range) ==> EvalOpt(p.cond, v) == NO
  }

  function Filtered(ps: seq<Property>, range: bool): seq<Property> {
    if range then Ranges(ps) else Defaults(ps)
  }

  lemma {:induction false} FirstIs(ps: seq<Property>, v: Valuation, range: bool) returns (k: nat)
    ensures var r := FirstMet(Filtered(ps, range), v);
      && (r.None? ==> NoneMet(ps, v, range))
      && (r.Some? ==> k < |ps| && IsFirst(ps, v, range, k) && ps[k] == r.value)
  {
    hide *;
    k := 0;
    if ps == [] {
      NoneFiltered(v, range);
    } else {
      FilteredStep(ps, range, v);
      MetFirst(ps, v, range);
      if !(OfKind(ps[0], range) && EvalOpt(ps[0].cond, v) != NO) {
        var j := FirstIs(ps[1..], v, range);
        k := j + 1;
        FirstBehind(ps, v, range, j);
      }
    }
  }

  lemma MetFirst(ps: seq<Property>, v: Valuation, range: bool)
    requires ps != []
    ensures OfKind(ps[0], range) && EvalOpt(ps[0].cond, v) != NO ==> IsFirst(ps, v, range, 0)
  {
  }

  lemma NoneFiltered(v: Valuation, range: bool)
    ensures FirstMet(Filtered([], range), v).None? && NoneMet([], v, range)
  {
  }

  // what is first behind a property that is not met
  lemma FirstBehind(ps: seq<Property>, v: Valuation, range: bool, j: nat)
    requires ps != [] && !(OfKind(ps[0], range) && EvalOpt(ps[0].cond, v) != NO)
    ensures IsFirst(ps[1..], v, range, j) ==>
      IsFirst(ps, v, range, j + 1) && j + 1 < |ps| && ps[j + 1] == ps[1..][j]
    ensures NoneMet(ps[1..], v, range) ==> NoneMet(ps, v, range)
  {
    hide OfKind, EvalOpt;
    var rest := ps[1..];
    assert forall i :: 0 < i < |ps| ==> ps[i] == rest[i - 1];
    assert forall p :: p in ps ==> p == ps[0] || p in rest;
  }

  lemma FilteredStep(ps: seq<Property>, range: bool, v: Valuation)
    requires ps != []
    ensures var met := OfKind(ps[0], range) && EvalOpt(ps[0].cond, v) != NO;
      FirstMet(Filtered(ps, range), v) == if met then Some(ps[0]) else FirstMet(Filtered(ps[1..], range), v)
  {
    var rest := Filtered(ps[1..], range);
    if OfKind(ps[0], range) {
      assert Filtered(ps, range) == [ps[0]] + rest && ([ps[0]] + rest)[1..] == rest;
    } else {
      assert Filtered(ps, range) == [] + rest == rest;
    }
  }

  // ---------- strings and numbers ----------

  /** The string of a symbol as it is handed on by a default: that of a bool or tristate stays
      "n". */
  function HandedOn(e: Expr, v: Valuation): string {
    if !e.Symbol? then "" else if TypeOf(e.sym) == Boolean || TypeOf(e.sym) == Tristate then "n" else v.str(e.sym)
  }

  /** The string before ranges: what the user has set, where a prompt is shown; otherwise that
      of the first default whose condition is not n; otherwise nothing. */
  ghost predicate OwnString(s: System, i: nat, v: Valuation, own: string)
    requires i < |s.table| == |s.user|
  {
    var d, u := s.table[i], s.user[i];
    if Shown(d, v) && u.given then own == u.raw
    else if NoneMet(d.props, v, false) then own == ""
    else exists k: nat :: IsFirst(d.props, v, false, k) && own == HandedOn(d.props[k].value, v)
  }

  lemma OwnRawIs(s: System, i: nat, v: Valuation)
    requires i < |s.table| == |s.user|
    ensures OwnString(s, i, v, OwnRaw(s.table[i], s.user[i], s.modules, v))
  {
    var d := s.table[i];
    VisibilityIs(d, s.modules, v);
    var k := FirstIs(d.props, v, false);
    hide Visibility, FirstMet, Shown;
    var p := FirstDefault(d, v);
    if p.Some? {
      assert d.props[k] in d.props && EvalOpt(d.props[k].cond, v) != NO;
      assert RawDefault(p.value.value, v) == HandedOn(d.props[k].value, v);
    }
  }

  // in which base numbers of the type are written, and operands of ranges read
  function Base(ty: SymType, otherwise: nat): nat {
    if ty == Hex then 16 else if ty == Int then 10 else otherwise
  }

  function Bound(x: Sym, ty: SymType, v: Valuation): int {
    ParseInt(if TypeOf(x) == Boolean || TypeOf(x) == Tristate then "n" else v.str(x),
      Base(TypeOf(x), if ty == Hex then 16 else 10))
  }

  /** A number has its string if no range is active, or if it is within it, and otherwise reads
      as the bound that it has passed: the lower one if it is below that. */
  ghost predicate Ranged(d: SymDef, v: Valuation, own: string, raw: string) {
    && (NoneMet(d.props, v, true) ==> raw == own)
    && forall k: nat :: IsFirst(d.props, v, true, k) ==>
      var base := if d.ty == Hex then 16 else 10;
      var lo, hi, n := Bound(d.props[k].lo, d.ty, v), Bound(d.props[k].hi, d.ty, v), ParseInt(own, base);
      && (lo <= n <= hi ==> raw == own)
      && (n < lo ==> ParseInt(raw, base) == lo)
      && (lo <= n && hi < n ==> ParseInt(raw, base) == hi)
  }

  /** The value of a string, int or hex in a solution. */
  lemma StringMeans(s: System, vals: Values, i: nat) returns (own: string)
    requires IsSolution(s, vals) && i < |s.table|
    requires s.table[i].ty == Str || s.table[i].ty == Int || s.table[i].ty == Hex
    ensures OwnString(s, i, ValuationOf(s.table, vals), own) && vals[i].tri == NO && vals[i].chosen == None
    ensures s.table[i].ty == Str ==> vals[i].raw == own
    ensures s.table[i].ty != Str ==> Ranged(s.table[i], ValuationOf(s.table, vals), own, vals[i].raw)
  {
    var d, v := s.table[i], ValuationOf(s.table, vals);
    own := OwnRaw(d, s.user[i], s.modules, v);
    OwnRawIs(s, i, v);
    assert vals[i] == ValueOf(s, i, vals) == Value(NO, Clamp(d, own, v), None);
    hide OwnRaw, IsSolution, OwnString, Ranged;
    if d.ty != Str {
      ClampMeans(d, own, v);
    }
  }

  lemma ClampMeans(d: SymDef, own: string, v: Valuation)
    requires d.ty == Int || d.ty == Hex
    ensures Ranged(d, v, own, Clamp(d, own, v))
  {
    var k := FirstIs(d.props, v, true);
    var p := FirstRange(d, v);
    assert p == FirstMet(Filtered(d.props, true), v);
    OnlyFirst(d.props, v, true);
    if p.Some? {
      FormatReadsBack(Bound(d.props[k].lo, d.ty, v), BaseOf(d.ty));
      FormatReadsBack(Bound(d.props[k].hi, d.ty, v), BaseOf(d.ty));
    }
    hide ParseInt, FormatInt, FirstMet, Filtered, IsFirst, NoneMet;
  }

  lemma OnlyFirst(ps: seq<Property>, v: Valuation, range: bool)
    ensures forall j: nat, k: nat :: IsFirst(ps, v, range, j) && IsFirst(ps, v, range, k) ==> j == k
    ensures NoneMet(ps, v, range) ==> forall k: nat :: !IsFirst(ps, v, range, k)
  {
    if NoneMet(ps, v, range) {
      forall k: nat
        ensures !IsFirst(ps, v, range, k)
      {
        assert k < |ps| ==> ps[k] in ps;
      }
    }
  }

  // ---------- bools and tristates ----------

  function Lower(a: Tri, b: Tri): Tri {
    if a < b then a else b
  }

  function Higher(a: Tri, b: Tri): Tri {
    if a > b then a else b
  }

  // the first default whose condition is not n, but no more than its condition
  ghost predicate DefaultIs(d: SymDef, v: Valuation, t: Tri) {
    if NoneMet(d.props, v, false) then t == NO
    else exists k: nat ::
      IsFirst(d.props, v, false, k) && t == Lower(Eval(d.props[k].value, v), EvalOpt(d.props[k].cond, v))
  }

  lemma DefaultTriIs(d: SymDef, v: Valuation)
    ensures DefaultIs(d, v, DefaultTri(d, v))
  {
    var k := FirstIs(d.props, v, false);
    OnlyFirst(d.props, v, false);
    hide FirstMet, Eval;
  }

  /** The user's value as far as it can be seen, or else the default, but not below what is
      forced; and never m where it cannot be. Members of a choice are not forced, and a choice
      has no default of its own. */
  ghost predicate OwnTri(s: System, i: nat, v: Valuation, t: Tri)
    requires i < |s.table| == |s.user|
  {
    exists vis: Tri, def: Tri :: OwnTriFrom(s, i, v, vis, def, t)
  }

  // for what can be seen of it, and its default
  ghost predicate OwnTriFrom(s: System, i: nat, v: Valuation, vis: Tri, def: Tri, t: Tri)
    requires i < |s.table| == |s.user|
  {
    var d, u := s.table[i], s.user[i];
    var own := if vis != NO && u.given then Lower(u.tri, vis) else def;
    var all := if i in s.groups.choiceOf then own else Higher(own, Forced(d, s.modules, v));
    && Sees(d, s.modules, v, vis)
    && (if i in s.groups.members then def == NO else DefaultIs(d, v, def))
    && t == if all == MOD && (d.ty == Boolean || (d.ty == Tristate && s.modules == NO)) then YES else all
  }

  lemma TriValueIs(s: System, i: nat, v: Valuation)
    requires i < |s.table| == |s.user|
    ensures OwnTri(s, i, v, TriValue(s, i, v))
  {
    var d := s.table[i];
    VisibilityIs(d, s.modules, v);
    DefaultTriIs(d, v);
    SelectedIs(d, s.modules, v);
    hide Sees, DefaultIs, Visibility, DefaultTri, Selected;
    var vis, def := Visibility(d, s.modules, v), if i in s.groups.members then NO else DefaultTri(d, v);
    assert OwnTriFrom(s, i, v, vis, def, TriValue(s, i, v));
  }

  /** The value of a bool or tristate that is no choice. A member of a choice that the user can
      see at y is y if and only if the choice has chosen it. */
  lemma TriMeans(s: System, vals: Values, i: nat)
    requires IsSolution(s, vals) && i < |s.table| && i !in s.groups.members
    requires s.table[i].ty == Boolean || s.table[i].ty == Tristate
    ensures vals[i].chosen == None
    ensures var v := ValuationOf(s.table, vals);
      if i in s.groups.choiceOf && Sees(s.table[i], s.modules, v, YES)
      then vals[i].tri == (if vals[s.groups.choiceOf[i]].chosen == Some(i) then YES else NO)
      else OwnTri(s, i, v, vals[i].tri)
  {
    var d, v := s.table[i], ValuationOf(s.table, vals);
    assert vals[i] == ValueOf(s, i, vals);
    TriValueIs(s, i, v);
    VisibilityIs(d, s.modules, v);
    OneVisibility(d, s.modules, v);
    hide OwnTri, Sees, Visibility, TriValue, Eval;
  }

  lemma OneVisibility(d: SymDef, modules: Tri, v: Valuation)
    ensures forall a: Tri, b: Tri :: Sees(d, modules, v, a) && Sees(d, modules, v, b) ==> a == b
  {
    forall a: Tri, b: Tri | IsHighest(d, v, a) && IsHighest(d, v, b)
      ensures a == b
    {
    }
  }

  // ---------- choices ----------

  // a default that names a member that is shown, under a condition that is not n
  predicate Offers(p: Property) {
    p.Default? && p.value.Symbol? && p.value.sym.Config?
  }

  ghost predicate Offered(s: System, p: Property, v: Valuation) {
    && Offers(p) && EvalOpt(p.cond, v) != NO
    && p.value.sym.id < |s.table| && Shown(s.table[p.value.sym.id], v)
  }

  ghost predicate MemberShown(s: System, m: nat, v: Valuation) {
    m < |s.table| && Shown(s.table[m], v)
  }

  /** What a choice at y chooses: the user's member if it is shown; otherwise that of the first
      default that offers one; otherwise the first member that is shown. */
  ghost predicate Chooses(s: System, c: nat, v: Valuation, pick: Option<nat>)
    requires c < |s.table| && c in s.groups.members
  {
    var ps, ms := s.table[c].props, s.groups.members[c];
    if c in s.picks && MemberShown(s, s.picks[c], v) then pick == Some(s.picks[c])
    else if exists p :: p in ps && Offered(s, p, v) then
      exists k :: 0 <= k < |ps| && Offered(s, ps[k], v) && (forall j :: 0 <= j < k ==> !Offered(s, ps[j], v)) &&
        pick == Some(ps[k].value.sym.id)
    else if exists m :: m in ms && MemberShown(s, m, v) then
      exists k :: 0 <= k < |ms| && MemberShown(s, ms[k], v) && (forall j :: 0 <= j < k ==> !MemberShown(s, ms[j], v)) &&
        pick == Some(ms[k])
    else pick == None
  }

  // the candidates before the first that is taken
  ghost predicate Takes(s: System, k: Candidate, v: Valuation) {
    EvalOpt(k.cond, v) != NO && MemberShown(s, k.member, v)
  }

  lemma {:induction false} FirstVisibleIs(s: System, cs: seq<Candidate>, v: Valuation) returns (k: nat)
    requires forall k :: k in cs ==> k.member < |s.table|
    ensures var r := FirstVisible(s, cs, v);
      && (r.None? ==> forall j :: 0 <= j < |cs| ==> !Takes(s, cs[j], v))
      && (r.Some? ==> k < |cs| && Takes(s, cs[k], v) && r == Some(cs[k].member))
      && (r.Some? ==> forall j :: 0 <= j < k ==> !Takes(s, cs[j], v))
  {
    k := 0;
    if cs != [] {
      VisibilityIs(s.table[cs[0].member], s.modules, v);
      hide Visibility, Shown;
      if !Takes(s, cs[0], v) {
        var j := FirstVisibleIs(s, cs[1..], v);
        k := j + 1;
        assert forall i :: 0 < i < |cs| ==> cs[i] == cs[1..][i - 1];
      }
    }
  }

  lemma {:induction false} FirstVisibleAppend(s: System, a: seq<Candidate>, b: seq<Candidate>, v: Valuation)
    requires forall k :: k in a || k in b ==> k.member < |s.table|
    ensures FirstVisible(s, a + b, v) ==
      if FirstVisible(s, a, v).Some? then FirstVisible(s, a, v) else FirstVisible(s, b, v)
  {
    hide Visibility;
    if a == [] {
      assert a + b == b;
    } else {
      assert (a + b)[1..] == a[1..] + b && (a + b)[0] == a[0];
      FirstVisibleAppend(s, a[1..], b, v);
    }
  }

  lemma {:induction false} DefaultsOffer(s: System, ps: seq<Property>, v: Valuation) returns (k: nat)
    requires forall c :: c in DefaultCandidates(ps) ==> c.member < |s.table|
    ensures var r := FirstVisible(s, DefaultCandidates(ps), v);
      && (r.None? ==> NoOffer(s, ps, v))
      && (r.Some? ==> FirstOffer(s, ps, v, k) && k < |ps| && Offers(ps[k]))
      && (r.Some? ==> r == Some(ps[k].value.sym.id))
  {
    k := 0;
    if ps == [] {
      assert FirstVisible(s, DefaultCandidates(ps), v).None?;
    } else {
      OfferedStep(s, ps, v);
      hide FirstVisible, DefaultCandidates, Offered;
      if !Offered(s, ps[0], v) {
        var j := DefaultsOffer(s, ps[1..], v);
        k := j + 1;
        hide FirstOffer, NoOffer;
        OfferBehind(s, ps, v, j);
      }
    }
  }

  ghost predicate NoOffer(s: System, ps: seq<Property>, v: Valuation) {
    forall j :: 0 <= j < |ps| ==> !Offered(s, ps[j], v)
  }

  // the k-th is the first that offers a member
  ghost predicate FirstOffer(s: System, ps: seq<Property>, v: Valuation, k: nat) {
    k < |ps| && Offered(s, ps[k], v) && forall j :: 0 <= j < k ==> !Offered(s, ps[j], v)
  }

  // what is offered first behind a property that offers nothing
  lemma OfferBehind(s: System, ps: seq<Property>, v: Valuation, j: nat)
    requires ps != [] && !Offered(s, ps[0], v)
    ensures FirstOffer(s, ps[1..], v, j) ==> FirstOffer(s, ps, v, j + 1) && j + 1 < |ps| && ps[j + 1] == ps[1..][j]
    ensures NoOffer(s, ps[1..], v) ==> NoOffer(s, ps, v)
  {
    hide Offered;
    assert forall i :: 0 < i < |ps| ==> ps[i] == ps[1..][i - 1];
  }

  lemma OfferedStep(s: System, ps: seq<Property>, v: Valuation)
    requires ps != [] && forall c :: c in DefaultCandidates(ps) ==> c.member < |s.table|
    ensures forall c :: c in DefaultCandidates(ps[1..]) ==> c.member < |s.table|
    ensures FirstVisible(s, DefaultCandidates(ps), v) ==
      if Offered(s, ps[0], v) then Some(ps[0].value.sym.id)
      else FirstVisible(s, DefaultCandidates(ps[1..]), v)
  {
    var rest := DefaultCandidates(ps[1..]);
    if Offers(ps[0]) {
      var first := Candidate(ps[0].cond, ps[0].value.sym.id);
      assert DefaultCandidates(ps) == [first] + rest && ([first] + rest)[1..] == rest;
      assert first in DefaultCandidates(ps);
      VisibilityIs(s.table[first.member], s.modules, v);
    }
    hide Visibility, Shown;
    assert forall c :: c in rest ==> c in DefaultCandidates(ps);
  }

  lemma CandidatesChoose(s: System, c: nat, v: Valuation)
    requires SystemOk(s) && c in s.groups.members && c < |s.table|
    requires forall k :: k in Candidates(s, c) ==> k.member < |s.table|
    ensures Chooses(s, c, v, FirstVisible(s, Candidates(s, c), v))
  {
    var user := if c in s.picks then [Candidate(None, s.picks[c])] else [];
    var defaults, members := DefaultCandidates(s.table[c].props), MemberCandidates(s.groups.members[c]);
    assert Candidates(s, c) == user + defaults + members;
    assert forall k :: k in user || k in defaults || k in members ==> k in Candidates(s, c);
    hide *;
    FirstVisibleAppend(s, user + defaults, members, v);
    FirstVisibleAppend(s, user, defaults, v);
    UserFirst(s, c, v, user);
    var k := DefaultsOffer(s, s.table[c].props, v);
    var n := MembersFirst(s, s.groups.members[c], v);
    OneOfThree(s, c, v, FirstVisible(s, user, v), FirstVisible(s, defaults, v), k, FirstVisible(s, members, v), n);
  }

  lemma UserFirst(s: System, c: nat, v: Valuation, user: seq<Candidate>)
    requires user == if c in s.picks then [Candidate(None, s.picks[c])] else []
    requires forall k :: k in user ==> k.member < |s.table|
    ensures FirstVisible(s, user, v) ==
      if c in s.picks && MemberShown(s, s.picks[c], v) then Some(s.picks[c]) else None
  {
    if c in s.picks {
      assert user[0] in user && user[1..] == [];
      VisibilityIs(s.table[s.picks[c]], s.modules, v);
    }
    hide Visibility, Shown;
  }

  lemma MembersFirst(s: System, ms: seq<nat>, v: Valuation) returns (n: nat)
    requires forall k :: k in MemberCandidates(ms) ==> k.member < |s.table|
    ensures var r := FirstVisible(s, MemberCandidates(ms), v);
      && (r.None? ==> forall m :: m in ms ==> !MemberShown(s, m, v))
      && (r.Some? ==> n < |ms| && MemberShown(s, ms[n], v) && r == Some(ms[n]))
      && (r.Some? ==> forall j :: 0 <= j < n ==> !MemberShown(s, ms[j], v))
  {
    n := FirstVisibleIs(s, MemberCandidates(ms), v);
    hide FirstVisible, MemberShown;
    assert forall j :: 0 <= j < |ms| ==> (Takes(s, MemberCandidates(ms)[j], v) <==> MemberShown(s, ms[j], v));
  }

  lemma OneOfThree(s: System, c: nat, v: Valuation, user: Option<nat>, default: Option<nat>, k: nat,
      member: Option<nat>, n: nat)
    requires c < |s.table| && c in s.groups.members
    requires user == if c in s.picks && MemberShown(s, s.picks[c], v) then Some(s.picks[c]) else None
    requires default.None? ==> NoOffer(s, s.table[c].props, v)
    requires default.Some? ==>
      var ps := s.table[c].props;
      && FirstOffer(s, ps, v, k) && k < |ps| && Offers(ps[k])
      && default == Some(ps[k].value.sym.id)
    requires member.None? ==> forall m :: m in s.groups.members[c] ==> !MemberShown(s, m, v)
    requires member.Some? ==>
      var ms := s.groups.members[c];
      && n < |ms| && MemberShown(s, ms[n], v) && member == Some(ms[n])
      && forall j :: 0 <= j < n ==> !MemberShown(s, ms[j], v)
    ensures Chooses(s, c, v, if user.Some? then user else if default.Some? then default else member)
  {
    hide MemberShown, Offered;
    if default.Some? {
      assert s.table[c].props[k] in s.table[c].props;
    }
    if member.Some? {
      assert s.groups.members[c][n] in s.groups.members[c];
    }
  }

  /** The value of a choice: as that of any other bool or tristate, but at y it has chosen a
      member, or is n if none is shown. Members are looked at while it is y and has not chosen
      yet. */
  lemma ChoiceMeans(s: System, vals: Values, c: nat) returns (t: Tri)
    requires IsSolution(s, vals) && c < |s.table| && c in s.groups.members
    requires s.table[c].ty == Boolean || s.table[c].ty == Tristate
    ensures OwnTri(s, c, ValuationOf(s.table, vals), t)
    ensures t != YES ==> vals[c].tri == t && vals[c].chosen == None
    ensures var w := ValuationOf(s.table, vals[c := Value(YES, "n", None)]);
      t == YES ==> Chooses(s, c, w, vals[c].chosen) && vals[c].tri == if vals[c].chosen == None then NO else YES
  {
    var v := ValuationOf(s.table, vals);
    assert vals[c] == ValueOf(s, c, vals) == ChoiceValue(s, c, vals);
    t := TriValue(s, c, v);
    TriValueIs(s, c, v);
    CandidatesAreMembers(s, c);
    hide OwnTri, Visibility, TriValue, SystemOk, Chooses, Candidates;
    CandidatesChoose(s, c, ValuationOf(s.table, Provisional(vals, c)));
  }

  /** A symbol without a type has its name. */
  lemma UnknownMeans(s: System, vals: Values, i: nat)
    requires IsSolution(s, vals) && i < |s.table| && s.table[i].ty == Unknown
    ensures vals[i] == Value(NO, s.table[i].name, None)
  {
    assert vals[i] == ValueOf(s, i, vals);
  }

  // ---------- the state that expressions are evaluated in ----------

  /** Symbols of the table have their values there, constants their names, and no other tristate
      value than those of y, m and n. */
  lemma StateMeans(t: Table, vals: Values, i: nat, c: ConstName)
    requires i < |t| == |vals|
    ensures var v, x := ValuationOf(t, vals), Config(i, t[i].ty);
      && v.tri(x) == vals[i].tri
      && v.str(x) == (if t[i].ty != Boolean && t[i].ty != Tristate then vals[i].raw
                      else if vals[i].tri == NO then "n" else if vals[i].tri == MOD then "m" else "y")
      && v.tri(Const(c)) == NO && v.str(Const(c)) == c
      && v.tri(SymYes) == YES && v.tri(SymMod) == MOD && v.tri(SymNo) == NO
      && v.str(SymYes) == "y" && v.str(SymMod) == "m" && v.str(SymNo) == "n"
  {
  }
}
