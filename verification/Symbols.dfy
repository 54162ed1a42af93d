/** The symbol table: what the configuration files say about every symbol
    (package/config/expr.h, struct symbol and struct property), and which symbols refer to
    which. */
module Symbols {
  import opened Wrappers
  import opened Exprs
  import Dependence
  import opened Graphs

  /** struct property. A missing condition is always met. */
  datatype Property =
    | Prompt(cond: Option<Expr>)
    | Default(cond: Option<Expr>, value: Expr)
    | Range(cond: Option<Expr>, lo: Sym, hi: Sym)
    | Select(cond: Option<Expr>, target: Sym)

  /** `revDep` is the || of everything that selects the symbol. */
  datatype SymDef = SymDef(ty: SymType, name: string, props: seq<Property>, revDep: Option<Expr>)

  type Table = seq<SymDef>

  function SymRefs(s: Sym): set<nat> {
    if s.Config? then {s.id} else {}
  }

  function ExprRefs(e: Expr): set<nat> {
    match e
    case Symbol(s) => SymRefs(s)
    case Not(a) => ExprRefs(a)
    case Bin(_, l, r) => ExprRefs(l) + ExprRefs(r)
    case Cmp(_, a, b) => SymRefs(a) + SymRefs(b)
  }

  function OptRefs(e: Option<Expr>): set<nat> {
    if e.None? then {} else ExprRefs(e.value)
  }

  // the same, in the order in which they are looked at
  function SymIds(x: Sym): seq<nat> {
    if x.Config? then [x.id] else []
  }

  function ExprIds(e: Expr): (ids: seq<nat>)
    ensures forall j :: j in ids <==> j in ExprRefs(e)
  {
    match e
    case Symbol(x) => SymIds(x)
    case Not(a) => ExprIds(a)
    case Bin(_, l, r) => ExprIds(l) + ExprIds(r)
    case Cmp(_, a, b) => SymIds(a) + SymIds(b)
  }

  function OptIds(e: Option<Expr>): (ids: seq<nat>)
    ensures forall j :: j in ids <==> j in OptRefs(e)
  {
    if e.None? then [] else ExprIds(e.value)
  }

  // ---------- choice groups ----------

  /** The members of every choice, in the order of its list, and the choice of every member. */
  datatype Groups = Groups(members: map<nat, seq<nat>>, choiceOf: map<nat, nat>)

  const NoGroups := Groups(map[], map[])

  predicate GroupsOk(t: Table, gs: Groups) {
    && (forall c :: c in gs.members ==> c < |t| && c !in gs.choiceOf)
    && (forall c, m :: c in gs.members && m in gs.members[c] ==> m < |t| && m in gs.choiceOf && gs.choiceOf[m] == c)
    && (forall m :: m in gs.choiceOf ==> gs.choiceOf[m] in gs.members && m in gs.members[gs.choiceOf[m]])
  }

  // ---------- the relation that dependency checking follows ----------

  /** Conditions of everything but selects, and default values, except the defaults of a
      choice; not the operands of ranges. */
  function FollowedRefs(p: Property, choice: bool): set<nat> {
    match p
    case Prompt(c) => OptRefs(c)
    case Default(c, e) => OptRefs(c) + if choice then {} else ExprRefs(e)
    case Range(c, _, _) => OptRefs(c)
    case Select(_, _) => {}
  }

  ghost predicate Follows(t: Table, gs: Groups, i: nat, j: nat) {
    i < |t| && (j in OptRefs(t[i].revDep) || exists p :: p in t[i].props && j in FollowedRefs(p, i in gs.members))
  }

  // every symbol mentioned anywhere is in the table, under its own type
  predicate SymOk(t: Table, s: Sym) {
    s.Config? ==> s.id < |t| && t[s.id].ty == s.ty
  }

  predicate ExprOk(t: Table, e: Expr) {
    match e
    case Symbol(s) => SymOk(t, s)
    case Not(a) => ExprOk(t, a)
    case Bin(_, l, r) => ExprOk(t, l) && ExprOk(t, r)
    case Cmp(_, a, b) => SymOk(t, a) && SymOk(t, b)
  }

  predicate OptOk(t: Table, e: Option<Expr>) {
    e.Some? ==> ExprOk(t, e.value)
  }

  predicate PropOk(t: Table, p: Property) {
    OptOk(t, p.cond) &&
    match p
    case Prompt(_) => true
    case Default(_, e) => ExprOk(t, e)
    case Range(_, lo, hi) => SymOk(t, lo) && SymOk(t, hi)
    case Select(_, s) => SymOk(t, s)
  }

  ghost predicate TableOk(t: Table) {
    forall i :: 0 <= i < |t| ==> OptOk(t, t[i].revDep) && forall p :: p in t[i].props ==> PropOk(t, p)
  }

  lemma {:induction false} ExprRefsOk(t: Table, e: Expr)
    requires ExprOk(t, e)
    ensures forall j :: j in ExprRefs(e) ==> j < |t|
  {
    match e
    case Not(a) => ExprRefsOk(t, a);
    case Bin(_, l, r) => ExprRefsOk(t, l); ExprRefsOk(t, r);
    case _ =>
  }

  // ---------- graphs of references ----------

  ghost function Followed(t: Table, gs: Groups): Graph<nat> {
    iset e: (nat, nat) | Follows(t, gs, e.0, e.1)
  }

  // without choices, the graph of what the check follows
  ghost predicate SelfDependent(t: Table) {
    Cyclic(Followed(t, NoGroups))
  }

  ghost predicate InGroup(gs: Groups, c: nat, m: nat) {
    c in gs.members && m in gs.members[c]
  }

  lemma MemberOk(t: Table, gs: Groups, c: nat, m: nat)
    requires GroupsOk(t, gs) && InGroup(gs, c, m)
    ensures c < |t| && m < |t| && m !in gs.members && m in gs.choiceOf && gs.choiceOf[m] == c
  {
    assert c in gs.members && m in gs.members[c];
    assert m in gs.choiceOf && gs.choiceOf[m] == c;
  }

  // a choice stands for its members
  function WholeOf(gs: Groups, i: nat): nat {
    if i in gs.choiceOf then gs.choiceOf[i] else i
  }

  ghost predicate Connects(t: Table, gs: Groups, a: nat, b: nat) {
    exists i, j :: Follows(t, gs, i, j) && a == WholeOf(gs, i) && b == WholeOf(gs, j) && !InGroup(gs, j, i)
  }

  /** Every choice taken together with its members, and the references between them and the
      other symbols; that a member depends on its choice does not count. */
  ghost function Contracted(t: Table, gs: Groups): Graph<nat> {
    iset e: (nat, nat) | Connects(t, gs, e.0, e.1)
  }

  /** A choice is checked in two stages: its own properties, then those of its members. */
  datatype Stage = Own(sym: nat) | Members(choice: nat)

  function StageOf(gs: Groups, i: nat): Stage {
    if i in gs.choiceOf then Members(gs.choiceOf[i]) else Own(i)
  }

  ghost predicate Watches(t: Table, gs: Groups, a: Stage, b: Stage) {
    match a
    case Own(i) => i !in gs.choiceOf && exists j :: Follows(t, gs, i, j) && b == StageOf(gs, j)
    case Members(c) => exists m ::
      InGroup(gs, c, m) && (b == Own(c) || exists j :: Follows(t, gs, m, j) && b == StageOf(gs, j))
  }

  /** What a run of the check watches: the stage of the members comes after that of their
      choice. */
  ghost function Watched(t: Table, gs: Groups): Graph<Stage> {
    iset e: (Stage, Stage) | Watches(t, gs, e.0, e.1)
  }

  // a path of references, stage by stage
  lemma PathStages(t: Table, gs: Groups, p: seq<nat>) returns (q: seq<Stage>)
    requires GroupsOk(t, gs) && IsPath(Followed(t, gs), p)
    ensures IsPath(Watched(t, gs), q) && |q| == |p| && forall k :: 0 <= k < |p| ==> q[k] == StageOf(gs, p[k])
  {
    q := seq(|p|, k requires 0 <= k < |p| => StageOf(gs, p[k]));
    forall k | 0 <= k < |q| - 1
      ensures (q[k], q[k + 1]) in Watched(t, gs)
    {
      assert (p[k], p[k + 1]) in Followed(t, gs);
      if p[k] in gs.choiceOf {
        assert InGroup(gs, gs.choiceOf[p[k]], p[k]);
      }
    }
  }

  /** What a table without watched cycles is free of: no symbol depends on itself, no member
      of a choice on a member of the same choice, and no choice, by its own properties, on
      one of its members. */
  lemma UnwatchedCycles(t: Table, gs: Groups, p: seq<nat>)
    requires GroupsOk(t, gs) && !Cyclic(Watched(t, gs)) && IsPath(Followed(t, gs), p) && |p| >= 2
    ensures StageOf(gs, p[0]) != StageOf(gs, p[|p| - 1])
    ensures !InGroup(gs, p[0], p[|p| - 1])
  {
    var g := Watched(t, gs);
    var q := PathStages(t, gs, p);
    if q[0] == q[|q| - 1] {
      assert IsCycle(g, q);
    }
    var c, m := p[0], p[|p| - 1];
    if InGroup(gs, c, m) {
      assert Watches(t, gs, Members(c), Own(c));
      CloseCycle(g, q, 0);
    }
  }

  // without choices, the stages are the symbols
  lemma StagesAreSymbols(t: Table)
    requires TableOk(t)
    ensures SelfDependent(t) <==> Cyclic(Watched(t, NoGroups))
    ensures SelfDependent(t) <==> Cyclic(Contracted(t, NoGroups))
  {
    if SelfDependent(t) && !Cyclic(Watched(t, NoGroups)) {
      var p :| IsCycle(Followed(t, NoGroups), p);
      UnwatchedCycles(t, NoGroups, p);
    }
    forall i, j
      ensures Connects(t, NoGroups, i, j) <==> Follows(t, NoGroups, i, j)
    {
      assert WholeOf(NoGroups, i) == i && WholeOf(NoGroups, j) == j;
    }
    assert Contracted(t, NoGroups) == Followed(t, NoGroups);
    if Cyclic(Watched(t, NoGroups)) {
      var q :| IsCycle(Watched(t, NoGroups), q);
      SymbolsOnPath(t, q);
    }
  }

  lemma SymbolsOnPath(t: Table, q: seq<Stage>)
    requires IsCycle(Watched(t, NoGroups), q)
    ensures SelfDependent(t)
  {
    forall k | 0 <= k < |q|
      ensures q[k].Own?
    {
      assert k < |q| - 1 ==> (q[k], q[k + 1]) in Watched(t, NoGroups);
      assert k == |q| - 1 ==> (q[0], q[1]) in Watched(t, NoGroups);
    }
    var p: seq<nat> := seq(|q|, k requires 0 <= k < |q| => q[k].sym);
    forall k | 0 <= k < |p| - 1
      ensures (p[k], p[k + 1]) in Followed(t, NoGroups)
    {
      assert (q[k], q[k + 1]) in Watched(t, NoGroups);
    }
    assert IsCycle(Followed(t, NoGroups), p);
  }

  // the numbers below n
  ghost function Below(n: nat): (s: set<nat>)
    ensures forall i: nat :: i in s <==> i < n
  {
    if n == 0 then {} else Below(n - 1) + {n - 1}
  }

  // ---------- the references, as they are written ----------

  /** The references of an expression are the symbols that it mentions. */
  lemma {:induction false} RefsIff(e: Expr, j: nat)
    ensures j in ExprRefs(e) <==> exists s: Sym :: s.Config? && s.id == j && Dependence.ContainsSymbol(e, s)
  {
    match e
    case Symbol(s) =>
    case Not(a) => RefsIff(a, j);
    case Bin(_, l, r) => RefsIff(l, j); RefsIff(r, j);
    case Cmp(_, a, b) =>
      if j in SymRefs(a) {
        assert Dependence.ContainsSymbol(e, a);
      } else if j in SymRefs(b) {
        assert Dependence.ContainsSymbol(e, b);
      }
  }

  /** What is followed: the operands of rev_dep; of everything but selects the condition; and
      the values of defaults, except those of a choice. */
  lemma FollowsMeans(t: Table, gs: Groups, i: nat, j: nat)
    requires i < |t|
    ensures Follows(t, gs, i, j) <==>
      || (t[i].revDep.Some? && j in ExprRefs(t[i].revDep.value))
      || exists p :: p in t[i].props && Says(p, i in gs.members, j)
  {
    forall p | p in t[i].props
      ensures Says(p, i in gs.members, j) <==> j in FollowedRefs(p, i in gs.members)
    {
    }
  }

  // in its condition, or as the value of a default
  predicate Says(p: Property, choice: bool, j: nat) {
    !p.Select? && ((p.cond.Some? && j in ExprRefs(p.cond.value)) || (p.Default? && !choice && j in ExprRefs(p.value)))
  }

  /** Selects, and the operands of ranges, are not followed: with others in their place the same
      is. */
  lemma NotFollowed(t: Table, gs: Groups, i: nat, k: nat, p: Property, j: nat)
    requires i < |t| && k < |t[i].props|
    requires var q := t[i].props[k]; (q.Select? && p.Select?) || (q.Range? && p.Range? && q.cond == p.cond)
    ensures Follows(t, gs, i, j) <==> Follows(t[i := t[i].(props := t[i].props[k := p])], gs, i, j)
  {
    var ps := t[i].props;
    var qs := ps[k := p];
    assert FollowedRefs(ps[k], i in gs.members) == FollowedRefs(p, i in gs.members);
    if x :| x in ps && j in FollowedRefs(x, i in gs.members) {
      var n :| 0 <= n < |ps| && ps[n] == x;
      assert qs[n] in qs && FollowedRefs(qs[n], i in gs.members) == FollowedRefs(x, i in gs.members);
    }
    if x :| x in qs && j in FollowedRefs(x, i in gs.members) {
      var n :| 0 <= n < |qs| && qs[n] == x;
      assert ps[n] in ps && FollowedRefs(ps[n], i in gs.members) == FollowedRefs(x, i in gs.members);
    }
  }
}
