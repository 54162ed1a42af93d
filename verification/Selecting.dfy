/** What menu_finalize adds to rev_dep, the condition that forces a symbol on: one operand for
    every select, and one for every choice that must be set (package/config/menu.c). */
module Selecting {
  import opened Wrappers
  import opened Exprs
  import opened Menu

  /** One operand of the symbol's rev_dep. */
  datatype Gift = Gift(to: Sym, cond: Expr)

  /** The rev_dep of every symbol; NULL is a missing key. */
  type RevDeps = map<Sym, Expr>

  // expr_alloc_or(rev_dep, operand)
  function Give(rev: RevDeps, g: Gift): RevDeps {
    rev[g.to := if g.to in rev then Bin(OrOp, rev[g.to], g.cond) else g.cond]
  }

  function GiveAll(rev: RevDeps, gs: seq<Gift>): RevDeps
    decreases |gs|
  {
    if gs == [] then rev else Give(GiveAll(rev, gs[..|gs| - 1]), gs[|gs| - 1])
  }

  // expr_alloc_and(symbol, condition)
  function With(s: Sym, cond: Option<Expr>): Expr {
    if cond.None? then Symbol(s) else Bin(AndOp, Symbol(s), cond.value)
  }

  // the select among the entry's properties at place k, if it is one
  function SelectAt(e: Entry, k: nat): seq<Gift>
    requires k < |e.conds|
  {
    if e.sym.Some? && k < |e.targets| && e.targets[k].Some?
    then [Gift(e.targets[k].value, With(e.sym.value, e.conds[k]))] else []
  }

  function Selects(e: Entry, n: nat): seq<Gift>
    requires n <= |e.conds|
  {
    if n == 0 then [] else Selects(e, n - 1) + SelectAt(e, n - 1)
  }

  function SelectsOf(e: Entry): seq<Gift> {
    Selects(e, |e.conds|)
  }

  // only symbols select
  lemma {:induction false} NoSelects(e: Entry, n: nat)
    requires e.sym.None? && n <= |e.conds|
    ensures Selects(e, n) == [] && (n == |e.conds| ==> SelectsOf(e) == [])
  {
    if n > 0 {
      NoSelects(e, n - 1);
    }
  }

  function SelectsAll(f: seq<Tree>): seq<Gift> {
    if f == [] then [] else SelectsOf(f[0].entry) + SelectsAll(f[1..])
  }

  /** What an entry gives its own symbol at the end: its prompt and m, unless it is optional. */
  function OwnGift(e: Entry): seq<Gift> {
    if e.sym.None? || e.optional || e.prompt.None? then []
    else
      var p := PromptCond(e);
      [Gift(e.sym.value, if p.None? then Symbol(SymMod) else Bin(AndOp, p.value, Symbol(SymMod)))]
  }

  // ---------- in the order of the program ----------

  function Gifts(t: Tree, after: seq<Tree>): seq<Gift>
    decreases Count(t) + CountAll(after), 0
  {
    if t.kids != [] then
      InheritCount(ParentDep(t.entry), t.kids);
      var kids := InheritAll(ParentDep(t.entry), t.kids);
      SelectsAll(kids) + GiftsAll(kids) + OwnGift(t.entry)
    else GiftsAdopt(t.entry, after) + OwnGift(t.entry)
  }

  function GiftsAll(f: seq<Tree>): seq<Gift>
    decreases CountAll(f), 1
  {
    if f == [] then [] else Gifts(f[0], f[1..]) + GiftsAll(Finalize(f[0], f[1..]).1)
  }

  function GiftsAdopt(e: Entry, after: seq<Tree>): seq<Gift>
    decreases CountAll(after), 2
  {
    if after == [] || !AdoptsNext(e, after[0].entry) then []
    else Gifts(after[0], after[1..]) + GiftsAdopt(e, Finalize(after[0], after[1..]).1)
  }

  // ---------- nothing is given twice, and nothing forgotten ----------

  // what is still to be given when the selects of the entries themselves have been
  ghost function Pending(f: seq<Tree>): multiset<Gift>
    decreases CountAll(f)
  {
    if f == [] then multiset{} else PendingOne(f[0]) + Pending(f[1..])
  }

  ghost function PendingOne(t: Tree): multiset<Gift>
    decreases Count(t), 0
  {
    InheritCount(ParentDep(t.entry), t.kids);
    var kids := InheritAll(ParentDep(t.entry), t.kids);
    multiset(OwnGift(t.entry)) + multiset(SelectsAll(kids)) + Pending(kids)
  }

  lemma {:induction false} GiftsPending(t: Tree, after: seq<Tree>)
    ensures multiset(Gifts(t, after)) + Pending(Finalize(t, after).1) == PendingOne(t) + Pending(after)
    decreases Count(t) + CountAll(after), 0
  {
    hide SelectsAll, OwnGift, MoveUp, FinalizeAll, GiftsAll, GiftsAdopt, Adopt, ParentDep;
    if t.kids != [] {
      var kids := InheritAll(ParentDep(t.entry), t.kids);
      InheritCount(ParentDep(t.entry), t.kids);
      GiftsAllPending(kids);
    } else {
      GiftsAdoptPending(t.entry, after);
      assert InheritAll(ParentDep(t.entry), t.kids) == [];
      NothingBelow();
    }
  }

  lemma NothingBelow()
    ensures SelectsAll([]) == [] && Pending([]) == multiset{}
  {
  }

  lemma {:induction false} GiftsAllPending(f: seq<Tree>)
    ensures multiset(GiftsAll(f)) == Pending(f)
    decreases CountAll(f), 1
  {
    hide Gifts, Finalize, PendingOne;
    if f != [] {
      GiftsPending(f[0], f[1..]);
      GiftsAllPending(Finalize(f[0], f[1..]).1);
    }
  }

  lemma {:induction false} GiftsAdoptPending(e: Entry, after: seq<Tree>)
    ensures multiset(GiftsAdopt(e, after)) + Pending(Adopt(e, after).1) == Pending(after)
    decreases CountAll(after), 2
  {
    hide Gifts, Finalize, PendingOne;
    if after != [] && AdoptsNext(e, after[0].entry) {
      GiftsPending(after[0], after[1..]);
      GiftsAdoptPending(e, Finalize(after[0], after[1..]).1);
    }
  }

  /** What the entries of a list give, by their selects and by themselves. */
  function AllGifts(f: seq<Tree>): seq<Gift> {
    if f == [] then [] else SelectsOf(f[0].entry) + OwnGift(f[0].entry) + AllGifts(f[1..])
  }

  lemma {:induction false} AllGiftsAppend(f: seq<Tree>, g: seq<Tree>)
    ensures AllGifts(f + g) == AllGifts(f) + AllGifts(g)
  {
    if f == [] {
      assert f + g == g;
    } else {
      assert (f + g)[1..] == f[1..] + g;
      AllGiftsAppend(f[1..], g);
    }
  }

  lemma {:induction false} PendingIsAll(f: seq<Tree>)
    ensures Pending(f) + multiset(SelectsAll(f)) == multiset(AllGifts(Flat(HandedAll(f))))
    decreases CountAll(f)
  {
    if f != [] {
      hide Flat, AllGifts, SelectsOf, OwnGift;
      PendingOneIsAll(f[0]);
      PendingIsAll(f[1..]);
      FlatCons(Handed(f[0]), HandedAll(f[1..]));
      AllGiftsAppend(Flat([Handed(f[0])]), Flat(HandedAll(f[1..])));
    } else {
      FlatNil();
    }
  }

  lemma {:induction false} PendingOneIsAll(t: Tree)
    ensures PendingOne(t) + multiset(SelectsOf(t.entry)) == multiset(AllGifts(Flat([Handed(t)])))
    decreases Count(t), 0
  {
    hide Flat, SelectsOf, OwnGift;
    var kids := InheritAll(ParentDep(t.entry), t.kids);
    InheritCount(ParentDep(t.entry), t.kids);
    PendingIsAll(kids);
    var top := Handed(t).(kids := []);
    FlatOne(Handed(t));
    AllGiftsAppend([top], Flat(HandedAll(kids)));
    assert AllGifts([top]) == SelectsOf(t.entry) + OwnGift(t.entry);
  }

  /** After menu_finalize, the operands of all rev_deps are those of the finished entries,
      each once: every select under its final condition, and every choice that must be set. */
  lemma GiftsConserved(t: Tree)
    requires SelectsOf(t.entry) == []
    ensures multiset(Gifts(t, [])) == multiset(AllGifts(Flat([Finalize(t, []).0])))
  {
    hide *;
    FinalizeFlat(t, []);
    GiftsPending(t, []);
    PendingOneIsAll(t);
    NoneAfter(t);
    var a, b := Flat([Finalize(t, []).0]), Flat([Handed(t)]);
    assert a + [] == a && b + [] == b;
  }

  lemma NoneAfter(t: Tree)
    ensures Finalize(t, []).1 == [] && Flat(HandedAll([])) == [] && Pending([]) == multiset{}
  {
  }

  // ---------- what a rev_dep says ----------

  function RevValue(rev: RevDeps, s: Sym, v: Valuation): Tri {
    if s in rev then Eval(rev[s], v) else NO
  }

  /** A value no operand exceeds, and that one has unless it is n. */
  ghost predicate IsHighest(r: Tri, gs: seq<Gift>, s: Sym, v: Valuation) {
    && (forall g :: g in gs && g.to == s ==> Eval(g.cond, v) <= r)
    && (r != NO ==> exists g :: g in gs && g.to == s && Eval(g.cond, v) == r)
  }

  lemma {:induction false} GivenIsHighest(gs: seq<Gift>, s: Sym, v: Valuation)
    ensures IsHighest(RevValue(GiveAll(map[], gs), s, v), gs, s, v)
    decreases |gs|
  {
    if gs != [] {
      var g, init := gs[|gs| - 1], gs[..|gs| - 1];
      GivenIsHighest(init, s, v);
      assert gs == init + [g];
      var r := RevValue(GiveAll(map[], init), s, v);
      if g.to == s && g.to in GiveAll(map[], init) {
        assert RevValue(GiveAll(map[], gs), s, v) == Combine(OrOp, r, Eval(g.cond, v));
      }
    }
  }

  /** So a symbol is forced up to the highest of what the finished entries say: a select to
      the lower of the selecting symbol and the condition it was finished with. */
  lemma RevDepMeans(t: Tree, s: Sym, v: Valuation)
    requires SelectsOf(t.entry) == []
    ensures IsHighest(RevValue(GiveAll(map[], Gifts(t, [])), s, v), AllGifts(Flat([Finalize(t, []).0])), s, v)
  {
    hide Gifts, AllGifts, Flat, Finalize, GiveAll;
    var gs, all := Gifts(t, []), AllGifts(Flat([Finalize(t, []).0]));
    GivenIsHighest(gs, s, v);
    GiftsConserved(t);
    assert forall g :: g in gs <==> g in multiset(gs);
    assert forall g :: g in all <==> g in multiset(all);
  }

  // ---------- in terms of what the entries say ----------

  function Lower(a: Tri, b: Tri): Tri {
    if a < b then a else b
  }

  /** The entry forces the symbol to `r`: by a select, to the lower of its own symbol and the
      condition of the select, or, for its own symbol, to m at the most where its prompt is
      shown and it is not optional. */
  ghost predicate Forces(e: Entry, s: Sym, r: Tri, v: Valuation) {
    e.sym.Some? &&
      (SelectsTo(e, s, r, v) ||
       (e.sym.value == s && !e.optional && e.prompt.Some? &&
        r == if e.prompt.value < |e.conds| then Lower(EvalOpt(e.conds[e.prompt.value], v), MOD) else MOD))
  }

  ghost predicate SelectsTo(e: Entry, s: Sym, r: Tri, v: Valuation)
    requires e.sym.Some?
  {
    exists k :: 0 <= k < |e.conds| && k < |e.targets| && e.targets[k] == Some(s) &&
      r == Lower(v.tri(e.sym.value), EvalOpt(e.conds[k], v))
  }

  // a gift to the symbol, of the given value
  ghost predicate GivesTo(gs: seq<Gift>, s: Sym, r: Tri, v: Valuation) {
    exists g :: g in gs && g.to == s && Eval(g.cond, v) == r
  }

  lemma {:induction false} SelectsGive(e: Entry, n: nat, g: Gift)
    requires n <= |e.conds|
    ensures g in Selects(e, n) <==> exists k :: 0 <= k < n && g in SelectAt(e, k)
  {
    if n > 0 {
      SelectsGive(e, n - 1, g);
    }
  }

  lemma SelectMeans(e: Entry, s: Sym, r: Tri, v: Valuation)
    ensures GivesTo(SelectsOf(e), s, r, v) <==> e.sym.Some? && SelectsTo(e, s, r, v)
  {
    hide Selects, SelectAt;
    if GivesTo(SelectsOf(e), s, r, v) {
      var g :| g in SelectsOf(e) && g.to == s && Eval(g.cond, v) == r;
      SelectsGive(e, |e.conds|, g);
      var k :| 0 <= k < |e.conds| && g in SelectAt(e, k);
      OneSelect(e, k, v);
    }
    if e.sym.Some? && SelectsTo(e, s, r, v) {
      var k :| 0 <= k < |e.conds| && k < |e.targets| && e.targets[k] == Some(s) &&
        r == Lower(v.tri(e.sym.value), EvalOpt(e.conds[k], v));
      OneSelect(e, k, v);
      var g :| g in SelectAt(e, k);
      SelectsGive(e, |e.conds|, g);
    }
  }

  lemma OneSelect(e: Entry, k: nat, v: Valuation)
    requires k < |e.conds|
    ensures forall g :: g in SelectAt(e, k) ==>
      && e.sym.Some? && k < |e.targets| && e.targets[k] == Some(g.to)
      && Eval(g.cond, v) == Lower(v.tri(e.sym.value), EvalOpt(e.conds[k], v))
    ensures e.sym.Some? && k < |e.targets| && e.targets[k].Some? ==> exists g :: g in SelectAt(e, k)
  {
    if e.sym.Some? && k < |e.targets| && e.targets[k].Some? {
      assert SelectAt(e, k)[0] in SelectAt(e, k);
    }
  }

  lemma OwnMeans(e: Entry, v: Valuation)
    requires Grounded(v)
    ensures OwnGift(e) == [] <==> e.sym.None? || e.optional || e.prompt.None?
    ensures forall g :: g in OwnGift(e) ==> g == OwnGift(e)[0]
    ensures OwnGift(e) != [] ==> OwnGift(e)[0] in OwnGift(e) && OwnGift(e)[0].to == e.sym.value
    ensures OwnGift(e) != [] ==>
      var k := e.prompt.value;
      Eval(OwnGift(e)[0].cond, v) == if k < |e.conds| then Lower(EvalOpt(e.conds[k], v), MOD) else MOD
  {
  }

  lemma EntryGives(e: Entry, s: Sym, r: Tri, v: Valuation)
    requires Grounded(v)
    ensures GivesTo(SelectsOf(e) + OwnGift(e), s, r, v) <==> Forces(e, s, r, v)
  {
    SelectMeans(e, s, r, v);
    OwnMeans(e, v);
    hide SelectsOf, SelectsTo, OwnGift;
    var own := OwnGift(e);
    if GivesTo(SelectsOf(e) + own, s, r, v) {
      var g :| g in SelectsOf(e) + own && g.to == s && Eval(g.cond, v) == r;
      if g in SelectsOf(e) {
        assert GivesTo(SelectsOf(e), s, r, v);
      }
    }
    if Forces(e, s, r, v) {
      if GivesTo(SelectsOf(e), s, r, v) {
        var g :| g in SelectsOf(e) && g.to == s && Eval(g.cond, v) == r;
        assert g in SelectsOf(e) + own;
      } else {
        assert own[0] in SelectsOf(e) + own && own[0].to == s && Eval(own[0].cond, v) == r;
      }
    }
  }

  // some entry of the list forces the symbol to `r`
  ghost predicate SomeForces(f: seq<Tree>, s: Sym, r: Tri, v: Valuation) {
    exists k :: 0 <= k < |f| && Forces(f[k].entry, s, r, v)
  }

  lemma {:induction false} AllGive(f: seq<Tree>, s: Sym, r: Tri, v: Valuation)
    requires Grounded(v)
    ensures GivesTo(AllGifts(f), s, r, v) <==> SomeForces(f, s, r, v)
  {
    hide Forces, SelectsOf, OwnGift;
    if f != [] {
      var a := SelectsOf(f[0].entry) + OwnGift(f[0].entry);
      EntryGives(f[0].entry, s, r, v);
      AllGive(f[1..], s, r, v);
      EitherGives(a, AllGifts(f[1..]), s, r, v);
      if SomeForces(f[1..], s, r, v) {
        var k :| 0 <= k < |f[1..]| && Forces(f[1..][k].entry, s, r, v);
        assert f[k + 1] == f[1..][k];
      }
      if SomeForces(f, s, r, v) && !Forces(f[0].entry, s, r, v) {
        var k :| 0 <= k < |f| && Forces(f[k].entry, s, r, v);
        assert f[1..][k - 1] == f[k];
      }
    }
  }

  lemma EitherGives(a: seq<Gift>, b: seq<Gift>, s: Sym, r: Tri, v: Valuation)
    ensures GivesTo(a + b, s, r, v) <==> GivesTo(a, s, r, v) || GivesTo(b, s, r, v)
  {
    if GivesTo(a + b, s, r, v) {
      var g :| g in a + b && g.to == s && Eval(g.cond, v) == r;
      assert g in a || g in b;
    }
    if GivesTo(a, s, r, v) {
      var g :| g in a && g.to == s && Eval(g.cond, v) == r;
      assert g in a + b;
    }
    if GivesTo(b, s, r, v) {
      var g :| g in b && g.to == s && Eval(g.cond, v) == r;
      assert g in a + b;
    }
  }

  /** A symbol is forced to the highest value that a finished entry forces it to, and not at all
      if none does. */
  lemma ForcedTo(t: Tree, s: Sym, v: Valuation)
    requires Grounded(v) && SelectsOf(t.entry) == []
    ensures var f, r := Flat([Finalize(t, []).0]), RevValue(GiveAll(map[], Gifts(t, [])), s, v);
      && (forall q: Tri :: SomeForces(f, s, q, v) ==> q <= r)
      && (r != NO ==> SomeForces(f, s, r, v))
  {
    RevDepMeans(t, s, v);
    hide Gifts, AllGifts, Flat, Finalize, GiveAll, RevValue, Forces;
    var f, r := Flat([Finalize(t, []).0]), RevValue(GiveAll(map[], Gifts(t, [])), s, v);
    forall q: Tri
      ensures GivesTo(AllGifts(f), s, q, v) <==> SomeForces(f, s, q, v)
    {
      AllGive(f, s, q, v);
    }
  }

  lemma {:induction false} GiveAppend(rev: RevDeps, gs: seq<Gift>, hs: seq<Gift>)
    ensures GiveAll(rev, gs + hs) == GiveAll(GiveAll(rev, gs), hs)
    decreases |hs|
  {
    if hs == [] {
      assert gs + hs == gs;
    } else {
      assert (gs + hs)[..|gs + hs| - 1] == gs + hs[..|hs| - 1];
      GiveAppend(rev, gs, hs[..|hs| - 1]);
    }
  }

  // ---------- step by step ----------

  lemma GiveNone(rev: RevDeps)
    ensures GiveAll(rev, []) == rev && GiveAll(rev, SelectsAll([])) == rev && GiveAll(rev, GiftsAll([])) == rev
  {
  }

  lemma SelectsStep(rev: RevDeps, done: seq<Tree>, u: Tree)
    ensures GiveAll(rev, SelectsAll(done + [u])) == GiveAll(GiveAll(rev, SelectsAll(done)), SelectsOf(u.entry))
  {
    hide SelectsOf;
    SelectsLast(done, u);
    GiveAppend(rev, SelectsAll(done), SelectsOf(u.entry));
  }

  lemma {:induction false} SelectsLast(f: seq<Tree>, u: Tree)
    ensures SelectsAll(f + [u]) == SelectsAll(f) + SelectsOf(u.entry)
  {
    hide SelectsOf;
    if f == [] {
      assert f + [u] == [u];
    } else {
      assert (f + [u])[1..] == f[1..] + [u];
      SelectsLast(f[1..], u);
    }
  }

  lemma GiftsAllStep(rev: RevDeps, f: seq<Tree>)
    requires f != []
    ensures var rev' := GiveAll(rev, Gifts(f[0], f[1..]));
      GiveAll(rev, GiftsAll(f)) == GiveAll(rev', GiftsAll(Finalize(f[0], f[1..]).1))
  {
    GiveAppend(rev, Gifts(f[0], f[1..]), GiftsAll(Finalize(f[0], f[1..]).1));
  }

  lemma GiftsAdoptStep(rev: RevDeps, e: Entry, after: seq<Tree>)
    ensures if after == [] || !AdoptsNext(e, after[0].entry) then GiveAll(rev, GiftsAdopt(e, after)) == rev
      else
        var rev' := GiveAll(rev, Gifts(after[0], after[1..]));
        GiveAll(rev, GiftsAdopt(e, after)) == GiveAll(rev', GiftsAdopt(e, Finalize(after[0], after[1..]).1))
  {
    if after != [] && AdoptsNext(e, after[0].entry) {
      GiveAppend(rev, Gifts(after[0], after[1..]), GiftsAdopt(e, Finalize(after[0], after[1..]).1));
    }
  }

  lemma GiftsSteps(rev: RevDeps, t: Tree, after: seq<Tree>)
    ensures t.kids == [] ==> GiveAll(rev, Gifts(t, after)) == GiveAll(GiveAll(rev, GiftsAdopt(t.entry, after)),
        OwnGift(t.entry))
    ensures t.kids != [] ==>
      var kids := InheritAll(ParentDep(t.entry), t.kids);
      GiveAll(rev, Gifts(t, after)) == GiveAll(GiveAll(GiveAll(rev, SelectsAll(kids)), GiftsAll(kids)),
          OwnGift(t.entry))
  {
    hide SelectsAll, GiftsAll, GiftsAdopt, OwnGift, GiveAll, InheritAll, ParentDep;
    if t.kids == [] {
      GiveAppend(rev, GiftsAdopt(t.entry, after), OwnGift(t.entry));
    } else {
      var kids := InheritAll(ParentDep(t.entry), t.kids);
      GiveAppend(rev, SelectsAll(kids) + GiftsAll(kids), OwnGift(t.entry));
      GiveAppend(rev, SelectsAll(kids), GiftsAll(kids));
    }
  }
}
