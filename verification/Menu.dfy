/** What menu_finalize makes of the menu tree (package/config/menu.c), as a function on
    rose trees: dependencies are handed down, entries that depend on the one before them
    become its submenu, and the children of entries without a prompt move up. */
module Menu {
  import opened Wrappers
  import opened Exprs
  import opened Negation
  import opened Simplify
  import opened Dependence

  /** struct menu without its links. `conds` are the conditions of the properties that
      belong to the entry, `targets` what those that are selects select; `prompt` says which
      of them is the prompt. `optional` is a flag of the symbol that only choices may lack. */
  datatype Entry = Entry(sym: Option<Sym>, isChoice: bool, optional: bool, dep: Option<Expr>,
    conds: seq<Option<Expr>>, targets: seq<Option<Sym>>, prompt: Option<nat>)

  datatype Tree = Node(id: nat, entry: Entry, kids: seq<Tree>)

  // ---------- handing down dependencies ----------

  function PromptCond(e: Entry): Option<Expr> {
    if e.prompt.Some? && e.prompt.value < |e.conds| then e.conds[e.prompt.value] else None
  }

  // what an entry contributes to the dependencies of its children
  function ParentDep(e: Entry): Option<Expr> {
    if e.isChoice && e.sym.Some? then Some(Symbol(e.sym.value))
    else if e.prompt.Some? then PromptCond(e)
    else e.dep
  }

  // expr_eliminate_dups(expr_alloc_and(outer, expr_transform(own)))
  function Restrict(outer: Option<Expr>, own: Option<Expr>): Option<Expr> {
    var t := if own.None? then None else Some(Transform(own.value));
    var both := AllocTwo(AndOp, outer, t);
    if both.None? then None else Some(EliminateDups(both.value))
  }

  function RestrictCond(e: Entry, dep: Option<Expr>, cond: Option<Expr>): Option<Expr> {
    var r := Restrict(dep, cond);
    if e.sym.Some? && TypeOf(e.sym.value) != Tristate && r.Some? then Some(TransBool(r.value)) else r
  }

  function Inherit(outer: Option<Expr>, e: Entry): (r: Entry)
    ensures r.sym == e.sym && r.prompt == e.prompt && r.isChoice == e.isChoice && |r.conds| == |e.conds|
  {
    var dep := Restrict(outer, e.dep);
    e.(dep := dep, conds := seq(|e.conds|, i requires 0 <= i < |e.conds| => RestrictCond(e, dep, e.conds[i])))
  }

  function InheritAll(outer: Option<Expr>, f: seq<Tree>): (r: seq<Tree>)
    ensures |r| == |f|
    ensures forall i :: 0 <= i < |f| ==> r[i] == f[i].(entry := Inherit(outer, f[i].entry))
  {
    seq(|f|, i requires 0 <= i < |f| => f[i].(entry := Inherit(outer, f[i].entry)))
  }

  lemma InheritCons(outer: Option<Expr>, f: seq<Tree>)
    ensures f == [] ==> InheritAll(outer, f) == []
    ensures f != [] ==> InheritAll(outer, f) == [f[0].(entry := Inherit(outer, f[0].entry))] + InheritAll(outer, f[1..])
  {
    hide Inherit;
  }

  // ---------- the shape ----------

  function Count(t: Tree): (n: nat)
    ensures n >= 1
  {
    1 + CountAll(t.kids)
  }

  function CountAll(f: seq<Tree>): nat {
    if f == [] then 0 else Count(f[0]) + CountAll(f[1..])
  }

  // the condition by which a following entry is tried for adoption
  function OwnCond(e: Entry): Option<Expr> {
    if e.prompt.Some? then PromptCond(e) else e.dep
  }

  predicate AdoptsNext(e: Entry, next: Entry) {
    e.sym.Some? && Adopts(OwnCond(next), PromptCond(e), e.sym.value)
  }

  /** menu_finalize on an entry and the entries that follow it in its list: the finished
      entry, and those of the following that it did not take over. */
  function Finalize(t: Tree, after: seq<Tree>): (r: (Tree, seq<Tree>))
    ensures Count(r.0) + CountAll(r.1) == Count(t) + CountAll(after)
    decreases Count(t) + CountAll(after), 0
  {
    if t.kids != [] then
      InheritCount(ParentDep(t.entry), t.kids);
      var kids := FinalizeAll(InheritAll(ParentDep(t.entry), t.kids));
      (t.(kids := MoveUp(kids)), after)
    else
      var a := Adopt(t.entry, after);
      (t.(kids := MoveUp(a.0)), a.1)
  }

  function FinalizeAll(f: seq<Tree>): (r: seq<Tree>)
    ensures CountAll(r) == CountAll(f)
    decreases CountAll(f), 1
  {
    if f == [] then []
    else
      var a := Finalize(f[0], f[1..]);
      var b := FinalizeAll(a.1);
      assert ([a.0] + b)[1..] == b;
      [a.0] + b
  }

  // the loop over the following siblings
  function Adopt(e: Entry, after: seq<Tree>): (r: (seq<Tree>, seq<Tree>))
    ensures CountAll(r.0) + CountAll(r.1) == CountAll(after)
    decreases CountAll(after), 2
  {
    if after == [] || !AdoptsNext(e, after[0].entry) then ([], after)
    else
      var a := Finalize(after[0], after[1..]);
      var b := Adopt(e, a.1);
      assert ([a.0] + b.0)[1..] == b.0;
      ([a.0] + b.0, b.1)
  }

  /** The children of an entry without a prompt become its following siblings; they are
      looked at in their turn. */
  function MoveUp(f: seq<Tree>): (r: seq<Tree>)
    ensures CountAll(r) == CountAll(f)
    decreases CountAll(f)
  {
    if f == [] then []
    else if f[0].kids != [] && f[0].entry.prompt.None? then
      CountAppend(f[0].kids, f[1..]);
      assert Count(f[0]) == 1 + CountAll(f[0].kids) && Count(f[0].(kids := [])) == 1;
      var rest := MoveUp(f[0].kids + f[1..]);
      assert ([f[0].(kids := [])] + rest)[1..] == rest;
      [f[0].(kids := [])] + rest
    else
      var rest := MoveUp(f[1..]);
      assert ([f[0]] + rest)[1..] == rest;
      [f[0]] + rest
  }

  lemma {:induction false} CountAppend(f: seq<Tree>, g: seq<Tree>)
    ensures CountAll(f + g) == CountAll(f) + CountAll(g)
  {
    if f == [] {
      assert f + g == g;
    } else {
      assert (f + g)[1..] == f[1..] + g;
      CountAppend(f[1..], g);
    }
  }

  lemma {:induction false} InheritCount(outer: Option<Expr>, f: seq<Tree>)
    ensures CountAll(InheritAll(outer, f)) == CountAll(f)
  {
    if f != [] {
      assert InheritAll(outer, f)[1..] == InheritAll(outer, f[1..]);
      InheritCount(outer, f[1..]);
    }
  }

  // ---------- nothing is lost, doubled or reordered ----------

  // the ids in the order in which the entries stand in the configuration files
  function Preorder(f: seq<Tree>): seq<nat> {
    if f == [] then [] else [f[0].id] + Preorder(f[0].kids) + Preorder(f[1..])
  }

  // the entries themselves in that order
  function Flat(f: seq<Tree>): seq<Tree> {
    if f == [] then [] else [f[0].(kids := [])] + Flat(f[0].kids) + Flat(f[1..])
  }

  /** What the entries hold once dependencies have been handed down all the way, the shape
      of the tree left alone. */
  function Handed(t: Tree): (r: Tree)
    ensures r.id == t.id && r.entry == t.entry
    decreases Count(t), 0
  {
    InheritCount(ParentDep(t.entry), t.kids);
    t.(kids := HandedAll(InheritAll(ParentDep(t.entry), t.kids)))
  }

  function HandedAll(f: seq<Tree>): (r: seq<Tree>)
    ensures |r| == |f|
    decreases CountAll(f), 1
  {
    if f == [] then [] else [Handed(f[0])] + HandedAll(f[1..])
  }

  lemma {:induction false} FlatAppend(f: seq<Tree>, g: seq<Tree>)
    ensures Flat(f + g) == Flat(f) + Flat(g)
  {
    if f == [] {
      assert f + g == g;
    } else {
      assert (f + g)[1..] == f[1..] + g;
      FlatAppend(f[1..], g);
    }
  }

  lemma FlatOne(t: Tree)
    ensures Flat([t]) == [t.(kids := [])] + Flat(t.kids)
  {
    assert [t][1..] == [];
  }

  lemma FlatCons(t: Tree, f: seq<Tree>)
    ensures Flat([t] + f) == Flat([t]) + Flat(f)
  {
    FlatAppend([t], f);
  }

  lemma {:induction false} MoveUpFlat(f: seq<Tree>)
    ensures Flat(MoveUp(f)) == Flat(f)
    decreases CountAll(f)
  {
    if f != [] {
      var k, rest := f[0], f[1..];
      assert f == [k] + rest;
      FlatCons(k, rest);
      FlatOne(k);
      if k.kids != [] && k.entry.prompt.None? {
        CountAppend(k.kids, rest);
        assert Count(k) == 1 + CountAll(k.kids);
        MoveUpFlat(k.kids + rest);
        FlatAppend(k.kids, rest);
        FlatCons(k.(kids := []), MoveUp(k.kids + rest));
        FlatOne(k.(kids := []));
      } else {
        MoveUpFlat(rest);
        FlatCons(k, MoveUp(rest));
      }
    }
  }

  /** Adoption and moving up keep the entries in the order of the configuration files, and
      keep what they hold: it is what handing down the dependencies along the original
      tree gives them. */
  lemma {:induction false} FinalizeFlat(t: Tree, after: seq<Tree>)
    ensures var r := Finalize(t, after);
        Flat([r.0]) + Flat(HandedAll(r.1)) == Flat([Handed(t)]) + Flat(HandedAll(after))
    decreases Count(t) + CountAll(after), 0
  {
    hide Flat, MoveUp;
    if t.kids != [] {
      var kids := InheritAll(ParentDep(t.entry), t.kids);
      InheritCount(ParentDep(t.entry), t.kids);
      FinalizeAllFlat(kids);
      MoveUpFlat(FinalizeAll(kids));
      SameKidsFlat(t, Handed(t), MoveUp(FinalizeAll(kids)));
    } else {
      var a := Adopt(t.entry, after);
      AdoptFlat(t.entry, after);
      MoveUpFlat(a.0);
      assert Handed(t) == t;
      NewKidsFlat(t, MoveUp(a.0), HandedAll(a.1), HandedAll(after));
    }
  }

  lemma SameKidsFlat(t: Tree, h: Tree, kids: seq<Tree>)
    requires h.id == t.id && h.entry == t.entry && Flat(kids) == Flat(h.kids)
    ensures Flat([t.(kids := kids)]) == Flat([h])
  {
    FlatOne(t.(kids := kids));
    FlatOne(h);
  }

  lemma NewKidsFlat(t: Tree, kids: seq<Tree>, rest: seq<Tree>, after: seq<Tree>)
    requires t.kids == [] && Flat(kids) + Flat(rest) == Flat(after)
    ensures Flat([t.(kids := kids)]) + Flat(rest) == Flat([t]) + Flat(after)
  {
    hide Flat;
    FlatOne(t.(kids := kids));
    FlatOne(t);
    FlatNil();
    assert [t.(kids := [])] + Flat(kids) + Flat(rest) == [t.(kids := [])] + (Flat(kids) + Flat(rest));
  }

  lemma FlatNil()
    ensures Flat([]) == []
  {
  }

  lemma {:induction false} FinalizeAllFlat(f: seq<Tree>)
    ensures Flat(FinalizeAll(f)) == Flat(HandedAll(f))
    decreases CountAll(f), 1
  {
    if f != [] {
      hide Flat;
      var a := Finalize(f[0], f[1..]);
      FinalizeFlat(f[0], f[1..]);
      FinalizeAllFlat(a.1);
      FlatCons(a.0, FinalizeAll(a.1));
      FlatCons(Handed(f[0]), HandedAll(f[1..]));
    }
  }

  lemma {:induction false} AdoptFlat(e: Entry, after: seq<Tree>)
    ensures var r := Adopt(e, after); Flat(r.0) + Flat(HandedAll(r.1)) == Flat(HandedAll(after))
    decreases CountAll(after), 2
  {
    hide Flat;
    FlatNil();
    if after != [] && AdoptsNext(e, after[0].entry) {
      var a := Finalize(after[0], after[1..]);
      var b := Adopt(e, a.1);
      FinalizeFlat(after[0], after[1..]);
      AdoptFlat(e, a.1);
      FlatCons(Handed(after[0]), HandedAll(after[1..]));
      TakenFlat(a.0, b.0, b.1, a.1);
    }
  }

  lemma TakenFlat(t: Tree, more: seq<Tree>, rest: seq<Tree>, left: seq<Tree>)
    requires Flat(more) + Flat(HandedAll(rest)) == Flat(HandedAll(left))
    ensures Flat([t] + more) + Flat(HandedAll(rest)) == Flat([t]) + Flat(HandedAll(left))
  {
    hide Flat, HandedAll;
    FlatCons(t, more);
    assert Flat([t]) + Flat(more) + Flat(HandedAll(rest)) == Flat([t]) + (Flat(more) + Flat(HandedAll(rest)));
  }

  // ---------- the same for the ids ----------

  function Ids(f: seq<Tree>): (s: seq<nat>)
    ensures |s| == |f|
  {
    seq(|f|, i requires 0 <= i < |f| => f[i].id)
  }

  lemma {:induction false} FlatIds(f: seq<Tree>)
    ensures Ids(Flat(f)) == Preorder(f)
  {
    if f != [] {
      FlatIds(f[0].kids);
      FlatIds(f[1..]);
      IdsAppend([f[0].(kids := [])], Flat(f[0].kids));
      IdsAppend([f[0].(kids := [])] + Flat(f[0].kids), Flat(f[1..]));
    }
  }

  lemma IdsAppend(f: seq<Tree>, g: seq<Tree>)
    ensures Ids(f + g) == Ids(f) + Ids(g)
  {
  }

  lemma {:induction false} PreorderAppend(f: seq<Tree>, g: seq<Tree>)
    ensures Preorder(f + g) == Preorder(f) + Preorder(g)
  {
    FlatAppend(f, g);
    FlatIds(f);
    FlatIds(g);
    FlatIds(f + g);
    IdsAppend(Flat(f), Flat(g));
  }

  lemma PreorderOne(t: Tree)
    ensures Preorder([t]) == [t.id] + Preorder(t.kids)
  {
    assert [t][1..] == [];
  }

  lemma {:induction false} InheritPreorder(outer: Option<Expr>, f: seq<Tree>)
    ensures Preorder(InheritAll(outer, f)) == Preorder(f)
  {
    if f != [] {
      assert InheritAll(outer, f)[1..] == InheritAll(outer, f[1..]);
      InheritPreorder(outer, f[1..]);
    }
  }

  lemma {:induction false} HandedPreorder(f: seq<Tree>)
    ensures Preorder(HandedAll(f)) == Preorder(f)
    decreases CountAll(f)
  {
    if f != [] {
      var kids := InheritAll(ParentDep(f[0].entry), f[0].kids);
      InheritCount(ParentDep(f[0].entry), f[0].kids);
      assert CountAll(kids) < Count(f[0]);
      InheritPreorder(ParentDep(f[0].entry), f[0].kids);
      HandedPreorder(kids);
      HandedPreorder(f[1..]);
      assert HandedAll(f)[1..] == HandedAll(f[1..]);
    }
  }

  lemma MoveUpPreorder(f: seq<Tree>)
    ensures Preorder(MoveUp(f)) == Preorder(f)
  {
    MoveUpFlat(f);
    FlatIds(f);
    FlatIds(MoveUp(f));
  }

  /** None is lost, doubled or reordered. */
  lemma FinalizePreorder(t: Tree, after: seq<Tree>)
    ensures var r := Finalize(t, after); Preorder([r.0]) + Preorder(r.1) == Preorder([t]) + Preorder(after)
  {
    hide Finalize, Flat, Preorder, Handed;
    var r := Finalize(t, after);
    FinalizeFlat(t, after);
    assert HandedAll([t]) == [Handed(t)];
    HandedPreorder([t]);
    HandedIds([r.0], r.1, [Handed(t)], after);
  }

  lemma HandedIds(f: seq<Tree>, g: seq<Tree>, f': seq<Tree>, g': seq<Tree>)
    requires Flat(f) + Flat(HandedAll(g)) == Flat(f') + Flat(HandedAll(g'))
    ensures Preorder(f) + Preorder(g) == Preorder(f') + Preorder(g')
  {
    hide Flat, Preorder;
    FlatIds(f);
    FlatIds(f');
    FlatIds(HandedAll(g));
    FlatIds(HandedAll(g'));
    HandedPreorder(g);
    HandedPreorder(g');
    IdsAppend(Flat(f), Flat(HandedAll(g)));
    IdsAppend(Flat(f'), Flat(HandedAll(g')));
  }

  lemma FinalizeAllPreorder(f: seq<Tree>)
    ensures Preorder(FinalizeAll(f)) == Preorder(f)
  {
    FinalizeAllFlat(f);
    FlatIds(FinalizeAll(f));
    FlatIds(HandedAll(f));
    HandedPreorder(f);
  }

  lemma AdoptPreorder(e: Entry, after: seq<Tree>)
    ensures var r := Adopt(e, after); Preorder(r.0) + Preorder(r.1) == Preorder(after)
  {
    hide Adopt, Flat, Preorder;
    var r := Adopt(e, after);
    AdoptFlat(e, after);
    FlatNil();
    PreorderNil();
    HandedIds(r.0, r.1, [], after);
  }

  lemma PreorderNil()
    ensures Preorder([]) == []
  {
  }

  /** No entry without a prompt keeps children, one level below a finished entry. */
  lemma {:induction false} MoveUpFlattens(f: seq<Tree>)
    ensures forall k :: k in MoveUp(f) ==> k.kids == [] || k.entry.prompt.Some?
    decreases CountAll(f)
  {
    if f != [] {
      var k := f[0];
      if k.kids != [] && k.entry.prompt.None? {
        CountAppend(k.kids, f[1..]);
        assert Count(k) == 1 + CountAll(k.kids);
        MoveUpFlattens(k.kids + f[1..]);
      } else {
        MoveUpFlattens(f[1..]);
      }
    }
  }
}
