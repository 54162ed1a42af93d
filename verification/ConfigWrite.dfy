/** conf_write: the walk over the menu entries along the list, next and parent pointers,
    and what it writes of each symbol (package/config/confdata.c). */
module ConfigWrite {
  import opened Wrappers
  import opened Menu
  import opened MenuLinks
  import opened Config

  /** What an entry stands for: a visible menu or comment, a symbol other than a choice, or
      nothing that is written. */
  datatype Shown = Title(text: string) | OfSymbol(sym: nat) | Nothing

  /** The items of the file, entry by entry: a symbol whose flag SYMBOL_WRITE is set is
      written at its first entry, which clears the flag. */
  function ItemsOf(ids: seq<nat>, shown: map<nat, Shown>, item: map<nat, Item>, write: set<nat>): seq<Item>
    decreases |ids|
  {
    if ids == [] then []
    else
      var what := if ids[0] in shown then shown[ids[0]] else Nothing;
      match what
      case Title(t) => [Heading(t)] + ItemsOf(ids[1..], shown, item, write)
      case OfSymbol(s) =>
        if s in write && s in item then [item[s]] + ItemsOf(ids[1..], shown, item, write - {s})
        else ItemsOf(ids[1..], shown, item, write)
      case Nothing => ItemsOf(ids[1..], shown, item, write)
  }

  // ---------- where the walk goes on ----------

  /** The entries after the list that is being walked: for each menu around it, those that
      follow the menu in its own list. `p` is the menu the list belongs to. */
  ghost predicate Above(h: Links, p: nat, levels: seq<seq<Tree>>)
    decreases levels
  {
    if levels == [] then Get(h.next, p) == None && Get(h.parent, p) == None
    else
      && Get(h.parent, p).Some?
      && Chain(h, levels[0], Get(h.next, p), None, Get(h.parent, p))
      && Above(h, h.parent[p], levels[1..])
  }

  function Ahead(levels: seq<seq<Tree>>): seq<nat> {
    if levels == [] then [] else Preorder(levels[0]) + Ahead(levels[1..])
  }

  // how far the walk still has to go
  function Steps(levels: seq<seq<Tree>>): nat {
    if levels == [] then 0 else CountAll(levels[0]) + Steps(levels[1..])
  }

  /** The walk is at the first entry of `todo`. */
  ghost predicate Walking(h: Links, menu: Option<nat>, todo: seq<Tree>, p: nat, levels: seq<seq<Tree>>) {
    if menu.None? then todo == [] && levels == []
    else todo != [] && Chain(h, todo, menu, None, Some(p)) && Above(h, p, levels)
  }

  lemma WalkDown(h: Links, todo: seq<Tree>, m: nat, p: nat, levels: seq<seq<Tree>>)
    requires Walking(h, Some(m), todo, p, levels) && m in h.list
    ensures Walking(h, Some(h.list[m]), todo[0].kids, m, [todo[1..]] + levels)
    ensures Preorder(todo) + Ahead(levels) == [m] + (Preorder(todo[0].kids) + Ahead([todo[1..]] + levels))
    ensures CountAll(todo[0].kids) + Steps([todo[1..]] + levels) < CountAll(todo) + Steps(levels)
  {
    var t, rest := todo[0], todo[1..];
    assert todo == [t] + rest;
    ChainHead(h, t, rest, Some(m), None, Some(p));
    ChainNil(h, t.kids, Get(h.list, m), Some(m));
    assert ([rest] + levels)[1..] == levels;
    assert Preorder(todo) == [m] + Preorder(t.kids) + Preorder(rest);
    hide Preorder, Chain;
    Regroup3([m], Preorder(t.kids), Preorder(rest), Ahead(levels));
  }

  lemma WalkOn(h: Links, todo: seq<Tree>, m: nat, p: nat, levels: seq<seq<Tree>>)
    requires Walking(h, Some(m), todo, p, levels) && m !in h.list
    ensures Chain(h, todo[1..], Get(h.next, m), None, Some(p)) && Above(h, p, levels) && Get(h.parent, m) == Some(p)
    ensures Preorder(todo) + Ahead(levels) == [m] + (Preorder(todo[1..]) + Ahead(levels))
    ensures CountAll(todo[1..]) + Steps(levels) < CountAll(todo) + Steps(levels)
  {
    var t, rest := todo[0], todo[1..];
    assert todo == [t] + rest;
    ChainHead(h, t, rest, Some(m), None, Some(p));
    ChainNil(h, t.kids, Get(h.list, m), Some(m));
    PreorderCons2(todo);
    CountCons(todo);
    hide Preorder, Chain, CountAll, Count;
    Regroup3([m], Preorder(t.kids), Preorder(rest), Ahead(levels));
    PreorderNil();
  }

  lemma PreorderCons2(f: seq<Tree>)
    requires f != []
    ensures Preorder(f) == [f[0].id] + Preorder(f[0].kids) + Preorder(f[1..])
  {
  }

  lemma CountCons(f: seq<Tree>)
    requires f != []
    ensures CountAll(f) == 1 + CountAll(f[0].kids) + CountAll(f[1..])
  {
  }

  lemma Regroup3(x: seq<nat>, a: seq<nat>, b: seq<nat>, c: seq<nat>)
    ensures (x + a + b) + c == x + (a + (b + c))
    ensures a == [] ==> (x + a + b) + c == x + (b + c)
  {
  }

  // one menu up, the list having come to its end
  lemma WalkUp(h: Links, p: nat, levels: seq<seq<Tree>>)
    requires Above(h, p, levels)
    ensures Get(h.next, p).Some? ==>
      levels != [] && Get(h.parent, p).Some? && Walking(h, Get(h.next, p), levels[0], h.parent[p], levels[1..])
    ensures Get(h.next, p).None? && levels != [] ==>
      Get(h.parent, p).Some? && levels[0] == [] && Above(h, h.parent[p], levels[1..])
    ensures levels == [] ==> Get(h.parent, p).None? && Get(h.next, p).None?
  {
  }

  /** The loop of conf_write. It visits every entry exactly once, in the order in which the
      entries stand in the configuration files, and ends. */
  method WriteEntries(table: MenuTable, root: nat, shown: map<nat, Shown>, item: map<nat, Item>, flags: set<nat>,
      ghost f: seq<Tree>)
    returns (out: string)
    requires Chain(table.Mem(), f, Get(table.list, root), None, Some(root))
    requires Get(table.next, root) == None && Get(table.parent, root) == None
    ensures out == FileText(ItemsOf(Preorder(f), shown, item, flags))
  {
    hide Chain, Preorder, Above, ItemText, ItemsOf, FileText, Ahead;
    ghost var h := table.Mem();
    out := "";
    var write := flags;
    var menu := Get(table.list, root);
    ghost var todo, p, levels: seq<seq<Tree>> := f, root, [];
    StartWalk(h, f, root);
    ghost var all := FileText(ItemsOf(Preorder(f), shown, item, flags));
    AheadEnds();
    assert Preorder(f) + Ahead([]) == Preorder(f);
    while menu.Some?
      invariant Walking(h, menu, todo, p, levels)
      invariant all == out + FileText(ItemsOf(Preorder(todo) + Ahead(levels), shown, item, write))
      decreases CountAll(todo) + Steps(levels)
    {
      var m := menu.value;
      ghost var ids := if m in table.list then Preorder(todo[0].kids) + Ahead([todo[1..]] + levels)
        else Preorder(todo[1..]) + Ahead(levels);
      if m in table.list {
        WalkDown(h, todo, m, p, levels);
      } else {
        WalkOn(h, todo, m, p, levels);
      }
      var text;
      text, write := WriteEntry(m, shown, item, write, ids);
      Joined(out, text, FileText(ItemsOf(ids, shown, item, write)));
      out := out + text;
      if m in table.list {
        menu := Some(table.list[m]);
        todo, p, levels := todo[0].kids, m, [todo[1..]] + levels;
      } else if m in table.next {
        ListNotEmpty(h, todo[1..], m, p);
        menu := Some(table.next[m]);
        todo := todo[1..];
      } else {
        ListEnds(h, todo[1..], p);
        PreorderNil();
        assert [] + Ahead(levels) == Ahead(levels);
        menu, todo, p, levels := Climb(table, m, p, levels);
        assert all == out + FileText(ItemsOf(ids, shown, item, write));
      }
    }
    PreorderNil();
    assert Preorder(todo) + Ahead(levels) == [];
    NoItems(shown, item, write);
    assert out + "" == out;
  }

  lemma Joined(a: string, b: string, c: string)
    ensures a + (b + c) == (a + b) + c
  {
  }

  // what is written for one entry
  method WriteEntry(m: nat, shown: map<nat, Shown>, item: map<nat, Item>, flags: set<nat>, ghost ids: seq<nat>)
    returns (text: string, write: set<nat>)
    ensures FileText(ItemsOf([m] + ids, shown, item, flags)) == text + FileText(ItemsOf(ids, shown, item, write))
  {
    hide ItemText, ItemsOf;
    WriteOne(m, ids, shown, item, flags);
    var what := if m in shown then shown[m] else Nothing;
    text, write := "", flags;
    if what.Title? {
      text := ItemText(Heading(what.text));
    } else if what.OfSymbol? && what.sym in write && what.sym in item {
      write := write - {what.sym};
      text := ItemText(item[what.sym]);
    }
  }

  // while ((menu = menu->parent)) if (menu->next) ...
  method Climb(table: MenuTable, m: nat, ghost p: nat, ghost levels: seq<seq<Tree>>)
    returns (menu: Option<nat>, ghost todo': seq<Tree>, ghost p': nat, ghost levels': seq<seq<Tree>>)
    requires Get(table.parent, m) == Some(p) && Above(table.Mem(), p, levels)
    ensures Walking(table.Mem(), menu, todo', p', levels')
    ensures Preorder(todo') + Ahead(levels') == Ahead(levels)
    ensures CountAll(todo') + Steps(levels') == Steps(levels)
  {
    hide Chain, Above, Preorder;
    ghost var h := table.Mem();
    ghost var top := false;
    var cur := m;
    p', levels' := p, levels;
    PreorderNil();
    while cur in table.parent
      invariant if top then Get(table.parent, cur) == None && levels' == []
        else Get(table.parent, cur) == Some(p') && Above(h, p', levels')
      invariant Ahead(levels') == Ahead(levels) && Steps(levels') == Steps(levels)
      decreases if top then 0 else 1 + |levels'|
    {
      cur := table.parent[cur];
      WalkUp(h, p', levels');
      if cur in table.next {
        return Some(table.next[cur]), levels'[0], table.parent[cur], levels'[1..];
      }
      if levels' == [] {
        top := true;
      } else {
        AheadNone(levels');
        p', levels' := table.parent[cur], levels'[1..];
      }
    }
    menu, todo' := None, [];
  }

  lemma AheadNone(levels: seq<seq<Tree>>)
    requires levels != [] && levels[0] == []
    ensures Ahead(levels) == Ahead(levels[1..]) && Steps(levels) == Steps(levels[1..])
  {
    assert Preorder([]) + Ahead(levels[1..]) == Ahead(levels[1..]);
  }

  lemma AheadEnds()
    ensures Ahead([]) == []
  {
  }

  lemma StartWalk(h: Links, f: seq<Tree>, root: nat)
    requires Chain(h, f, Get(h.list, root), None, Some(root)) && Get(h.next, root) == None &&
        Get(h.parent, root) == None
    ensures Walking(h, Get(h.list, root), f, root, [])
  {
  }

  lemma ListNotEmpty(h: Links, f: seq<Tree>, m: nat, p: nat)
    requires Chain(h, f, Get(h.next, m), None, Some(p)) && m in h.next
    ensures f != []
  {
  }

  lemma ListEnds(h: Links, f: seq<Tree>, p: nat)
    requires Chain(h, f, None, None, Some(p))
    ensures f == []
  {
  }

  lemma NoItems(shown: map<nat, Shown>, item: map<nat, Item>, write: set<nat>)
    ensures FileText(ItemsOf([], shown, item, write)) == ""
  {
  }

  // what one entry adds to the file
  lemma WriteOne(m: nat, ids: seq<nat>, shown: map<nat, Shown>, item: map<nat, Item>, write: set<nat>)
    ensures var what := if m in shown then shown[m] else Nothing;
      FileText(ItemsOf([m] + ids, shown, item, write)) ==
        if what.Title? then ItemText(Heading(what.text)) + FileText(ItemsOf(ids, shown, item, write))
        else if what.OfSymbol? && what.sym in write && what.sym in item then
          ItemText(item[what.sym]) + FileText(ItemsOf(ids, shown, item, write - {what.sym}))
        else FileText(ItemsOf(ids, shown, item, write))
  {
    hide ItemText;
    assert ([m] + ids)[1..] == ids;
  }

  // ---------- what is in the file ----------

  // every symbol is written under its own name
  predicate OwnNames(item: map<nat, Item>) {
    && (forall s :: s in item ==> item[s].Entry?)
    && (forall s, t :: s in item && t in item && s != t ==> item[s].name != item[t].name)
  }

  predicate ShownBy(shown: map<nat, Shown>, ids: seq<nat>, s: nat) {
    exists i :: 0 <= i < |ids| && ids[i] in shown && shown[ids[i]] == OfSymbol(s)
  }

  /** Which items the file has: a symbol's if and only if its flag is set and some entry
      shows it. */
  lemma {:induction false} WrittenIff(ids: seq<nat>, shown: map<nat, Shown>, item: map<nat, Item>, write: set<nat>,
      s: nat)
    requires OwnNames(item) && s in item
    ensures item[s] in ItemsOf(ids, shown, item, write) <==> s in write && ShownBy(shown, ids, s)
    decreases |ids|
  {
    if ids != [] {
      var what := if ids[0] in shown then shown[ids[0]] else Nothing;
      var w := if what.OfSymbol? && what.sym in write && what.sym in item then write - {what.sym} else write;
      WrittenIff(ids[1..], shown, item, w, s);
      ShownCons(ids, shown, s);
    }
  }

  lemma ShownCons(ids: seq<nat>, shown: map<nat, Shown>, s: nat)
    requires ids != []
    ensures ShownBy(shown, ids, s) <==> (ids[0] in shown && shown[ids[0]] == OfSymbol(s)) || ShownBy(shown, ids[1..], s)
  {
    if ShownBy(shown, ids[1..], s) {
      var i :| 0 <= i < |ids[1..]| && ids[1..][i] in shown && shown[ids[1..][i]] == OfSymbol(s);
      assert ids[i + 1] == ids[1..][i];
    }
    if ShownBy(shown, ids, s) {
      var i :| 0 <= i < |ids| && ids[i] in shown && shown[ids[i]] == OfSymbol(s);
      if i > 0 {
        assert ids[1..][i - 1] == ids[i];
      }
    }
  }

  /** No symbol is written twice, however many entries it has. */
  lemma {:induction false} WrittenOnce(ids: seq<nat>, shown: map<nat, Shown>, item: map<nat, Item>, write: set<nat>)
    requires OwnNames(item)
    ensures DistinctNames(ItemsOf(ids, shown, item, write))
    ensures forall i :: i in ItemsOf(ids, shown, item, write) && i.Entry? ==>
        exists s :: s in write && s in item && item[s] == i
    decreases |ids|
  {
    if ids != [] {
      var what := if ids[0] in shown then shown[ids[0]] else Nothing;
      var w := if what.OfSymbol? && what.sym in write && what.sym in item then write - {what.sym} else write;
      WrittenOnce(ids[1..], shown, item, w);
    }
  }

  /** Of the symbols whose flag is set and that an entry shows, each is read with the value it
      had, and no other symbol is set. */
  ghost predicate ReadBackAll(r: Settings, ids: seq<nat>, shown: map<nat, Shown>, item: map<nat, Item>, write: set<nat>)
    requires OwnNames(item)
  {
    && (forall s :: s in item && s in write && ShownBy(shown, ids, s) ==>
        item[s].name in r && r[item[s].name] == item[s].val)
    && (forall n :: n in r ==> exists s :: s in item && s in write && ShownBy(shown, ids, s) && item[s].name == n)
  }

  /** What conf_write has written, conf_read reads back, if and only if the items of the file
      are faithful. */
  lemma WrittenConfigReadsBackIff(types: Types, ids: seq<nat>, shown: map<nat, Shown>, item: map<nat, Item>,
      write: set<nat>)
    requires OwnNames(item) && forall i :: i in ItemsOf(ids, shown, item, write) ==> Writable(types, i)
    ensures var items := ItemsOf(ids, shown, item, write);
      ReadBackAll(ReadFrom(types, map[], FileText(items)), ids, shown, item, write) <==> Faithful(types, items)
  {
    hide ItemsOf, ReadFrom, FileText, Writable, Faithful, ShownBy;
    var items := ItemsOf(ids, shown, item, write);
    var r := ReadFrom(types, map[], FileText(items));
    WrittenOnce(ids, shown, item, write);
    ConfigRoundTripIff(types, items);
    forall s | s in item
      ensures item[s] in items <==> s in write && ShownBy(shown, ids, s)
    {
      WrittenIff(ids, shown, item, write, s);
    }
    forall k | 0 <= k < |items| && items[k].Entry?
      ensures exists s :: s in item && s in write && ShownBy(shown, ids, s) && item[s] == items[k]
    {
      assert items[k] in items;
    }
    if GivesBack(types, items) {
      forall s | s in item && s in write && ShownBy(shown, ids, s)
        ensures item[s].name in r && r[item[s].name] == item[s].val
      {
        var k :| 0 <= k < |items| && items[k] == item[s];
      }
      assert ReadBackAll(r, ids, shown, item, write);
    }
    if ReadBackAll(r, ids, shown, item, write) {
      forall n | n in r
        ensures exists k :: 0 <= k < |items| && items[k].Entry? && items[k].name == n
      {
        var s :| s in item && s in write && ShownBy(shown, ids, s) && item[s].name == n;
        var k :| 0 <= k < |items| && items[k] == item[s];
      }
      assert GivesBack(types, items);
    }
  }

  // ---------- order and headings ----------

  // the flags that are still set when the entries have been visited
  function FlagsAfter(ids: seq<nat>, shown: map<nat, Shown>, item: map<nat, Item>, write: set<nat>): set<nat>
    decreases |ids|
  {
    if ids == [] then write
    else
      var what := if ids[0] in shown then shown[ids[0]] else Nothing;
      FlagsAfter(ids[1..], shown, item, if what.OfSymbol? && what.sym in item then write - {what.sym} else write)
  }

  /** What is written for entries that come first comes first. */
  lemma {:induction false} ItemsInOrder(a: seq<nat>, b: seq<nat>, shown: map<nat, Shown>, item: map<nat, Item>,
      write: set<nat>)
    ensures ItemsOf(a + b, shown, item, write) ==
      ItemsOf(a, shown, item, write) + ItemsOf(b, shown, item, FlagsAfter(a, shown, item, write))
    decreases |a|
  {
    if a == [] {
      assert a + b == b;
    } else {
      assert (a + b)[1..] == a[1..] + b && (a + b)[0] == a[0];
      var what := if a[0] in shown then shown[a[0]] else Nothing;
      var w := if what.OfSymbol? && what.sym in item then write - {what.sym} else write;
      assert what.OfSymbol? && what.sym !in write ==> w == write;
      ItemsInOrder(a[1..], b, shown, item, w);
    }
  }

  function Titled(ids: seq<nat>, shown: map<nat, Shown>, t: string): nat {
    if ids == [] then 0
    else Titled(ids[1..], shown, t) + if ids[0] in shown && shown[ids[0]] == Title(t) then 1 else 0
  }

  /** Every visible menu or comment is written as one heading, and nothing else is. */
  lemma {:induction false} HeadingsWritten(ids: seq<nat>, shown: map<nat, Shown>, item: map<nat, Item>, write: set<nat>,
      t: string)
    requires OwnNames(item)
    ensures multiset(ItemsOf(ids, shown, item, write))[Heading(t)] == Titled(ids, shown, t)
    decreases |ids|
  {
    if ids != [] {
      var what := if ids[0] in shown then shown[ids[0]] else Nothing;
      var w := if what.OfSymbol? && what.sym in write && what.sym in item then write - {what.sym} else write;
      HeadingsWritten(ids[1..], shown, item, w, t);
    }
  }
}
