/** How the parser links the menu entries it reads: menu_add_entry, menu_add_menu and
    menu_end_menu, which append through the pointer last_entry_ptr
    (package/config/menu.c). */
module MenuBuild {
  import opened Wrappers
  import opened Menu
  import opened MenuLinks
  import opened Selecting

  // ---------- the tree being built ----------

  // The innermost open menu of a forest is reached by going to the last child as many
  // times as there are open menus.

  predicate HasDepth(f: seq<Tree>, d: nat) {
    d > 0 ==> f != [] && HasDepth(f[|f| - 1].kids, d - 1)
  }

  // the entry whose children are being added, `root` being above them all
  function OpenAt(f: seq<Tree>, d: nat, root: nat): nat
    requires HasDepth(f, d)
  {
    if d == 0 then root else OpenAt(f[|f| - 1].kids, d - 1, f[|f| - 1].id)
  }

  // its children so far
  function Level(f: seq<Tree>, d: nat): seq<Tree>
    requires HasDepth(f, d)
  {
    if d == 0 then f else Level(f[|f| - 1].kids, d - 1)
  }

  function AddAt(f: seq<Tree>, d: nat, t: Tree): (r: seq<Tree>)
    requires HasDepth(f, d)
    ensures r != [] && HasDepth(r, d)
    decreases d, |f|
  {
    if d == 0 && f == [] then [t]
    else if |f| == 1 && d > 0 then [f[0].(kids := AddAt(f[0].kids, d - 1, t))]
    else [f[0]] + AddAt(f[1..], d, t)
  }

  // ---------- the pointer to append through ----------

  datatype Ptr = NextOf(id: nat) | ListOf(id: nat)

  function PtrAt(f: seq<Tree>, d: nat, root: nat): Ptr
    requires HasDepth(f, d)
  {
    var l := Level(f, d);
    if l == [] then ListOf(OpenAt(f, d, root)) else NextOf(LastId(l))
  }

  // *p = i
  function Write(h: Links, p: Ptr, i: nat): Links {
    match p
    case NextOf(k) => h.(next := h.next[k := i])
    case ListOf(k) => h.(list := h.list[k := i])
  }

  // a new entry is filled in and hooked up
  function Append(h: Links, p: Ptr, i: nat, par: nat, e: Entry): Links {
    var h1 := h.(parent := h.parent[i := par], entry := h.entry[i := e], next := h.next - {i}, list := h.list - {i});
    Write(h1, p, i)
  }

  lemma {:induction false} PtrInside(f: seq<Tree>, d: nat, root: nat)
    requires HasDepth(f, d)
    ensures PtrAt(f, d, root).id == root || PtrAt(f, d, root).id in Preorder(f)
    ensures f != [] ==> PtrAt(f, d, root).id in Preorder(f)
    ensures f == [] ==> PtrAt(f, d, root) == ListOf(root)
    decreases d
  {
    if f != [] {
      LastInside(f);
      if d > 0 {
        PtrInside(f[|f| - 1].kids, d - 1, f[|f| - 1].id);
      }
    }
  }

  lemma {:induction false} LastInside(f: seq<Tree>)
    requires f != []
    ensures var t := f[|f| - 1]; t.id in Preorder(f) && forall x :: x in Preorder(t.kids) ==> x in Preorder(f)
  {
    PreorderCons(f);
    if |f| > 1 {
      LastInside(f[1..]);
    }
  }

  lemma PtrRest(f: seq<Tree>, d: nat, root: nat)
    requires |f| > 1 && HasDepth(f, d)
    ensures HasDepth(f[1..], d) && PtrAt(f, d, root) == PtrAt(f[1..], d, root) &&
        OpenAt(f, d, root) == OpenAt(f[1..], d, root)
  {
    assert f[|f| - 1] == f[1..][|f[1..]| - 1];
  }

  /** Appending through the pointer adds one entry at the open place and moves nothing. */
  lemma {:induction false} Appended(h: Links, f: seq<Tree>, d: nat, root: nat, from: Option<nat>, i: nat, e: Entry)
    requires HasDepth(f, d) && Chain(h, f, from, None, Some(root)) && Distinct(Preorder(f))
    requires i !in Preorder(f) && i != root && root !in Preorder(f)
    ensures var h' := Append(h, PtrAt(f, d, root), i, OpenAt(f, d, root), e);
      Chain(h', AddAt(f, d, Node(i, e, [])), if f == [] then Some(i) else from, None, Some(root))
    decreases d, |f|
  {
    hide Preorder, Chain, Append, AddAt, PtrAt, OpenAt;
    var p := PtrAt(f, d, root);
    var h' := Append(h, p, i, OpenAt(f, d, root), e);
    PtrInside(f, d, root);
    AddAtRules(f, d, Node(i, e, []));
    if f == [] {
      AppendedAlone(h, f, d, root, from, i, e);
    } else {
      var t, rest := f[0], f[1..];
      assert f == [t] + rest;
      DistinctForest(t, rest);
      ChainHead(h, t, rest, from, None, Some(root));
      PreorderCons(f);
      if rest != [] {
        PtrRest(f, d, root);
        AppendedFirst(h, t, rest, d, root, from, i, e);
        Appended(h, rest, d, root, Get(h.next, t.id), i, e);
        ChainAppend(h', [t], AddAt(rest, d, Node(i, e, [])), from, Get(h.next, t.id), None, Some(root));
      } else if d == 0 {
        assert f == [t];
        assert p == NextOf(t.id) && OpenAt(f, d, root) == root by { OpenHere(t, root); }
        AppendedLast(h, t, root, i, e);
      } else {
        assert f == [t];
        Appended(h, t.kids, d - 1, t.id, Get(h.list, t.id), i, e);
        AppendedBelow(h, t, d, root, i, e);
      }
    }
  }

  lemma AddAtRules(f: seq<Tree>, d: nat, t: Tree)
    requires HasDepth(f, d)
    ensures f == [] ==> AddAt(f, d, t) == [t]
    ensures |f| == 1 && d == 0 ==> AddAt(f, d, t) == [f[0]] + [t]
    ensures |f| > 1 ==> AddAt(f, d, t) == [f[0]] + AddAt(f[1..], d, t)
  {
  }

  lemma OpenHere(t: Tree, root: nat)
    ensures PtrAt([t], 0, root) == NextOf(t.id) && OpenAt([t], 0, root) == root
  {
  }

  // the first child of the root
  lemma AppendedAlone(h: Links, f: seq<Tree>, d: nat, root: nat, from: Option<nat>, i: nat, e: Entry)
    requires f == [] && HasDepth(f, d) && i != root
    ensures var h' := Append(h, PtrAt(f, d, root), i, OpenAt(f, d, root), e);
      Chain(h', [Node(i, e, [])], Some(i), None, Some(root))
  {
    ChainOne(Append(h, PtrAt(f, d, root), i, OpenAt(f, d, root), e), Node(i, e, []), Some(root));
  }

  // an entry before the last is not touched
  lemma AppendedFirst(h: Links, t: Tree, rest: seq<Tree>, d: nat, root: nat, from: Option<nat>, i: nat, e: Entry)
    requires rest != [] && HasDepth(rest, d) && Chain(h, [t] + rest, from, None, Some(root)) &&
        Distinct(Preorder([t] + rest))
    requires i !in Preorder([t] + rest)
    ensures Chain(Append(h, PtrAt(rest, d, root), i, OpenAt(rest, d, root), e), [t], from, Get(h.next, t.id),
        Some(root))
  {
    hide Preorder, Chain, PtrAt, OpenAt, HasDepth;
    var p := PtrAt(rest, d, root);
    var h' := Append(h, p, i, OpenAt(rest, d, root), e);
    PtrInside(rest, d, root);
    DistinctForest(t, rest);
    ChainHead(h, t, rest, from, None, Some(root));
    PreorderAppend([t], rest);
    assert forall x :: x in Preorder([t]) ==> x != i && x != p.id;
    ChainFrame(h, h', [t], from, Get(h.next, t.id), Some(root));
  }

  // the new entry follows the last one
  lemma AppendedLast(h: Links, t: Tree, root: nat, i: nat, e: Entry)
    requires Chain(h, [t], Some(t.id), None, Some(root)) && Distinct(Preorder([t])) && i !in Preorder([t])
    ensures Chain(Append(h, NextOf(t.id), i, root, e), [t] + [Node(i, e, [])], Some(t.id), None, Some(root))
  {
    hide Preorder;
    var h' := Append(h, NextOf(t.id), i, root, e);
    var u := Node(i, e, []);
    assert [t] + [] == [t];
    DistinctForest(t, []);
    PreorderOne(t);
    assert t.id in Preorder([t]);
    assert forall x :: x in Preorder(t.kids) ==> x in Preorder([t]);
    ChainFrame(h, h', t.kids, Get(h.list, t.id), None, Some(t.id));
    ChainOne(h', t, Some(root));
    ChainOne(h', u, Some(root));
    ChainAppend(h', [t], [u], Some(t.id), Some(i), None, Some(root));
  }

  // the new entry is added somewhere below the last one
  lemma AppendedBelow(h: Links, t: Tree, d: nat, root: nat, i: nat, e: Entry)
    requires d > 0 && HasDepth(t.kids, d - 1) && Chain(h, [t], Some(t.id), None, Some(root)) && Distinct(Preorder([t]))
    requires i !in Preorder([t])
    requires var h' := Append(h, PtrAt(t.kids, d - 1, t.id), i, OpenAt(t.kids, d - 1, t.id), e);
      Chain(h', AddAt(t.kids, d - 1, Node(i, e, [])), if t.kids == [] then Some(i) else Get(h.list, t.id), None,
          Some(t.id))
    ensures var h' := Append(h, PtrAt([t], d, root), i, OpenAt([t], d, root), e);
      Chain(h', AddAt([t], d, Node(i, e, [])), Some(t.id), None, Some(root))
  {
    var p := PtrAt(t.kids, d - 1, t.id);
    assert PtrAt([t], d, root) == p && OpenAt([t], d, root) == OpenAt(t.kids, d - 1, t.id);
    var h' := Append(h, p, i, OpenAt(t.kids, d - 1, t.id), e);
    PtrInside(t.kids, d - 1, t.id);
    DistinctForest(t, []);
    assert [t] + [] == [t];
    PreorderOne(t);
    assert t.id in Preorder([t]);
    ChainNil(h, t.kids, Get(h.list, t.id), Some(t.id));
    var u := t.(kids := AddAt(t.kids, d - 1, Node(i, e, [])));
    ChainOne(h', u, Some(root));
  }

  // ---------- what the configuration files say ----------

  /** What the parser's actions are called for, in order: an entry, and the brackets of
      menu, choice and if. */
  datatype Event = Read(id: nat, entry: Entry) | Begin | End

  datatype Draft = Draft(forest: seq<Tree>, depth: nat, justAdded: bool)

  predicate Sound(d: Draft) {
    && HasDepth(d.forest, d.depth)
    && (d.justAdded ==>
        var l := Level(d.forest, d.depth);
        l != [] && l[|l| - 1].kids == [])
  }

  /** The nesting of the brackets; None if they do not match, or open where no entry has
      just been read. */
  function Nest(events: seq<Event>, d: Draft): Option<Draft>
    requires Sound(d)
    decreases |events|
  {
    if events == [] then Some(d)
    else match events[0]
      case Read(i, e) =>
        AddedAt(d.forest, d.depth, Node(i, e, []), 0);
        Nest(events[1..], Draft(AddAt(d.forest, d.depth, Node(i, e, [])), d.depth, true))
      case Begin =>
        if !d.justAdded then None else
        LevelDown(d.forest, d.depth, 0);
        Nest(events[1..], Draft(d.forest, d.depth + 1, false))
      case End =>
        if d.depth == 0 then None else
        LevelUp(d.forest, d.depth, 0);
        Nest(events[1..], Draft(d.forest, d.depth - 1, false))
  }

  lemma {:induction false} AddedAt(f: seq<Tree>, d: nat, t: Tree, root: nat)
    requires HasDepth(f, d)
    ensures var r := AddAt(f, d, t); Level(r, d) == Level(f, d) + [t] && OpenAt(r, d, root) == OpenAt(f, d, root)
    decreases d, |f|
  {
    if d == 0 && f == [] {
    } else if |f| == 1 && d > 0 {
      AddedAt(f[0].kids, d - 1, t, f[0].id);
    } else {
      if d > 0 {
        assert f[1..][|f[1..]| - 1] == f[|f| - 1];
      }
      AddedAt(f[1..], d, t, root);
      assert AddAt(f, d, t)[1..] == AddAt(f[1..], d, t);
    }
  }

  lemma {:induction false} AddedPreorder(f: seq<Tree>, d: nat, t: Tree)
    requires HasDepth(f, d)
    ensures Preorder(AddAt(f, d, t)) == Preorder(f) + Preorder([t])
    decreases d, |f|
  {
    hide Preorder;
    var r := AddAt(f, d, t);
    if d == 0 && f == [] {
      PreorderNil();
    } else if |f| == 1 && d > 0 {
      AddedPreorder(f[0].kids, d - 1, t);
      assert f == [f[0]];
      PreorderOne(f[0]);
      PreorderOne(r[0]);
      assert [f[0].id] + (Preorder(f[0].kids) + Preorder([t])) == [f[0].id] + Preorder(f[0].kids) + Preorder([t]);
    } else {
      AddedPreorder(f[1..], d, t);
      PreorderAppend([f[0]], AddAt(f[1..], d, t));
      PreorderAppend([f[0]], f[1..]);
      assert f == [f[0]] + f[1..];
    }
  }

  // a menu is opened below the last entry
  lemma {:induction false} LevelDown(f: seq<Tree>, d: nat, root: nat)
    requires HasDepth(f, d) && Level(f, d) != []
    ensures HasDepth(f, d + 1) && OpenAt(f, d + 1, root) == LastId(Level(f, d))
    ensures Level(f, d + 1) == Level(f, d)[|Level(f, d)| - 1].kids
  {
    if d > 0 {
      LevelDown(f[|f| - 1].kids, d - 1, f[|f| - 1].id);
    }
  }

  lemma {:induction false} LevelUp(f: seq<Tree>, d: nat, root: nat)
    requires HasDepth(f, d) && d > 0
    ensures HasDepth(f, d - 1) && Level(f, d - 1) != [] && LastId(Level(f, d - 1)) == OpenAt(f, d, root)
  {
    if d > 1 {
      LevelUp(f[|f| - 1].kids, d - 1, f[|f| - 1].id);
    }
  }

  lemma {:induction false} OpenParent(h: Links, f: seq<Tree>, d: nat, root: nat, from: Option<nat>)
    requires HasDepth(f, d) && d > 0 && Chain(h, f, from, None, Some(root))
    ensures HasDepth(f, d - 1) && Get(h.parent, OpenAt(f, d, root)) == Some(OpenAt(f, d - 1, root))
    decreases d, |f|
  {
    if |f| > 1 {
      assert f[1..][|f[1..]| - 1] == f[|f| - 1];
      OpenParent(h, f[1..], d, root, Get(h.next, f[0].id));
    } else if d > 1 {
      OpenParent(h, f[0].kids, d - 1, f[0].id, Get(h.list, f[0].id));
    }
  }

  // ---------- reading the files back ----------

  /** The entries and brackets of a forest. */
  function Events(f: seq<Tree>): seq<Event> {
    if f == [] then []
    else EventsOf(f[0]) + Events(f[1..])
  }

  function EventsOf(t: Tree): seq<Event> {
    [Read(t.id, t.entry)] + (if t.kids == [] then [] else [Begin] + Events(t.kids) + [End])
  }

  function AddAll(f: seq<Tree>, d: nat, g: seq<Tree>): (r: seq<Tree>)
    requires HasDepth(f, d)
    ensures HasDepth(r, d)
    decreases |g|
  {
    if g == [] then f else AddAll(AddAt(f, d, g[0]), d, g[1..])
  }

  lemma {:induction false} AddBelow(f: seq<Tree>, d: nat, t: Tree, u: Tree)
    requires HasDepth(f, d)
    ensures HasDepth(AddAt(f, d, t), d + 1)
    ensures AddAt(AddAt(f, d, t), d + 1, u) == AddAt(f, d, t.(kids := t.kids + [u]))
    decreases d, |f|
  {
    var r := AddAt(f, d, t);
    AddedAt(f, d, t, 0);
    LevelDown(r, d, 0);
    if d == 0 && f == [] {
      AddLast(t.kids, u);
    } else if |f| == 1 && d > 0 {
      AddBelow(f[0].kids, d - 1, t, u);
    } else {
      if d > 0 {
        assert f[1..][|f[1..]| - 1] == f[|f| - 1];
      }
      AddBelow(f[1..], d, t, u);
      assert r[1..] == AddAt(f[1..], d, t) && r[0] == f[0];
    }
  }

  lemma {:induction false} AddLast(f: seq<Tree>, u: Tree)
    ensures AddAt(f, 0, u) == f + [u]
    decreases |f|
  {
    if f != [] {
      AddLast(f[1..], u);
    }
  }

  lemma {:induction false} AddAllBelow(f: seq<Tree>, d: nat, t: Tree, g: seq<Tree>)
    requires HasDepth(f, d)
    ensures HasDepth(AddAt(f, d, t), d + 1)
    ensures AddAll(AddAt(f, d, t), d + 1, g) == AddAt(f, d, t.(kids := t.kids + g))
    decreases |g|
  {
    hide AddAt, Level, OpenAt;
    AddedAt(f, d, t, 0);
    LevelDown(AddAt(f, d, t), d, 0);
    if g == [] {
      assert t.kids + g == t.kids;
    } else {
      AddBelow(f, d, t, g[0]);
      AddAllBelow(f, d, t.(kids := t.kids + [g[0]]), g[1..]);
      assert t.kids + [g[0]] + g[1..] == t.kids + g;
    }
  }

  function JustAfter(g: seq<Tree>, before: bool): bool {
    if g == [] then before else g[|g| - 1].kids == []
  }

  lemma SoundDepth(d: Draft)
    requires Sound(d)
    ensures HasDepth(d.forest, d.depth)
  {
  }

  // one event at a time
  lemma NestStep(event: Event, rest: seq<Event>, d: Draft, d': Draft)
    requires Sound(d) && Sound(d')
    requires match event
      case Read(i, e) => d' == Draft(AddAt(d.forest, d.depth, Node(i, e, [])), d.depth, true)
      case Begin => d.justAdded && d' == Draft(d.forest, d.depth + 1, false)
      case End => d.depth > 0 && d' == Draft(d.forest, d.depth - 1, false)
    ensures Nest([event] + rest, d) == Nest(rest, d')
  {
    assert ([event] + rest)[1..] == rest;
  }

  lemma {:induction false} Replays(g: seq<Tree>, rest: seq<Event>, d: Draft)
    requires Sound(d)
    ensures var d' := Draft(AddAll(d.forest, d.depth, g), d.depth, JustAfter(g, d.justAdded));
      Sound(d') && Nest(Events(g) + rest, d) == Nest(rest, d')
    decreases g
  {
    hide Nest, Sound, AddAt, HasDepth;
    if g == [] {
      assert Events(g) + rest == rest;
    } else {
      var t := g[0];
      ReplaysOne(t, Events(g[1..]) + rest, d);
      var d1 := Draft(AddAt(d.forest, d.depth, t), d.depth, t.kids == []);
      Replays(g[1..], rest, d1);
      EventsCons(g, rest);
    }
  }

  lemma EventsCons(g: seq<Tree>, rest: seq<Event>)
    requires g != []
    ensures Events(g) + rest == EventsOf(g[0]) + (Events(g[1..]) + rest)
  {
    assert Events(g) == EventsOf(g[0]) + Events(g[1..]);
  }

  lemma ReplaysOne(t: Tree, rest: seq<Event>, d: Draft)
    requires Sound(d)
    ensures HasDepth(d.forest, d.depth)
    ensures var d' := Draft(AddAt(d.forest, d.depth, t), d.depth, t.kids == []);
      Sound(d') && Nest(EventsOf(t) + rest, d) == Nest(rest, d')
    decreases t, 0
  {
    hide Nest, AddAt, HasDepth, Level;
    var leaf := t.(kids := []);
    SoundDepth(d);
    var f := AddAt(d.forest, d.depth, leaf);
    var d1 := Draft(f, d.depth, true);
    AddedAt(d.forest, d.depth, leaf, 0);
    if t.kids == [] {
      NestStep(Read(t.id, t.entry), rest, d, d1);
      assert EventsOf(t) + rest == [Read(t.id, t.entry)] + rest;
    } else {
      LevelDown(f, d.depth, 0);
      var d2 := Draft(f, d.depth + 1, false);
      var tail := [End] + rest;
      NestStep(Read(t.id, t.entry), [Begin] + (Events(t.kids) + tail), d, d1);
      NestStep(Begin, Events(t.kids) + tail, d1, d2);
      Replays(t.kids, tail, d2);
      AddAllBelow(d.forest, d.depth, leaf, t.kids);
      assert leaf.kids + t.kids == t.kids;
      var d3 := Draft(AddAll(f, d.depth + 1, t.kids), d.depth + 1, JustAfter(t.kids, false));
      LevelUp(d3.forest, d3.depth, 0);
      NestStep(End, rest, d3, Draft(d3.forest, d.depth, false));
      assert EventsOf(t) + rest == [Read(t.id, t.entry)] + ([Begin] + (Events(t.kids) + tail));
    }
  }

  lemma {:induction false} AddAllTop(f: seq<Tree>, g: seq<Tree>)
    ensures AddAll(f, 0, g) == f + g
    decreases |g|
  {
    if g == [] {
      assert f + g == f;
    } else {
      AddLast(f, g[0]);
      AddAllTop(f + [g[0]], g[1..]);
      assert f + [g[0]] + g[1..] == f + g;
    }
  }

  /** The files of a forest nest into that forest. */
  lemma NestsBack(f: seq<Tree>)
    ensures Nest(Events(f), Draft([], 0, false)) == Some(Draft(f, 0, JustAfter(f, false)))
  {
    Replays(f, [], Draft([], 0, false));
    AddAllTop([], f);
    assert Events(f) + [] == Events(f);
    assert [] + f == f;
  }

  // ---------- the parser's state ----------

  lemma AddedPtr(d: Draft, t: Tree, root: nat)
    requires Sound(d) && t.kids == []
    ensures HasDepth(d.forest, d.depth)
    ensures var r := AddAt(d.forest, d.depth, t);
      && Sound(Draft(r, d.depth, true)) && OpenAt(r, d.depth, root) == OpenAt(d.forest, d.depth, root)
      && PtrAt(r, d.depth, root) == NextOf(t.id) && LastId(Level(r, d.depth)) == t.id
  {
    AddedAt(d.forest, d.depth, t, root);
  }

  function EventIds(events: seq<Event>): seq<nat> {
    if events == [] then []
    else (if events[0].Read? then [events[0].id] else []) + EventIds(events[1..])
  }

  lemma SplitIds(event: Event, rest: seq<Event>)
    ensures EventIds([event] + rest) == EventIds([event]) + EventIds(rest)
    ensures EventIds([event]) == if event.Read? then [event.id] else []
  {
    assert ([event] + rest)[1..] == rest && [event][1..] == [];
  }

  class MenuReader {
    const root: nat
    const rootEntry: Entry
    const table: MenuTable
    var lastEntryPtr: Ptr
    var currentMenu: nat
    var currentEntry: nat

    /** The table holds the draft, and the three variables point where it is open. */
    ghost predicate Valid(d: Draft)
      reads this, table
    {
      && Sound(d)
      && Chain(table.Mem(), d.forest, Get(table.list, root), None, Some(root))
      && Distinct(Preorder(d.forest)) && root !in Preorder(d.forest)
      && lastEntryPtr == PtrAt(d.forest, d.depth, root) && currentMenu == OpenAt(d.forest, d.depth, root)
      && (d.justAdded ==> currentEntry == LastId(Level(d.forest, d.depth)))
      && root in table.entry && table.entry[root] == rootEntry
      && Get(table.parent, root) == None && Get(table.next, root) == None
    }

    // menu_init
    constructor (root: nat, rootEntry: Entry)
      ensures Valid(Draft([], 0, false)) && fresh(table) && table.finalized == [] && table.revDep == map[]
      ensures this.root == root && this.rootEntry == rootEntry
    {
      this.root, this.rootEntry := root, rootEntry;
      table := new MenuTable(root, rootEntry);
      lastEntryPtr := ListOf(root);
      currentMenu, currentEntry := root, root;
    }

    /** menu_add_entry. */
    method AddEntry(i: nat, e: Entry, ghost d: Draft)
      requires Valid(d) && i !in Preorder(d.forest) && i != root
      modifies this, table
      ensures Valid(Draft(AddAt(d.forest, d.depth, Node(i, e, [])), d.depth, true))
      ensures table.finalized == old(table.finalized) && table.revDep == old(table.revDep)
    {
      hide Chain, Preorder, Distinct, Level, OpenAt, PtrAt, Sound, AddAt;
      SoundDepth(d);
      ghost var f, leaf, h := d.forest, Node(i, e, []), table.Mem();
      PtrInside(f, d.depth, root);
      Appended(h, f, d.depth, root, Get(table.list, root), i, e);
      AddedPtr(d, leaf, root);
      AddedPreorder(f, d.depth, leaf);
      PreorderLeaf(leaf);
      DistinctSplit(Preorder(f), [i]);
      DistinctOne(i);
      table.entry := table.entry[i := e];
      table.parent := table.parent[i := currentMenu];
      table.next, table.list := table.next - {i}, table.list - {i};
      match lastEntryPtr {
        case NextOf(k) => table.next := table.next[k := i];
        case ListOf(k) => table.list := table.list[k := i];
      }
      assert table.Mem() == Append(h, PtrAt(f, d.depth, root), i, OpenAt(f, d.depth, root), e);
      lastEntryPtr := NextOf(i);
      currentEntry := i;
    }

    /** menu_add_menu: the entry just read becomes the open menu. */
    method AddMenu(ghost d: Draft)
      requires Valid(d) && d.justAdded
      modifies this
      ensures Valid(Draft(d.forest, d.depth + 1, false))
    {
      LevelDown(d.forest, d.depth, root);
      lastEntryPtr := ListOf(currentEntry);
      currentMenu := currentEntry;
    }

    /** menu_end_menu. */
    method EndMenu(ghost d: Draft)
      requires Valid(d) && d.depth > 0
      modifies this
      ensures Valid(Draft(d.forest, d.depth - 1, false))
    {
      LevelUp(d.forest, d.depth, root);
      OpenParent(table.Mem(), d.forest, d.depth, root, Get(table.list, root));
      lastEntryPtr := NextOf(currentMenu);
      currentMenu := table.parent[currentMenu];
    }

    // the action for one event
    method Handle(event: Event, ghost rest: seq<Event>, ghost d: Draft) returns (ghost d': Draft)
      requires Valid(d) && Nest([event] + rest, d).Some?
      requires event.Read? ==> event.id !in Preorder(d.forest) && event.id != root
      modifies this, table
      ensures Valid(d') && Nest(rest, d') == Nest([event] + rest, d)
      ensures Preorder(d'.forest) == Preorder(d.forest) + EventIds([event])
      ensures table.finalized == old(table.finalized) && table.revDep == old(table.revDep)
    {
      hide Chain, Distinct, Level, OpenAt, PtrAt, AddAt, Preorder;
      assert ([event] + rest)[1..] == rest;
      assert [event][1..] == [];
      match event {
        case Read(i, e) =>
          AddEntry(i, e, d);
          AddedPreorder(d.forest, d.depth, Node(i, e, []));
          PreorderLeaf(Node(i, e, []));
          d' := Draft(AddAt(d.forest, d.depth, Node(i, e, [])), d.depth, true);
        case Begin =>
          AddMenu(d);
          d' := Draft(d.forest, d.depth + 1, false);
        case End =>
          EndMenu(d);
          d' := Draft(d.forest, d.depth - 1, false);
      }
    }

    /** The parser's calls for a whole configuration: when the brackets match, the linked
        entries are the nesting they describe. */
    method Read(events: seq<Event>)
      requires Valid(Draft([], 0, false)) && Distinct([root] + EventIds(events))
      requires Nest(events, Draft([], 0, false)).Some?
      modifies this, table
      ensures Valid(Nest(events, Draft([], 0, false)).value)
      ensures table.finalized == old(table.finalized) && table.revDep == old(table.revDep)
    {
      hide Valid, Distinct, Preorder, Nest, Sound, EventIds;
      ghost var d := Draft([], 0, false);
      var k := 0;
      PreorderNil();
      assert events[0..] == events;
      ValidSound(d);
      assert [] + EventIds(events) == EventIds(events);
      while k < |events|
        invariant k <= |events|
        invariant Valid(d) && Sound(d) && Nest(events[k..], d) == Nest(events, Draft([], 0, false))
        invariant Preorder(d.forest) + EventIds(events[k..]) == EventIds(events)
        invariant table.finalized == old(table.finalized) && table.revDep == old(table.revDep)
      {
        ghost var rest := events[k + 1..];
        assert events[k..] == [events[k]] + rest;
        SplitIds(events[k], rest);
        if events[k].Read? {
          NewId(root, Preorder(d.forest), events[k].id, EventIds(rest), EventIds(events));
        }
        ghost var a := Preorder(d.forest);
        d := Handle(events[k], rest, d);
        ValidSound(d);
        assert a + (EventIds([events[k]]) + EventIds(rest)) == (a + EventIds([events[k]])) + EventIds(rest);
        k := k + 1;
      }
      assert events[k..] == [];
      NestEnds(d);
    }

    lemma NestEnds(d: Draft)
      requires Sound(d)
      ensures Nest([], d) == Some(d)
    {
    }

    lemma ValidSound(d: Draft)
      requires Valid(d)
      ensures Sound(d)
    {
    }

    /** Reading and finalising: the menu that the program shows is the function of what the
        files say, every entry finalised once and in order, and every symbol is forced up to
        the highest of what the finished entries select it to. */
    method ReadAndFinalize(events: seq<Event>)
      requires Valid(Draft([], 0, false)) && Distinct([root] + EventIds(events))
      requires table.finalized == [] && table.revDep == map[]
      requires Nest(events, Draft([], 0, false)).Some?
      modifies this, table
      ensures var t := Node(root, rootEntry, Nest(events, Draft([], 0, false)).value.forest);
        && Chain(table.Mem(), [Menu.Finalize(t, []).0], Some(root), None, None)
        && table.finalized == Preorder([t])
      ensures var t := Node(root, rootEntry, Nest(events, Draft([], 0, false)).value.forest);
        var entries := Flat([Menu.Finalize(t, []).0]);
        rootEntry.sym.None? ==> forall s, v :: IsHighest(RevValue(table.revDep, s, v), AllGifts(entries), s, v)
    {
      hide Chain, Distinct, Preorder, Menu.Finalize, GiveAll, Gifts, AllGifts, IsHighest, RevValue, Flat, SelectsOf;
      Read(events);
      ghost var d := Nest(events, Draft([], 0, false)).value;
      ghost var t := Node(root, rootEntry, d.forest);
      ChainOne(table.Mem(), t, None);
      assert [t] + [] == [t];
      PreorderOne(t);
      DistinctSplit([root], Preorder(d.forest));
      DistinctOne(root);
      table.Finalize(root, t, [], None);
      FinalizePreorder(t, []);
      NothingLeft(t);
      PreorderNil();
      ghost var a, b := Preorder([Menu.Finalize(t, []).0]), Preorder([t]);
      assert a + [] == a && b + [] == b && [] + a == a;
      assert [Menu.Finalize(t, []).0] + [] == [Menu.Finalize(t, []).0];
      if rootEntry.sym.None? {
        NoSelects(rootEntry, |rootEntry.conds|);
        assert SelectsOf(t.entry) == [];
        forall s, v
          ensures IsHighest(RevValue(table.revDep, s, v), AllGifts(Flat([Menu.Finalize(t, []).0])), s, v)
        {
          RevDepMeans(t, s, v);
        }
      }
    }
  }

  lemma NothingLeft(t: Tree)
    ensures Menu.Finalize(t, []).1 == []
  {
  }

  lemma PreorderLeaf(t: Tree)
    requires t.kids == []
    ensures Preorder([t]) == [t.id]
  {
    PreorderOne(t);
    PreorderNil();
  }

  lemma DistinctOne(i: nat)
    ensures Distinct([i])
  {
  }

  lemma NewId(root: nat, a: seq<nat>, i: nat, b: seq<nat>, all: seq<nat>)
    requires Distinct([root] + all) && a + ([i] + b) == all
    ensures i !in a && i != root
  {
    DistinctSplit([root], all);
    DistinctSplit(a, [i] + b);
    assert i in [i] + b;
    assert i in all by {
      assert all[|a|] == i;
    }
  }
}
