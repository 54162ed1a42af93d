/** menu_finalize as the program runs it: relinking the next, list and parent pointers of
    the menu entries (package/config/menu.c). Entries are numbered; a NULL pointer is a
    missing key. */
module MenuLinks {
  import opened Wrappers
  import opened Exprs
  import opened Menu
  import opened Selecting

  /** The pointers and contents of all entries at one moment. */
  datatype Links = Links(next: map<nat, nat>, list: map<nat, nat>, parent: map<nat, nat>, entry: map<nat, Entry>)

  function Get(m: map<nat, nat>, k: nat): Option<nat> {
    if k in m then Some(m[k]) else None
  }

  function Set(m: map<nat, nat>, k: nat, v: Option<nat>): map<nat, nat> {
    if v.Some? then m[k := v.value] else m - {k}
  }

  /** The entries from `from` up to `end` along next are those of the forest `f`, with all
      that is below them, and their parent pointers say so. */
  ghost predicate Chain(h: Links, f: seq<Tree>, from: Option<nat>, end: Option<nat>, par: Option<nat>) {
    if f == [] then from == end
    else
      var i := f[0].id;
      && from == Some(i) && i in h.entry && h.entry[i] == f[0].entry && Get(h.parent, i) == par
      && Chain(h, f[0].kids, Get(h.list, i), None, Some(i))
      && Chain(h, f[1..], Get(h.next, i), end, par)
  }

  ghost predicate Same(h: Links, h': Links, i: nat) {
    && Get(h.next, i) == Get(h'.next, i) && Get(h.list, i) == Get(h'.list, i) && Get(h.parent, i) == Get(h'.parent, i)
    && (i in h.entry <==> i in h'.entry) && (i in h.entry ==> h.entry[i] == h'.entry[i])
  }

  ghost predicate SameOn(h: Links, h': Links, ids: seq<nat>) {
    forall i :: i in ids ==> Same(h, h', i)
  }

  ghost predicate SameOutside(h: Links, h': Links, ids: seq<nat>) {
    forall i :: i !in ids ==> Same(h, h', i)
  }

  lemma {:induction false} ChainFrame(h: Links, h': Links, f: seq<Tree>, from: Option<nat>, end: Option<nat>,
      par: Option<nat>)
    requires Chain(h, f, from, end, par) && SameOn(h, h', Preorder(f))
    ensures Chain(h', f, from, end, par)
    decreases f
  {
    if f != [] {
      var i := f[0].id;
      PreorderCons(f);
      assert Same(h, h', i);
      ChainFrame(h, h', f[0].kids, Get(h.list, i), None, Some(i));
      ChainFrame(h, h', f[1..], Get(h.next, i), end, par);
    }
  }

  lemma PreorderCons(f: seq<Tree>)
    requires f != []
    ensures f[0].id in Preorder(f)
    ensures forall x :: x in Preorder(f) <==> x == f[0].id || x in Preorder(f[0].kids) || x in Preorder(f[1..])
  {
  }

  lemma {:induction false} ChainAppend(h: Links, f: seq<Tree>, g: seq<Tree>, from: Option<nat>, mid: Option<nat>,
      end: Option<nat>, par: Option<nat>)
    requires Chain(h, f, from, mid, par) && Chain(h, g, mid, end, par)
    ensures Chain(h, f + g, from, end, par)
    decreases f
  {
    if f == [] {
      assert f + g == g;
    } else {
      assert (f + g)[1..] == f[1..] + g;
      ChainAppend(h, f[1..], g, Get(h.next, f[0].id), mid, end, par);
    }
  }

  lemma ChainHead(h: Links, t: Tree, after: seq<Tree>, from: Option<nat>, end: Option<nat>, par: Option<nat>)
    requires Chain(h, [t] + after, from, end, par)
    ensures from == Some(t.id) && t.id in h.entry && h.entry[t.id] == t.entry && Get(h.parent, t.id) == par
    ensures Chain(h, t.kids, Get(h.list, t.id), None, Some(t.id))
    ensures Chain(h, after, Get(h.next, t.id), end, par)
    ensures Chain(h, [t], from, Get(h.next, t.id), par)
  {
    assert ([t] + after)[1..] == after;
    assert [t][1..] == [];
  }

  lemma ChainOne(h: Links, t: Tree, par: Option<nat>)
    requires t.id in h.entry && h.entry[t.id] == t.entry && Get(h.parent, t.id) == par
    requires Chain(h, t.kids, Get(h.list, t.id), None, Some(t.id))
    ensures Chain(h, [t], Some(t.id), Get(h.next, t.id), par)
  {
    assert [t][1..] == [];
  }

  // ---------- distinct entries ----------

  ghost predicate Distinct(s: seq<nat>) {
    forall i, j :: 0 <= i < j < |s| ==> s[i] != s[j]
  }

  lemma DistinctSplit(a: seq<nat>, b: seq<nat>)
    ensures Distinct(a + b) <==> Distinct(a) && Distinct(b) && (forall x :: x in a ==> x !in b)
  {
    var s := a + b;
    assert forall i :: 0 <= i < |a| ==> s[i] == a[i];
    assert forall i :: 0 <= i < |b| ==> b[i] == s[|a| + i];
    if Distinct(s) {
      forall i, j | 0 <= i < |a| && 0 <= j < |b|
        ensures a[i] != b[j]
      {
        assert s[i] != s[|a| + j];
      }
    }
    if Distinct(a) && Distinct(b) && forall x :: x in a ==> x !in b {
      forall i, j | 0 <= i < j < |s|
        ensures s[i] != s[j]
      {
        if i < |a| <= j {
          assert s[i] in a && s[j] in b;
        }
      }
    }
  }

  lemma DistinctForest(t: Tree, after: seq<Tree>)
    requires Distinct(Preorder([t] + after))
    ensures Distinct(Preorder(t.kids)) && Distinct(Preorder(after)) && Distinct(Preorder([t]))
    ensures t.id !in Preorder(t.kids) && t.id !in Preorder(after)
    ensures forall x :: x in Preorder([t]) ==> x !in Preorder(after)
    ensures Preorder([t] + after) == [t.id] + Preorder(t.kids) + Preorder(after)
    ensures Preorder([t]) == [t.id] + Preorder(t.kids)
  {
    PreorderAppend([t], after);
    PreorderOne(t);
    DistinctSplit(Preorder([t]), Preorder(after));
    DistinctSplit([t.id], Preorder(t.kids));
    assert t.id in Preorder([t]);
  }

  // ---------- changing pointers ----------

  // the id of the last entry along next
  function LastId(f: seq<Tree>): nat
    requires f != []
  {
    f[|f| - 1].id
  }

  /** Redirecting the last next pointer moves the end of the chain. */
  lemma {:induction false} Redirect(h: Links, f: seq<Tree>, from: Option<nat>, end: Option<nat>, end': Option<nat>,
      par: Option<nat>)
    requires f != [] && Chain(h, f, from, end, par) && Distinct(Preorder(f))
    ensures Chain(h.(next := Set(h.next, LastId(f), end')), f, from, end', par)
    ensures LastId(f) in Preorder(f)
    decreases f
  {
    hide Preorder, Distinct, Set;
    var t, rest := f[0], f[1..];
    assert f == [t] + rest;
    DistinctForest(t, rest);
    PreorderCons(f);
    if rest != [] {
      Redirect(h, rest, Get(h.next, t.id), end, end', par);
      assert LastId(f) == LastId(rest);
      PreorderAppend([t], rest);
    }
    NextElsewhere(h, t.kids, Get(h.list, t.id), Some(t.id), LastId(f), end');
    SetGet(h.next, LastId(f), end');
  }

  lemma NextElsewhere(h: Links, f: seq<Tree>, from: Option<nat>, par: Option<nat>, a: nat, v: Option<nat>)
    requires Chain(h, f, from, None, par) && a !in Preorder(f)
    ensures Chain(h.(next := Set(h.next, a, v)), f, from, None, par)
  {
    ChainFrame(h, h.(next := Set(h.next, a, v)), f, from, None, par);
  }

  lemma SetGet(m: map<nat, nat>, k: nat, v: Option<nat>)
    ensures Get(Set(m, k, v), k) == v
    ensures forall x :: x != k ==> Get(Set(m, k, v), x) == Get(m, x)
  {
  }

  // ---------- walking along a list ----------

  /** A loop over a list: `done` is behind, `todo` from `cur` on is ahead; the parent
      pointers of the two parts may differ. */
  ghost predicate Walk(h: Links, done: seq<Tree>, todo: seq<Tree>, first: Option<nat>, cur: Option<nat>,
      parDone: Option<nat>, parTodo: Option<nat>)
  {
    && Distinct(Preorder(done) + Preorder(todo))
    && Chain(h, done, first, cur, parDone) && Chain(h, todo, cur, None, parTodo)
  }

  lemma WalkStart(h: Links, f: seq<Tree>, first: Option<nat>, parDone: Option<nat>, par: Option<nat>)
    requires Chain(h, f, first, None, par) && Distinct(Preorder(f))
    ensures Walk(h, [], f, first, first, parDone, par)
  {
    assert Preorder([]) + Preorder(f) == Preorder(f);
  }

  lemma WalkEnd(h: Links, done: seq<Tree>, todo: seq<Tree>, first: Option<nat>, parDone: Option<nat>,
      parTodo: Option<nat>)
    requires Walk(h, done, todo, first, None, parDone, parTodo)
    ensures todo == [] && Chain(h, done, first, None, parDone)
  {
  }

  /** What is known about the entry the loop has reached. */
  lemma WalkAt(h: Links, done: seq<Tree>, todo: seq<Tree>, first: Option<nat>, k: nat, parDone: Option<nat>,
      parTodo: Option<nat>)
    requires Walk(h, done, todo, first, Some(k), parDone, parTodo) && todo != []
    ensures var t, rest := todo[0], todo[1..];
      && todo == [t] + rest && k == t.id
      && k in h.entry && h.entry[k] == t.entry && Get(h.parent, k) == parTodo
      && Chain(h, t.kids, Get(h.list, k), None, Some(k))
      && Chain(h, rest, Get(h.next, k), None, parTodo)
      && Chain(h, [t], Some(k), Get(h.next, k), parTodo)
      && k !in Preorder(t.kids) && k !in Preorder(rest)
      && Distinct(Preorder(todo)) && Distinct(Preorder(rest)) && Distinct(Preorder([t])) && Distinct(Preorder(t.kids))
      && Preorder(todo) == [k] + Preorder(t.kids) + Preorder(rest)
      && Preorder([t]) == [k] + Preorder(t.kids)
      && (forall x :: x in Preorder(t.kids) ==> x !in Preorder(rest))
  {
    var t, rest := todo[0], todo[1..];
    assert todo == [t] + rest;
    DistinctSplit(Preorder(done), Preorder(todo));
    DistinctForest(t, rest);
    ChainHead(h, t, rest, Some(k), None, parTodo);
  }

  lemma WalkHasNext(h: Links, done: seq<Tree>, todo: seq<Tree>, first: Option<nat>, k: nat, parDone: Option<nat>,
      parTodo: Option<nat>)
    requires Walk(h, done, todo, first, Some(k), parDone, parTodo)
    ensures todo != [] && k in Preorder(todo)
  {
    PreorderCons(todo);
  }

  /** One step: the entry at hand has become `u`, what is ahead has become `todo'`, and
      nothing behind was touched. */
  lemma WalkStep(h: Links, h': Links, done: seq<Tree>, todo: seq<Tree>, u: Tree, todo': seq<Tree>,
      first: Option<nat>, k: nat, cur': Option<nat>, parDone: Option<nat>, parTodo: Option<nat>)
    requires Walk(h, done, todo, first, Some(k), parDone, parTodo)
    requires SameOutside(h, h', Preorder(todo))
    requires Chain(h', [u], Some(k), cur', parDone) && Chain(h', todo', cur', None, parTodo)
    requires Preorder([u]) + Preorder(todo') == Preorder(todo)
    ensures Walk(h', done + [u], todo', first, cur', parDone, parTodo)
    ensures Preorder(done + [u]) + Preorder(todo') == Preorder(done) + Preorder(todo)
  {
    hide Preorder, Distinct, Chain;
    DistinctSplit(Preorder(done), Preorder(todo));
    ChainFrame(h, h', done, first, Some(k), parDone);
    ChainAppend(h', done, [u], first, Some(k), cur', parDone);
    PreorderAppend(done, [u]);
    assert Preorder(done) + Preorder([u]) + Preorder(todo') == Preorder(done) + (Preorder([u]) + Preorder(todo'));
  }

  // ---------- the single steps ----------

  // dependencies are handed down to one entry
  lemma InheritStep(h: Links, done: seq<Tree>, todo: seq<Tree>, first: Option<nat>, k: nat, par: Option<nat>,
      outer: Option<Expr>)
    requires Walk(h, done, todo, first, Some(k), par, par) && todo != []
    ensures k in h.entry
    ensures var u := todo[0].(entry := Inherit(outer, todo[0].entry));
      var h' := h.(entry := h.entry[k := Inherit(outer, h.entry[k])]);
      && Walk(h', done + [u], todo[1..], first, Get(h.next, k), par, par)
      && SameOutside(h, h', Preorder(todo))
  {
    hide Inherit, Preorder;
    WalkAt(h, done, todo, first, k, par, par);
    var t, rest := todo[0], todo[1..];
    var u := t.(entry := Inherit(outer, t.entry));
    var h' := h.(entry := h.entry[k := Inherit(outer, h.entry[k])]);
    ChainFrame(h, h', t.kids, Get(h.list, k), None, Some(k));
    ChainFrame(h, h', rest, Get(h.next, k), None, par);
    ChainOne(h', u, par);
    PreorderOne(u);
    WalkStep(h, h', done, todo, u, rest, first, k, Get(h.next, k), par, par);
  }

  // a finished sibling becomes a child
  lemma AdoptStep(h: Links, h1: Links, done: seq<Tree>, todo: seq<Tree>, a: (Tree, seq<Tree>), first: Option<nat>,
      k: nat, m: nat, par: Option<nat>)
    requires Walk(h, done, todo, first, Some(k), Some(m), par) && todo != []
    requires SameOutside(h, h1, Preorder(todo)) && Chain(h1, [a.0] + a.1, Some(k), None, par)
    requires Preorder([a.0]) + Preorder(a.1) == Preorder(todo)
    ensures var h' := h1.(parent := h1.parent[k := m]);
      && Walk(h', done + [a.0], a.1, first, Get(h1.next, k), Some(m), par)
      && SameOutside(h, h', Preorder(todo)) && LastId(done + [a.0]) == k
  {
    hide Preorder;
    var h' := h1.(parent := h1.parent[k := m]);
    DistinctSplit(Preorder(done), Preorder(todo));
    PreorderAppend([a.0], a.1);
    DistinctForest(a.0, a.1);
    ChainHead(h1, a.0, a.1, Some(k), None, par);
    ChainFrame(h1, h', a.0.kids, Get(h1.list, k), None, Some(k));
    ChainFrame(h1, h', a.1, Get(h1.next, k), None, par);
    ChainOne(h', a.0, Some(m));
    assert k in Preorder(todo);
    WalkStep(h, h', done, todo, a.0, a.1, first, k, Get(h1.next, k), Some(m), par);
  }

  // a child is finished
  lemma FinalizeStep(h: Links, h1: Links, done: seq<Tree>, todo: seq<Tree>, a: (Tree, seq<Tree>), first: Option<nat>,
      k: nat, par: Option<nat>)
    requires Walk(h, done, todo, first, Some(k), par, par) && todo != []
    requires SameOutside(h, h1, Preorder(todo)) && Chain(h1, [a.0] + a.1, Some(k), None, par)
    requires Preorder([a.0]) + Preorder(a.1) == Preorder(todo)
    ensures Walk(h1, done + [a.0], a.1, first, Get(h1.next, k), par, par)
  {
    ChainHead(h1, a.0, a.1, Some(k), None, par);
    WalkStep(h, h1, done, todo, a.0, a.1, first, k, Get(h1.next, k), par, par);
  }

  // the children of one entry take its place in the list, behind it
  lemma SpliceStep(h: Links, h1: Links, done: seq<Tree>, todo: seq<Tree>, first: Option<nat>, k: nat, par: Option<nat>)
    requires Walk(h, done, todo, first, Some(k), par, par) && todo != [] && todo[0].kids != []
    requires SameOutside(h, h1, Preorder(todo[0].kids)) && k in h1.list
    requires Chain(h1, todo[0].kids, Get(h.list, k), None, par)
    ensures var t, rest := todo[0], todo[1..];
      var last := LastId(t.kids);
      var h' := h1.(next := Set(h1.next, last, Get(h1.next, k))[k := h1.list[k]], list := h1.list - {k});
      && Walk(h', done + [t.(kids := [])], t.kids + rest, first, Get(h'.next, k), par, par)
      && SameOutside(h, h', Preorder(todo))
  {
    hide Preorder, Chain;
    WalkAt(h, done, todo, first, k, par, par);
    var t, rest := todo[0], todo[1..];
    var last := LastId(t.kids);
    var h2 := h1.(next := Set(h1.next, last, Get(h1.next, k)));
    var h' := h2.(next := h2.next[k := h1.list[k]], list := h1.list - {k});
    assert Same(h, h1, k);
    Redirect(h1, t.kids, Get(h.list, k), None, Get(h1.next, k), par);
    ChainFrame(h2, h', t.kids, Get(h.list, k), Get(h1.next, k), par);
    assert forall x :: x in Preorder(rest) ==> x !in Preorder(t.kids) && x != k;
    ChainFrame(h, h', rest, Get(h.next, k), None, par);
    ChainAppend(h', t.kids, rest, Get(h.list, k), Get(h.next, k), None, par);
    var u := t.(kids := []);
    ChainOne(h', u, par);
    PreorderOne(u);
    PreorderNil();
    PreorderAppend(t.kids, rest);
    assert [k] + [] + (Preorder(t.kids) + Preorder(rest)) == [k] + Preorder(t.kids) + Preorder(rest);
    WalkStep(h, h', done, todo, u, t.kids + rest, first, k, Get(h'.next, k), par, par);
  }

  // the parent pointer of one child
  lemma ReparentStep(h: Links, done: seq<Tree>, todo: seq<Tree>, first: Option<nat>, k: nat, parDone: nat,
      parTodo: Option<nat>)
    requires Walk(h, done, todo, first, Some(k), Some(parDone), parTodo) && todo != []
    ensures var h' := h.(parent := h.parent[k := parDone]);
      && Walk(h', done + [todo[0]], todo[1..], first, Get(h.next, k), Some(parDone), parTodo)
      && SameOutside(h, h', Preorder(todo))
  {
    hide Preorder;
    WalkAt(h, done, todo, first, k, Some(parDone), parTodo);
    var t, rest := todo[0], todo[1..];
    var h' := h.(parent := h.parent[k := parDone]);
    ChainFrame(h, h', t.kids, Get(h.list, k), None, Some(k));
    ChainFrame(h, h', rest, Get(h.next, k), None, parTodo);
    ChainOne(h', t, Some(parDone));
    WalkStep(h, h', done, todo, t, rest, first, k, Get(h.next, k), Some(parDone), parTodo);
  }

  // an entry that is left as it is
  lemma KeepStep(h: Links, done: seq<Tree>, todo: seq<Tree>, first: Option<nat>, k: nat, par: Option<nat>)
    requires Walk(h, done, todo, first, Some(k), par, par) && todo != []
    ensures Walk(h, done + [todo[0]], todo[1..], first, Get(h.next, k), par, par)
    ensures Preorder(done + [todo[0]]) + Preorder(todo[1..]) == Preorder(done) + Preorder(todo)
  {
    hide Preorder;
    WalkAt(h, done, todo, first, k, par, par);
    WalkStep(h, h, done, todo, todo[0], todo[1..], first, k, Get(h.next, k), par, par);
  }

  lemma {:induction false} LastNext(h: Links, f: seq<Tree>, from: Option<nat>, end: Option<nat>, par: Option<nat>)
    requires f != [] && Chain(h, f, from, end, par)
    ensures Get(h.next, LastId(f)) == end && LastId(f) in Preorder(f)
    decreases f
  {
    if |f| > 1 {
      LastNext(h, f[1..], Get(h.next, f[0].id), end, par);
      assert LastId(f) == LastId(f[1..]);
    }
  }

  /** The adopted siblings are cut out of the list and become the children. */
  lemma CutStep(h: Links, done: seq<Tree>, todo: seq<Tree>, first: Option<nat>, cur: Option<nat>, m: nat,
      par: Option<nat>)
    requires Walk(h, done, todo, first, cur, Some(m), par) && done != [] && Get(h.next, m) == first
    requires m !in Preorder(done) && m !in Preorder(todo)
    ensures first.Some? && LastId(done) in Preorder(done) && Get(h.next, LastId(done)) == cur
    ensures var h' := h.(list := h.list[m := first.value], next := Set(h.next, m, cur) - {LastId(done)});
      && Chain(h', done, Get(h'.list, m), None, Some(m)) && Chain(h', todo, Get(h'.next, m), None, par)
      && SameOutside(h, h', [m] + Preorder(done)) && Get(h'.parent, m) == Get(h.parent, m)
  {
    hide Preorder;
    var last := LastId(done);
    var h1 := h.(next := Set(h.next, last, None));
    var h' := h.(list := h.list[m := first.value], next := Set(h.next, m, cur) - {last});
    DistinctSplit(Preorder(done), Preorder(todo));
    LastNext(h, done, first, cur, Some(m));
    Redirect(h, done, first, cur, None, Some(m));
    ChainFrame(h1, h', done, first, None, Some(m));
    ChainFrame(h, h', todo, cur, None, par);
  }

  // ---------- small facts for the loops ----------

  lemma SameAt(h: Links, h': Links, ids: seq<nat>, m: nat)
    requires SameOutside(h, h', ids) && m !in ids
    ensures Get(h.next, m) == Get(h'.next, m) && Get(h.list, m) == Get(h'.list, m) &&
        Get(h.parent, m) == Get(h'.parent, m)
    ensures (m in h.entry <==> m in h'.entry) && (m in h.entry ==> h.entry[m] == h'.entry[m])
  {
    assert Same(h, h', m);
  }

  lemma SameSelf(h: Links, ids: seq<nat>)
    ensures SameOutside(h, h, ids)
  {
  }

  lemma SameOutsideGrow(h0: Links, h: Links, h': Links, part: seq<nat>, all: seq<nat>)
    requires SameOutside(h0, h, all) && SameOutside(h, h', part) && forall x :: x in part ==> x in all
    ensures SameOutside(h0, h', all)
  {
    forall i | i !in all
      ensures Same(h0, h', i)
    {
      assert Same(h0, h, i) && Same(h, h', i);
    }
  }

  lemma ChainNil(h: Links, f: seq<Tree>, from: Option<nat>, par: Option<nat>)
    requires Chain(h, f, from, None, par)
    ensures from == None <==> f == []
    ensures f != [] ==> from == Some(f[0].id)
  {
  }

  lemma WalkNil(h: Links, done: seq<Tree>, todo: seq<Tree>, first: Option<nat>, cur: Option<nat>,
      parDone: Option<nat>, parTodo: Option<nat>)
    requires Walk(h, done, todo, first, cur, parDone, parTodo)
    ensures cur == None <==> todo == []
  {
  }

  lemma WalkHead(h: Links, done: seq<Tree>, todo: seq<Tree>, first: Option<nat>, cur: Option<nat>,
      parDone: Option<nat>, parTodo: Option<nat>)
    requires Walk(h, done, todo, first, cur, parDone, parTodo)
    ensures cur.Some? ==>
      todo != [] && cur.value in h.entry && h.entry[cur.value] == todo[0].entry && todo[0].id == cur.value
  {
  }

  lemma WalkNone(h: Links, todo: seq<Tree>, first: Option<nat>, cur: Option<nat>, parDone: Option<nat>,
      parTodo: Option<nat>)
    requires Walk(h, [], todo, first, cur, parDone, parTodo)
    ensures Chain(h, todo, first, None, parTodo) && Chain(h, [], None, None, parDone)
  {
  }

  /** The children have moved up: the entry at hand and what follows it, put together. */
  lemma MovedUp(h: Links, h': Links, t: Tree, kids: seq<Tree>, rest: seq<Tree>, m: nat, par: Option<nat>)
    requires m == t.id && m in h.entry && h.entry[m] == t.entry && Get(h.parent, m) == par
    requires Chain(h, rest, Get(h.next, m), None, par)
    requires m !in Preorder(kids) && forall x :: x in Preorder(kids) ==> x !in Preorder(rest)
    requires SameOutside(h, h', Preorder(kids)) && Chain(h', MoveUp(kids), Get(h'.list, m), None, Some(m))
    ensures var u := t.(kids := MoveUp(kids));
      Chain(h', [u] + rest, Some(m), None, par) && Preorder([u]) == [m] + Preorder(kids)
  {
    hide Chain, Preorder, MoveUp;
    var u := t.(kids := MoveUp(kids));
    SameAt(h, h', Preorder(kids), m);
    ChainFrame(h, h', rest, Get(h.next, m), None, par);
    ChainOne(h', u, par);
    ChainAppend(h', [u], rest, Some(m), Get(h'.next, m), None, par);
    PreorderOne(u);
    MoveUpPreorder(kids);
  }

  // what a recursive call is given
  lemma WalkChain(h: Links, done: seq<Tree>, todo: seq<Tree>, first: Option<nat>, k: nat, parDone: Option<nat>,
      parTodo: Option<nat>)
    requires Walk(h, done, todo, first, Some(k), parDone, parTodo) && todo != []
    ensures todo[0].id == k && Chain(h, [todo[0]] + todo[1..], Some(k), None, parTodo)
    ensures Distinct(Preorder([todo[0]] + todo[1..])) && Preorder([todo[0]] + todo[1..]) == Preorder(todo)
    ensures k in Preorder(todo)
  {
    assert [todo[0]] + todo[1..] == todo;
    WalkHasNext(h, done, todo, first, k, parDone, parTodo);
    DistinctSplit(Preorder(done), Preorder(todo));
  }

  lemma FinalizeCons(f: seq<Tree>)
    ensures f == [] ==> FinalizeAll(f) == []
    ensures f != [] ==> var a := Menu.Finalize(f[0], f[1..]);
      && FinalizeAll(f) == [a.0] + FinalizeAll(a.1)
      && Count(f[0]) + CountAll(f[1..]) == CountAll(f) && CountAll(a.1) < CountAll(f)
      && Preorder([a.0]) + Preorder(a.1) == Preorder(f)
  {
    hide Preorder, Menu.Finalize, Count;
    if f != [] {
      FirstFinalized(f);
    }
  }

  lemma FirstFinalized(f: seq<Tree>)
    requires f != []
    ensures var a := Menu.Finalize(f[0], f[1..]);
      && Preorder([a.0]) + Preorder(a.1) == Preorder(f) && Count(a.0) + CountAll(a.1) == CountAll(f) && Count(a.0) >= 1
  {
    hide Preorder, Menu.Finalize, Count;
    FinalizePreorder(f[0], f[1..]);
    assert [f[0]] + f[1..] == f;
    PreorderAppend([f[0]], f[1..]);
  }

  lemma AdoptCons(e: Entry, f: seq<Tree>)
    ensures f == [] || !AdoptsNext(e, f[0].entry) ==> Adopt(e, f) == ([], f)
    ensures f != [] && AdoptsNext(e, f[0].entry) ==>
      var a := Menu.Finalize(f[0], f[1..]);
      var b := Adopt(e, a.1);
      Adopt(e, f) == ([a.0] + b.0, b.1)
  {
  }

  lemma MoveUpCons(f: seq<Tree>)
    ensures f == [] ==> MoveUp(f) == []
    ensures f != [] && f[0].kids != [] && f[0].entry.prompt.None? ==>
      && MoveUp(f) == [f[0].(kids := [])] + MoveUp(f[0].kids + f[1..])
      && CountAll(f[0].kids + f[1..]) < CountAll(f)
    ensures f != [] && !(f[0].kids != [] && f[0].entry.prompt.None?) ==>
      MoveUp(f) == [f[0]] + MoveUp(f[1..]) && CountAll(f[1..]) < CountAll(f)
  {
    if f != [] && f[0].kids != [] {
      CountAppend(f[0].kids, f[1..]);
      assert Count(f[0]) == 1 + CountAll(f[0].kids);
    }
  }

  lemma CountUnder(t: Tree, after: seq<Tree>)
    ensures CountAll(t.kids) < Count(t) + CountAll(after)
    ensures CountAll(after) < Count(t) + CountAll(after)
  {
  }

  lemma FrameAfter(h: Links, h': Links, ids: seq<nat>, f: seq<Tree>, from: Option<nat>, par: Option<nat>)
    requires Chain(h, f, from, None, par) && SameOutside(h, h', ids) && forall x :: x in ids ==> x !in Preorder(f)
    ensures Chain(h', f, from, None, par)
  {
    ChainFrame(h, h', f, from, None, par);
  }

  // one more is done
  lemma PreorderDone(done: seq<Tree>, a: Tree, rest: seq<Tree>, todo: seq<Tree>)
    requires Preorder([a]) + Preorder(rest) == Preorder(todo)
    ensures Preorder(done + [a]) + Preorder(rest) == Preorder(done) + Preorder(todo)
    ensures Preorder(done + [a]) == Preorder(done) + Preorder([a])
  {
    hide Preorder;
    PreorderAppend(done, [a]);
    assert Preorder(done) + (Preorder([a]) + Preorder(rest)) == (Preorder(done) + Preorder([a])) + Preorder(rest);
  }

  lemma PreorderSplice(t: Tree, rest: seq<Tree>)
    ensures Preorder([t.(kids := [])]) + Preorder(t.kids + rest) == Preorder([t] + rest)
  {
    PreorderOne(t);
    PreorderOne(t.(kids := []));
    PreorderAppend(t.kids, rest);
    PreorderAppend([t], rest);
    assert [t.id] + [] + (Preorder(t.kids) + Preorder(rest)) == [t.id] + Preorder(t.kids) + Preorder(rest);
  }

  lemma InHalf(a: seq<nat>, b: seq<nat>, c: seq<nat>)
    requires a + b == c
    ensures forall x :: x in b ==> x in c
    ensures forall x :: x in a ==> x in c
  {
    assert forall i :: 0 <= i < |a| ==> a[i] == c[i];
    assert forall i :: 0 <= i < |b| ==> b[i] == c[|a| + i];
  }

  // the entry itself is as before
  lemma EntryKept(h: Links, t: Tree, after: seq<Tree>, m: nat, par: Option<nat>)
    requires var r := Menu.Finalize(t, after); Chain(h, [r.0] + r.1, Some(m), None, par)
    ensures m in h.entry && h.entry[m] == t.entry
  {
    var r := Menu.Finalize(t, after);
    ChainHead(h, r.0, r.1, Some(m), None, par);
    assert r.0.entry == t.entry;
  }

  class MenuTable {
    var next: map<nat, nat>
    var list: map<nat, nat>
    var parent: map<nat, nat>
    var entry: map<nat, Entry>
    var revDep: RevDeps
    // the entries menu_finalize has been called on, in the order of the calls
    ghost var finalized: seq<nat>

    // only the root menu, without children
    constructor (root: nat, e: Entry)
      ensures Mem() == Links(map[], map[], map[], map[root := e]) && finalized == [] && revDep == map[]
    {
      next, list, parent := map[], map[], map[];
      entry, revDep := map[root := e], map[];
      finalized := [];
    }

    ghost function Mem(): Links
      reads this
    {
      Links(next, list, parent, entry)
    }

    /** The first loop over the children: dependencies are handed down, and to what the
        children select. */
    method InheritKids(m: nat, outer: Option<Expr>, ghost kids: seq<Tree>)
      requires Chain(Mem(), kids, Get(list, m), None, Some(m)) && Distinct(Preorder(kids))
      modifies this`entry, this`revDep
      ensures Chain(Mem(), InheritAll(outer, kids), Get(list, m), None, Some(m))
      ensures SameOutside(old(Mem()), Mem(), Preorder(kids))
      ensures revDep == GiveAll(old(revDep), SelectsAll(InheritAll(outer, kids)))
    {
      hide Inherit, Chain, Preorder, Walk, Same, Distinct, InheritAll, GiveAll, SelectsAll, SelectsOf;
      GiveNone(revDep);
      var menu := Get(list, m);
      ghost var first, h0 := menu, Mem();
      ghost var done, todo := [], kids;
      WalkStart(h0, kids, first, Some(m), Some(m));
      SameSelf(h0, Preorder(kids));
      while menu.Some?
        invariant Walk(Mem(), done, todo, first, menu, Some(m), Some(m))
        invariant done + InheritAll(outer, todo) == InheritAll(outer, kids)
        invariant forall x :: x in Preorder(todo) ==> x in Preorder(kids)
        invariant SameOutside(h0, Mem(), Preorder(kids))
        invariant revDep == GiveAll(old(revDep), SelectsAll(done))
        decreases |todo|
      {
        var k := menu.value;
        ghost var h := Mem();
        WalkHasNext(h, done, todo, first, k, Some(m), Some(m));
        InheritStep(h, done, todo, first, k, Some(m), outer);
        WalkAt(h, done, todo, first, k, Some(m), Some(m));
        InheritCons(outer, todo);
        PreorderCons(todo);
        entry := entry[k := Inherit(outer, entry[k])];
        GiveSelects(entry[k]);
        SameOutsideGrow(h0, h, Mem(), Preorder(todo), Preorder(kids));
        ghost var u := todo[0].(entry := Inherit(outer, todo[0].entry));
        SelectsStep(old(revDep), done, u);
        assert done + ([u] + InheritAll(outer, todo[1..])) == (done + [u]) + InheritAll(outer, todo[1..]);
        done, todo := done + [u], todo[1..];
        menu := Get(next, k);
      }
      WalkEnd(Mem(), done, todo, first, Some(m), Some(m));
      InheritCons(outer, []);
      assert done + [] == done;
    }

    // what the selects among the entry's properties select is given their conditions
    method GiveSelects(e: Entry)
      modifies this`revDep
      ensures revDep == GiveAll(old(revDep), SelectsOf(e))
    {
      var k := 0;
      while k < |e.conds|
        invariant 0 <= k <= |e.conds|
        invariant revDep == GiveAll(old(revDep), Selects(e, k))
      {
        GiveAppend(old(revDep), Selects(e, k), SelectAt(e, k));
        GiveAppend(revDep, [], SelectAt(e, k));
        if e.sym.Some? && k < |e.targets| && e.targets[k].Some? {
          ghost var g := Gift(e.targets[k].value, With(e.sym.value, e.conds[k]));
          assert SelectAt(e, k) == [g] && [g][..0] == [];
          revDep := Give(revDep, Gift(e.targets[k].value, With(e.sym.value, e.conds[k])));
        }
        k := k + 1;
      }
    }

    /** The second loop: each child is finalised, together with what it takes over. */
    method FinalizeKids(m: nat, ghost kids: seq<Tree>)
      requires Chain(Mem(), kids, Get(list, m), None, Some(m)) && Distinct(Preorder(kids)) && m !in Preorder(kids)
      modifies this
      ensures Chain(Mem(), FinalizeAll(kids), Get(list, m), None, Some(m))
      ensures SameOutside(old(Mem()), Mem(), Preorder(kids))
      ensures finalized == old(finalized) + Preorder(kids)
      ensures revDep == GiveAll(old(revDep), GiftsAll(kids))
      decreases CountAll(kids), 1
    {
      hide Gifts, GiftsAll, GiveAll, Chain, Preorder, Walk, Same, SameOutside, Distinct, FinalizeAll, Menu.Finalize,
          CountAll, Count;
      var menu := Get(list, m);
      ghost var first, h0 := menu, Mem();
      ghost var done, todo := [], kids;
      WalkStart(h0, kids, first, Some(m), Some(m));
      PreorderNil();
      SameSelf(h0, Preorder(kids));
      while menu.Some?
        invariant Walk(Mem(), done, todo, first, menu, Some(m), Some(m))
        invariant done + FinalizeAll(todo) == FinalizeAll(kids)
        invariant Preorder(done) + Preorder(todo) == Preorder(kids)
        invariant SameOutside(h0, Mem(), Preorder(kids))
        invariant finalized == old(finalized) + Preorder(done)
        invariant GiveAll(old(revDep), GiftsAll(kids)) == GiveAll(revDep, GiftsAll(todo))
        invariant CountAll(todo) <= CountAll(kids)
        decreases CountAll(todo)
      {
        var k := menu.value;
        ghost var h := Mem();
        WalkHasNext(h, done, todo, first, k, Some(m), Some(m));
        WalkChain(h, done, todo, first, k, Some(m), Some(m));
        FinalizeCons(todo);
        ghost var a := Menu.Finalize(todo[0], todo[1..]);
        GiftsAllStep(revDep, todo);
        Finalize(k, todo[0], todo[1..], Some(m));
        FinalizeStep(h, Mem(), done, todo, a, first, k, Some(m));
        InHalf(Preorder(done), Preorder(todo), Preorder(kids));
        SameOutsideGrow(h0, h, Mem(), Preorder(todo), Preorder(kids));
        PreorderDone(done, a.0, a.1, todo);
        assert done + ([a.0] + FinalizeAll(a.1)) == (done + [a.0]) + FinalizeAll(a.1);
        done, todo := done + [a.0], a.1;
        menu := Get(next, k);
      }
      WalkEnd(Mem(), done, todo, first, Some(m), Some(m));
      PreorderNil();
      FinalizeCons([]);
      GiveNone(revDep);
      assert done + [] == done && Preorder(done) + [] == Preorder(done);
      SameAt(h0, Mem(), Preorder(kids), m);
    }

    /** The loop over the siblings that follow an entry without children. */
    method AdoptNext(m: nat, ghost t: Tree, ghost after: seq<Tree>, ghost par: Option<nat>)
      requires t.kids == [] && Chain(Mem(), [t] + after, Some(m), None, par) && Distinct(Preorder([t] + after))
      modifies this
      ensures var a := Adopt(t.entry, after);
        && Chain(Mem(), a.0, Get(list, m), None, Some(m)) && Chain(Mem(), a.1, Get(next, m), None, par)
        && finalized == old(finalized) + Preorder(a.0)
      ensures revDep == GiveAll(old(revDep), GiftsAdopt(t.entry, after))
      ensures m in entry && entry[m] == t.entry && Get(parent, m) == par
      ensures SameOutside(old(Mem()), Mem(), Preorder([t] + after))
      decreases CountAll(after), 2
    {
      hide Gifts, GiftsAdopt, GiveAll, Chain, Preorder, Walk, Same, SameOutside, Distinct, Adopt, AdoptsNext,
          Menu.Finalize, CountAll, Count, Set, Get, Inherit, LastId;
      ghost var h0 := Mem();
      ChainHead(h0, t, after, Some(m), None, par);
      DistinctForest(t, after);
      ChainNil(h0, t.kids, Get(list, m), Some(m));
      PreorderNil();
      var menu := Get(next, m);
      var last: Option<nat> := None;
      ghost var first := menu;
      ghost var done, todo := [], after;
      WalkStart(h0, after, first, Some(m), par);
      SameSelf(h0, Preorder(after));
      WalkHead(h0, done, todo, first, menu, Some(m), par);
      assert [] + Adopt(t.entry, after).0 == Adopt(t.entry, after).0;
      while menu.Some? && AdoptsNext(entry[m], entry[menu.value])
        invariant Walk(Mem(), done, todo, first, menu, Some(m), par)
        invariant var a := Adopt(t.entry, todo); Adopt(t.entry, after) == (done + a.0, a.1)
        invariant Preorder(done) + Preorder(todo) == Preorder(after)
        invariant SameOutside(h0, Mem(), Preorder(after))
        invariant Get(next, m) == first && m in entry && entry[m] == t.entry
        invariant menu.Some? ==> todo != [] && menu.value in entry && entry[menu.value] == todo[0].entry
        invariant if last.None? then done == [] else done != [] && last.value == LastId(done)
        invariant finalized == old(finalized) + Preorder(done)
        invariant GiveAll(old(revDep), GiftsAdopt(t.entry, after)) == GiveAll(revDep, GiftsAdopt(t.entry, todo))
        invariant CountAll(todo) <= CountAll(after)
        decreases CountAll(todo)
      {
        var k := menu.value;
        ghost var h := Mem();
        FinalizeCons(todo);
        AdoptCons(t.entry, todo);
        ghost var a := Menu.Finalize(todo[0], todo[1..]);
        GiftsAdoptStep(revDep, t.entry, todo);
        AdoptOne(m, k, done, todo, first, par);
        InHalf(Preorder(done), Preorder(todo), Preorder(after));
        SameOutsideGrow(h0, h, Mem(), Preorder(todo), Preorder(after));
        PreorderDone(done, a.0, a.1, todo);
        ghost var b := Adopt(t.entry, a.1);
        assert done + ([a.0] + b.0) == (done + [a.0]) + b.0;
        SameAt(h0, Mem(), Preorder(after), m);
        done, todo := done + [a.0], a.1;
        last := Some(k);
        menu := Get(next, k);
        WalkHead(Mem(), done, todo, first, menu, Some(m), par);
      }
      WalkNil(Mem(), done, todo, first, menu, Some(m), par);
      AdoptCons(t.entry, todo);
      GiftsAdoptStep(revDep, t.entry, todo);
      assert done + [] == done;
      SameAt(h0, Mem(), Preorder(after), m);
      InHalf(Preorder(done), Preorder(todo), Preorder(after));
      ghost var h, all := Mem(), Preorder([t] + after);
      SameSelf(h0, all);
      SameOutsideGrow(h0, h0, h, Preorder(after), all);
      CutOut(m, last, done, todo, menu, par);
      SameOutsideGrow(h0, h, Mem(), [m] + Preorder(done), all);
    }

    // one round of the loop: the sibling is finalised, with what it takes over, and moved
    method AdoptOne(m: nat, k: nat, ghost done: seq<Tree>, ghost todo: seq<Tree>, ghost first: Option<nat>,
        ghost par: Option<nat>)
      requires Walk(Mem(), done, todo, first, Some(k), Some(m), par) && todo != []
      modifies this
      ensures var a := Menu.Finalize(todo[0], todo[1..]);
        && Walk(Mem(), done + [a.0], a.1, first, Get(next, k), Some(m), par)
        && LastId(done + [a.0]) == k && finalized == old(finalized) + Preorder([a.0])
      ensures revDep == GiveAll(old(revDep), Gifts(todo[0], todo[1..]))
      ensures SameOutside(old(Mem()), Mem(), Preorder(todo))
      decreases CountAll(todo), 1
    {
      hide Gifts, GiveAll, Chain, Preorder, Walk, Same, SameOutside, Distinct, Menu.Finalize, CountAll, Count;
      ghost var h := Mem();
      WalkChain(h, done, todo, first, k, Some(m), par);
      FinalizeCons(todo);
      Finalize(k, todo[0], todo[1..], par);
      AdoptStep(h, Mem(), done, todo, Menu.Finalize(todo[0], todo[1..]), first, k, m, par);
      parent := parent[k := m];
    }

    // what follows that loop: the adopted siblings are cut out of the list
    method CutOut(m: nat, last: Option<nat>, ghost done: seq<Tree>, ghost todo: seq<Tree>, ghost menu: Option<nat>,
        ghost par: Option<nat>)
      requires Walk(Mem(), done, todo, Get(next, m), menu, Some(m), par) && Get(list, m) == None
      requires if last.None? then done == [] else done != [] && last.value == LastId(done)
      requires m !in Preorder(done) && m !in Preorder(todo)
      modifies this`next, this`list
      ensures Chain(Mem(), done, Get(list, m), None, Some(m)) && Chain(Mem(), todo, Get(next, m), None, par)
      ensures SameOutside(old(Mem()), Mem(), [m] + Preorder(done))
    {
      hide Chain, Preorder, Walk, Distinct, Set;
      ghost var first := Get(next, m);
      if last.Some? {
        CutStep(Mem(), done, todo, first, menu, m, par);
        list := list[m := next[m]];
        next := Set(next, m, Get(next, last.value));
        next := next - {last.value};
      } else {
        WalkNone(Mem(), todo, first, menu, Some(m), par);
      }
    }

    /** The last loop: entries without a prompt give up their children. */
    method MoveUpKids(m: nat, ghost kids: seq<Tree>)
      requires Chain(Mem(), kids, Get(list, m), None, Some(m)) && Distinct(Preorder(kids)) && m !in Preorder(kids)
      modifies this`next, this`list, this`parent
      ensures Chain(Mem(), MoveUp(kids), Get(list, m), None, Some(m))
      ensures SameOutside(old(Mem()), Mem(), Preorder(kids))
    {
      hide Chain, Preorder, Walk, Distinct, MoveUp, CountAll, Set, Same, SameOutside;
      ghost var h0 := Mem();
      var menu := Get(list, m);
      ghost var first := menu;
      ghost var done, todo := [], kids;
      WalkStart(h0, kids, first, Some(m), Some(m));
      PreorderNil();
      SameSelf(h0, Preorder(kids));
      while menu.Some?
        invariant Walk(Mem(), done, todo, first, menu, Some(m), Some(m))
        invariant done + MoveUp(todo) == MoveUp(kids)
        invariant Preorder(done) + Preorder(todo) == Preorder(kids)
        invariant SameOutside(h0, Mem(), Preorder(kids))
        decreases CountAll(todo)
      {
        var k := menu.value;
        ghost var h := Mem();
        WalkHasNext(h, done, todo, first, k, Some(m), Some(m));
        WalkAt(h, done, todo, first, k, Some(m), Some(m));
        InHalf(Preorder(done), Preorder(todo), Preorder(kids));
        ghost var t, rest := todo[0], todo[1..];
        ChainNil(h, t.kids, Get(list, k), Some(k));
        MoveUpCons(todo);
        if k in list && entry[k].prompt.None? {
          var last := Reparent(k, m, t.kids);
          ghost var h1 := Mem();
          SameAt(h, h1, Preorder(t.kids), k);
          SpliceStep(h, h1, done, todo, first, k, Some(m));
          next := Set(next, last, Get(next, k));
          next := next[k := list[k]];
          list := list - {k};
          SameOutsideGrow(h0, h, Mem(), Preorder(todo), Preorder(kids));
          PreorderSplice(t, rest);
          PreorderDone(done, t.(kids := []), t.kids + rest, todo);
          assert done + ([t.(kids := [])] + MoveUp(t.kids + rest)) == (done + [t.(kids := [])]) + MoveUp(t.kids + rest);
          done, todo := done + [t.(kids := [])], t.kids + rest;
        } else {
          KeepStep(h, done, todo, first, k, Some(m));
          assert done + ([t] + MoveUp(rest)) == (done + [t]) + MoveUp(rest);
          done, todo := done + [t], rest;
        }
        menu := Get(next, k);
      }
      WalkEnd(Mem(), done, todo, first, Some(m), Some(m));
      MoveUpCons([]);
      assert done + [] == done;
      SameAt(h0, Mem(), Preorder(kids), m);
    }

    // the inner loop of MoveUpKids: the children's parent pointers, and which is last
    method Reparent(k: nat, m: nat, ghost kids: seq<Tree>) returns (last: nat)
      requires k in list && Chain(Mem(), kids, Get(list, k), None, Some(k)) && Distinct(Preorder(kids)) && kids != []
      modifies this`parent
      ensures Chain(Mem(), kids, Get(list, k), None, Some(m))
      ensures SameOutside(old(Mem()), Mem(), Preorder(kids))
      ensures last == LastId(kids)
    {
      hide Chain, Preorder, Walk, Distinct, Same, SameOutside;
      ghost var first, h0 := Get(list, k), Mem();
      ghost var done, todo := [], kids;
      WalkStart(h0, kids, first, Some(m), Some(k));
      SameSelf(h0, Preorder(kids));
      last := list[k];
      while true
        invariant Walk(Mem(), done, todo, first, Some(last), Some(m), Some(k))
        invariant todo != [] && done + todo == kids
        invariant forall x :: x in Preorder(todo) ==> x in Preorder(kids)
        invariant SameOutside(h0, Mem(), Preorder(kids))
        decreases |todo|
      {
        ghost var t, rest := todo[0], todo[1..];
        ghost var h := Mem();
        WalkAt(h, done, todo, first, last, Some(m), Some(k));
        ReparentStep(h, done, todo, first, last, m, Some(k));
        PreorderCons(todo);
        parent := parent[last := m];
        SameOutsideGrow(h0, h, Mem(), Preorder(todo), Preorder(kids));
        assert done + todo == (done + [t]) + rest;
        done, todo := done + [t], rest;
        WalkNil(Mem(), done, todo, first, Get(next, last), Some(m), Some(k));
        if last !in next {
          break;
        }
        last := next[last];
      }
      WalkEnd(Mem(), done, todo, first, Some(m), Some(k));
      assert done + [] == done;
    }

    /** menu_finalize on entry `m`: it and the entries after it in its list become those of
        the function, with the pointers linked accordingly, and every entry under the
        result has been finalised exactly once, in the order of the files. */
    method Finalize(m: nat, ghost t: Tree, ghost after: seq<Tree>, ghost par: Option<nat>)
      requires Chain(Mem(), [t] + after, Some(m), None, par) && Distinct(Preorder([t] + after))
      modifies this
      ensures var r := Menu.Finalize(t, after);
        && Chain(Mem(), [r.0] + r.1, Some(m), None, par)
        && finalized == old(finalized) + Preorder([r.0])
      ensures revDep == GiveAll(old(revDep), Gifts(t, after))
      ensures SameOutside(old(Mem()), Mem(), Preorder([t] + after))
      decreases Count(t) + CountAll(after), 0
    {
      hide Chain, Preorder, Same, SameOutside, Distinct, InheritAll, FinalizeAll, Adopt, MoveUp, CountAll, Count,
          ParentDep;
      hide Gifts, GiftsAll, GiftsAdopt, GiveAll, SelectsAll;
      ghost var h0 := Mem();
      GiftsSteps(revDep, t, after);
      ChainHead(h0, t, after, Some(m), None, par);
      DistinctForest(t, after);
      ChainNil(h0, t.kids, Get(list, m), Some(m));
      CountUnder(t, after);
      finalized := finalized + [m];
      if m in list {
        var outer := ParentDep(entry[m]);
        ghost var kids := InheritAll(outer, t.kids);
        InheritCount(outer, t.kids);
        InheritPreorder(outer, t.kids);
        FinalizeAllPreorder(kids);
        ghost var ids := Preorder(t.kids);
        InheritKids(m, outer, t.kids);
        ghost var h1 := Mem();
        SameAt(h0, h1, ids, m);
        FinalizeKids(m, kids);
        ghost var h2 := Mem();
        SameAt(h1, h2, ids, m);
        SameOutsideGrow(h0, h1, h2, ids, ids);
        FrameAfter(h0, h2, ids, after, Get(h0.next, m), par);
        MoveUpKids(m, FinalizeAll(kids));
        MovedUp(h2, Mem(), t, FinalizeAll(kids), after, m, par);
        SameOutsideGrow(h0, h2, Mem(), ids, ids);
        SameSelf(h0, Preorder([t] + after));
        SameOutsideGrow(h0, h0, Mem(), ids, Preorder([t] + after));
      } else {
        ghost var a := Adopt(t.entry, after);
        AdoptPreorder(t.entry, after);
        DistinctSplit(Preorder(a.0), Preorder(a.1));
        InHalf(Preorder(a.0), Preorder(a.1), Preorder(after));
        AdoptNext(m, t, after, par);
        ghost var h1 := Mem();
        MoveUpKids(m, a.0);
        MovedUp(h1, Mem(), t, a.0, a.1, m, par);
        SameOutsideGrow(h0, h1, Mem(), Preorder(a.0), Preorder([t] + after));
      }
      EntryKept(Mem(), t, after, m, par);
      GiveOwn(entry[m]);
    }

    // what follows the last loop: a symbol that is not optional selects itself
    method GiveOwn(e: Entry)
      modifies this`revDep
      ensures revDep == GiveAll(old(revDep), OwnGift(e))
    {
      GiveAppend(revDep, [], OwnGift(e));
      if e.sym.Some? && !e.optional && e.prompt.Some? {
        var p := PromptCond(e);
        var g := Gift(e.sym.value, if p.None? then Symbol(SymMod) else Bin(AndOp, p.value, Symbol(SymMod)));
        assert OwnGift(e) == [g] && [g][..0] == [];
        revDep := Give(revDep, g);
      }
    }
  }
}
