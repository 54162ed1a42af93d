/** Directed graphs, given by their edges: paths, cycles, and orders in which every node
    comes after all it points to. */
module Graphs {

  type Graph<!T(==)> = iset<(T, T)>

  ghost predicate IsPath<T(!new)>(g: Graph<T>, p: seq<T>) {
    |p| > 0 && forall k :: 0 <= k < |p| - 1 ==> (p[k], p[k + 1]) in g
  }

  ghost predicate IsCycle<T(!new)>(g: Graph<T>, p: seq<T>) {
    IsPath(g, p) && |p| >= 2 && p[0] == p[|p| - 1]
  }

  ghost predicate Cyclic<T(!new)>(g: Graph<T>) {
    exists p :: IsCycle(g, p)
  }

  /** `order` lists nodes after everything they point to. */
  ghost predicate Topological<T(!new)>(g: Graph<T>, order: seq<T>) {
    forall k, b :: 0 <= k < |order| && (order[k], b) in g ==> b in order[..k]
  }

  lemma {:induction false} PathDescends<T(!new)>(g: Graph<T>, order: seq<T>, p: seq<T>, k: nat)
    requires Topological(g, order) && IsPath(g, p)
    requires k < |order| && p[0] == order[k]
    ensures exists m :: 0 <= m <= k && p[|p| - 1] == order[m] && (|p| >= 2 ==> m < k)
    decreases |p|
  {
    if |p| >= 2 {
      assert (p[0], p[1]) in g;
      var m :| 0 <= m < k && order[m] == p[1];
      PathRest(g, p);
      PathDescends(g, order, p[1..], m);
    }
  }

  lemma PathRest<T(!new)>(g: Graph<T>, p: seq<T>)
    requires IsPath(g, p) && |p| >= 2
    ensures IsPath(g, p[1..])
  {
    forall k | 0 <= k < |p[1..]| - 1
      ensures (p[1..][k], p[1..][k + 1]) in g
    {
      assert (p[k + 1], p[k + 2]) in g;
    }
  }

  // the first place of a node in a list
  ghost function Place<T(!new)>(order: seq<T>, a: T): (k: nat)
    requires a in order
    ensures k < |order| && order[k] == a && a !in order[..k]
  {
    if order[0] == a then 0 else 1 + Place(order[1..], a)
  }

  lemma {:induction false} PlaceFirst<T(!new)>(order: seq<T>, a: T, k: nat)
    requires k <= |order| && a in order[..k]
    ensures a in order && Place(order, a) < k
  {
    if order[0] != a {
      assert order[..k][1..] == order[1..][..k - 1];
      PlaceFirst(order[1..], a, k - 1);
    }
  }

  /** Nodes that can be so ordered form no cycle. */
  lemma OrderedIsAcyclic<T(!new)>(g: Graph<T>, order: seq<T>)
    requires Topological(g, order) && forall a, b :: (a, b) in g ==> a in order
    ensures !Cyclic(g)
  {
    if Cyclic(g) {
      var p :| IsCycle(g, p);
      assert (p[0], p[1]) in g;
      var k := Place(order, p[0]);
      PathDescends(g, order, p, k);
    }
  }

  lemma ExtendPath<T(!new)>(g: Graph<T>, p: seq<T>, a: T)
    requires p != [] ==> IsPath(g, p) && (p[|p| - 1], a) in g
    ensures IsPath(g, p + [a])
  {
  }

  lemma CloseCycle<T(!new)>(g: Graph<T>, p: seq<T>, k: nat)
    requires IsPath(g, p) && k < |p| && (p[|p| - 1], p[k]) in g
    ensures Cyclic(g)
  {
    var c := p[k..] + [p[k]];
    forall j | 0 <= j < |c| - 1
      ensures (c[j], c[j + 1]) in g
    {
      if j < |c| - 2 {
        assert (p[k + j], p[k + j + 1]) in g;
      }
    }
    assert IsCycle(g, c);
  }

  lemma ExtendOrder<T(!new)>(g: Graph<T>, order: seq<T>, a: T)
    requires Topological(g, order) && forall b :: (a, b) in g ==> b in order
    ensures Topological(g, order + [a])
  {
    var longer := order + [a];
    forall k, b | 0 <= k < |longer| && (longer[k], b) in g
      ensures b in longer[..k]
    {
      if k < |order| {
        assert b in order[..k] && longer[..k] == order[..k];
      } else {
        assert longer[..k] == order;
      }
    }
  }

  // ---------- every finite graph without cycles can be ordered ----------

  ghost predicate Within<T(!new)>(g: Graph<T>, nodes: set<T>) {
    forall a, b :: (a, b) in g ==> a in nodes && b in nodes
  }

  lemma AcyclicHasOrder<T(!new)>(g: Graph<T>, nodes: set<T>) returns (order: seq<T>)
    requires Within(g, nodes) && !Cyclic(g)
    ensures Topological(g, order) && forall a :: a in nodes ==> a in order
  {
    order := [];
    var left := nodes;
    while left != {}
      invariant left <= nodes
      invariant Topological(g, order) && forall a :: a in nodes ==> a in left || a in order
      decreases |left|
    {
      var a := Lowest(g, nodes, left);
      ExtendOrder(g, order, a);
      order, left := order + [a], left - {a};
    }
  }

  // a node that points to none of those left: otherwise one could go on for ever
  lemma Lowest<T(!new)>(g: Graph<T>, nodes: set<T>, left: set<T>) returns (a: T)
    requires Within(g, nodes) && !Cyclic(g) && left != {}
    ensures a in left && forall b :: (a, b) in g ==> b !in left
  {
    a :| a in left;
    var path, unseen := [a], left - {a};
    while exists b :: (a, b) in g && b in left
      invariant a in left && path != [] && path[|path| - 1] == a && IsPath(g, path)
      invariant unseen <= left && forall b :: b in left ==> b in unseen || b in path
      decreases |unseen|
    {
      var b :| (a, b) in g && b in left;
      if b in path {
        var k :| 0 <= k < |path| && path[k] == b;
        CloseCycle(g, path, k);
        assert false;
      }
      ExtendPath(g, path, b);
      path, unseen, a := path + [b], unseen - {b}, b;
    }
  }

  /** Nodes that are numbered downwards along the edges form no cycle. */
  lemma FallingIsAcyclic<T(!new)>(g: Graph<T>, rank: T -> int)
    requires forall a, b :: (a, b) in g ==> rank(b) < rank(a)
    ensures !Cyclic(g)
  {
    if Cyclic(g) {
      var p :| IsCycle(g, p);
      PathFalls(g, rank, p);
    }
  }

  lemma {:induction false} PathFalls<T(!new)>(g: Graph<T>, rank: T -> int, p: seq<T>)
    requires (forall a, b :: (a, b) in g ==> rank(b) < rank(a)) && IsPath(g, p)
    ensures rank(p[|p| - 1]) <= rank(p[0]) && (|p| >= 2 ==> rank(p[|p| - 1]) < rank(p[0]))
    decreases |p|
  {
    if |p| >= 2 {
      assert (p[0], p[1]) in g;
      PathRest(g, p);
      PathFalls(g, rank, p[1..]);
    }
  }
}
