/** Which tables with choices can be evaluated upwards: those in which no choice, taken
    together with its members, depends on itself (package/config/symbol.c). */
module Grouped {
  import opened Wrappers
  import opened Exprs
  import opened Graphs
  import opened Symbols
  import opened Evaluation

  // what a symbol follows is read by its whole, and the whole of that is reached
  lemma ConnectsFalls(t: Table, gs: Groups, rank: seq<nat>, a: nat, b: nat)
    requires Ranked(t, gs, rank) && Connects(t, gs, a, b)
    ensures a < |t| && b < |t| && rank[b] < rank[a]
  {
    var i, j :| Follows(t, gs, i, j) && a == WholeOf(gs, i) && b == WholeOf(gs, j) && !InGroup(gs, j, i);
    FollowsIsMention(t, gs, i, j);
    MentionsOk(t, gs, i, j);
    if i != a {
      assert InGroup(gs, a, i) && j != a;
    }
    assert Reads(t, gs, a, j);
    if j != b {
      assert Reads(t, gs, j, b);
    }
  }

  // numbers for symbols from places of choices and other symbols: members come after
  // their choice
  function Number(gs: Groups, place: nat, i: nat): nat {
    2 * place + if i in gs.choiceOf then 1 else 0
  }

  /** With constant ranges a table can be evaluated upwards if and only if no choice, taken
      as one with its members, and no other symbol depends on itself. */
  lemma ContractedIff(t: Table, gs: Groups)
    requires TableOk(t) && GroupsOk(t, gs)
    ensures Cyclic(Contracted(t, gs)) ==> CyclicReads(t, gs)
    ensures ConstantRanges(t) ==> (Cyclic(Contracted(t, gs)) <==> CyclicReads(t, gs))
  {
    var g := Contracted(t, gs);
    if !CyclicReads(t, gs) {
      var rank := RankOf(t, gs);
      forall a, b | (a, b) in g
        ensures a < |t| && b < |t| && rank[b] < rank[a]
      {
        ConnectsFalls(t, gs, rank, a, b);
      }
      FallingIsAcyclic(g, (i: nat) => if i < |rank| then rank[i] else 0);
    }
    if ConstantRanges(t) && !Cyclic(g) {
      var order := OrderOfWholes(t, gs);
      var rank: seq<nat> := seq(|t|, i requires 0 <= i < |t| => Number(gs, Place(order, WholeOf(gs, i)), i));
      forall i: nat, j: nat | i < |t| && j < |t| && Reads(t, gs, i, j)
        ensures rank[j] < rank[i]
      {
        NumbersFall(t, gs, order, i, j);
      }
      RankedIff(t, gs);
      assert Ranked(t, gs, rank);
    }
  }

  lemma OrderOfWholes(t: Table, gs: Groups) returns (order: seq<nat>)
    requires TableOk(t) && GroupsOk(t, gs) && !Cyclic(Contracted(t, gs))
    ensures Topological(Contracted(t, gs), order) && forall i: nat :: i < |t| ==> WholeOf(gs, i) in order
  {
    var g := Contracted(t, gs);
    forall a, b | (a, b) in g
      ensures a in Below(|t|) && b in Below(|t|)
    {
      var i, j :| Follows(t, gs, i, j) && a == WholeOf(gs, i) && b == WholeOf(gs, j);
      FollowsIsMention(t, gs, i, j);
      MentionsOk(t, gs, i, j);
    }
    order := AcyclicHasOrder(g, Below(|t|));
  }

  lemma NumbersFall(t: Table, gs: Groups, order: seq<nat>, i: nat, j: nat)
    requires TableOk(t) && GroupsOk(t, gs) && ConstantRanges(t) && i < |t| && j < |t| && Reads(t, gs, i, j)
    requires Topological(Contracted(t, gs), order) && forall i: nat :: i < |t| ==> WholeOf(gs, i) in order
    ensures Number(gs, Place(order, WholeOf(gs, j)), j) < Number(gs, Place(order, WholeOf(gs, i)), i)
  {
    if i in gs.choiceOf && j == gs.choiceOf[i] {
      assert j !in gs.choiceOf;
    } else {
      assert Connects(t, gs, WholeOf(gs, i), WholeOf(gs, j)) by {
        if Mentions(t, gs, i, j) {
          FollowsIsMention(t, gs, i, j);
          assert Follows(t, gs, i, j) && !InGroup(gs, j, i);
        } else {
          var m :| InGroup(gs, i, m) && Mentions(t, gs, m, j);
          FollowsIsMention(t, gs, m, j);
          MemberOk(t, gs, i, m);
          assert !InGroup(gs, j, m) by {
            if InGroup(gs, j, m) {
              MemberOk(t, gs, j, m);
            }
          }
          assert Follows(t, gs, m, j) && WholeOf(gs, m) == i && WholeOf(gs, i) == i;
        }
      }
      EdgeFalls(t, gs, order, WholeOf(gs, i), WholeOf(gs, j));
    }
  }

  lemma EdgeFalls(t: Table, gs: Groups, order: seq<nat>, a: nat, b: nat)
    requires Topological(Contracted(t, gs), order) && Connects(t, gs, a, b) && a in order
    ensures b in order && Place(order, b) < Place(order, a)
  {
    var k := Place(order, a);
    assert (order[k], b) in Contracted(t, gs);
    PlaceFirst(order, b, k);
  }

  /** In such a table no path that leaves a choice and its members comes back to them: what
      they mention outside is settled without them. */
  lemma OutsideStaysOutside(t: Table, gs: Groups, p: seq<nat>)
    requires TableOk(t) && GroupsOk(t, gs) && !Cyclic(Contracted(t, gs))
    requires IsPath(Followed(t, gs), p) && |p| >= 2 && !InGroup(gs, p[1], p[0])
    ensures WholeOf(gs, p[|p| - 1]) != WholeOf(gs, p[0])
  {
    var order := OrderOfWholes(t, gs);
    assert (p[0], p[1]) in Followed(t, gs);
    assert Connects(t, gs, WholeOf(gs, p[0]), WholeOf(gs, p[1]));
    FollowsIsMention(t, gs, p[0], p[1]);
    MentionsOk(t, gs, p[0], p[1]);
    EdgeFalls(t, gs, order, WholeOf(gs, p[0]), WholeOf(gs, p[1]));
    PathRest(Followed(t, gs), p);
    WholesFall(t, gs, order, p[1..]);
  }

  lemma {:induction false} WholesFall(t: Table, gs: Groups, order: seq<nat>, p: seq<nat>)
    requires TableOk(t) && GroupsOk(t, gs) && IsPath(Followed(t, gs), p)
    requires Topological(Contracted(t, gs), order) && WholeOf(gs, p[0]) in order
    ensures WholeOf(gs, p[|p| - 1]) in order
    ensures Place(order, WholeOf(gs, p[|p| - 1])) <= Place(order, WholeOf(gs, p[0]))
    decreases |p|
  {
    if |p| >= 2 {
      assert (p[0], p[1]) in Followed(t, gs);
      if !InGroup(gs, p[1], p[0]) {
        assert Connects(t, gs, WholeOf(gs, p[0]), WholeOf(gs, p[1]));
        EdgeFalls(t, gs, order, WholeOf(gs, p[0]), WholeOf(gs, p[1]));
      } else {
        MemberOk(t, gs, p[1], p[0]);
      }
      PathRest(Followed(t, gs), p);
      WholesFall(t, gs, order, p[1..]);
    }
  }

  /** What the dependency check rejects cannot be evaluated upwards; without choices, and
      where ranges are constants, it rejects nothing else. */
  lemma CheckedOrCyclic(t: Table)
    requires TableOk(t)
    ensures SelfDependent(t) ==> CyclicReads(t, NoGroups)
    ensures ConstantRanges(t) ==> (SelfDependent(t) <==> CyclicReads(t, NoGroups))
  {
    StagesAreSymbols(t);
    ContractedIff(t, NoGroups);
  }

  /** Two ints, each the upper and lower bound of the other, are accepted, and cannot be
      numbered. */
  lemma AcceptedCycle(t: Table)
    requires var a, b := Config(0, Int), Config(1, Int);
      t == [SymDef(Int, "A", [Range(None, b, b)], None), SymDef(Int, "B", [Range(None, a, a)], None)]
    ensures TableOk(t) && !SelfDependent(t)
    ensures CyclicReads(t, NoGroups) && !exists rank :: Ranked(t, NoGroups, rank)
  {
    var a, b := Config(0, Int), Config(1, Int);
    assert t[0].props == [Range(None, b, b)] && t[1].props == [Range(None, a, a)];
    forall i: nat, j: nat
      ensures !Follows(t, NoGroups, i, j)
    {
    }
    forall p: seq<nat>
      ensures !IsCycle(Followed(t, NoGroups), p)
    {
      if |p| >= 2 {
        assert (p[0], p[1]) !in Followed(t, NoGroups);
      }
    }
    assert t[0].props[0] in t[0].props && 1 in ReadRefs(t[0].props[0], false);
    assert t[1].props[0] in t[1].props && 0 in ReadRefs(t[1].props[0], false);
    assert Mentions(t, NoGroups, 0, 1) && Mentions(t, NoGroups, 1, 0);
    var p: seq<nat> := [0, 1, 0];
    assert IsCycle(ReadGraph(t, NoGroups), p);
    RankedIff(t, NoGroups);
  }
}
