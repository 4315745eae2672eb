/** The Graph of graph.go: an undirected friendship graph kept as one EdgeSet
    of neighbour ids per node, and the mutual-friends query over it. The
    graph's abstract value is its adjacency map, node id to the strictly
    ascending neighbour ids. */
module Graphs {
  import opened SortedSeqs
  import opened EdgeSets

  /** The neighbours of x; a node that is not in the map has none. */
  function Neighbors(adj: map<int, seq<int>>, x: int): seq<int> {
    if x in adj then adj[x] else []
  }

  /** y is recorded as a neighbour of x. */
  ghost predicate Linked(adj: map<int, seq<int>>, x: int, y: int) {
    y in Neighbors(adj, x)
  }

  /** The graph invariant: every neighbour list is strictly ascending, no
      node is its own neighbour, and every edge is recorded at both ends. */
  ghost predicate WellFormed(adj: map<int, seq<int>>) {
    && (forall x :: x in adj ==> StrictlyAscending(adj[x]))
    && (forall x :: x in adj ==> x !in adj[x])
    && (forall x, y {:trigger Linked(adj, x, y)} :: Linked(adj, x, y) ==> Linked(adj, y, x))
  }

  /** The adjacency map after the undirected edge a-b is added. A self-loop
      leaves the map as it is. */
  ghost function AddEdge(adj: map<int, seq<int>>, a: int, b: int): map<int, seq<int>> {
    if a == b then adj
    else
      adj[a := Canonical(Elements(Neighbors(adj, a)) + {b})]
         [b := Canonical(Elements(Neighbors(adj, b)) + {a})]
  }

  /** The adjacency map once id is a node: unchanged when it already is,
      otherwise id joins without neighbours. */
  ghost function AddNode(adj: map<int, seq<int>>, id: int): (n: map<int, seq<int>>)
    ensures n.Keys == adj.Keys + {id}
    ensures forall x :: Neighbors(n, x) == Neighbors(adj, x)
  {
    if id in adj then adj else adj[id := []]
  }

  /** Making id a node keeps the graph invariant. */
  lemma AddNodeWellFormed(adj: map<int, seq<int>>, id: int)
    requires WellFormed(adj)
    ensures WellFormed(AddNode(adj, id))
  {
    var n := AddNode(adj, id);
    forall x, y | Linked(n, x, y)
      ensures Linked(n, y, x)
    {
      assert Linked(adj, x, y);
    }
  }

  /** Registering the ends of an edge as nodes first does not change what
      adding the edge gives. */
  lemma AddEdgeAfterNodes(adj: map<int, seq<int>>, a: int, b: int)
    requires a != b
    ensures AddEdge(AddNode(AddNode(adj, a), b), a, b) == AddEdge(adj, a, b)
  {
    var n := AddNode(AddNode(adj, a), b);
    assert Neighbors(n, a) == Neighbors(adj, a) && Neighbors(n, b) == Neighbors(adj, b);
    var l, r := AddEdge(n, a, b), AddEdge(adj, a, b);
    assert l.Keys == r.Keys;
    forall x | x in l ensures l[x] == r[x] {
      if x != a && x != b {
        assert Neighbors(l, x) == Neighbors(adj, x);
      }
    }
  }

  /** Under the invariant an edge is seen from both of its ends. */
  lemma EndpointsAgree(adj: map<int, seq<int>>, a: int, b: int)
    requires WellFormed(adj)
    ensures b in Neighbors(adj, a) <==> a in Neighbors(adj, b)
  {
    assert Linked(adj, a, b) <==> b in Neighbors(adj, a);
    assert Linked(adj, b, a) <==> a in Neighbors(adj, b);
  }

  /** AddEdge changes the edge relation by exactly the edge a-b, in both
      directions, and no other. */
  lemma AddEdgeRelation(adj: map<int, seq<int>>, a: int, b: int, x: int, y: int)
    ensures y in Neighbors(AddEdge(adj, a, b), x)
        <==> y in Neighbors(adj, x) || (a != b && ((x == a && y == b) || (x == b && y == a)))
  {
    if a != b {
      var n := AddEdge(adj, a, b);
      if x == a {
        assert Elements(n[a]) == Elements(Neighbors(adj, a)) + {b};
        assert y in n[a] <==> y in Elements(n[a]);
        assert y in Neighbors(adj, a) <==> y in Elements(Neighbors(adj, a));
      } else if x == b {
        assert Elements(n[b]) == Elements(Neighbors(adj, b)) + {a};
        assert y in n[b] <==> y in Elements(n[b]);
        assert y in Neighbors(adj, b) <==> y in Elements(Neighbors(adj, b));
      }
    }
  }

  /** Adding an edge keeps the graph invariant. */
  lemma AddEdgeWellFormed(adj: map<int, seq<int>>, a: int, b: int)
    requires WellFormed(adj)
    ensures WellFormed(AddEdge(adj, a, b))
  {
    var n := AddEdge(adj, a, b);
    forall x | x in n
      ensures x !in n[x]
    {
      AddEdgeRelation(adj, a, b, x, x);
    }
    forall x, y | Linked(n, x, y)
      ensures Linked(n, y, x)
    {
      AddEdgeRelation(adj, a, b, x, y);
      AddEdgeRelation(adj, a, b, y, x);
      assert Linked(adj, x, y) ==> Linked(adj, y, x);
    }
  }

  /** The edge a-b and the edge b-a are the same edge. */
  lemma AddEdgeUndirected(adj: map<int, seq<int>>, a: int, b: int)
    ensures AddEdge(adj, a, b) == AddEdge(adj, b, a)
  {
    if a != b {
      var l, r := AddEdge(adj, a, b), AddEdge(adj, b, a);
      assert l.Keys == r.Keys;
      forall x | x in l ensures l[x] == r[x] {
      }
    }
  }

  /** Adding an edge that is already there changes nothing. */
  lemma AddEdgeExisting(adj: map<int, seq<int>>, a: int, b: int)
    requires WellFormed(adj) && b in Neighbors(adj, a)
    ensures AddEdge(adj, a, b) == adj
  {
    EndpointsAgree(adj, a, b);
    assert a in adj && b in adj;
    AddPresent(adj[a], b);
    AddPresent(adj[b], a);
  }

  /** A map lookup with Go's zero value for a missing key. */
  function Weight(weights: map<int, int>, id: int): int {
    if id in weights then weights[id] else 0
  }

  /** addWeights: counts each id once more per occurrence in ids. The Go map
      is updated in place; here the updated map is returned. */
  method AddWeights(ids: seq<int>, weights: map<int, int>) returns (updated: map<int, int>)
    ensures updated.Keys == weights.Keys + Elements(ids)
    ensures forall id :: Weight(updated, id) == Weight(weights, id) + multiset(ids)[id]
  {
    updated := weights;
    for i := 0 to |ids|
      invariant updated.Keys == weights.Keys + Elements(ids[..i])
      invariant forall id :: Weight(updated, id) == Weight(weights, id) + multiset(ids[..i])[id]
    {
      assert ids[..i + 1] == ids[..i] + [ids[i]];
      var id := ids[i];
      var weight := Weight(updated, id);
      updated := updated[id := weight + 1];
    }
    assert ids[..|ids|] == ids;
  }

  /** The ids adjacent to at least one of ts. */
  ghost function Reach(adj: map<int, seq<int>>, ts: seq<int>): set<int> {
    set t, x | t in ts && x in Neighbors(adj, t) :: x
  }

  /** Extending ts by one node adds that node's neighbours. */
  lemma ReachStep(adj: map<int, seq<int>>, ts: seq<int>, i: nat)
    requires i < |ts|
    ensures Reach(adj, ts[..i + 1]) == Reach(adj, ts[..i]) + Elements(Neighbors(adj, ts[i]))
  {
    assert ts[..i + 1] == ts[..i] + [ts[i]];
    var l, r := Reach(adj, ts[..i + 1]), Reach(adj, ts[..i]) + Elements(Neighbors(adj, ts[i]));
    forall x | x in l ensures x in r {
      var t :| t in ts[..i + 1] && x in Neighbors(adj, t);
      if t != ts[i] {
        assert t in ts[..i];
      }
    }
    forall x | x in r ensures x in l {
      if x in Elements(Neighbors(adj, ts[i])) {
        assert ts[i] in ts[..i + 1];
      } else {
        var t :| t in ts[..i] && x in Neighbors(adj, t);
        assert t in ts[..i + 1];
      }
    }
  }

  /** The mutual friends of from: its neighbours that are also adjacent to
      one of its neighbours. */
  ghost function MutualIds(adj: map<int, seq<int>>, from: int): set<int> {
    Elements(Neighbors(adj, from)) * Reach(adj, Neighbors(adj, from))
  }

  /** How many of ts confirm x: those t with x in n and x adjacent to t. */
  ghost function Confirmations(adj: map<int, seq<int>>, n: seq<int>, ts: seq<int>, x: int): nat {
    if ts == [] then 0
    else
      Confirmations(adj, n, ts[..|ts| - 1], x)
        + if x in n && x in Neighbors(adj, ts[|ts| - 1]) then 1 else 0
  }

  /** The weight Mutual reports for x: how many neighbours of from x is
      adjacent to, when x is itself a neighbour of from. */
  ghost function SharedCount(adj: map<int, seq<int>>, from: int, x: int): nat {
    var n := Neighbors(adj, from);
    Confirmations(adj, n, n, x)
  }

  /** Counting over a prefix one element further. */
  lemma ConfirmationsStep(adj: map<int, seq<int>>, n: seq<int>, ts: seq<int>, i: nat, x: int)
    requires i < |ts|
    ensures Confirmations(adj, n, ts[..i + 1], x)
         == Confirmations(adj, n, ts[..i], x) + if x in n && x in Neighbors(adj, ts[i]) then 1 else 0
  {
    assert ts[..i + 1][..i] == ts[..i];
  }

  /** One round of Mutual's loop: adding one to the weight of every id that
      ids and the neighbours of ids[i] have in common extends the counts
      from ids[..i] to ids[..i + 1]. */
  lemma TallyStep(adj: map<int, seq<int>>, ids: seq<int>, i: nat, matched: seq<int>,
                  before: map<int, int>, after: map<int, int>)
    requires i < |ids|
    requires StrictlyAscending(matched)
    requires Elements(matched) == Elements(ids) * Elements(Neighbors(adj, ids[i]))
    requires forall x :: Weight(before, x) == Confirmations(adj, ids, ids[..i], x)
    requires forall x :: Weight(after, x) == Weight(before, x) + multiset(matched)[x]
    ensures forall x :: Weight(after, x) == Confirmations(adj, ids, ids[..i + 1], x)
  {
    forall x ensures Weight(after, x) == Confirmations(adj, ids, ids[..i + 1], x) {
      CountInStrict(matched, x);
      assert x in matched <==> x in Elements(matched);
      ConfirmationsStep(adj, ids, ids, i, x);
    }
  }

  /** x is confirmed at all exactly when it is in n and adjacent to one of ts. */
  lemma {:induction false} ConfirmationsPositive(adj: map<int, seq<int>>, n: seq<int>, ts: seq<int>, x: int)
    ensures Confirmations(adj, n, ts, x) > 0 <==> x in n && x in Reach(adj, ts)
  {
    if ts != [] {
      var k := |ts| - 1;
      ConfirmationsPositive(adj, n, ts[..k], x);
      ReachStep(adj, ts, k);
      assert ts[..k + 1] == ts;
    } else {
      assert Reach(adj, ts) == {};
    }
  }

  /** The members of ts that x is adjacent to. */
  ghost function Confirming(adj: map<int, seq<int>>, ts: seq<int>, x: int): set<int> {
    set t | t in ts && x in Neighbors(adj, t)
  }

  /** Extending ts by one node t adds t when x is adjacent to it. */
  lemma ConfirmingStep(adj: map<int, seq<int>>, ts: seq<int>, t: int, x: int)
    ensures Confirming(adj, ts + [t], x)
         == Confirming(adj, ts, x) + if x in Neighbors(adj, t) then {t} else {}
  {
  }

  /** Over duplicate-free ts, the confirmations of a member x of n are the
      members of ts adjacent to x... */
  lemma {:induction false} ConfirmationsCount(adj: map<int, seq<int>>, n: seq<int>, ts: seq<int>, x: int)
    requires StrictlyAscending(ts) && x in n
    ensures Confirmations(adj, n, ts, x) == |Confirming(adj, ts, x)|
  {
    if ts != [] {
      var k := |ts| - 1;
      DropGreatest(ts);
      ConfirmationsCount(adj, n, ts[..k], x);
      ConfirmingStep(adj, ts[..k], ts[k], x);
    }
  }

  /** ...so under the graph invariant the weight of a mutual friend x of from
      is the number of friends x and from have in common. */
  lemma SharedCountIsCommonFriends(adj: map<int, seq<int>>, from: int, x: int)
    requires WellFormed(adj) && x in Neighbors(adj, from)
    ensures SharedCount(adj, from, x) == |Elements(Neighbors(adj, from)) * Elements(Neighbors(adj, x))|
  {
    var n := Neighbors(adj, from);
    assert from in adj;
    ConfirmationsCount(adj, n, n, x);
    var confirming := Confirming(adj, n, x);
    forall t ensures t in confirming <==> t in Elements(n) * Elements(Neighbors(adj, x)) {
      EndpointsAgree(adj, t, x);
    }
    assert confirming == Elements(n) * Elements(Neighbors(adj, x));
  }

  /** A node never is its own mutual friend, and every mutual friend is a
      friend. */
  lemma MutualIdsAreFriends(adj: map<int, seq<int>>, from: int)
    requires WellFormed(adj)
    ensures MutualIds(adj, from) <= Elements(Neighbors(adj, from))
    ensures from !in MutualIds(adj, from)
  {
    if from in adj {
      assert from !in adj[from];
    }
  }

  class Graph {
    /** Node id to the EdgeSet of its neighbours. */
    var Index: map<int, EdgeSet>
    /** The abstract value: node id to neighbour ids. */
    ghost var Adj: map<int, seq<int>>
    /** The node each EdgeSet of Index belongs to. */
    ghost var Owner: map<EdgeSet, int>

    /** Index holds one EdgeSet per node of Adj, with that node's neighbours;
        no EdgeSet serves two nodes; Adj is well formed. */
    ghost predicate Valid()
      reads this, Index.Values
    {
      && Index.Keys == Adj.Keys
      && (forall id :: id in Index ==> Index[id].edges == Adj[id])
      && (forall id :: id in Index ==> Index[id] in Owner && Owner[Index[id]] == id)
      && WellFormed(Adj)
    }

    /** NewGraph: a graph with no nodes. */
    constructor ()
      ensures Valid()
      ensures Index == map[] && Adj == map[]
    {
      Index := map[];
      Adj := map[];
      Owner := map[];
    }

    /** GetOrCreate: the EdgeSet of id, created empty and registered when id
        has none. */
    method GetOrCreate(id: int) returns (es: EdgeSet)
      requires Valid()
      modifies this
      ensures Valid()
      ensures id in Index && es == Index[id]
      ensures Adj == AddNode(old(Adj), id)
      ensures id in old(Index) ==> Index == old(Index)
      ensures id !in old(Index) ==> fresh(es) && Index == old(Index)[id := es]
      ensures forall k :: k in old(Index) ==> k in Index && Index[k] == old(Index)[k]
      ensures forall k :: k in Index && k !in old(Index) ==> fresh(Index[k])
    {
      if id in Index {
        es := Index[id];
        return;
      }
      es := new EdgeSet();
      Index := Index[id := es];
      AddNodeWellFormed(Adj, id);
      Adj := Adj[id := []];
      Owner := Owner[es := id];
    }

    /** Add: records the friendship a-b at both ends and reports whether it
        was new; a self-friendship is refused. */
    method Add(a: int, b: int) returns (ok: bool)
      requires Valid()
      modifies this, Index.Values
      ensures Valid()
      ensures Adj == AddEdge(old(Adj), a, b)
      ensures ok <==> a != b && b !in Neighbors(old(Adj), a)
      ensures a != b ==> b in Neighbors(Adj, a) && a in Neighbors(Adj, b)
      ensures a == b ==> Index == old(Index)
      ensures forall id :: id in old(Index) ==> id in Index && Index[id] == old(Index)[id]
      ensures forall id :: id in Index && id !in old(Index) ==> fresh(Index[id])
    {
      if a == b {
        return false;
      }
      ghost var adj0 := Adj;
      var aes := GetOrCreate(a);
      ghost var index1 := Index;
      var bes := GetOrCreate(b);
      assert forall k :: k in index1 ==> k in Index && Index[k] == index1[k];
      AddEdgeAfterNodes(adj0, a, b);
      AddEdgeRelation(adj0, a, b, a, b);
      AddEdgeRelation(adj0, a, b, b, a);
      ok := Link(a, b, aes, bes);
    }

    /** The second half of Add, once both ends are nodes: each end's set
        gains the other end. The two insertions always agree, so the
        inconsistency panic cannot happen. */
    method Link(a: int, b: int, aes: EdgeSet, bes: EdgeSet) returns (ok: bool)
      requires Valid() && a != b
      requires a in Index && Index[a] == aes && b in Index && Index[b] == bes
      modifies this, aes, bes
      ensures Valid() && Index == old(Index)
      ensures Adj == AddEdge(old(Adj), a, b)
      ensures ok <==> b !in old(Adj)[a]
    {
      ghost var adj := Adj;
      assert Owner[aes] == a && Owner[bes] == b;
      EndpointsAgree(adj, a, b);

      var aok := aes.Add(b);
      var bok := bes.Add(a);

      if aok != bok {
        assert false;
      }
      AddEdgeWellFormed(adj, a, b);
      Adj := AddEdge(adj, a, b);
      forall id | id in Index
        ensures Index[id].edges == Adj[id]
      {
        if id != a && id != b {
          assert Owner[Index[id]] == id;
        }
      }
      return aok;
    }

    /** Mutual: the mutual friends of from, with each one's weight, the number
        of friends of from it is also friends with. An unknown node has
        none, and its weights map is empty. */
    method Mutual(from: int) returns (ret: EdgeSet, weights: map<int, int>)
      requires Valid()
      ensures fresh(ret) && ret.Valid()
      ensures ret.edges == Canonical(MutualIds(Adj, from))
      ensures weights.Keys == MutualIds(Adj, from)
      ensures forall x :: x in weights ==> weights[x] == SharedCount(Adj, from, x)
      ensures forall x :: x in weights ==>
                weights[x] == |Elements(Neighbors(Adj, from)) * Elements(Neighbors(Adj, x))|
      ensures from !in Index ==> ret.edges == [] && weights == map[]
    {
      ret := new EdgeSet();
      weights := map[];
      if from !in Index {
        assert MutualIds(Adj, from) == Elements([]);
        CanonicalOf([]);
        return;
      }
      ghost var adj := Adj;
      var fromEs := Index[from];
      var ids := fromEs.edges;
      assert ids == Neighbors(adj, from);
      for i := 0 to |ids|
        invariant fresh(ret) && ret.Valid()
        invariant ret.Members() == Elements(ids) * Reach(adj, ids[..i])
        invariant weights.Keys == ret.Members()
        invariant forall x :: Weight(weights, x) == Confirmations(adj, ids, ids[..i], x)
      {
        var toId := ids[i];
        assert Linked(adj, from, toId);
        var toEs := Index[toId];
        assert toEs.edges == Neighbors(adj, toId);
        var matchedEs := fromEs.Intersection(toEs);
        ghost var before := weights;
        weights := AddWeights(matchedEs.edges, weights);
        TallyStep(adj, ids, i, matchedEs.edges, before, weights);
        ReachStep(adj, ids, i);
        ret.MergeReplace(matchedEs);
      }
      assert ids[..|ids|] == ids;
      forall x | x in weights ensures weights[x] == SharedCount(adj, from, x) {
        assert Weight(weights, x) == weights[x];
      }
      forall x | x in weights
        ensures weights[x] == |Elements(Neighbors(adj, from)) * Elements(Neighbors(adj, x))|
      {
        assert x in Elements(ids);
        SharedCountIsCommonFriends(adj, from, x);
      }
      CanonicalOf(ret.edges);
    }
  }
}
