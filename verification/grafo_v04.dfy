/**
 The network model of version 0.4 (class GrafoRed): an undirected graph over
 nodes 0..N-1 with a per-node risk, a target node `meta`, the reward of every
 transition of the doubled state space and the actions available from each
 state.

 The graph is kept as its adjacency: adj[u] lists the neighbours of u in the
 order the graph library reports them, which is the order of the action
 lists. Random generation of graphs and risks is not modelled; a graph is
 an input.
 */
module GrafoV04 {
  import opened Engine

  datatype GrafoRed = GrafoRed(n: nat, adj: seq<seq<nat>>, risk: seq<int>, meta: nat)

  /** A simple undirected graph over 0..n-1 whose risks are 1 or 10. */
  predicate Valid(g: GrafoRed) {
    && |g.adj| == g.n
    && |g.risk| == g.n
    && (forall u, k :: 0 <= u < g.n && 0 <= k < |g.adj[u]| ==>
          g.adj[u][k] < g.n && g.adj[u][k] != u && u in g.adj[g.adj[u][k]])
    && (forall u, k, l :: 0 <= u < g.n && 0 <= k < l < |g.adj[u]| ==> g.adj[u][k] != g.adj[u][l])
    && (forall i :: 0 <= i < g.n ==> g.risk[i] == 1 || g.risk[i] == 10)
  }

  /** The graph library's edge test: u must be a node, v one of its neighbours. */
  predicate HasEdge(g: GrafoRed, u: int, v: nat) {
    0 <= u < |g.adj| && v in g.adj[u]
  }

  /** Number of incident edges of node v. */
  function Degree(g: GrafoRed, v: nat): nat
    requires v < |g.adj|
  {
    |g.adj[v]|
  }

  /** The neighbours of a valid graph are nodes. */
  lemma NeighboursAreNodes(g: GrafoRed, u: int, v: nat)
    requires Valid(g) && HasEdge(g, u, v)
    ensures v < g.n && v as int != u && HasEdge(g, v, u)
  {
    var k :| 0 <= k < |g.adj[u]| && g.adj[u][k] == v;
  }

  // ---------------------------------------------------------------------
  // Configuration: target node, high-risk nodes, the predefined topology
  // ---------------------------------------------------------------------

  /** Selects the target node; nothing else changes. */
  function SelectMeta(g: GrafoRed, meta: nat): (r: GrafoRed)
    ensures r.meta == meta
    ensures r.(meta := g.meta) == g
    ensures Valid(g) ==> Valid(r)
  {
    g.(meta := meta)
  }

  /** Sets the risk of every listed index to 10, one after the other. */
  function MarkHigh(risk: seq<int>, nodes: seq<int>): (r: seq<int>)
    requires forall i :: i in nodes ==> 0 <= i < |risk|
    ensures |r| == |risk|
    ensures forall i :: 0 <= i < |r| ==> r[i] == (if i in nodes then 10 else risk[i])
    decreases |nodes|
  {
    if |nodes| == 0 then risk
    else
      assert nodes[0] in nodes;
      assert forall i :: i in nodes[1..] ==> i in nodes;
      MarkHigh(risk[nodes[0] := 10], nodes[1..])
  }

  /**
   Resets every node to risk 1, then gives risk 10 to the listed nodes. A
   listed value that is not a node makes the graph library fail (None).
   */
  function DefineHighRisk(g: GrafoRed, nodes: seq<int>): (r: Option<GrafoRed>)
    requires |g.risk| == g.n
    ensures r.Some? <==> forall i :: i in nodes ==> 0 <= i < g.n
    ensures r.Some? ==> r.value.(risk := g.risk) == g
    ensures r.Some? ==> |r.value.risk| == g.n
    ensures r.Some? ==> forall i :: 0 <= i < g.n ==> (r.value.risk[i] == 10 <==> i in nodes)
    ensures r.Some? ==> forall i :: 0 <= i < g.n ==> (r.value.risk[i] == 1 <==> i !in nodes)
    ensures r.Some? && Valid(g) ==> Valid(r.value)
  {
    if forall i :: i in nodes ==> 0 <= i < g.n then
      Some(g.(risk := MarkHigh(seq(g.n, _ => 1), nodes)))
    else
      None
  }

  /** xs with x appended unless already present (a key insertion into an ordered dictionary). */
  function Insert(xs: seq<nat>, x: nat): (r: seq<nat>)
    ensures forall y :: y in r <==> y in xs || y == x
  {
    if x in xs then xs else xs + [x]
  }

  /** The graph library's add_edge on an adjacency over a fixed node set. */
  function AddEdge(adj: seq<seq<nat>>, u: nat, v: nat): (r: seq<seq<nat>>)
    requires u < |adj| && v < |adj|
    ensures |r| == |adj|
    ensures v in r[u] && u in r[v]
  {
    var a1 := adj[u := Insert(adj[u], v)];
    a1[v := Insert(a1[v], u)]
  }

  /** add_edges_from: the edges added one after the other. */
  function AddEdges(adj: seq<seq<nat>>, edges: seq<(nat, nat)>): (r: seq<seq<nat>>)
    requires forall e :: e in edges ==> e.0 < |adj| && e.1 < |adj|
    ensures |r| == |adj|
    decreases |edges|
  {
    if |edges| == 0 then adj
    else
      assert edges[0] in edges;
      assert forall e :: e in edges[1..] ==> e in edges;
      AddEdges(AddEdge(adj, edges[0].0, edges[0].1), edges[1..])
  }

  /** After add_edge(u, v), y is a neighbour of x iff it was before or {x, y} is {u, v}. */
  lemma AddEdgeNeighbours(adj: seq<seq<nat>>, u: nat, v: nat)
    requires u < |adj| && v < |adj|
    ensures forall x, y :: 0 <= x < |adj| ==>
      (y in AddEdge(adj, u, v)[x] <==> y in adj[x] || (x == u && y == v) || (x == v && y == u))
  {
  }

  /** After add_edges_from, y is a neighbour of x iff it was before or one of the edges joins them. */
  lemma {:induction false} AddEdgesNeighbours(adj: seq<seq<nat>>, edges: seq<(nat, nat)>)
    requires forall e :: e in edges ==> e.0 < |adj| && e.1 < |adj|
    ensures forall x, y :: 0 <= x < |adj| ==>
      (y in AddEdges(adj, edges)[x] <==> y in adj[x] || (x, y) in edges || (y, x) in edges)
    decreases |edges|
  {
    if |edges| > 0 {
      assert edges[0] in edges;
      assert forall e :: e in edges[1..] ==> e in edges;
      var a1 := AddEdge(adj, edges[0].0, edges[0].1);
      AddEdgeNeighbours(adj, edges[0].0, edges[0].1);
      AddEdgesNeighbours(a1, edges[1..]);
      assert forall e :: e in edges <==> e == edges[0] || e in edges[1..];
    }
  }

  /** The topology of predefined network 1: a tree on nine nodes. */
  const TreeEdges: seq<(nat, nat)> := [(0, 1), (1, 2), (1, 3), (2, 4), (2, 5), (3, 6), (3, 7), (3, 8)]

  /** The adjacency that adding TreeEdges in order produces. */
  const TreeAdjacency: seq<seq<nat>> := [[1], [0, 2, 3], [1, 4, 5], [1, 6, 7, 8], [2], [2], [3], [3], [3]]

  /**
   The constructor with predefinido == 1: whatever node count and target
   were passed, the network is the nine-node tree with target 5 and node 6
   as its only high-risk node. Its adjacency is the one add_edges_from
   builds from TreeEdges (PredefinedAdjacency, PredefinedEdges).
   */
  function Predefined1(nnodos: nat, meta: nat): (g: GrafoRed)
    ensures g.n == 9 && g.meta == 5
    ensures Valid(g)
    ensures g.adj == TreeAdjacency
    ensures forall i :: 0 <= i < 9 ==> (g.risk[i] == 10 <==> i == 6)
  {
    var g0 := GrafoRed(9, TreeAdjacency, seq(9, _ => 1), 5);
    var g := DefineHighRisk(g0, [6]).value;
    assert Valid(g) by {
      TreeAdjacencyValid(g);
    }
    g
  }

  /** Adding an edge between two nodes not yet adjacent appends each to the other's list. */
  lemma AddFreshEdge(adj: seq<seq<nat>>, u: nat, v: nat)
    requires u < |adj| && v < |adj| && u != v && v !in adj[u] && u !in adj[v]
    ensures AddEdge(adj, u, v) == adj[u := adj[u] + [v]][v := adj[v] + [u]]
  {
  }

  /** The other endpoint of every edge at x, in the order of the edge list. */
  function Incident(edges: seq<(nat, nat)>, x: nat): seq<nat> {
    if |edges| == 0 then []
    else
      (if edges[0].0 == x then [edges[0].1] else if edges[0].1 == x then [edges[0].0] else [])
      + Incident(edges[1..], x)
  }

  /** The incident list of x holds exactly the other endpoints of the edges at x. */
  lemma {:induction false} IncidentMembers(edges: seq<(nat, nat)>, x: nat)
    ensures forall y :: y in Incident(edges, x) <==> (x, y) in edges || (y, x) in edges
    decreases |edges|
  {
    if |edges| > 0 {
      IncidentMembers(edges[1..], x);
      assert edges == [edges[0]] + edges[1..];
    }
  }

  /** No edge is a self-loop and no two edges join the same pair of nodes. */
  predicate SimpleEdges(edges: seq<(nat, nat)>) {
    && (forall i :: 0 <= i < |edges| ==> edges[i].0 != edges[i].1)
    && (forall i, j :: 0 <= i < j < |edges| ==> edges[i] != edges[j] && edges[i] != (edges[j].1, edges[j].0))
  }

  /**
   Adding simple edges not yet present appends, to each node's neighbour
   list, the other endpoints of its edges in the order the edges are listed.
   */
  lemma {:induction false} AddEdgesOrder(adj: seq<seq<nat>>, edges: seq<(nat, nat)>)
    requires forall e :: e in edges ==> e.0 < |adj| && e.1 < |adj|
    requires forall e :: e in edges ==> e.1 !in adj[e.0] && e.0 !in adj[e.1]
    requires SimpleEdges(edges)
    ensures forall x :: 0 <= x < |adj| ==> AddEdges(adj, edges)[x] == adj[x] + Incident(edges, x)
    decreases |edges|
  {
    if |edges| > 0 {
      var u, v := edges[0].0, edges[0].1;
      assert edges[0] in edges;
      AddFreshEdge(adj, u, v);
      var a1 := AddEdge(adj, u, v);
      var rest := edges[1..];
      FreshAfterFirst(adj, edges);
      AddEdgesOrder(a1, rest);
      assert AddEdges(adj, edges) == AddEdges(a1, rest);
      forall x | 0 <= x < |adj|
        ensures AddEdges(adj, edges)[x] == adj[x] + Incident(edges, x)
      {
        var head: seq<nat> := if u == x then [v] else if v == x then [u] else [];
        assert a1[x] == adj[x] + head;
        assert Incident(edges, x) == head + Incident(rest, x);
      }
    }
  }

  /**
   After adding the first of a list of simple, fresh edges, the remaining
   edges are still simple and fresh.
   */
  lemma FreshAfterFirst(adj: seq<seq<nat>>, edges: seq<(nat, nat)>)
    requires |edges| > 0
    requires forall e :: e in edges ==> e.0 < |adj| && e.1 < |adj|
    requires forall e :: e in edges ==> e.1 !in adj[e.0] && e.0 !in adj[e.1]
    requires SimpleEdges(edges)
    ensures forall e :: e in edges[1..] ==> e.0 < |adj| && e.1 < |adj|
    ensures forall e :: e in edges[1..] ==>
      e.1 !in AddEdge(adj, edges[0].0, edges[0].1)[e.0] && e.0 !in AddEdge(adj, edges[0].0, edges[0].1)[e.1]
    ensures SimpleEdges(edges[1..])
  {
    var u, v := edges[0].0, edges[0].1;
    assert edges[0] in edges;
    AddFreshEdge(adj, u, v);
    var a1 := AddEdge(adj, u, v);
    var rest := edges[1..];
    assert forall e :: e in rest ==> e in edges;
    forall e | e in rest
      ensures e.1 !in a1[e.0] && e.0 !in a1[e.1]
    {
      var j :| 0 <= j < |rest| && rest[j] == e;
      assert edges[j + 1] == e;
    }
    forall i, j | 0 <= i < j < |rest|
      ensures rest[i] != rest[j] && rest[i] != (rest[j].1, rest[j].0)
    {
      assert rest[i] == edges[i + 1] && rest[j] == edges[j + 1];
    }
  }

  /** The other endpoints of each node's tree edges, in list order. */
  lemma TreeIncident()
    ensures Incident(TreeEdges, 0) == [1]
    ensures Incident(TreeEdges, 1) == [0, 2, 3]
    ensures Incident(TreeEdges, 2) == [1, 4, 5]
    ensures Incident(TreeEdges, 3) == [1, 6, 7, 8]
    ensures Incident(TreeEdges, 4) == [2]
    ensures Incident(TreeEdges, 5) == [2]
    ensures Incident(TreeEdges, 6) == [3]
    ensures Incident(TreeEdges, 7) == [3]
    ensures Incident(TreeEdges, 8) == [3]
  {
    TreeIncident0(TreeEdges);
    TreeIncident1(TreeEdges);
    TreeIncident2(TreeEdges);
    TreeIncident3(TreeEdges);
    TreeIncident4(TreeEdges);
    TreeIncident5(TreeEdges);
    TreeIncident6(TreeEdges);
    TreeIncident7(TreeEdges);
    TreeIncident8(TreeEdges);
  }

  // One lemma per node: stated together, the nine unrollings of Incident
  // over the literal edge list exceed the verifier's resource budget.

  /** The tree edges at node 0. */
  lemma TreeIncident0(edges: seq<(nat, nat)>)
    requires edges == TreeEdges
    ensures Incident(edges, 0) == [1]
  {
  }

  /** The tree edges at node 1. */
  lemma TreeIncident1(edges: seq<(nat, nat)>)
    requires edges == TreeEdges
    ensures Incident(edges, 1) == [0, 2, 3]
  {
  }

  /** The tree edges at node 2. */
  lemma TreeIncident2(edges: seq<(nat, nat)>)
    requires edges == TreeEdges
    ensures Incident(edges, 2) == [1, 4, 5]
  {
  }

  /** The tree edges at node 3. */
  lemma TreeIncident3(edges: seq<(nat, nat)>)
    requires edges == TreeEdges
    ensures Incident(edges, 3) == [1, 6, 7, 8]
  {
  }

  /** The tree edges at node 4. */
  lemma TreeIncident4(edges: seq<(nat, nat)>)
    requires edges == TreeEdges
    ensures Incident(edges, 4) == [2]
  {
  }

  /** The tree edges at node 5. */
  lemma TreeIncident5(edges: seq<(nat, nat)>)
    requires edges == TreeEdges
    ensures Incident(edges, 5) == [2]
  {
  }

  /** The tree edges at node 6. */
  lemma TreeIncident6(edges: seq<(nat, nat)>)
    requires edges == TreeEdges
    ensures Incident(edges, 6) == [3]
  {
  }

  /** The tree edges at node 7. */
  lemma TreeIncident7(edges: seq<(nat, nat)>)
    requires edges == TreeEdges
    ensures Incident(edges, 7) == [3]
  {
  }

  /** The tree edges at node 8. */
  lemma TreeIncident8(edges: seq<(nat, nat)>)
    requires edges == TreeEdges
    ensures Incident(edges, 8) == [3]
  {
  }

  /** The tree's edge list is simple. */
  lemma TreeEdgesSimple()
    ensures SimpleEdges(TreeEdges)
  {
  }

  /** Adding the tree's edges in order yields TreeAdjacency, neighbour order included. */
  lemma PredefinedAdjacency(e: seq<seq<nat>>, edges: seq<(nat, nat)>)
    requires |e| == 9 && (forall x :: 0 <= x < 9 ==> e[x] == []) && edges == TreeEdges
    ensures AddEdges(e, edges) == TreeAdjacency
  {
    TreeEdgesSimple();
    AddEdgesOrder(e, edges);
    var a := AddEdges(e, edges);
    assert |a| == 9;
    TreeIncidentAdjacency(a, e, edges);
  }

  /** Nine empty lists extended by the tree's incident lists form TreeAdjacency. */
  lemma TreeIncidentAdjacency(a: seq<seq<nat>>, e: seq<seq<nat>>, edges: seq<(nat, nat)>)
    requires edges == TreeEdges && |a| == 9 && |e| == 9
    requires forall x :: 0 <= x < 9 ==> e[x] == [] && a[x] == e[x] + Incident(edges, x)
    ensures a == TreeAdjacency
  {
    TreeIncident();
    assert a[0] == e[0] + Incident(edges, 0) == [1];
    assert a[1] == e[1] + Incident(edges, 1) == [0, 2, 3];
    assert a[2] == e[2] + Incident(edges, 2) == [1, 4, 5];
    assert a[3] == e[3] + Incident(edges, 3) == [1, 6, 7, 8];
    assert a[4] == e[4] + Incident(edges, 4) == [2];
    assert a[5] == e[5] + Incident(edges, 5) == [2];
    assert a[6] == e[6] + Incident(edges, 6) == [3];
    assert a[7] == e[7] + Incident(edges, 7) == [3];
    assert a[8] == e[8] + Incident(edges, 8) == [3];
    TreeAdjacencyByNode(a);
  }

  /** A nine-node adjacency with the tree's neighbour lists is TreeAdjacency. */
  lemma TreeAdjacencyByNode(a: seq<seq<nat>>)
    requires |a| == 9
    requires a[0] == [1] && a[1] == [0, 2, 3] && a[2] == [1, 4, 5] && a[3] == [1, 6, 7, 8]
    requires a[4] == [2] && a[5] == [2] && a[6] == [3] && a[7] == [3] && a[8] == [3]
    ensures a == TreeAdjacency
  {
  }

  /** In predefined network 1, two nodes are adjacent exactly when a tree edge joins them. */
  lemma PredefinedEdges(nnodos: nat, meta: nat)
    ensures forall u: nat, v: nat :: u < 9 ==>
      (HasEdge(Predefined1(nnodos, meta), u, v) <==> (u, v) in TreeEdges || (v, u) in TreeEdges)
  {
    var g := Predefined1(nnodos, meta);
    TreeAdjacencyEdges(g.adj, TreeEdges);
  }

  /** The neighbour lists of the tree hold exactly the tree's edges, in both directions. */
  lemma TreeAdjacencyEdges(a: seq<seq<nat>>, edges: seq<(nat, nat)>)
    requires a == TreeAdjacency && edges == TreeEdges
    ensures forall u: nat, v: nat :: u < 9 ==> (v in a[u] <==> (u, v) in edges || (v, u) in edges)
  {
  }

  /** Any network over TreeAdjacency with risks 1 or 10 is valid. */
  lemma TreeAdjacencyValid(g: GrafoRed)
    requires g.n == 9 && g.adj == TreeAdjacency && |g.risk| == 9
    requires forall i :: 0 <= i < 9 ==> g.risk[i] == 1 || g.risk[i] == 10
    ensures Valid(g)
  {
    TreeSymmetric(g.adj);
    TreeNoRepeats(g.adj);
  }

  /** Every tree neighbour is another node that lists the first one back. */
  lemma TreeSymmetric(a: seq<seq<nat>>)
    requires a == TreeAdjacency
    ensures forall u, k :: 0 <= u < 9 && 0 <= k < |a[u]| ==> a[u][k] < 9 && a[u][k] != u && u in a[a[u][k]]
  {
  }

  /** No tree neighbour list repeats a node. */
  lemma TreeNoRepeats(a: seq<seq<nat>>)
    requires a == TreeAdjacency
    ensures forall u, k, l :: 0 <= u < 9 && 0 <= k < l < |a[u]| ==> a[u][k] != a[u][l]
  {
  }

  // ---------------------------------------------------------------------
  // Rewards and actions
  // ---------------------------------------------------------------------

  /**
   The reward of moving from state `actual` to state `next`, by the first
   rule that applies: infecting the current node (999 at the target, else
   -5); staying (999 at the infected target, else -1); moving along an edge
   of the current node, clean or infected (-3 into a leaf, else minus the
   destination's risk); anything else -111.
   */
  function Reward(g: GrafoRed, actual: nat, next: nat): (r: int)
    requires Valid(g)
    ensures r in {999, -1, -3, -5, -10, -111}
  {
    if next == actual + g.n then
      (if actual == g.meta then 999 else -5)
    else if actual == next then
      (if actual == g.meta + g.n then 999 else -1)
    else if HasEdge(g, actual, next) || HasEdge(g, actual - g.n, next) then
      NeighboursAreNodes(g, if HasEdge(g, actual, next) then actual else actual - g.n, next);
      if Degree(g, next) == 1 then -3 else -g.risk[next]
    else
      -111
  }

  /**
   The states reachable in one step: from a clean state its neighbours and
   then its own infection; from an infected state the neighbours of its node.
   Staying is not an action.
   */
  function Actions(g: GrafoRed, actual: nat): (r: seq<nat>)
    requires Valid(g) && actual < 2 * g.n
    ensures actual !in r
    ensures forall x :: x in r ==> x < 2 * g.n
    ensures actual < g.n ==> |r| == Degree(g, actual) + 1 && r[|r| - 1] == actual + g.n
    ensures actual < g.n ==> forall k :: 0 <= k < |r| - 1 ==> r[k] < g.n
    ensures actual >= g.n ==> |r| == Degree(g, actual - g.n) && forall x :: x in r ==> x < g.n
    ensures actual < g.n ==> r == g.adj[actual] + [actual + g.n]
    ensures actual >= g.n ==> r == g.adj[actual - g.n]
  {
    if actual < g.n then g.adj[actual] + [actual + g.n]
    else g.adj[actual - g.n]
  }

  /** Self-infection is decided first: 999 exactly at the target, -5 elsewhere. */
  lemma RewardSelfInfection(g: GrafoRed, s: nat)
    requires Valid(g)
    ensures Reward(g, s, s + g.n) == (if s == g.meta then 999 else -5)
  {
  }

  /** Staying scores 999 exactly at the infected target and -1 everywhere else. */
  lemma RewardStay(g: GrafoRed, s: nat)
    requires Valid(g) && s < 2 * g.n
    ensures (Reward(g, s, s) == 999 <==> s == g.meta + g.n)
    ensures s != g.meta + g.n ==> Reward(g, s, s) == -1
  {
  }

  /**
   A move along an edge that is neither a stay nor a self-infection costs 3
   into a leaf and the destination's risk otherwise.
   */
  lemma RewardMove(g: GrafoRed, actual: nat, next: nat)
    requires Valid(g)
    requires next != actual && next != actual + g.n
    requires HasEdge(g, actual, next) || HasEdge(g, actual - g.n, next)
    ensures next < g.n
    ensures Reward(g, actual, next) == (if Degree(g, next) == 1 then -3 else -g.risk[next])
  {
    if HasEdge(g, actual, next) {
      NeighboursAreNodes(g, actual, next);
    } else {
      NeighboursAreNodes(g, actual - g.n, next);
    }
  }

  /** Any move into an infected state other than one's own infection or a stay is illegal. */
  lemma RewardIntoInfected(g: GrafoRed, actual: nat, next: nat)
    requires Valid(g)
    requires next >= g.n && next != actual && next != actual + g.n
    ensures Reward(g, actual, next) == -111
  {
    if HasEdge(g, actual, next) {
      NeighboursAreNodes(g, actual, next);
    } else if HasEdge(g, actual - g.n, next) {
      NeighboursAreNodes(g, actual - g.n, next);
    }
  }

  /**
   The reward function and the action list agree: within the state space, a
   transition is rewarded with something other than -111 exactly when it is
   a stay or one of the listed actions.
   */
  lemma RewardLegalIffAction(g: GrafoRed, actual: nat, next: nat)
    requires Valid(g) && actual < 2 * g.n && next < 2 * g.n
    ensures Reward(g, actual, next) != -111 <==> next == actual || next in Actions(g, actual)
  {
    if next != actual && next != actual + g.n {
      if actual < g.n {
        assert !HasEdge(g, actual - g.n, next);
        assert next in Actions(g, actual) <==> next in g.adj[actual];
        if HasEdge(g, actual, next) {
          NeighboursAreNodes(g, actual, next);
        }
      } else {
        assert !HasEdge(g, actual, next);
        assert next in Actions(g, actual) <==> next in g.adj[actual - g.n];
        if HasEdge(g, actual - g.n, next) {
          NeighboursAreNodes(g, actual - g.n, next);
        }
      }
    }
  }
}
