/**
 Version 0.3 of the agent (class AgenteMalware holding its own graph): the
 same doubled state space, action lists, training and route search as
 version 0.4, but a valid move into a non-leaf node costs the risk of the
 node the agent leaves, not of the one it enters.

 The agent's number of nodes, graph, risks and target are kept as a
 GrafoV04.GrafoRed; random generation of the graph and of the risks is not
 modelled.

 The source repeats its sampling, training and route search in each
 version's file, so this module repeats them too, with the same shape as
 AlgoritmoV04. What differs is the reward: RewardTable, Train, PathReward
 and FindRoute here read this version's Reward (RewardAgreesWithV04 says
 where the two rewards part).
 */
module AlgoritmoV03 {
  import opened Engine
  import G = GrafoV04

  datatype Agente = Agente(red: G.GrafoRed, q: Table)

  /** The agent owns a 2N x 2N table for its network. */
  predicate Valid(ag: Agente) {
    G.Valid(ag.red) && IsSquare(ag.q, 2 * ag.red.n)
  }

  /** A new agent: a 2N x 2N table of zeros next to its network. */
  function NewAgent(red: G.GrafoRed): (ag: Agente)
    ensures ag.red == red
    ensures IsSquare(ag.q, 2 * red.n) && IsZero(ag.q)
    ensures G.Valid(red) ==> Valid(ag)
  {
    Agente(red, Zeros(2 * red.n))
  }

  /** selecciona_meta: only the target changes. */
  function SelectMeta(ag: Agente, meta: nat): (r: Agente)
    ensures r.red.meta == meta
    ensures r.red.(meta := ag.red.meta) == ag.red && r.q == ag.q
    ensures Valid(ag) ==> Valid(r)
  {
    ag.(red := G.SelectMeta(ag.red, meta))
  }

  /**
   define_alto_riesgo: every node back to risk 1, then risk 10 for each
   listed node. A listed value that is not a node makes the graph library
   fail (None).
   */
  function DefineHighRisk(ag: Agente, nodes: seq<int>): (r: Option<Agente>)
    requires |ag.red.risk| == ag.red.n
    ensures r.Some? <==> forall i :: i in nodes ==> 0 <= i < ag.red.n
    ensures r.Some? ==> r.value.q == ag.q && r.value.red.(risk := ag.red.risk) == ag.red
    ensures r.Some? ==> |r.value.red.risk| == ag.red.n
    ensures r.Some? ==> forall i :: 0 <= i < ag.red.n ==> (r.value.red.risk[i] == 10 <==> i in nodes)
    ensures r.Some? ==> forall i :: 0 <= i < ag.red.n ==> (r.value.red.risk[i] == 1 <==> i !in nodes)
    ensures r.Some? && Valid(ag) ==> Valid(r.value)
  {
    match G.DefineHighRisk(ag.red, nodes)
    case None => None
    case Some(red) => Some(ag.(red := red))
  }

  // ---------------------------------------------------------------------
  // Rewards and actions
  // ---------------------------------------------------------------------

  /**
   The reward of moving from `actual` to `next`, by the first rule that
   applies: self-infection (999 at the target, else -5); staying (999 at
   the infected target, else -1); a move along an edge of the current node
   (-3 into a leaf, else minus the risk of the node being left); anything
   else -111.
   */
  function Reward(g: G.GrafoRed, actual: nat, next: nat): (r: int)
    requires G.Valid(g)
    ensures r in {999, -1, -3, -5, -10, -111}
  {
    if next == actual + g.n then
      (if actual == g.meta then 999 else -5)
    else if actual == next then
      (if actual == g.meta + g.n then 999 else -1)
    else if G.HasEdge(g, actual, next) || G.HasEdge(g, actual - g.n, next) then
      G.NeighboursAreNodes(g, if G.HasEdge(g, actual, next) then actual else actual - g.n, next);
      if G.Degree(g, next) == 1 then -3
      else if actual >= g.n then -g.risk[actual - g.n]
      else -g.risk[actual]
    else
      -111
  }

  /**
   The states reachable in one step: from a clean state its neighbours and
   then its own infection, from an infected state the neighbours of its
   node. The list is the one version 0.4 builds.
   */
  function Actions(g: G.GrafoRed, actual: nat): (r: seq<nat>)
    requires G.Valid(g) && actual < 2 * g.n
    ensures actual !in r
    ensures forall x :: x in r ==> x < 2 * g.n
    ensures actual < g.n ==> r == g.adj[actual] + [actual + g.n]
    ensures actual >= g.n ==> r == g.adj[actual - g.n] && forall x :: x in r ==> x < g.n
  {
    G.Actions(g, actual)
  }

  /** Self-infection is decided first, then staying. */
  lemma RewardSelfInfectionAndStay(g: G.GrafoRed, s: nat)
    requires G.Valid(g) && s < 2 * g.n
    ensures Reward(g, s, s + g.n) == (if s == g.meta then 999 else -5)
    ensures (Reward(g, s, s) == 999 <==> s == g.meta + g.n)
    ensures s != g.meta + g.n ==> Reward(g, s, s) == -1
  {
  }

  /**
   A move along an edge that is neither a stay nor a self-infection costs 3
   into a leaf and otherwise the risk of the node the agent leaves.
   */
  lemma RewardMove(g: G.GrafoRed, actual: nat, next: nat)
    requires G.Valid(g) && actual < 2 * g.n
    requires next != actual && next != actual + g.n
    requires G.HasEdge(g, actual, next) || G.HasEdge(g, actual - g.n, next)
    ensures next < g.n
    ensures Reward(g, actual, next) ==
      if G.Degree(g, next) == 1 then -3
      else if actual >= g.n then -g.risk[actual - g.n]
      else -g.risk[actual]
  {
    if G.HasEdge(g, actual, next) {
      G.NeighboursAreNodes(g, actual, next);
    } else {
      G.NeighboursAreNodes(g, actual - g.n, next);
    }
  }

  /**
   Versions 0.3 and 0.4 differ only on moves into non-leaf nodes, where 0.3
   charges the risk of the departure node and 0.4 that of the destination.
   */
  lemma RewardAgreesWithV04(g: G.GrafoRed, actual: nat, next: nat)
    requires G.Valid(g) && actual < 2 * g.n
    ensures Reward(g, actual, next) != G.Reward(g, actual, next) ==>
      && next != actual && next != actual + g.n
      && (G.HasEdge(g, actual, next) || G.HasEdge(g, actual - g.n, next))
      && next < g.n && G.Degree(g, next) != 1
  {
    if next != actual && next != actual + g.n && (G.HasEdge(g, actual, next) || G.HasEdge(g, actual - g.n, next)) {
      RewardMove(g, actual, next);
    }
  }

  /**
   Within the state space a transition is rewarded with something other
   than -111 exactly when it is a stay or one of the listed actions.
   */
  lemma RewardLegalIffAction(g: G.GrafoRed, actual: nat, next: nat)
    requires G.Valid(g) && actual < 2 * g.n && next < 2 * g.n
    ensures Reward(g, actual, next) != -111 <==> next == actual || next in Actions(g, actual)
  {
    G.RewardLegalIffAction(g, actual, next);
    RewardAgreesWithV04(g, actual, next);
    if Reward(g, actual, next) != G.Reward(g, actual, next) {
      RewardMove(g, actual, next);
      G.RewardMove(g, actual, next);
    }
  }

  // ---------------------------------------------------------------------
  // Training and route search
  // ---------------------------------------------------------------------

  /** This version's reward for every pair of states, as a table. */
  function RewardTable(red: G.GrafoRed): (R: Rewards)
    requires G.Valid(red)
    ensures IsSquare(R, 2 * red.n)
    ensures forall a, s :: 0 <= a < 2 * red.n && 0 <= s < 2 * red.n ==> R[a][s] == Reward(red, a, s)
  {
    seq(2 * red.n, a requires 0 <= a < 2 * red.n =>
      seq(2 * red.n, s requires 0 <= s < 2 * red.n => Reward(red, a, s)))
  }

  /**
   Samples the generator can produce: the state from [0, 2N-1) (exclusive
   upper bound) and one of its actions.
   */
  predicate ValidSamples(red: G.GrafoRed, samples: seq<Sample>)
    requires G.Valid(red)
  {
    forall smp :: smp in samples ==>
      smp.actual + 1 < 2 * red.n && smp.next in Actions(red, smp.actual)
  }

  /** Samples the generator can produce index the table. */
  lemma SamplesInTable(red: G.GrafoRed, samples: seq<Sample>)
    requires G.Valid(red) && ValidSamples(red, samples)
    ensures SamplesWithin(samples, 2 * red.n)
  {
    forall smp | smp in samples
      ensures smp.actual < 2 * red.n && smp.next < 2 * red.n
    {
      assert smp.next in Actions(red, smp.actual);
    }
  }

  /**
   A pair the generator never samples: the last state (never drawn) or a
   state paired with something outside its action list.
   */
  predicate NeverSampled(red: G.GrafoRed, i: nat, j: nat)
    requires G.Valid(red) && i < 2 * red.n
  {
    i + 1 == 2 * red.n || j !in Actions(red, i)
  }

  /** Pairs the generator never samples are not among the samples. */
  lemma NeverSampledAbsent(red: G.GrafoRed, samples: seq<Sample>, i: nat, j: nat)
    requires G.Valid(red) && ValidSamples(red, samples) && i < 2 * red.n
    requires NeverSampled(red, i, j)
    ensures Sample(i, j) !in samples
  {
  }

  /** No pair the generator never samples is among the samples. */
  lemma NeverSampledAllAbsent(red: G.GrafoRed, samples: seq<Sample>)
    requires G.Valid(red) && ValidSamples(red, samples)
    ensures forall i: nat, j: nat :: i < 2 * red.n && j < 2 * red.n && NeverSampled(red, i, j) ==>
      Sample(i, j) !in samples
  {
    forall i: nat, j: nat | i < 2 * red.n && j < 2 * red.n && NeverSampled(red, i, j) {
      NeverSampledAbsent(red, samples, i, j);
    }
  }

  /**
   entrena_agente: one TD update per sample, then division by the table's
   maximum (None when it is not positive). Starting from a fresh agent,
   every pair never sampled, the whole last row among them, stays zero.
   */
  function Train(ag: Agente, samples: seq<Sample>, alpha: real, gamma: real): (r: Option<Agente>)
    requires Valid(ag) && ValidSamples(ag.red, samples)
    ensures r.Some? ==> r.value.red == ag.red && Valid(r.value)
    ensures r.Some? ==> forall i, j :: 0 <= i < 2 * ag.red.n && 0 <= j < 2 * ag.red.n ==> r.value.q[i][j] <= 1.0
    ensures r.Some? ==> exists i, j :: 0 <= i < 2 * ag.red.n && 0 <= j < 2 * ag.red.n && r.value.q[i][j] == 1.0
    ensures r.Some? && IsZero(ag.q) ==> forall i: nat, j: nat ::
      i < 2 * ag.red.n && j < 2 * ag.red.n && NeverSampled(ag.red, i, j) ==> r.value.q[i][j] == 0.0
    ensures SamplesWithin(samples, 2 * ag.red.n)
    ensures var t := Engine.Train(ag.q, RewardTable(ag.red), samples, alpha, gamma);
      (r.Some? <==> t.Some?) && (r.Some? ==> r.value.q == t.value)
  {
    SamplesInTable(ag.red, samples);
    var t := Engine.Train(ag.q, RewardTable(ag.red), samples, alpha, gamma);
    if t.None? then None
    else
      NeverSampledAllAbsent(ag.red, samples);
      Some(Agente(ag.red, t.value))
  }

  /** This version's reward summed over the consecutive transitions of a path. */
  function PathReward(red: G.GrafoRed, p: seq<nat>): int
    requires G.Valid(red)
  {
    if |p| <= 1 then 0 else Reward(red, p[0], p[1]) + PathReward(red, p[1..])
  }

  /** Reading rewards from the table is reading them from the reward function. */
  lemma {:induction false} PathScoreIsPathReward(red: G.GrafoRed, p: seq<nat>)
    requires G.Valid(red)
    requires forall k :: 0 <= k < |p| ==> p[k] < 2 * red.n
    ensures PathScore(RewardTable(red), p) == PathReward(red, p)
  {
    if |p| > 1 {
      PathScoreIsPathReward(red, p[1..]);
    }
  }

  /**
   busca_ruta: the greedy walk from `inicio` to meta + N with a budget of
   2N steps; None exactly when no budget reaches the target.
   */
  function FindRoute(ag: Agente, inicio: nat): (r: Option<Route>)
    requires Valid(ag) && inicio < 2 * ag.red.n
    ensures inicio == ag.red.meta + ag.red.n ==> r == Some(Route([inicio], 0))
    ensures r.Some? ==> 0 < |r.value.path| <= 2 * ag.red.n && r.value.path[0] == inicio
    ensures r.Some? ==> EndsAtGoalOnly(r.value.path, ag.red.meta + ag.red.n)
    ensures r.Some? ==> IsGreedyPath(ag.q, r.value.path)
    ensures r.Some? ==> r.value.score == PathReward(ag.red, r.value.path)
    ensures r.None? ==> NeverReaches(ag.q, RewardTable(ag.red), ag.red.meta + ag.red.n, inicio)
  {
    var R := RewardTable(ag.red);
    var goal := ag.red.meta + ag.red.n;
    var r := Walk(ag.q, R, goal, inicio, 2 * ag.red.n);
    if r.Some? then
      WalkSound(ag.q, R, goal, inicio, 2 * ag.red.n);
      PathScoreIsPathReward(ag.red, r.value.path);
      GreedyPathDistinct(ag.q, r.value.path, goal);
      DistinctBelow(r.value.path, 2 * ag.red.n);
      r
    else
      WalkFailsForever(ag.q, R, goal, inicio);
      r
  }
}
