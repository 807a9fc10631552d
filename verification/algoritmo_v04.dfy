/**
 The agent of version 0.4 (class AgenteMalware over a GrafoRed): its Q
 table, training and route search. Rewards and actions come from the
 network model of GrafoV04.

 The random draws of training (a state from [0, 2N-1) and one of its
 actions) are an input: the sequence of samples the generator produced.
 */
module AlgoritmoV04 {
  import opened Engine
  import G = GrafoV04

  datatype Agente = Agente(red: G.GrafoRed, q: Table)

  /** The agent owns a 2N x 2N table for its network. */
  predicate Valid(ag: Agente) {
    G.Valid(ag.red) && IsSquare(ag.q, 2 * ag.red.n)
  }

  /** A new agent: the network and a 2N x 2N table of zeros. */
  function NewAgent(red: G.GrafoRed): (ag: Agente)
    ensures ag.red == red
    ensures IsSquare(ag.q, 2 * red.n) && IsZero(ag.q)
    ensures G.Valid(red) ==> Valid(ag)
  {
    Agente(red, Zeros(2 * red.n))
  }

  /** The network's reward for every pair of states, as a table. */
  function RewardTable(red: G.GrafoRed): (R: Rewards)
    requires G.Valid(red)
    ensures IsSquare(R, 2 * red.n)
    ensures forall a, s :: 0 <= a < 2 * red.n && 0 <= s < 2 * red.n ==> R[a][s] == G.Reward(red, a, s)
  {
    seq(2 * red.n, a requires 0 <= a < 2 * red.n =>
      seq(2 * red.n, s requires 0 <= s < 2 * red.n => G.Reward(red, a, s)))
  }

  /**
   Samples the generator can produce: the state is drawn from [0, 2N-1)
   (the upper bound is exclusive, so the last state is never drawn) and the
   action from that state's action list.
   */
  predicate ValidSamples(red: G.GrafoRed, samples: seq<Sample>)
    requires G.Valid(red)
  {
    forall smp :: smp in samples ==>
      smp.actual + 1 < 2 * red.n && smp.next in G.Actions(red, smp.actual)
  }

  /** Samples the generator can produce index the table. */
  lemma SamplesInTable(red: G.GrafoRed, samples: seq<Sample>)
    requires G.Valid(red) && ValidSamples(red, samples)
    ensures SamplesWithin(samples, 2 * red.n)
  {
    forall smp | smp in samples
      ensures smp.actual < 2 * red.n && smp.next < 2 * red.n
    {
      assert smp.next in G.Actions(red, smp.actual);
    }
  }

  /**
   A pair the generator never samples: the last state (never drawn) or a
   state paired with something outside its action list.
   */
  predicate NeverSampled(red: G.GrafoRed, i: nat, j: nat)
    requires G.Valid(red) && i < 2 * red.n
  {
    i + 1 == 2 * red.n || j !in G.Actions(red, i)
  }

  /** Pairs the generator never samples are not among the samples. */
  lemma NeverSampledAbsent(red: G.GrafoRed, samples: seq<Sample>, i: nat, j: nat)
    requires G.Valid(red) && ValidSamples(red, samples) && i < 2 * red.n
    requires NeverSampled(red, i, j)
    ensures Sample(i, j) !in samples
  {
  }

  /** No pair the generator never samples is among the samples. */
  lemma NeverSampledAllAbsent(red: G.GrafoRed, samples: seq<Sample>)
    requires G.Valid(red) && ValidSamples(red, samples)
    ensures forall i: nat, j: nat :: i < 2 * red.n && j < 2 * red.n && NeverSampled(red, i, j) ==>
      Sample(i, j) !in samples
  {
    forall i: nat, j: nat | i < 2 * red.n && j < 2 * red.n && NeverSampled(red, i, j) {
      NeverSampledAbsent(red, samples, i, j);
    }
  }

  /**
   entrena_agente: one TD update per sample, then division of the table by
   its maximum. None when the maximum is not positive. Starting from a
   fresh agent, every pair the generator never samples keeps its zero.
   */
  function Train(ag: Agente, samples: seq<Sample>, alpha: real, gamma: real): (r: Option<Agente>)
    requires Valid(ag) && ValidSamples(ag.red, samples)
    ensures r.Some? ==> r.value.red == ag.red && Valid(r.value)
    ensures r.Some? ==> forall i, j :: 0 <= i < 2 * ag.red.n && 0 <= j < 2 * ag.red.n ==> r.value.q[i][j] <= 1.0
    ensures r.Some? ==> exists i, j :: 0 <= i < 2 * ag.red.n && 0 <= j < 2 * ag.red.n && r.value.q[i][j] == 1.0
    ensures r.Some? && IsZero(ag.q) ==> forall i: nat, j: nat ::
      i < 2 * ag.red.n && j < 2 * ag.red.n && NeverSampled(ag.red, i, j) ==> r.value.q[i][j] == 0.0
    ensures SamplesWithin(samples, 2 * ag.red.n)
    ensures var t := Engine.Train(ag.q, RewardTable(ag.red), samples, alpha, gamma);
      (r.Some? <==> t.Some?) && (r.Some? ==> r.value.q == t.value)
  {
    SamplesInTable(ag.red, samples);
    var t := Engine.Train(ag.q, RewardTable(ag.red), samples, alpha, gamma);
    if t.None? then None
    else
      NeverSampledAllAbsent(ag.red, samples);
      Some(Agente(ag.red, t.value))
  }

  /**
   Infecting the target node is rewarded 999, so with no discount and a
   positive learning rate a batch whose last sample is that move trains.
   */
  lemma GoalSampleTrains(ag: Agente, samples: seq<Sample>, alpha: real)
    requires Valid(ag) && alpha > 0.0
    requires ValidSamples(ag.red, samples + [Sample(ag.red.meta, ag.red.meta + ag.red.n)])
    ensures Train(ag, samples + [Sample(ag.red.meta, ag.red.meta + ag.red.n)], alpha, 0.0).Some?
  {
    var x := Sample(ag.red.meta, ag.red.meta + ag.red.n);
    var R := RewardTable(ag.red);
    SamplesInTable(ag.red, samples + [x]);
    assert forall smp :: smp in samples ==> smp in samples + [x];
    assert x in samples + [x];
    assert R[x.actual][x.next] == 999;
    TrainSucceedsOnPositiveReward(ag.q, R, samples, x, alpha);
  }

  /** The network's reward summed over the consecutive transitions of a path. */
  function PathReward(red: G.GrafoRed, p: seq<nat>): int
    requires G.Valid(red)
  {
    if |p| <= 1 then 0 else G.Reward(red, p[0], p[1]) + PathReward(red, p[1..])
  }

  /** Reading rewards from the table is reading them from the network. */
  lemma {:induction false} PathScoreIsPathReward(red: G.GrafoRed, p: seq<nat>)
    requires G.Valid(red)
    requires forall k :: 0 <= k < |p| ==> p[k] < 2 * red.n
    ensures PathScore(RewardTable(red), p) == PathReward(red, p)
  {
    if |p| > 1 {
      PathScoreIsPathReward(red, p[1..]);
    }
  }

  /**
   busca_ruta: from `inicio`, follow the first argmax of the current row
   until the infected target meta + N. The source loops without bound; the
   model allows 2N steps and answers None when they run out, which happens
   exactly when the walk never reaches the target.
   */
  function FindRoute(ag: Agente, inicio: nat): (r: Option<Route>)
    requires Valid(ag) && inicio < 2 * ag.red.n
    ensures inicio == ag.red.meta + ag.red.n ==> r == Some(Route([inicio], 0))
    ensures r.Some? ==> 0 < |r.value.path| <= 2 * ag.red.n && r.value.path[0] == inicio
    ensures r.Some? ==> EndsAtGoalOnly(r.value.path, ag.red.meta + ag.red.n)
    ensures r.Some? ==> IsGreedyPath(ag.q, r.value.path)
    ensures r.Some? ==> r.value.score == PathReward(ag.red, r.value.path)
    ensures r.None? ==> NeverReaches(ag.q, RewardTable(ag.red), ag.red.meta + ag.red.n, inicio)
  {
    var R := RewardTable(ag.red);
    var goal := ag.red.meta + ag.red.n;
    var r := Walk(ag.q, R, goal, inicio, 2 * ag.red.n);
    if r.Some? then
      WalkSound(ag.q, R, goal, inicio, 2 * ag.red.n);
      PathScoreIsPathReward(ag.red, r.value.path);
      GreedyPathDistinct(ag.q, r.value.path, goal);
      DistinctBelow(r.value.path, 2 * ag.red.n);
      r
    else
      WalkFailsForever(ag.q, R, goal, inicio);
      r
  }
}
