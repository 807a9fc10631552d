/**
 Version 0.2 of the agent: the network is a list of connections between
 node numbers, plus a list of low-value nodes and a list of high-risk
 nodes. Rewards and actions are computed from those lists; training runs a
 fixed 1000 TD updates.

 As written, the action list of an infected state s + N tests whether the
 connection contains s + N (not s), so when every endpoint is a node the
 list holds only the stay action, while the reward function still accepts
 moves from s + N along connections listed as (s, t).
 */
module AlgoritmoV02 {
  import opened Engine
  import G = GrafoV04

  datatype Config = Config(
    conexiones: seq<(nat, nat)>,
    sinValor: seq<nat>,
    altoRiesgo: seq<nat>,
    n: nat,
    meta: nat)

  datatype Agente = Agente(cfg: Config, q: Table)

  /** Every connection joins two nodes of 0..N-1. */
  predicate ValidConfig(cfg: Config) {
    forall e :: e in cfg.conexiones ==> e.0 < cfg.n && e.1 < cfg.n
  }

  /** A well-formed configuration and a 2N x 2N table. */
  predicate Valid(ag: Agente) {
    ValidConfig(ag.cfg) && IsSquare(ag.q, 2 * ag.cfg.n)
  }

  /** A new agent: the configuration and a 2N x 2N table of zeros. */
  function NewAgent(cfg: Config): (ag: Agente)
    ensures ag.cfg == cfg
    ensures IsSquare(ag.q, 2 * cfg.n) && IsZero(ag.q)
    ensures ValidConfig(cfg) ==> Valid(ag)
  {
    Agente(cfg, Zeros(2 * cfg.n))
  }

  // ---------------------------------------------------------------------
  // Rewards
  // ---------------------------------------------------------------------

  /**
   The connection test of the reward: (actual, next) or (next, actual) is
   listed, or actual is infected and (actual - N, next) is listed. Only
   the first orientation is tried for an infected state.
   */
  predicate ValidMove(cfg: Config, actual: nat, next: nat) {
    || (actual, next) in cfg.conexiones
    || (next, actual) in cfg.conexiones
    || (actual >= cfg.n && (actual - cfg.n, next) in cfg.conexiones)
  }

  /**
   The reward of moving from `actual` to `next`, by the first rule that
   applies: self-infection (999 at the target, else -5); staying (999 at
   the infected target, else -1); a listed connection (-10 into a
   high-risk node, else -3 into a low-value node, else -1); anything else
   -111.
   */
  function Reward(cfg: Config, actual: nat, next: nat): (r: int)
    ensures r in {999, -1, -3, -5, -10, -111}
  {
    if next == actual + cfg.n then
      (if actual == cfg.meta then 999 else -5)
    else if actual == next then
      (if actual == cfg.meta + cfg.n then 999 else -1)
    else if ValidMove(cfg, actual, next) then
      if next in cfg.altoRiesgo then -10
      else if next in cfg.sinValor then -3
      else -1
    else
      -111
  }

  /** Self-infection is decided first, then staying. */
  lemma RewardSelfInfectionAndStay(cfg: Config, s: nat)
    ensures Reward(cfg, s, s + cfg.n) == (if s == cfg.meta then 999 else -5)
    ensures cfg.n > 0 ==> (Reward(cfg, s, s) == 999 <==> s == cfg.meta + cfg.n)
    ensures cfg.n > 0 && s != cfg.meta + cfg.n ==> Reward(cfg, s, s) == -1
  {
  }

  /**
   Along a listed connection the high-risk penalty wins over the low-value
   one: a node in both lists costs 10.
   */
  lemma RewardMove(cfg: Config, actual: nat, next: nat)
    requires next != actual && next != actual + cfg.n && ValidMove(cfg, actual, next)
    ensures next in cfg.altoRiesgo ==> Reward(cfg, actual, next) == -10
    ensures next !in cfg.altoRiesgo && next in cfg.sinValor ==> Reward(cfg, actual, next) == -3
    ensures next !in cfg.altoRiesgo && next !in cfg.sinValor ==> Reward(cfg, actual, next) == -1
  {
  }

  /** A pair that is no stay, no self-infection and no listed connection scores -111. */
  lemma RewardIllegal(cfg: Config, actual: nat, next: nat)
    ensures Reward(cfg, actual, next) == -111 <==>
      next != actual + cfg.n && next != actual && !ValidMove(cfg, actual, next)
  {
  }

  // ---------------------------------------------------------------------
  // Actions
  // ---------------------------------------------------------------------

  /**
   The scan over the connections: for each one containing `actual`, its
   second endpoint if its first is `actual2`, else its first endpoint.
   */
  function Others(c: seq<(nat, nat)>, actual: nat, actual2: nat): (r: seq<nat>)
    ensures |r| <= |c|
    ensures actual == actual2 ==> r == G.Incident(c, actual)
    decreases |c|
  {
    if |c| == 0 then []
    else
      var conn := c[0];
      var rest := Others(c[1..], actual, actual2);
      if conn.0 == actual || conn.1 == actual then
        [if conn.0 == actual2 then conn.1 else conn.0] + rest
      else
        rest
  }

  /**
   The states listed from `actual`: first the stay, then (for a clean
   state) its infection, then one endpoint of each connection containing
   `actual`.
   */
  function Actions(cfg: Config, actual: nat): (r: seq<nat>)
    ensures |r| > 0 && r[0] == actual
    ensures actual < cfg.n ==> |r| > 1 && r[1] == actual + cfg.n
    ensures actual < cfg.n ==> r == [actual, actual + cfg.n] + G.Incident(cfg.conexiones, actual)
  {
    var actual2 := if actual < cfg.n then actual else actual - cfg.n;
    var head := if actual < cfg.n then [actual, actual + cfg.n] else [actual];
    head + Others(cfg.conexiones, actual, actual2)
  }

  /**
   Whatever `actual2` is, the scan lists only `actual` itself and the
   other ends of connections listed with `actual` at one end.
   */
  lemma {:induction false} OthersConnected(c: seq<(nat, nat)>, actual: nat, actual2: nat)
    ensures forall x :: x in Others(c, actual, actual2) ==>
      x == actual || (actual, x) in c || (x, actual) in c
    decreases |c|
  {
    if |c| > 0 {
      OthersConnected(c[1..], actual, actual2);
      assert forall e :: e in c[1..] ==> e in c;
    }
  }

  /** With actual2 == actual the scan lists exactly the other ends of its connections. */
  lemma {:induction false} OthersOfClean(c: seq<(nat, nat)>, s: nat)
    ensures forall x :: x in Others(c, s, s) <==> (s, x) in c || (x, s) in c
    decreases |c|
  {
    if |c| > 0 {
      OthersOfClean(c[1..], s);
      assert c == [c[0]] + c[1..];
      forall x
        ensures x in Others(c, s, s) <==> (s, x) in c || (x, s) in c
      {
        assert (s, x) in c <==> c[0] == (s, x) || (s, x) in c[1..];
        assert (x, s) in c <==> c[0] == (x, s) || (x, s) in c[1..];
      }
    }
  }

  /** A connection not touching `actual` contributes nothing to the scan. */
  lemma {:induction false} OthersUntouched(c: seq<(nat, nat)>, actual: nat, actual2: nat)
    requires forall e :: e in c ==> e.0 != actual && e.1 != actual
    ensures Others(c, actual, actual2) == []
    decreases |c|
  {
    if |c| > 0 {
      assert c[0] in c;
      assert forall e :: e in c[1..] ==> e in c;
      OthersUntouched(c[1..], actual, actual2);
    }
  }

  /**
   For a clean state the list holds exactly the stay, its infection and
   the other ends of its connections.
   */
  lemma CleanActions(cfg: Config, s: nat)
    requires s < cfg.n
    ensures forall x :: x in Actions(cfg, s) <==>
      x == s || x == s + cfg.n || (s, x) in cfg.conexiones || (x, s) in cfg.conexiones
  {
    OthersOfClean(cfg.conexiones, s);
  }

  /** When every endpoint is a node, an infected state lists only its stay. */
  lemma InfectedActionsOnlyStay(cfg: Config, s: nat)
    requires ValidConfig(cfg) && s >= cfg.n
    ensures Actions(cfg, s) == [s]
  {
    OthersUntouched(cfg.conexiones, s, s - cfg.n);
  }

  /** Under a valid configuration every listed action is a state. */
  lemma ActionsAreStates(cfg: Config, actual: nat)
    requires ValidConfig(cfg) && actual < 2 * cfg.n
    ensures forall x :: x in Actions(cfg, actual) ==> x < 2 * cfg.n
  {
    if actual < cfg.n {
      CleanActions(cfg, actual);
    } else {
      InfectedActionsOnlyStay(cfg, actual);
    }
  }

  /** Every listed action, from any state, is rewarded with something other than -111. */
  lemma ActionsRewarded(cfg: Config, actual: nat, x: nat)
    requires x in Actions(cfg, actual)
    ensures Reward(cfg, actual, x) != -111
  {
    var actual2 := if actual < cfg.n then actual else actual - cfg.n;
    OthersConnected(cfg.conexiones, actual, actual2);
  }

  /**
   From a clean state the reward and the list agree: a move is rewarded
   with something other than -111 exactly when it is listed.
   */
  lemma CleanRewardIffAction(cfg: Config, s: nat, x: nat)
    requires s < cfg.n
    ensures Reward(cfg, s, x) != -111 <==> x in Actions(cfg, s)
  {
    CleanActions(cfg, s);
  }

  /** From a clean state, the connection test holds exactly for the nodes the state's incident list names. */
  lemma ValidMoveClean(cfg: Config, s: nat, t: nat)
    requires s < cfg.n
    ensures ValidMove(cfg, s, t) <==> t in G.Incident(cfg.conexiones, s)
  {
    G.IncidentMembers(cfg.conexiones, s);
  }

  /**
   From an infected state s + N, with every endpoint a node, the connection
   test holds exactly when (s, t) is listed: the reversed orientation
   (t, s) is not tried.
   */
  lemma ValidMoveInfected(cfg: Config, s: nat, t: nat)
    requires ValidConfig(cfg) && s < cfg.n
    ensures ValidMove(cfg, s + cfg.n, t) <==> (s, t) in cfg.conexiones
  {
  }

  /**
   From an infected state the agreement fails: a move along a connection
   (s, t) of its node is rewarded, but not listed.
   */
  lemma InfectedMoveNotListed(cfg: Config, s: nat, t: nat)
    requires ValidConfig(cfg) && s < cfg.n && (s, t) in cfg.conexiones && t != s
    ensures Reward(cfg, s + cfg.n, t) != -111
    ensures t !in Actions(cfg, s + cfg.n)
  {
    assert ValidMove(cfg, s + cfg.n, t);
    InfectedActionsOnlyStay(cfg, s + cfg.n);
  }

  // ---------------------------------------------------------------------
  // Training and route search
  // ---------------------------------------------------------------------

  /** This version's reward for every pair of states, as a table. */
  function RewardTable(cfg: Config): (R: Rewards)
    ensures IsSquare(R, 2 * cfg.n)
    ensures forall a, s :: 0 <= a < 2 * cfg.n && 0 <= s < 2 * cfg.n ==> R[a][s] == Reward(cfg, a, s)
  {
    seq(2 * cfg.n, a requires 0 <= a < 2 * cfg.n =>
      seq(2 * cfg.n, s requires 0 <= s < 2 * cfg.n => Reward(cfg, a, s)))
  }

  /**
   Samples the generator can produce: the state from [0, 2N-1) (exclusive
   upper bound) and one of its listed actions.
   */
  predicate ValidSamples(cfg: Config, samples: seq<Sample>) {
    forall smp :: smp in samples ==>
      smp.actual + 1 < 2 * cfg.n && smp.next in Actions(cfg, smp.actual)
  }

  /** Samples the generator can produce index the table. */
  lemma SamplesInTable(cfg: Config, samples: seq<Sample>)
    requires ValidConfig(cfg) && ValidSamples(cfg, samples)
    ensures SamplesWithin(samples, 2 * cfg.n)
  {
    forall smp | smp in samples
      ensures smp.actual < 2 * cfg.n && smp.next < 2 * cfg.n
    {
      ActionsAreStates(cfg, smp.actual);
    }
  }

  /**
   A pair the generator never samples: the last state (never drawn) or a
   state paired with something outside its action list.
   */
  predicate NeverSampled(cfg: Config, i: nat, j: nat) {
    i + 1 == 2 * cfg.n || j !in Actions(cfg, i)
  }

  /** Pairs the generator never samples are not among the samples. */
  lemma NeverSampledAbsent(cfg: Config, samples: seq<Sample>, i: nat, j: nat)
    requires ValidSamples(cfg, samples) && NeverSampled(cfg, i, j)
    ensures Sample(i, j) !in samples
  {
  }

  /** No pair the generator never samples is among the samples. */
  lemma NeverSampledAllAbsent(cfg: Config, samples: seq<Sample>)
    requires ValidSamples(cfg, samples)
    ensures forall i: nat, j: nat :: i < 2 * cfg.n && j < 2 * cfg.n && NeverSampled(cfg, i, j) ==>
      Sample(i, j) !in samples
  {
    forall i: nat, j: nat | i < 2 * cfg.n && j < 2 * cfg.n && NeverSampled(cfg, i, j) {
      NeverSampledAbsent(cfg, samples, i, j);
    }
  }

  /**
   entrena_agente: exactly 1000 TD updates, then division by the table's
   maximum (None when it is not positive). Starting from a fresh agent,
   every pair never sampled stays zero.
   */
  function Train(ag: Agente, samples: seq<Sample>, alpha: real, gamma: real): (r: Option<Agente>)
    requires Valid(ag) && |samples| == 1000 && ValidSamples(ag.cfg, samples)
    ensures r.Some? ==> r.value.cfg == ag.cfg && Valid(r.value)
    ensures r.Some? ==> forall i, j :: 0 <= i < 2 * ag.cfg.n && 0 <= j < 2 * ag.cfg.n ==> r.value.q[i][j] <= 1.0
    ensures r.Some? ==> exists i, j :: 0 <= i < 2 * ag.cfg.n && 0 <= j < 2 * ag.cfg.n && r.value.q[i][j] == 1.0
    ensures r.Some? && IsZero(ag.q) ==> forall i: nat, j: nat ::
      i < 2 * ag.cfg.n && j < 2 * ag.cfg.n && NeverSampled(ag.cfg, i, j) ==> r.value.q[i][j] == 0.0
    ensures SamplesWithin(samples, 2 * ag.cfg.n)
    ensures var t := Engine.Train(ag.q, RewardTable(ag.cfg), samples, alpha, gamma);
      (r.Some? <==> t.Some?) && (r.Some? ==> r.value.q == t.value)
  {
    SamplesInTable(ag.cfg, samples);
    var t := Engine.Train(ag.q, RewardTable(ag.cfg), samples, alpha, gamma);
    UnsampledStayZero(ag, samples, alpha, gamma);
    if t.None? then None else Some(Agente(ag.cfg, t.value))
  }

  /** Training a fresh agent leaves every pair the generator never samples at zero. */
  lemma UnsampledStayZero(ag: Agente, samples: seq<Sample>, alpha: real, gamma: real)
    requires Valid(ag) && ValidSamples(ag.cfg, samples)
    ensures SamplesWithin(samples, 2 * ag.cfg.n)
    ensures var t := Engine.Train(ag.q, RewardTable(ag.cfg), samples, alpha, gamma);
      t.Some? && IsZero(ag.q) ==> forall i: nat, j: nat ::
        i < 2 * ag.cfg.n && j < 2 * ag.cfg.n && NeverSampled(ag.cfg, i, j) ==> t.value[i][j] == 0.0
  {
    SamplesInTable(ag.cfg, samples);
    NeverSampledAllAbsent(ag.cfg, samples);
  }

  /**
   Consequence of the infected action lists: trained from a fresh agent,
   an infected row can be non-zero only on its diagonal.
   */
  lemma InfectedRowsOnlyStay(ag: Agente, samples: seq<Sample>, alpha: real, gamma: real, i: nat, j: nat)
    requires Valid(ag) && IsZero(ag.q) && |samples| == 1000 && ValidSamples(ag.cfg, samples)
    requires Train(ag, samples, alpha, gamma).Some?
    requires ag.cfg.n <= i < 2 * ag.cfg.n && j < 2 * ag.cfg.n && j != i
    ensures Train(ag, samples, alpha, gamma).value.q[i][j] == 0.0
  {
    InfectedActionsOnlyStay(ag.cfg, i);
    assert NeverSampled(ag.cfg, i, j);
  }

  /** This version's reward summed over the consecutive transitions of a path. */
  function PathReward(cfg: Config, p: seq<nat>): int {
    if |p| <= 1 then 0 else Reward(cfg, p[0], p[1]) + PathReward(cfg, p[1..])
  }

  /** Reading rewards from the table is reading them from the reward function. */
  lemma {:induction false} PathScoreIsPathReward(cfg: Config, p: seq<nat>)
    requires forall k :: 0 <= k < |p| ==> p[k] < 2 * cfg.n
    ensures PathScore(RewardTable(cfg), p) == PathReward(cfg, p)
  {
    if |p| > 1 {
      PathScoreIsPathReward(cfg, p[1..]);
    }
  }

  /**
   busca_ruta: the greedy walk from `inicio` to meta + N with a budget of
   2N steps; None exactly when no budget reaches the target.
   */
  function FindRoute(ag: Agente, inicio: nat): (r: Option<Route>)
    requires Valid(ag) && inicio < 2 * ag.cfg.n
    ensures inicio == ag.cfg.meta + ag.cfg.n ==> r == Some(Route([inicio], 0))
    ensures r.Some? ==> 0 < |r.value.path| <= 2 * ag.cfg.n && r.value.path[0] == inicio
    ensures r.Some? ==> EndsAtGoalOnly(r.value.path, ag.cfg.meta + ag.cfg.n)
    ensures r.Some? ==> IsGreedyPath(ag.q, r.value.path)
    ensures r.Some? ==> r.value.score == PathReward(ag.cfg, r.value.path)
    ensures r.None? ==> NeverReaches(ag.q, RewardTable(ag.cfg), ag.cfg.meta + ag.cfg.n, inicio)
  {
    var R := RewardTable(ag.cfg);
    var goal := ag.cfg.meta + ag.cfg.n;
    var r := Walk(ag.q, R, goal, inicio, 2 * ag.cfg.n);
    if r.Some? then
      WalkSound(ag.q, R, goal, inicio, 2 * ag.cfg.n);
      PathScoreIsPathReward(ag.cfg, r.value.path);
      GreedyPathDistinct(ag.q, r.value.path, goal);
      DistinctBelow(r.value.path, 2 * ag.cfg.n);
      r
    else
      WalkFailsForever(ag.q, R, goal, inicio);
      r
  }
}
