/**
 Version 0.0: a script that materialises the reward matrix R (2N x 2N) by
 a fixed sequence of passes, derives each state's actions from R, trains a
 Q table and follows it greedily.

 The script's five inputs (connections, low-value nodes, high-risk nodes,
 N and the target) are the fields of an AlgoritmoV02.Config; the values
 the script hard-codes are one such configuration.
 */
module AlgoritmoV00 {
  import opened Engine
  import V02 = AlgoritmoV02

  /**
   What the script needs to index R: connection endpoints and the target
   are nodes, the listed low-value and high-risk nodes are columns.
   */
  predicate Indexable(cfg: V02.Config) {
    && (forall e :: e in cfg.conexiones ==> e.0 < cfg.n && e.1 < cfg.n)
    && (forall x :: x in cfg.sinValor ==> x < 2 * cfg.n)
    && (forall x :: x in cfg.altoRiesgo ==> x < 2 * cfg.n)
    && cfg.meta < cfg.n
  }

  // ---------------------------------------------------------------------
  // The reward matrix, cell by cell
  // ---------------------------------------------------------------------

  /**
   The cells the connection pass marks: (a, b) and (b, a) for a listed
   connection, and from an infected row a + N to either end's partner.
   */
  predicate EdgeCell(c: seq<(nat, nat)>, n: nat, a: nat, b: nat) {
    || (a, b) in c
    || (b, a) in c
    || (a >= n && ((a - n, b) in c || (b, a - n) in c))
  }

  /**
   The value the passes leave in cell (a, b): staying (999 at the infected
   target, else -1); infecting one's own node (999 at the target, else -5);
   a connection cell (-3 into a low-value node, else -10 from a clean row
   into a high-risk node, else -1); everything else -111.
   */
  function Cell(cfg: V02.Config, a: nat, b: nat): (r: int)
    ensures r in {-111, -10, -5, -3, -1, 999}
  {
    if a == b then
      (if a == cfg.meta + cfg.n then 999 else -1)
    else if a < cfg.n && b == a + cfg.n then
      (if a == cfg.meta then 999 else -5)
    else if EdgeCell(cfg.conexiones, cfg.n, a, b) then
      if b in cfg.sinValor then -3
      else if a < cfg.n && b in cfg.altoRiesgo then -10
      else -1
    else
      -111
  }

  /** R is the 2N x 2N matrix the passes produce for `cfg`. */
  predicate IsRewardMatrix(cfg: V02.Config, R: Rewards) {
    && IsSquare(R, 2 * cfg.n)
    && forall a, b :: 0 <= a < 2 * cfg.n && 0 <= b < 2 * cfg.n ==> R[a][b] == Cell(cfg, a, b)
  }

  /**
   The low-value rewrite runs before the high-risk one and the latter
   skips infected rows: a node on both lists costs 3, and an infected row
   moving into a high-risk node keeps -1.
   */
  lemma PassOrder(cfg: V02.Config, a: nat, b: nat)
    requires a != b && b != a + cfg.n && EdgeCell(cfg.conexiones, cfg.n, a, b)
    ensures b in cfg.sinValor ==> Cell(cfg, a, b) == -3
    ensures a >= cfg.n && b !in cfg.sinValor ==> Cell(cfg, a, b) == -1
    ensures a < cfg.n && b !in cfg.sinValor && b in cfg.altoRiesgo ==> Cell(cfg, a, b) == -10
  {
  }

  /** A connection cell always lands in a clean column. */
  lemma EdgeCellColumn(cfg: V02.Config, a: nat, b: nat)
    requires Indexable(cfg) && EdgeCell(cfg.conexiones, cfg.n, a, b)
    ensures b < cfg.n
  {
  }

  /**
   On clean rows version 0.0 agrees with version 0.2's reward function,
   provided no node is both low-value and high-risk (0.0 lets low value
   win, 0.2 high risk).
   */
  lemma AgreesWithV02OnCleanRows(cfg: V02.Config, a: nat, b: nat)
    requires V02.ValidConfig(cfg) && a < cfg.n
    requires forall x :: x in cfg.sinValor ==> x !in cfg.altoRiesgo
    ensures Cell(cfg, a, b) == V02.Reward(cfg, a, b)
  {
  }

  // ---------------------------------------------------------------------
  // The passes
  // ---------------------------------------------------------------------

  /** R with cell (x, y) set to v. */
  function Set(R: Rewards, x: nat, y: nat, v: int): (R': Rewards)
    requires IsSquare(R, |R|) && x < |R| && y < |R|
    ensures IsSquare(R', |R|)
    ensures forall i, j :: 0 <= i < |R| && 0 <= j < |R| ==> R'[i][j] == if i == x && j == y then v else R[i][j]
  {
    R[x := R[x][y := v]]
  }

  /**
   The connection pass: for each connection (a, b) in order, the cells
   (a, b), (b, a), (a + N, b) and (b + N, a) become -1; no other cell
   changes.
   */
  method EdgePass(R0: Rewards, c: seq<(nat, nat)>, n: nat) returns (R: Rewards)
    requires IsSquare(R0, 2 * n)
    requires forall e :: e in c ==> e.0 < n && e.1 < n
    ensures IsSquare(R, 2 * n)
    ensures forall a, b :: 0 <= a < 2 * n && 0 <= b < 2 * n ==>
      R[a][b] == if EdgeCell(c, n, a, b) then -1 else R0[a][b]
  {
    R := R0;
    var k := 0;
    while k < |c|
      invariant 0 <= k <= |c|
      invariant IsSquare(R, 2 * n)
      invariant forall a, b :: 0 <= a < 2 * n && 0 <= b < 2 * n ==>
        R[a][b] == if EdgeCell(c[..k], n, a, b) then -1 else R0[a][b]
    {
      assert c[k] in c;
      var x, y := c[k].0, c[k].1;
      R := Set(R, x, y, -1);
      R := Set(R, y, x, -1);
      R := Set(R, x + n, y, -1);
      R := Set(R, y + n, x, -1);
      assert c[..k + 1] == c[..k] + [c[k]];
      k := k + 1;
    }
    assert c[..|c|] == c;
  }

  /** The self-infection pass: cell (i, i + N) becomes -5 for every node i. */
  method InfectPass(R0: Rewards, n: nat) returns (R: Rewards)
    requires IsSquare(R0, 2 * n)
    ensures IsSquare(R, 2 * n)
    ensures forall a, b :: 0 <= a < 2 * n && 0 <= b < 2 * n ==>
      R[a][b] == if a < n && b == a + n then -5 else R0[a][b]
  {
    R := R0;
    var i := 0;
    while i < n
      invariant 0 <= i <= n
      invariant IsSquare(R, 2 * n)
      invariant forall a, b :: 0 <= a < 2 * n && 0 <= b < 2 * n ==>
        R[a][b] == if a < i && b == a + n then -5 else R0[a][b]
    {
      R := Set(R, i, i + n, -5);
      i := i + 1;
    }
  }

  /** x occurs among the first k elements of s. */
  predicate InPrefix(s: seq<nat>, k: nat, x: int)
    requires k <= |s|
  {
    x in s[..k]
  }

  /** One rewrite: in column `col`, each of the first `rows` cells holding `from` is set to `to`. */
  method RewriteColumn(R0: Rewards, col: nat, rows: nat, from: int, to: int) returns (R: Rewards)
    requires IsSquare(R0, |R0|) && rows <= |R0| && col < |R0|
    ensures IsSquare(R, |R0|)
    ensures forall a, b :: 0 <= a < |R0| && 0 <= b < |R0| ==>
      R[a][b] == if a < rows && b == col && R0[a][b] == from then to else R0[a][b]
  {
    R := R0;
    var i := 0;
    while i < rows
      invariant 0 <= i <= rows
      invariant IsSquare(R, |R0|)
      invariant forall a, b :: 0 <= a < |R0| && 0 <= b < |R0| ==>
        R[a][b] == if a < i && b == col && R0[a][b] == from then to else R0[a][b]
    {
      if R[i][col] == from {
        R := Set(R, i, col, to);
      }
      i := i + 1;
    }
  }

  /**
   The low-value and high-risk passes: for each listed column in turn, in
   each of the first `rows` rows, a cell holding `from` is set to `to`.
   */
  method RewriteColumns(R0: Rewards, cols: seq<nat>, rows: nat, from: int, to: int) returns (R: Rewards)
    requires IsSquare(R0, |R0|) && rows <= |R0|
    requires forall x :: x in cols ==> x < |R0|
    ensures IsSquare(R, |R0|)
    ensures forall a, b {:trigger R[a][b]} :: 0 <= a < |R0| && 0 <= b < |R0| ==>
      R[a][b] == if a < rows && b in cols && R0[a][b] == from then to else R0[a][b]
  {
    R := R0;
    var k := 0;
    while k < |cols|
      invariant 0 <= k <= |cols|
      invariant IsSquare(R, |R0|)
      invariant forall a, b {:trigger R[a][b]} :: 0 <= a < |R0| && 0 <= b < |R0| ==>
        R[a][b] == if a < rows && InPrefix(cols, k, b) && R0[a][b] == from then to else R0[a][b]
    {
      assert cols[k] in cols;
      R := RewriteColumn(R, cols[k], rows, from, to);
      assert cols[..k + 1] == cols[..k] + [cols[k]];
      forall a, b | 0 <= a < |R0| && 0 <= b < |R0|
        ensures R[a][b] == if a < rows && InPrefix(cols, k + 1, b) && R0[a][b] == from then to else R0[a][b]
      {
        assert InPrefix(cols, k + 1, b) <==> InPrefix(cols, k, b) || b == cols[k];
      }
      k := k + 1;
    }
    assert cols[..|cols|] == cols;
    forall a, b | 0 <= a < |R0| && 0 <= b < |R0|
      ensures R[a][b] == if a < rows && b in cols && R0[a][b] == from then to else R0[a][b]
    {
      assert R[a][b] == if a < rows && InPrefix(cols, k, b) && R0[a][b] == from then to else R0[a][b];
      assert InPrefix(cols, k, b) <==> b in cols;
    }
  }

  /** The last pass: every diagonal cell becomes -1. */
  method DiagonalPass(R0: Rewards) returns (R: Rewards)
    requires IsSquare(R0, |R0|)
    ensures IsSquare(R, |R0|)
    ensures forall a, b :: 0 <= a < |R0| && 0 <= b < |R0| ==> R[a][b] == if a == b then -1 else R0[a][b]
  {
    R := R0;
    var i := 0;
    while i < |R0|
      invariant 0 <= i <= |R0|
      invariant IsSquare(R, |R0|)
      invariant forall a, b :: 0 <= a < |R0| && 0 <= b < |R0| ==> R[a][b] == if a == b && a < i then -1 else R0[a][b]
    {
      R := Set(R, i, i, -1);
      i := i + 1;
    }
  }

  /**
   The script's construction of R: all -111, the connection pass, the
   self-infection pass, the low-value rewrite over all rows, the
   high-risk rewrite over clean rows, 999 for infecting the target, the
   diagonal, and 999 for staying at the infected target.
   */
  method BuildRewards(cfg: V02.Config) returns (R: Rewards)
    requires Indexable(cfg)
    ensures IsRewardMatrix(cfg, R)
  {
    var n := cfg.n;
    var R0: Rewards := seq(2 * n, _ => seq(2 * n, _ => -111));
    var R1 := EdgePass(R0, cfg.conexiones, n);
    var R2 := InfectPass(R1, n);
    var R3 := RewriteColumns(R2, cfg.sinValor, 2 * n, -1, -3);
    var R4 := RewriteColumns(R3, cfg.altoRiesgo, n, -1, -10);
    var R5 := Set(R4, cfg.meta, cfg.meta + n, 999);
    var R6 := DiagonalPass(R5);
    R := Set(R6, cfg.meta + n, cfg.meta + n, 999);
    forall a, b | 0 <= a < 2 * n && 0 <= b < 2 * n
      ensures R[a][b] == Cell(cfg, a, b)
    {
      var edge := EdgeCell(cfg.conexiones, n, a, b);
      if edge {
        EdgeCellColumn(cfg, a, b);
      }
      assert R1[a][b] == if edge then -1 else -111;
      assert R2[a][b] == if a < n && b == a + n then -5 else R1[a][b];
      assert R3[a][b] == if b in cfg.sinValor && R2[a][b] == -1 then -3 else R2[a][b];
      assert R4[a][b] == if a < n && b in cfg.altoRiesgo && R3[a][b] == -1 then -10 else R3[a][b];
      assert R5[a][b] == if a == cfg.meta && b == cfg.meta + n then 999 else R4[a][b];
      assert R6[a][b] == if a == b then -1 else R5[a][b];
    }
  }

  // ---------------------------------------------------------------------
  // Actions, training and route search
  // ---------------------------------------------------------------------

  /** The indices from j on whose entry exceeds -100, in increasing order. */
  function Legal(row: seq<int>, j: nat): (r: seq<nat>)
    requires j <= |row|
    ensures forall x :: x in r <==> j <= x < |row| && row[x] > -100
    ensures forall k :: 0 <= k < |r| - 1 ==> r[k] < r[k + 1]
    decreases |row| - j
  {
    if j == |row| then []
    else
      var rest := Legal(row, j + 1);
      assert forall k :: 0 <= k < |rest| ==> j < rest[k] by {
        forall k | 0 <= k < |rest| ensures j < rest[k] {
          assert rest[k] in rest;
        }
      }
      (if row[j] > -100 then [j] else []) + rest
  }

  /** The actions of state `actual`: the columns of its row of R above -100. */
  function Actions(R: Rewards, actual: nat): (r: seq<nat>)
    requires actual < |R|
    ensures forall x :: x in r <==> 0 <= x < |R[actual]| && R[actual][x] > -100
  {
    Legal(R[actual], 0)
  }

  /**
   On the script's matrix a state's actions are exactly the cells not
   scored -111, and staying is always one of them.
   */
  lemma ActionsAreLegalMoves(cfg: V02.Config, R: Rewards, actual: nat)
    requires IsRewardMatrix(cfg, R) && actual < 2 * cfg.n
    ensures actual in Actions(R, actual)
    ensures forall x: nat :: x in Actions(R, actual) <==> x < 2 * cfg.n && Cell(cfg, actual, x) != -111
  {
  }

  /**
   Samples the script can draw: a state from [0, 2N-1) (exclusive upper
   bound) and one of its actions.
   */
  predicate ValidSamples(R: Rewards, samples: seq<Sample>) {
    forall smp :: smp in samples ==>
      smp.actual + 1 < |R| && smp.next in Actions(R, smp.actual)
  }

  /** Samples the script can draw index the matrix. */
  lemma SamplesInTable(R: Rewards, samples: seq<Sample>)
    requires IsSquare(R, |R|) && ValidSamples(R, samples)
    ensures SamplesWithin(samples, |R|)
  {
    forall smp | smp in samples
      ensures smp.actual < |R| && smp.next < |R|
    {
      assert smp.next in Actions(R, smp.actual);
    }
  }

  /** A pair the script never samples: the last state, or a cell of R scored -111. */
  predicate NeverSampled(cfg: V02.Config, i: nat, j: nat) {
    i + 1 == 2 * cfg.n || Cell(cfg, i, j) == -111
  }

  /** No pair the script never samples is among the samples. */
  lemma NeverSampledAllAbsent(cfg: V02.Config, R: Rewards, samples: seq<Sample>)
    requires IsRewardMatrix(cfg, R) && ValidSamples(R, samples)
    ensures forall i: nat, j: nat :: i < 2 * cfg.n && j < 2 * cfg.n && NeverSampled(cfg, i, j) ==>
      Sample(i, j) !in samples
  {
    forall i: nat, j: nat | i < 2 * cfg.n && j < 2 * cfg.n && NeverSampled(cfg, i, j)
      ensures Sample(i, j) !in samples
    {
      if Sample(i, j) in samples {
        ActionsAreLegalMoves(cfg, R, i);
      }
    }
  }

  /**
   The training loop: a zero 2N x 2N table, 1000 TD updates rewarded from
   R, and division by the maximum (None when it is not positive). Every
   pair never sampled, the cells R scores -111 among them, stays zero.
   */
  function Train(cfg: V02.Config, R: Rewards, samples: seq<Sample>, alpha: real, gamma: real): (r: Option<Table>)
    requires IsRewardMatrix(cfg, R) && |samples| == 1000 && ValidSamples(R, samples)
    ensures r.Some? ==> IsSquare(r.value, 2 * cfg.n)
    ensures r.Some? ==> forall i, j :: 0 <= i < 2 * cfg.n && 0 <= j < 2 * cfg.n ==> r.value[i][j] <= 1.0
    ensures r.Some? ==> exists i, j :: 0 <= i < 2 * cfg.n && 0 <= j < 2 * cfg.n && r.value[i][j] == 1.0
    ensures r.Some? ==> forall i: nat, j: nat ::
      i < 2 * cfg.n && j < 2 * cfg.n && NeverSampled(cfg, i, j) ==> r.value[i][j] == 0.0
    ensures SamplesWithin(samples, 2 * cfg.n)
    ensures r.Some? <==> HasPositive(TrainSteps(Zeros(2 * cfg.n), R, samples, alpha, gamma))
    ensures var t := TrainSteps(Zeros(2 * cfg.n), R, samples, alpha, gamma);
      r.Some? ==> |t| > 0 && TableMax(t) > 0.0 && r.value == Normalize(t)
  {
    SamplesInTable(R, samples);
    UnsampledStayZero(cfg, R, samples, alpha, gamma);
    Engine.Train(Zeros(2 * cfg.n), R, samples, alpha, gamma)
  }

  /** Training from zeros leaves every pair the script never samples at zero. */
  lemma UnsampledStayZero(cfg: V02.Config, R: Rewards, samples: seq<Sample>, alpha: real, gamma: real)
    requires IsRewardMatrix(cfg, R) && ValidSamples(R, samples)
    ensures SamplesWithin(samples, 2 * cfg.n)
    ensures var r := Engine.Train(Zeros(2 * cfg.n), R, samples, alpha, gamma);
      r.Some? ==> forall i: nat, j: nat ::
        i < 2 * cfg.n && j < 2 * cfg.n && NeverSampled(cfg, i, j) ==> r.value[i][j] == 0.0
  {
    SamplesInTable(R, samples);
    NeverSampledAllAbsent(cfg, R, samples);
  }

  /**
   The route search: the greedy walk over the trained table from `inicio`
   to meta + N, scored with R, with a budget of 2N steps; None exactly when
   no budget reaches the target.
   */
  function FindRoute(cfg: V02.Config, R: Rewards, q: Table, inicio: nat): (r: Option<Route>)
    requires IsRewardMatrix(cfg, R) && IsSquare(q, 2 * cfg.n) && inicio < 2 * cfg.n
    ensures inicio == cfg.meta + cfg.n ==> r == Some(Route([inicio], 0))
    ensures r.Some? ==> 0 < |r.value.path| <= 2 * cfg.n && r.value.path[0] == inicio
    ensures r.Some? ==> EndsAtGoalOnly(r.value.path, cfg.meta + cfg.n)
    ensures r.Some? ==> IsGreedyPath(q, r.value.path)
    ensures r.Some? ==> r.value.score == PathScore(R, r.value.path)
    ensures r.None? ==> NeverReaches(q, R, cfg.meta + cfg.n, inicio)
  {
    var goal := cfg.meta + cfg.n;
    var r := Walk(q, R, goal, inicio, 2 * cfg.n);
    if r.Some? then
      WalkSound(q, R, goal, inicio, 2 * cfg.n);
      GreedyPathDistinct(q, r.value.path, goal);
      DistinctBelow(r.value.path, 2 * cfg.n);
      r
    else
      WalkFailsForever(q, R, goal, inicio);
      r
  }
}
