/**
 The tabular Q-learning engine shared by every version of the agent.

 The agent works over a "doubled" state space of 2N states: state s < N is
 node s not yet infected, state s >= N is node s - N infected. The value
 table Q and the reward table R are both 2N x 2N. This module holds the
 parts of the agent that are the same in every version: the first-index
 argmax, the temporal-difference step, the training fold over an explicit
 sequence of sampled transitions, the normalisation of Q by its maximum, and
 the greedy rollout, bounded by a step budget.
 */
module Engine {

  datatype Option<T> = None | Some(value: T)

  /** The value table: Q[state][action], an estimate of discounted reward. */
  type Table = seq<seq<real>>

  /** The immediate-reward table: R[state][action]. */
  type Rewards = seq<seq<int>>

  /** One sampled transition of training: from `actual` take action `next`. */
  datatype Sample = Sample(actual: nat, next: nat)

  /** A route found by the greedy rollout and its accumulated reward. */
  datatype Route = Route(path: seq<nat>, score: int)

  /** `t` is a k x k table. */
  predicate IsSquare<T>(t: seq<seq<T>>, k: nat) {
    |t| == k && forall i :: 0 <= i < k ==> |t[i]| == k
  }

  /** Every entry of `q` is zero. */
  predicate IsZero(q: Table) {
    forall i, j :: 0 <= i < |q| && 0 <= j < |q[i]| ==> q[i][j] == 0.0
  }

  /** Every sampled state and action is a valid index of a k x k table. */
  predicate SamplesWithin(samples: seq<Sample>, k: nat) {
    forall s :: s in samples ==> s.actual < k && s.next < k
  }

  /** A fresh k x k table of zeros. */
  function Zeros(k: nat): (q: Table)
    ensures IsSquare(q, k)
    ensures IsZero(q)
  {
    seq(k, _ => seq(k, _ => 0.0))
  }

  // ---------------------------------------------------------------------
  // First-index argmax and maxima
  // ---------------------------------------------------------------------

  /** Index k is a maximum of row[..n], and no index before k attains it. */
  predicate IsFirstMaxUpTo(row: seq<real>, n: nat, k: nat) {
    && k < n <= |row|
    && (forall j :: 0 <= j < n ==> row[j] <= row[k])
    && (forall j :: 0 <= j < k ==> row[j] < row[k])
  }

  /** Index k is the first index of `row` attaining its maximum. */
  predicate IsFirstMax(row: seq<real>, k: nat) {
    IsFirstMaxUpTo(row, |row|, k)
  }

  /** Left-to-right scan that replaces the best index only on a strict improvement. */
  function ArgMaxFrom(row: seq<real>, i: nat, best: nat): (k: nat)
    requires IsFirstMaxUpTo(row, i, best)
    ensures IsFirstMax(row, k)
    decreases |row| - i
  {
    if i == |row| then best
    else if row[i] > row[best] then ArgMaxFrom(row, i + 1, i)
    else ArgMaxFrom(row, i + 1, best)
  }

  /** The first index of a non-empty row attaining its maximum (numpy's argmax). */
  function ArgMaxFirst(row: seq<real>): (k: nat)
    requires |row| > 0
    ensures k < |row|
    ensures IsFirstMax(row, k)
  {
    ArgMaxFrom(row, 1, 0)
  }

  /** At most one index is the first maximum of a row, so ArgMaxFirst is pinned down by its contract. */
  lemma FirstMaxUnique(row: seq<real>, k1: nat, k2: nat)
    requires IsFirstMax(row, k1) && IsFirstMax(row, k2)
    ensures k1 == k2
  {
    assert row[k1] == row[k2];
  }

  /** The largest entry of a non-empty row. */
  function RowMax(row: seq<real>): (m: real)
    requires |row| > 0
    ensures forall j :: 0 <= j < |row| ==> row[j] <= m
    ensures m in row
  {
    row[ArgMaxFirst(row)]
  }

  /** The largest entry of a non-empty table with non-empty rows (numpy's max over the matrix). */
  function TableMax(q: Table): (m: real)
    requires |q| > 0
    requires forall i :: 0 <= i < |q| ==> |q[i]| > 0
    ensures forall i, j :: 0 <= i < |q| && 0 <= j < |q[i]| ==> q[i][j] <= m
    ensures exists i, j :: 0 <= i < |q| && 0 <= j < |q[i]| && q[i][j] == m
  {
    var head := RowMax(q[0]);
    if |q| == 1 then
      assert q[0][ArgMaxFirst(q[0])] == head;
      head
    else
      var rest := TableMax(q[1..]);
      assert forall i :: 1 <= i < |q| ==> q[i] == q[1..][i - 1];
      if head >= rest then
        assert q[0][ArgMaxFirst(q[0])] == head;
        head
      else
        var i', j' :| 0 <= i' < |q[1..]| && 0 <= j' < |q[1..][i']| && q[1..][i'][j'] == rest;
        assert q[i' + 1][j'] == rest;
        rest
  }

  // ---------------------------------------------------------------------
  // Training
  // ---------------------------------------------------------------------

  /** The value a TD step writes: the reward plus the discounted best value of the next state. */
  function Target(reward: int, alpha: real, gamma: real, best: real): real {
    alpha * (reward as real) + gamma * best
  }

  /**
   One temporal-difference update of cell (a, s), written as the source
   writes it: the old cell value plus (alpha * reward + gamma * the value of
   row s at its first argmax, minus the old cell value). The row maximum is
   read before the cell is written, also when s == a.
   */
  function TdStep(q: Table, a: nat, s: nat, reward: int, alpha: real, gamma: real): (q': Table)
    requires IsSquare(q, |q|) && a < |q| && s < |q|
    ensures IsSquare(q', |q|)
    ensures q'[a][s] == Target(reward, alpha, gamma, RowMax(q[s]))
    ensures forall i, j :: 0 <= i < |q| && 0 <= j < |q| && (i != a || j != s) ==> q'[i][j] == q[i][j]
  {
    var cell := q[a][s];
    var best := q[s][ArgMaxFirst(q[s])];
    q[a := q[a][s := cell + (alpha * (reward as real) + gamma * best - cell)]]
  }

  /** Applies one TD step per sample, in order, reading rewards from R. */
  function TrainSteps(q: Table, R: Rewards, samples: seq<Sample>, alpha: real, gamma: real): (q': Table)
    requires IsSquare(q, |q|) && IsSquare(R, |q|)
    requires SamplesWithin(samples, |q|)
    ensures IsSquare(q', |q|)
    ensures forall i, j :: 0 <= i < |q| && 0 <= j < |q| && Sample(i, j) !in samples ==> q'[i][j] == q[i][j]
    decreases |samples|
  {
    if |samples| == 0 then q
    else
      var a, s := samples[0].actual, samples[0].next;
      assert samples[0] in samples;
      var q1 := TdStep(q, a, s, R[a][s], alpha, gamma);
      assert forall x :: x in samples[1..] ==> x in samples;
      TrainSteps(q1, R, samples[1..], alpha, gamma)
  }

  /** Training on s1 and then on s2 is training on s1 + s2. */
  lemma {:induction false} TrainStepsAppend(q: Table, R: Rewards, s1: seq<Sample>, s2: seq<Sample>, alpha: real, gamma: real)
    requires IsSquare(q, |q|) && IsSquare(R, |q|)
    requires SamplesWithin(s1, |q|) && SamplesWithin(s2, |q|)
    ensures TrainSteps(q, R, s1 + s2, alpha, gamma) == TrainSteps(TrainSteps(q, R, s1, alpha, gamma), R, s2, alpha, gamma)
    decreases |s1|
  {
    if |s1| == 0 {
      assert s1 + s2 == s2;
    } else {
      var a, s := s1[0].actual, s1[0].next;
      assert s1[0] in s1;
      assert forall x :: x in s1[1..] ==> x in s1;
      var q1 := TdStep(q, a, s, R[a][s], alpha, gamma);
      assert (s1 + s2)[0] == s1[0];
      assert (s1 + s2)[1..] == s1[1..] + s2;
      TrainStepsAppend(q1, R, s1[1..], s2, alpha, gamma);
    }
  }

  /** The samples are applied in order: the last one is one TD step on the table the others leave. */
  lemma TrainStepsLast(q: Table, R: Rewards, samples: seq<Sample>, x: Sample, alpha: real, gamma: real)
    requires IsSquare(q, |q|) && IsSquare(R, |q|)
    requires SamplesWithin(samples, |q|) && x.actual < |q| && x.next < |q|
    ensures var t := TrainSteps(q, R, samples, alpha, gamma);
      TrainSteps(q, R, samples + [x], alpha, gamma) == TdStep(t, x.actual, x.next, R[x.actual][x.next], alpha, gamma)
  {
    TrainStepsAppend(q, R, samples, [x], alpha, gamma);
    var t := TrainSteps(q, R, samples, alpha, gamma);
    assert [x][1..] == [];
  }

  /** Every entry of a square table divided by the same non-zero number. */
  function DivideAll(q: Table, m: real): (q': Table)
    requires IsSquare(q, |q|) && m != 0.0
    ensures IsSquare(q', |q|)
    ensures forall i, j :: 0 <= i < |q| && 0 <= j < |q| ==> q'[i][j] == q[i][j] / m
  {
    seq(|q|, i requires 0 <= i < |q| => seq(|q|, j requires 0 <= j < |q| => q[i][j] / m))
  }

  /**
   Divides every entry by the table's maximum. The source divides whatever
   the maximum is; the model only divides by a positive maximum.
   */
  function Normalize(q: Table): (q': Table)
    requires |q| > 0 && IsSquare(q, |q|)
    requires TableMax(q) > 0.0
    ensures IsSquare(q', |q|)
    ensures var m := TableMax(q); forall i, j :: 0 <= i < |q| && 0 <= j < |q| ==> q'[i][j] == q[i][j] / m
    ensures forall i, j :: 0 <= i < |q| && 0 <= j < |q| ==> q'[i][j] <= 1.0
    ensures exists i, j :: 0 <= i < |q| && 0 <= j < |q| && q'[i][j] == 1.0
  {
    var m := TableMax(q);
    var q' := DivideAll(q, m);
    DivideByPositive(q, q', m);
    DivideByMaxReachesOne(q, q', m);
    q'
  }

  /** Dividing by a value some entry takes leaves a 1 at that entry. */
  lemma DivideByMaxReachesOne(q: Table, q': Table, m: real)
    requires m > 0.0 && IsSquare(q, |q|) && IsSquare(q', |q|)
    requires exists i, j :: 0 <= i < |q| && 0 <= j < |q[i]| && q[i][j] == m
    requires forall i, j :: 0 <= i < |q| && 0 <= j < |q| ==> q'[i][j] == q[i][j] / m
    ensures exists i, j :: 0 <= i < |q| && 0 <= j < |q| && q'[i][j] == 1.0
  {
    var i0, j0 :| 0 <= i0 < |q| && 0 <= j0 < |q[i0]| && q[i0][j0] == m;
    assert q'[i0][j0] == m / m;
  }

  /** Normalisation keeps the sign of every entry. */
  lemma NormalizeKeepsSign(q: Table)
    requires |q| > 0 && IsSquare(q, |q|)
    requires TableMax(q) > 0.0
    ensures forall i, j :: 0 <= i < |q| && 0 <= j < |q| ==>
      && (Normalize(q)[i][j] > 0.0 <==> q[i][j] > 0.0)
      && (Normalize(q)[i][j] == 0.0 <==> q[i][j] == 0.0)
      && (Normalize(q)[i][j] < 0.0 <==> q[i][j] < 0.0)
  {
    DivideByPositive(q, Normalize(q), TableMax(q));
  }

  /** Normalisation keeps the order between any two entries. */
  lemma NormalizeKeepsOrder(q: Table)
    requires |q| > 0 && IsSquare(q, |q|)
    requires TableMax(q) > 0.0
    ensures forall i, j, k, l :: 0 <= i < |q| && 0 <= j < |q| && 0 <= k < |q| && 0 <= l < |q| ==>
      (Normalize(q)[i][j] <= Normalize(q)[k][l] <==> q[i][j] <= q[k][l])
  {
    DivideKeepsOrder(q, Normalize(q), TableMax(q));
  }

  /** Dividing every entry by the same positive bound keeps signs and caps entries at 1. */
  lemma DivideByPositive(q: Table, q': Table, m: real)
    requires m > 0.0 && IsSquare(q, |q|) && IsSquare(q', |q|)
    requires forall i, j :: 0 <= i < |q| && 0 <= j < |q| ==> q[i][j] <= m && q'[i][j] == q[i][j] / m
    ensures forall i, j :: 0 <= i < |q| && 0 <= j < |q| ==>
      && q'[i][j] <= 1.0
      && (q'[i][j] > 0.0 <==> q[i][j] > 0.0)
      && (q'[i][j] == 0.0 <==> q[i][j] == 0.0)
      && (q'[i][j] < 0.0 <==> q[i][j] < 0.0)
  {
    forall i, j | 0 <= i < |q| && 0 <= j < |q|
      ensures q'[i][j] <= 1.0
    {
      DivisionMonotone(q[i][j], m, m);
    }
  }

  /** Dividing every entry by the same positive number keeps the order between any two entries. */
  lemma DivideKeepsOrder(q: Table, q': Table, m: real)
    requires m > 0.0 && IsSquare(q, |q|) && IsSquare(q', |q|)
    requires forall i, j :: 0 <= i < |q| && 0 <= j < |q| ==> q'[i][j] == q[i][j] / m
    ensures forall i, j, k, l :: 0 <= i < |q| && 0 <= j < |q| && 0 <= k < |q| && 0 <= l < |q| ==>
      (q'[i][j] <= q'[k][l] <==> q[i][j] <= q[k][l])
  {
    forall i, j, k, l | 0 <= i < |q| && 0 <= j < |q| && 0 <= k < |q| && 0 <= l < |q|
      ensures q'[i][j] <= q'[k][l] <==> q[i][j] <= q[k][l]
    {
      DivisionMonotone(q[i][j], q[k][l], m);
    }
  }

  /** Dividing by a positive number keeps the order of two reals. */
  lemma DivisionMonotone(x: real, y: real, m: real)
    requires m > 0.0
    ensures x / m <= y / m <==> x <= y
  {
    assert (x / m) * m == x && (y / m) * m == y;
    if x <= y {
      assert y / m - x / m == (y - x) / m;
    } else {
      assert x / m - y / m == (x - y) / m;
    }
  }

  /** Some entry of `t` is positive. */
  predicate HasPositive(t: Table) {
    exists i, j :: 0 <= i < |t| && 0 <= j < |t[i]| && t[i][j] > 0.0
  }

  /** A non-empty square table has a positive maximum exactly when it has a positive entry. */
  lemma PositiveMaxIffPositiveEntry(t: Table)
    requires |t| > 0 && IsSquare(t, |t|)
    ensures TableMax(t) > 0.0 <==> HasPositive(t)
  {
    var m := TableMax(t);
    if HasPositive(t) {
      var i, j :| 0 <= i < |t| && 0 <= j < |t[i]| && t[i][j] > 0.0;
      assert t[i][j] <= m;
    }
  }

  /**
   Training from zeros on samples that never start in the last state (the
   generator's upper bound is exclusive) leaves that row at 0, so the
   maximum is never negative: the only non-positive maximum training can
   meet is 0.
   */
  lemma FreshMaxNonNegative(k: nat, R: Rewards, samples: seq<Sample>, alpha: real, gamma: real)
    requires k > 0 && IsSquare(R, k) && SamplesWithin(samples, k)
    requires forall x :: x in samples ==> x.actual != k - 1
    ensures TableMax(TrainSteps(Zeros(k), R, samples, alpha, gamma)) >= 0.0
  {
    var t := TrainSteps(Zeros(k), R, samples, alpha, gamma);
    assert Sample(k - 1, 0) !in samples;
    assert t[k - 1][0] == 0.0;
  }

  /**
   Training from the current table: the TD steps of all samples, then
   normalisation. None stands for a table that cannot be normalised (empty,
   or with no positive entry).
   */
  function Train(q: Table, R: Rewards, samples: seq<Sample>, alpha: real, gamma: real): (r: Option<Table>)
    requires IsSquare(q, |q|) && IsSquare(R, |q|)
    requires SamplesWithin(samples, |q|)
    ensures r.Some? ==> IsSquare(r.value, |q|)
    ensures r.Some? ==> forall i, j :: 0 <= i < |q| && 0 <= j < |q| ==> r.value[i][j] <= 1.0
    ensures r.Some? ==> exists i, j :: 0 <= i < |q| && 0 <= j < |q| && r.value[i][j] == 1.0
    ensures r.Some? ==> forall i, j :: 0 <= i < |q| && 0 <= j < |q| && Sample(i, j) !in samples ==>
      (r.value[i][j] == 0.0 <==> q[i][j] == 0.0) && (r.value[i][j] > 0.0 <==> q[i][j] > 0.0)
    ensures r.Some? <==> HasPositive(TrainSteps(q, R, samples, alpha, gamma))
    ensures var t := TrainSteps(q, R, samples, alpha, gamma);
      r.Some? ==> |t| > 0 && TableMax(t) > 0.0 && r.value == Normalize(t)
  {
    var t := TrainSteps(q, R, samples, alpha, gamma);
    if |t| == 0 then None
    else
      PositiveMaxIffPositiveEntry(t);
      if TableMax(t) > 0.0 then
        NormalizeKeepsSign(t);
        Some(Normalize(t))
      else
        None
  }

  /** A TD step whose update is positive leaves a positive entry in the table. */
  lemma TdStepWritesPositive(t: Table, t': Table, a: nat, s: nat, reward: int, alpha: real, gamma: real)
    requires IsSquare(t, |t|) && a < |t| && s < |t|
    requires t' == TdStep(t, a, s, reward, alpha, gamma)
    requires Target(reward, alpha, gamma, RowMax(t[s])) > 0.0
    ensures HasPositive(t')
  {
    assert t'[a][s] > 0.0;
  }

  /**
   Training succeeds when its last update writes a positive value; for
   instance, with no discount, a positive learning rate and a last sample
   of positive reward.
   */
  lemma TrainSucceedsOnPositiveLastStep(q: Table, R: Rewards, samples: seq<Sample>, x: Sample, alpha: real, gamma: real)
    requires IsSquare(q, |q|) && IsSquare(R, |q|)
    requires SamplesWithin(samples, |q|) && x.actual < |q| && x.next < |q|
    requires Target(R[x.actual][x.next], alpha, gamma, RowMax(TrainSteps(q, R, samples, alpha, gamma)[x.next])) > 0.0
    ensures Train(q, R, samples + [x], alpha, gamma).Some?
  {
    LastStepLeavesPositive(q, R, samples, x, alpha, gamma);
  }

  /** With no discount and a positive learning rate, a last sample of positive reward makes training succeed. */
  lemma TrainSucceedsOnPositiveReward(q: Table, R: Rewards, samples: seq<Sample>, x: Sample, alpha: real)
    requires IsSquare(q, |q|) && IsSquare(R, |q|)
    requires SamplesWithin(samples, |q|) && x.actual < |q| && x.next < |q|
    requires alpha > 0.0 && R[x.actual][x.next] > 0
    ensures Train(q, R, samples + [x], alpha, 0.0).Some?
  {
    var t := TrainSteps(q, R, samples, alpha, 0.0);
    assert Target(R[x.actual][x.next], alpha, 0.0, RowMax(t[x.next])) > 0.0;
    TrainSucceedsOnPositiveLastStep(q, R, samples, x, alpha, 0.0);
  }

  /** The table training leaves has a positive entry when its last update is positive. */
  lemma LastStepLeavesPositive(q: Table, R: Rewards, samples: seq<Sample>, x: Sample, alpha: real, gamma: real)
    requires IsSquare(q, |q|) && IsSquare(R, |q|)
    requires SamplesWithin(samples, |q|) && x.actual < |q| && x.next < |q|
    requires Target(R[x.actual][x.next], alpha, gamma, RowMax(TrainSteps(q, R, samples, alpha, gamma)[x.next])) > 0.0
    ensures SamplesWithin(samples + [x], |q|)
    ensures HasPositive(TrainSteps(q, R, samples + [x], alpha, gamma))
  {
    var t := TrainSteps(q, R, samples, alpha, gamma);
    TrainStepsLast(q, R, samples, x, alpha, gamma);
    var t' := TrainSteps(q, R, samples + [x], alpha, gamma);
    TdStepWritesPositive(t, t', x.actual, x.next, R[x.actual][x.next], alpha, gamma);
  }

  // ---------------------------------------------------------------------
  // Greedy rollout
  // ---------------------------------------------------------------------

  /** The state the greedy policy moves to from state s. */
  function Greedy(q: Table, s: nat): (t: nat)
    requires IsSquare(q, |q|) && s < |q|
    ensures t < |q|
    ensures IsFirstMax(q[s], t)
  {
    ArgMaxFirst(q[s])
  }

  /** Every element of p is a state, and each one after the first is the greedy successor of its predecessor. */
  predicate IsGreedyPath(q: Table, p: seq<nat>)
    requires IsSquare(q, |q|)
  {
    && (forall k :: 0 <= k < |p| ==> p[k] < |q|)
    && (forall k :: 0 <= k < |p| - 1 ==> p[k + 1] == Greedy(q, p[k]))
  }

  /** The goal occurs in p exactly once, as its last element. */
  predicate EndsAtGoalOnly(p: seq<nat>, goal: nat) {
    && |p| > 0
    && p[|p| - 1] == goal
    && (forall k :: 0 <= k < |p| - 1 ==> p[k] != goal)
  }

  /** The rewards of the consecutive transitions of p, summed. */
  function PathScore(R: Rewards, p: seq<nat>): int
    requires forall k :: 0 <= k < |p| ==> p[k] < |R|
    requires IsSquare(R, |R|)
  {
    if |p| <= 1 then 0 else R[p[0]][p[1]] + PathScore(R, p[1..])
  }

  /**
   The greedy walk from `cur`: stop at `goal`, otherwise move to the first
   argmax of the current row, adding the reward of that transition. It takes
   at most `fuel` steps; running out of steps yields None.
   */
  function Walk(q: Table, R: Rewards, goal: nat, cur: nat, fuel: nat): (r: Option<Route>)
    requires IsSquare(q, |q|) && IsSquare(R, |q|) && cur < |q|
    ensures cur == goal ==> r == Some(Route([cur], 0))
    ensures r.Some? ==> 0 < |r.value.path| <= fuel + 1 && r.value.path[0] == cur
    decreases fuel
  {
    if cur == goal then Some(Route([cur], 0))
    else if fuel == 0 then None
    else
      var nxt := Greedy(q, cur);
      match Walk(q, R, goal, nxt, fuel - 1)
      case None => None
      case Some(rt) => Some(Route([cur] + rt.path, R[cur][nxt] + rt.score))
  }

  /**
   A successful walk follows the greedy policy, meets the goal only at its
   end, and its score is the sum of the rewards of its transitions.
   */
  lemma {:induction false} WalkSound(q: Table, R: Rewards, goal: nat, cur: nat, fuel: nat)
    requires IsSquare(q, |q|) && IsSquare(R, |q|) && cur < |q|
    requires Walk(q, R, goal, cur, fuel).Some?
    ensures IsGreedyPath(q, Walk(q, R, goal, cur, fuel).value.path)
    ensures EndsAtGoalOnly(Walk(q, R, goal, cur, fuel).value.path, goal)
    ensures Walk(q, R, goal, cur, fuel).value.score == PathScore(R, Walk(q, R, goal, cur, fuel).value.path)
    decreases fuel
  {
    if cur != goal {
      var nxt := Greedy(q, cur);
      WalkSound(q, R, goal, nxt, fuel - 1);
      var rt := Walk(q, R, goal, nxt, fuel - 1).value;
      var p := [cur] + rt.path;
      assert p[1..] == rt.path;
      assert Walk(q, R, goal, cur, fuel).value == Route(p, R[cur][nxt] + rt.score);
    }
  }

  /** A successful walk is unchanged by any budget at least as long as its path. */
  lemma {:induction false} WalkStable(q: Table, R: Rewards, goal: nat, cur: nat, fuel: nat, fuel': nat)
    requires IsSquare(q, |q|) && IsSquare(R, |q|) && cur < |q|
    requires Walk(q, R, goal, cur, fuel).Some?
    requires |Walk(q, R, goal, cur, fuel).value.path| <= fuel' + 1
    ensures Walk(q, R, goal, cur, fuel') == Walk(q, R, goal, cur, fuel)
    decreases fuel
  {
    if cur != goal {
      var nxt := Greedy(q, cur);
      var sub := Walk(q, R, goal, nxt, fuel - 1);
      assert sub.Some?;
      var p := [cur] + sub.value.path;
      assert Walk(q, R, goal, cur, fuel) == Some(Route(p, R[cur][nxt] + sub.value.score));
      assert |sub.value.path| <= fuel' - 1 + 1;
      WalkStable(q, R, goal, nxt, fuel - 1, fuel' - 1);
      assert Walk(q, R, goal, nxt, fuel' - 1) == sub;
    }
  }

  /** From two equal states, a greedy path continues identically. */
  lemma {:induction false} GreedyShift(q: Table, p: seq<nat>, i: nat, j: nat, m: nat)
    requires IsSquare(q, |q|) && IsGreedyPath(q, p)
    requires i < j && j + m < |p|
    ensures p[i] == p[j] ==> p[i + m] == p[j + m]
  {
    if m > 0 {
      GreedyShift(q, p, i, j, m - 1);
      assert p[i + m] == Greedy(q, p[i + m - 1]);
      assert p[j + m] == Greedy(q, p[j + m - 1]);
    }
  }

  /** The states of p are pairwise distinct. */
  predicate Distinct(p: seq<nat>) {
    forall i, j :: 0 <= i < j < |p| ==> p[i] != p[j]
  }

  /** A greedy path that meets the goal only at its end never repeats a state. */
  lemma GreedyPathDistinct(q: Table, p: seq<nat>, goal: nat)
    requires IsSquare(q, |q|) && IsGreedyPath(q, p) && EndsAtGoalOnly(p, goal)
    ensures Distinct(p)
  {
    forall i, j | 0 <= i < j < |p|
      ensures p[i] != p[j]
    {
      var m := |p| - 1 - j;
      GreedyShift(q, p, i, j, m);
    }
  }

  /** p without the value v. */
  function Without(p: seq<nat>, v: nat): (r: seq<nat>)
    ensures forall x :: x in r <==> x in p && x != v
    ensures Distinct(p) ==> Distinct(r)
    ensures Distinct(p) && v in p ==> |r| == |p| - 1
    ensures v !in p ==> r == p
  {
    if |p| == 0 then []
    else if p[0] == v then Without(p[1..], v)
    else
      var r := [p[0]] + Without(p[1..], v);
      assert Distinct(p) ==> p[0] !in p[1..];
      r
  }

  /** Pigeonhole: distinct states below k number at most k. */
  lemma {:induction false} DistinctBelow(p: seq<nat>, k: nat)
    requires Distinct(p)
    requires forall x :: x in p ==> x < k
    ensures |p| <= k
    decreases k
  {
    if |p| > 0 {
      assert p[0] in p;
      var p' := Without(p, k - 1);
      DistinctBelow(p', k - 1);
    }
  }

  /**
   The step budget |q| (= 2N) is enough: if the greedy walk reaches the goal
   with some budget, it reaches it along the same route within |q| steps.
   So a walk that fails with budget |q| fails with every budget.
   */
  lemma WalkWithinStates(q: Table, R: Rewards, goal: nat, cur: nat, fuel: nat)
    requires IsSquare(q, |q|) && IsSquare(R, |q|) && cur < |q|
    requires Walk(q, R, goal, cur, fuel).Some?
    ensures Walk(q, R, goal, cur, |q|) == Walk(q, R, goal, cur, fuel)
  {
    var p := Walk(q, R, goal, cur, fuel).value.path;
    WalkSound(q, R, goal, cur, fuel);
    GreedyPathDistinct(q, p, goal);
    DistinctBelow(p, |q|);
    WalkStable(q, R, goal, cur, fuel, |q|);
  }

  /** No step budget at all takes the greedy walk from `cur` to `goal`. */
  ghost predicate NeverReaches(q: Table, R: Rewards, goal: nat, cur: nat)
    requires IsSquare(q, |q|) && IsSquare(R, |q|) && cur < |q|
  {
    forall fuel: nat :: Walk(q, R, goal, cur, fuel).None?
  }

  /** A walk that fails within |q| steps fails with every budget. */
  lemma WalkFailsForever(q: Table, R: Rewards, goal: nat, cur: nat)
    requires IsSquare(q, |q|) && IsSquare(R, |q|) && cur < |q|
    requires Walk(q, R, goal, cur, |q|).None?
    ensures NeverReaches(q, R, goal, cur)
  {
    forall fuel: nat
      ensures Walk(q, R, goal, cur, fuel).None?
    {
      if Walk(q, R, goal, cur, fuel).Some? {
        WalkWithinStates(q, R, goal, cur, fuel);
      }
    }
  }
}
