# Q-learning malware agent over a doubled state space — Dafny model

The repository trains a tabular Q-learning agent that moves through a
computer network. A network has N nodes, and the agent has 2N states:
state `s < N` means node `s` is clean, and state `s >= N` means node `s - N`
is infected. The agent aims for the state `meta + N`, the infected target.
Each version has four parts:

- a reward function over pairs of states;
- an action enumerator;
- training: temporal-difference (TD) updates on a 2N x 2N table Q,
  followed by division of Q by its maximum;
- a greedy rollout: from a start state it follows the first argmax of
  each row until it reaches the target.

The repository holds four successive versions of this engine. Each one is
modelled by its own module and follows its own file, with the
differences listed under "## Left out".

| module | file | what it holds |
|---|---|---|
| `Engine` (engine.dfy) | shared by all versions | Q table, first-index argmax, TD step, training fold, normalisation, fuel-bounded greedy walk |
| `GrafoV04` (grafo_v04.dfy) | grafo_v_0_4.py | the network: adjacency lists, risks, target, `define_alto_riesgo`, `selecciona_meta`, predefined network 1, reward, actions |
| `AlgoritmoV04` (algoritmo_v04.dfy) | algoritmo_v_0_4.py | agent over a `GrafoRed`: Q init, training, route search |
| `AlgoritmoV03` (algoritmo_v03.dfy) | algoritmo_v_0_3.py | agent with its own graph; reward charges the risk of the node being left |
| `AlgoritmoV02` (algoritmo_v02.dfy) | algoritmo_v_0_2.py | agent over a connection list; actions include staying; fixed 1000 updates |
| `AlgoritmoV00` (algoritmo_v00.dfy) | algoritmo_v_0_0.py | reward matrix built by ordered passes, actions filtered with `R > -100` |

How the model represents the system:

- **Graph.** A graph is `seq<seq<nat>>` adjacency over `[0, N)`. The graph
  library reports neighbours in insertion order, and that order is kept.
  `GrafoV04.AddEdges` models `add_edges_from`, and it is proved to yield the
  listed adjacency of predefined network 1.
- **Q and R.** Q values are `real` and rewards are `int`.
- **Random draws are inputs.** Training's random draws (`randint(0, 2N-1)`
  and `choice(actions)`) become an explicit sequence of
  `Sample(actual, next)` values. The upper bound of `randint` is exclusive,
  so the last state is never drawn. Every version's `ValidSamples` says
  this, and every version proves that pairs never drawn keep their zero.
- **Normalisation.** Training returns `None` when the maximum of Q is not
  positive. For a zero maximum numpy would give `inf` or `NaN`. A negative
  maximum would give a finite table with the order of its entries
  reversed, but training that starts at zeros never meets one: the last
  row is never drawn, keeps its 0, and so the maximum is at least 0
  (`Engine.FreshMaxNonNegative`).
- **Route search.** The source loops without bound. The model walks with a
  budget of 2N steps and returns `None` when the budget runs out.
  `Engine.WalkFailsForever` proves that a `None` means no budget at all
  reaches the target: a greedy walk that repeats a state cycles forever.
  The walk is a pure function of Q, so it never changes Q.
- **Version 0.3** keeps its node count, graph, risks and target in a
  `GrafoV04.GrafoRed`. Its own reward and action functions use it.
- **Version 0.0** is a script. Its inputs (connections, low-value nodes,
  high-risk nodes, N, target) are the fields of an `AlgoritmoV02.Config`.
  The constants hard-coded in the script are one such configuration.
- **Version 0.2 behaviour on infected states, modelled as written.** The
  action scan tests whether a connection contains `actual`, not `actual2`
  (code/plainCode/algoritmo_v_0_2.py:96). So when every endpoint is a node,
  an infected state lists only its stay. The reward function still accepts
  moves from s + N along connections listed as (s, t), so the two disagree.
  `AlgoritmoV02.InfectedActionsOnlyStay`, `AlgoritmoV02.InfectedMoveNotListed`
  and `AlgoritmoV02.InfectedRowsOnlyStay` state this and its effect on the
  trained table.

## Model

| member | source | states |
|---|---|---|
| Engine.Zeros | code/plainCode/algoritmo_v_0_4.py:24 | the initial Q is a 2N x 2N table every entry of which is 0 |
| Engine.ArgMaxFirst | code/plainCode/algoritmo_v_0_4.py:73 | `np.argmax` returns an index of the row that attains the row's maximum, and no earlier index attains it |
| Engine.FirstMaxUnique | code/plainCode/algoritmo_v_0_4.py:73 | the first maximising index is unique, so the argmax is fully determined by its contract |
| Engine.RowMax | code/plainCode/algoritmo_v_0_4.py:45 | the value read at a row's argmax bounds every entry of the row and occurs in it |
| Engine.TableMax | code/plainCode/algoritmo_v_0_4.py:48 | `np.max(Q)` bounds every entry of Q and is attained by one |
| Engine.TdStep | code/plainCode/algoritmo_v_0_4.py:44-45 | after one update, cell (actual, next) holds the target alpha·reward + gamma·(maximum of row next before the update); the add-then-subtract nets out; every other cell is unchanged |
| Engine.TrainSteps | code/plainCode/algoritmo_v_0_4.py:36-45 | the updates keep Q square, and a cell that no sample names keeps its value |
| Engine.TrainStepsAppend | code/plainCode/algoritmo_v_0_4.py:36-45 | the loop runs the samples in order: training on s1 + s2 is training on s1 and then, from the table that leaves, on s2 |
| Engine.TrainStepsLast | code/plainCode/algoritmo_v_0_4.py:36-45 | the table after samples + [x] is one TD step for x, rewarded from R, on the table the samples leave |
| Engine.Normalize | code/plainCode/algoritmo_v_0_4.py:48 | with a positive maximum, every entry is the old entry divided by the maximum, every entry is at most 1, and some entry is exactly 1 |
| Engine.NormalizeKeepsSign | code/plainCode/algoritmo_v_0_4.py:48 | normalisation keeps each entry positive, zero or negative as it was |
| Engine.NormalizeKeepsOrder | code/plainCode/algoritmo_v_0_4.py:48 | normalisation keeps the order between any two entries, so every row keeps its argmax |
| Engine.DivideByPositive | code/plainCode/algoritmo_v_0_4.py:48 | dividing by a positive bound of the entries caps them at 1 and keeps their signs |
| Engine.DivideKeepsOrder | code/plainCode/algoritmo_v_0_4.py:48 | dividing every entry by the same positive number keeps the order between any two entries |
| Engine.DivideByMaxReachesOne | code/plainCode/algoritmo_v_0_4.py:48 | dividing by a value some entry takes leaves a 1 at that entry |
| Engine.PositiveMaxIffPositiveEntry | code/plainCode/algoritmo_v_0_4.py:48 | a table's maximum is positive exactly when some entry is positive |
| Engine.Train | code/plainCode/algoritmo_v_0_4.py:35-50 | training succeeds exactly when the TD steps leave some positive entry, and then returns that table divided by its (positive) maximum: square, entries at most 1, one entry equal to 1; a cell no sample names keeps its zero-ness and its positivity |
| Engine.FreshMaxNonNegative | code/plainCode/algoritmo_v_0_4.py:36-48 | training from zeros on samples that never start in the last state keeps that row at 0, so the maximum divided by is never negative |
| Engine.TdStepWritesPositive | code/plainCode/algoritmo_v_0_4.py:44-45 | a TD step whose target is positive leaves a positive entry |
| Engine.LastStepLeavesPositive | code/plainCode/algoritmo_v_0_4.py:36-45 | when the last sample's target, computed on the table the earlier samples leave, is positive, the trained table has a positive entry |
| Engine.TrainSucceedsOnPositiveLastStep | code/plainCode/algoritmo_v_0_4.py:35-50 | training succeeds whenever the last update writes a positive value |
| Engine.TrainSucceedsOnPositiveReward | code/plainCode/algoritmo_v_0_4.py:35-50 | with gamma 0 and a positive alpha, a last sample of positive reward makes training succeed |
| Engine.Greedy | code/plainCode/algoritmo_v_0_4.py:73 | the next state of the rollout is a state and is the first maximum of the current row |
| Engine.Walk | code/plainCode/algoritmo_v_0_4.py:60-80 | starting at the goal gives ([start], 0); any route found starts with the start state and has at most budget + 1 states |
| Engine.WalkSound | code/plainCode/algoritmo_v_0_4.py:66-78 | a route found is a greedy path, holds the goal only as its last state, and its score is the sum of R over its consecutive pairs |
| Engine.WalkStable | code/plainCode/algoritmo_v_0_4.py:71-78 | a route found does not change under any budget at least as long as the route |
| Engine.GreedyShift | code/plainCode/algoritmo_v_0_4.py:71-78 | the next state depends only on the current one: two equal states of a greedy path have equal successors at every distance |
| Engine.GreedyPathDistinct | code/plainCode/algoritmo_v_0_4.py:71-78 | a greedy path that meets the goal only at its end never repeats a state |
| Engine.WalkWithinStates | code/plainCode/algoritmo_v_0_4.py:71-78 | if some budget reaches the goal, the budget 2N reaches it along the same route |
| Engine.WalkFailsForever | code/plainCode/algoritmo_v_0_4.py:71-78 | if the budget 2N does not reach the goal, no budget does (the source loop never ends) |
| GrafoV04.NeighboursAreNodes | code/plainCode/grafo_v_0_4.py:157-158 | in a valid graph, a neighbour is another node that lists the first one back |
| GrafoV04.SelectMeta | code/plainCode/grafo_v_0_4.py:113-114 | only the target changes; validity is kept |
| GrafoV04.MarkHigh | code/plainCode/grafo_v_0_4.py:128-129 | after setting each listed index to 10, an index holds 10 when listed and keeps its value otherwise |
| GrafoV04.DefineHighRisk | code/plainCode/grafo_v_0_4.py:121-129 | succeeds exactly when every listed value is a node; then risk is 10 exactly on the listed nodes and 1 elsewhere, and edges, size and target are unchanged |
| GrafoV04.Insert | code/plainCode/grafo_v_0_4.py:48 | adding a neighbour leaves exactly the old neighbours plus the new one |
| GrafoV04.AddEdge | code/plainCode/grafo_v_0_4.py:48 | add_edge(u, v) keeps one neighbour list per node and leaves v among u's neighbours and u among v's |
| GrafoV04.AddEdgeNeighbours | code/plainCode/grafo_v_0_4.py:48 | after add_edge(u, v), y neighbours x iff it did before or {x, y} = {u, v} |
| GrafoV04.AddEdgesNeighbours | code/plainCode/grafo_v_0_4.py:48 | after add_edges_from, y neighbours x iff it did before or a listed edge joins them in either orientation |
| GrafoV04.AddFreshEdge | code/plainCode/grafo_v_0_4.py:48 | a new edge between two distinct nodes appends each to the end of the other's list |
| GrafoV04.AddEdgesOrder | code/plainCode/grafo_v_0_4.py:48 | adding new simple edges appends to each node's list the other endpoints of its edges, in the order the edges are listed |
| GrafoV04.IncidentMembers | code/plainCode/grafo_v_0_4.py:47-48 | the incident list of x holds exactly the nodes joined to x by a listed edge, in either orientation |
| GrafoV04.TreeIncident | code/plainCode/grafo_v_0_4.py:47 | the other endpoints of each node's edges in the tree list, node by node |
| GrafoV04.TreeEdgesSimple | code/plainCode/grafo_v_0_4.py:47 | the tree list has no self-loop and no edge twice in either orientation |
| GrafoV04.PredefinedAdjacency | code/plainCode/grafo_v_0_4.py:47-48 | adding the tree's eight edges in order to nine empty lists gives the tree adjacency, neighbour order included |
| GrafoV04.Predefined1 | code/plainCode/grafo_v_0_4.py:41-50 | predefined network 1 has 9 nodes and target 5 whatever was passed, is a valid graph, has the tree adjacency, and node 6 is its only high-risk node |
| GrafoV04.PredefinedEdges | code/plainCode/grafo_v_0_4.py:44-50 | in predefined network 1, two nodes are adjacent exactly when one of the eight listed edges joins them |
| GrafoV04.TreeAdjacencyValid | code/plainCode/grafo_v_0_4.py:44-50 | any network on the tree adjacency whose risks are 1 or 10 is a valid graph |
| GrafoV04.Reward | code/plainCode/grafo_v_0_4.py:138-167 | every reward lies in {999, -1, -3, -5, -10, -111} |
| GrafoV04.Actions | code/plainCode/grafo_v_0_4.py:176-186 | a clean state lists its node's neighbour list, in the graph's order, followed by its own infection; an infected state lists exactly its node's neighbour list; so the state itself is never listed, every entry is a state, and all but a clean state's last entry are clean |
| GrafoV04.RewardSelfInfection | code/plainCode/grafo_v_0_4.py:141-146 | infecting the current node scores 999 at the target and -5 elsewhere, before any other rule |
| GrafoV04.RewardStay | code/plainCode/grafo_v_0_4.py:149-154 | staying scores 999 iff the state is the infected target, and -1 otherwise |
| GrafoV04.RewardMove | code/plainCode/grafo_v_0_4.py:157-164 | a move along an edge of the current node lands on a node and scores -3 into a leaf, otherwise minus the destination's risk |
| GrafoV04.RewardIntoInfected | code/plainCode/grafo_v_0_4.py:138-167 | a move into an infected state that is neither a stay nor one's own infection scores -111 |
| GrafoV04.RewardLegalIffAction | code/plainCode/grafo_v_0_4.py:138-186 | within the state space, a pair scores other than -111 exactly when it is a stay or a listed action |
| AlgoritmoV04.NewAgent | code/plainCode/algoritmo_v_0_4.py:20-24 | a new agent keeps its network and has a 2N x 2N table of zeros |
| AlgoritmoV04.RewardTable | code/plainCode/algoritmo_v_0_4.py:44 | the reward table holds the network's reward for every pair of states |
| AlgoritmoV04.SamplesInTable | code/plainCode/algoritmo_v_0_4.py:38-41 | every drawn state and action indexes the table |
| AlgoritmoV04.NeverSampledAbsent | code/plainCode/algoritmo_v_0_4.py:38-41 | a pair from the last state, or to a state outside the action list, is never drawn |
| AlgoritmoV04.NeverSampledAllAbsent | code/plainCode/algoritmo_v_0_4.py:38-41 | no pair that cannot be drawn occurs among the samples |
| AlgoritmoV04.Train | code/plainCode/algoritmo_v_0_4.py:35-50 | training succeeds exactly when Engine.Train on the agent's Q with this network's reward table succeeds, and then the agent keeps its network and takes that table as Q: valid, entries at most 1, one equal to 1; from a fresh agent, the whole last row and every pair outside the action lists stay 0 |
| AlgoritmoV04.GoalSampleTrains | code/plainCode/algoritmo_v_0_4.py:35-50 | with gamma 0 and a positive alpha, a batch whose last sample infects the target (reward 999) trains successfully |
| AlgoritmoV04.PathScoreIsPathReward | code/plainCode/algoritmo_v_0_4.py:75 | scoring a path from the reward table equals summing the network's reward over its consecutive pairs |
| AlgoritmoV04.FindRoute | code/plainCode/algoritmo_v_0_4.py:60-80 | from the target the route is ([start], 0); otherwise the route starts at the start state, is greedy, meets meta + N only at its end, has at most 2N states, and scores the sum of rewards; None means no budget reaches the target |
| AlgoritmoV03.NewAgent | code/plainCode/algoritmo_v_0_3.py:19-22 | a new agent has a 2N x 2N table of zeros |
| AlgoritmoV03.SelectMeta | code/plainCode/algoritmo_v_0_3.py:52-53 | only the target changes; Q and validity are kept |
| AlgoritmoV03.DefineHighRisk | code/plainCode/algoritmo_v_0_3.py:60-68 | succeeds exactly when every listed value is a node; then risk is 10 exactly on the listed nodes and 1 elsewhere; graph, target and Q are unchanged |
| AlgoritmoV03.Reward | code/plainCode/algoritmo_v_0_3.py:77-108 | every reward lies in {999, -1, -3, -5, -10, -111} |
| AlgoritmoV03.Actions | code/plainCode/algoritmo_v_0_3.py:117-127 | the state itself is never listed; a clean state lists its neighbours then its own infection; an infected state lists its node's neighbours, all clean |
| AlgoritmoV03.RewardSelfInfectionAndStay | code/plainCode/algoritmo_v_0_3.py:80-93 | self-infection scores 999 at the target else -5, ahead of staying, which scores 999 iff at the infected target else -1 |
| AlgoritmoV03.RewardMove | code/plainCode/algoritmo_v_0_3.py:96-105 | a move along an edge scores -3 into a leaf, otherwise minus the risk of the node being left (of actual - N when infected) |
| AlgoritmoV03.RewardAgreesWithV04 | code/plainCode/algoritmo_v_0_3.py:96-108 | this reward differs from version 0.4's only on a valid move into a non-leaf node |
| AlgoritmoV03.RewardLegalIffAction | code/plainCode/algoritmo_v_0_3.py:77-127 | within the state space, a pair scores other than -111 exactly when it is a stay or a listed action |
| AlgoritmoV03.RewardTable | code/plainCode/algoritmo_v_0_3.py:148 | the reward table holds this version's reward for every pair of states |
| AlgoritmoV03.SamplesInTable | code/plainCode/algoritmo_v_0_3.py:142-145 | every drawn state and action indexes the table |
| AlgoritmoV03.NeverSampledAbsent | code/plainCode/algoritmo_v_0_3.py:142-145 | a pair from the last state, or outside the action list, is never drawn |
| AlgoritmoV03.NeverSampledAllAbsent | code/plainCode/algoritmo_v_0_3.py:142-145 | no pair that cannot be drawn occurs among the samples |
| AlgoritmoV03.Train | code/plainCode/algoritmo_v_0_3.py:138-154 | training succeeds exactly when Engine.Train on the agent's Q with this version's reward table succeeds, and then the agent keeps its graph and takes that table as Q: entries at most 1, one equal to 1; from a fresh agent, row 2N-1 and pairs outside the action lists stay 0 |
| AlgoritmoV03.PathScoreIsPathReward | code/plainCode/algoritmo_v_0_3.py:180 | scoring a path from the table equals summing this version's reward over its pairs |
| AlgoritmoV03.FindRoute | code/plainCode/algoritmo_v_0_3.py:164-185 | same route properties as version 0.4, scored with this version's reward |
| AlgoritmoV02.NewAgent | code/plainCode/algoritmo_v_0_2.py:20-28 | a new agent keeps its configuration and has a 2N x 2N table of zeros |
| AlgoritmoV02.Reward | code/plainCode/algoritmo_v_0_2.py:37-69 | every reward lies in {999, -1, -3, -5, -10, -111} |
| AlgoritmoV02.RewardSelfInfectionAndStay | code/plainCode/algoritmo_v_0_2.py:40-53 | self-infection scores 999 at the target else -5; staying scores 999 iff at the infected target else -1 |
| AlgoritmoV02.RewardMove | code/plainCode/algoritmo_v_0_2.py:56-66 | along a listed connection, high risk scores -10 and wins over low value (-3); otherwise -1 |
| AlgoritmoV02.RewardIllegal | code/plainCode/algoritmo_v_0_2.py:37-69 | a pair scores -111 iff it is no self-infection, no stay, and none of (actual, next), (next, actual), (actual - N, next) is listed |
| AlgoritmoV02.ValidMoveClean | code/plainCode/algoritmo_v_0_2.py:56-58 | from a clean state, the connection test holds exactly for the nodes joined to it by a listed connection |
| AlgoritmoV02.ValidMoveInfected | code/plainCode/algoritmo_v_0_2.py:56-58 | from an infected state s + N, with every endpoint a node, the connection test holds exactly when (s, t) is listed; (t, s) is not tried |
| AlgoritmoV02.Others | code/plainCode/algoritmo_v_0_2.py:94-101 | the scan adds at most one state per connection, and when actual and actual2 coincide it adds exactly the other ends of the connections at actual, in list order |
| AlgoritmoV02.Actions | code/plainCode/algoritmo_v_0_2.py:79-103 | the list starts with the stay; a clean state lists the stay, its infection, then the other ends of its connections in list order |
| AlgoritmoV02.OthersConnected | code/plainCode/algoritmo_v_0_2.py:94-101 | every state the scan adds is the state itself or the other end of a connection listed with it |
| AlgoritmoV02.OthersOfClean | code/plainCode/algoritmo_v_0_2.py:94-101 | for a clean state, the scan adds exactly the other ends of its connections |
| AlgoritmoV02.OthersUntouched | code/plainCode/algoritmo_v_0_2.py:94-101 | when no connection contains the tested value, the scan adds nothing |
| AlgoritmoV02.CleanActions | code/plainCode/algoritmo_v_0_2.py:82-101 | a clean state lists exactly the stay, its infection, and the other ends of its connections |
| AlgoritmoV02.InfectedActionsOnlyStay | code/plainCode/algoritmo_v_0_2.py:85-101 | when all endpoints are nodes, an infected state lists exactly [s] |
| AlgoritmoV02.ActionsAreStates | code/plainCode/algoritmo_v_0_2.py:79-103 | under a valid configuration every listed action is a state |
| AlgoritmoV02.ActionsRewarded | code/plainCode/algoritmo_v_0_2.py:37-101 | every listed action, from any state, scores other than -111 |
| AlgoritmoV02.CleanRewardIffAction | code/plainCode/algoritmo_v_0_2.py:37-101 | from a clean state, a move scores other than -111 exactly when it is listed |
| AlgoritmoV02.InfectedMoveNotListed | code/plainCode/algoritmo_v_0_2.py:56-101 | from an infected state s + N, a move to t along a connection listed as (s, t) is rewarded but not listed |
| AlgoritmoV02.RewardTable | code/plainCode/algoritmo_v_0_2.py:123 | the reward table holds this version's reward for every pair of states |
| AlgoritmoV02.SamplesInTable | code/plainCode/algoritmo_v_0_2.py:117-120 | under a valid configuration every drawn state and action indexes the table |
| AlgoritmoV02.NeverSampledAbsent | code/plainCode/algoritmo_v_0_2.py:117-120 | a pair from the last state, or outside the action list, is never drawn |
| AlgoritmoV02.NeverSampledAllAbsent | code/plainCode/algoritmo_v_0_2.py:117-120 | no pair that cannot be drawn occurs among the samples |
| AlgoritmoV02.Train | code/plainCode/algoritmo_v_0_2.py:113-129 | after exactly 1000 updates, training succeeds exactly when Engine.Train on the agent's Q with this version's reward table succeeds, and then the agent keeps its configuration and takes that table as Q: entries at most 1, one equal to 1; from a fresh agent, unsampleable pairs stay 0 |
| AlgoritmoV02.UnsampledStayZero | code/plainCode/algoritmo_v_0_2.py:113-129 | training a fresh agent leaves every pair the generator cannot draw at 0 |
| AlgoritmoV02.InfectedRowsOnlyStay | code/plainCode/algoritmo_v_0_2.py:85-129 | trained from a fresh agent, an infected row is 0 everywhere off its diagonal |
| AlgoritmoV02.PathScoreIsPathReward | code/plainCode/algoritmo_v_0_2.py:155 | scoring a path from the table equals summing this version's reward over its pairs |
| AlgoritmoV02.FindRoute | code/plainCode/algoritmo_v_0_2.py:139-160 | same route properties as version 0.4, scored with this version's reward |
| AlgoritmoV00.Cell | code/plainCode/algoritmo_v_0_0.py:36-73 | every cell the passes leave lies in {-111, -10, -5, -3, -1, 999} |
| AlgoritmoV00.PassOrder | code/plainCode/algoritmo_v_0_0.py:56-65 | on a connection cell, a low-value node costs 3 even when also high-risk; an infected row into a high-risk node keeps -1; a clean row into a high-risk node costs 10 |
| AlgoritmoV00.EdgeCellColumn | code/plainCode/algoritmo_v_0_0.py:43-49 | the connection pass only writes clean columns |
| AlgoritmoV00.AgreesWithV02OnCleanRows | code/plainCode/algoritmo_v_0_0.py:36-73 | on clean rows the matrix equals version 0.2's reward function, provided no node is both low-value and high-risk |
| AlgoritmoV00.EdgePass | code/plainCode/algoritmo_v_0_0.py:43-49 | for each connection (a, b), cells (a, b), (b, a), (a + N, b), (b + N, a) become -1 and no other cell changes |
| AlgoritmoV00.InfectPass | code/plainCode/algoritmo_v_0_0.py:52-53 | cell (i, i + N) becomes -5 for each node i and no other cell changes |
| AlgoritmoV00.RewriteColumn | code/plainCode/algoritmo_v_0_0.py:57-59 | in one column, among the first `rows` rows, exactly the cells holding `from` become `to` |
| AlgoritmoV00.RewriteColumns | code/plainCode/algoritmo_v_0_0.py:56-65 | for the listed columns, among the first `rows` rows, exactly the cells holding `from` become `to` |
| AlgoritmoV00.DiagonalPass | code/plainCode/algoritmo_v_0_0.py:71-72 | every diagonal cell becomes -1 and nothing else changes |
| AlgoritmoV00.BuildRewards | code/plainCode/algoritmo_v_0_0.py:36-73 | the passes in the script's order yield exactly the reference matrix `Cell`, cell by cell |
| AlgoritmoV00.Legal | code/plainCode/algoritmo_v_0_0.py:93-95 | the scan collects exactly the indices whose entry exceeds -100, in increasing order |
| AlgoritmoV00.Actions | code/plainCode/algoritmo_v_0_0.py:92-95 | a state's actions are exactly the columns of its row above -100 |
| AlgoritmoV00.ActionsAreLegalMoves | code/plainCode/algoritmo_v_0_0.py:92-95 | on the script's matrix the actions always include the state itself and are exactly the states whose cell is not -111 |
| AlgoritmoV00.SamplesInTable | code/plainCode/algoritmo_v_0_0.py:89-97 | every drawn state and action indexes the matrix |
| AlgoritmoV00.NeverSampledAllAbsent | code/plainCode/algoritmo_v_0_0.py:89-97 | a pair from the last state, or any -111 cell, is never drawn |
| AlgoritmoV00.Train | code/plainCode/algoritmo_v_0_0.py:79-103 | from a zero table, after 1000 updates rewarded from the script's matrix, training succeeds exactly when the updates leave a positive entry, and then returns the updated table divided by its maximum: entries at most 1, one equal to 1; the last row and every -111 cell stay 0 |
| AlgoritmoV00.UnsampledStayZero | code/plainCode/algoritmo_v_0_0.py:79-103 | training from zeros leaves the last row and every -111 cell at 0 |
| AlgoritmoV00.FindRoute | code/plainCode/algoritmo_v_0_0.py:109-130 | same route properties as version 0.4, scored by summing R over consecutive pairs |

## Left out

- Random graph generation (`nx.random_internet_as_graph`) and random risk
  assignment (`random.random`, `random.seed`) are not modelled. This covers
  code/plainCode/grafo_v_0_4.py:28-39, 55-79 and 90-107 (`regenera_red`),
  and code/plainCode/algoritmo_v_0_3.py:31-45 (`genera_red`). They are a
  foreign library driven by a random number generator; a graph is an input
  instead.
- Predefined networks 2, 3 and 4 (code/plainCode/grafo_v_0_4.py:52-79) are
  not modelled. Each is a random graph from a fixed seed, so it depends on
  the graph library's generator.
- The random draws of training (`np.random.randint`, `np.random.choice`)
  are an input sequence of samples. `np.random.choice` on an empty action
  list is not modelled. That happens in versions 0.3 and 0.4 for an
  infected state whose node has no neighbour, and the source then raises an
  error. Every sample must name a listed action, so no sample exists for
  such a draw.
- Floating-point behaviour is not modelled. Q is `real`, so
  `+= x - Q[a, s]` nets out exactly, and rounding is absent.
- Engine.Normalize: defined only for a positive maximum. The source divides
  by any maximum. A zero maximum gives `inf`/`NaN` entries, and training
  returns None there. A negative maximum would give a finite,
  order-reversed table; it cannot arise from training that starts at
  zeros, because the never-drawn last row keeps its 0
  (`Engine.FreshMaxNonNegative`). From a table that is not fresh the model
  returns None for it as well.
- Engine.Walk: bounded by a step budget. The route searches use 2N steps
  and return None where the source loops forever. `Engine.WalkFailsForever`
  shows that no budget would do better.
- AlgoritmoV03.NewAgent: takes the agent together with a complete network.
  The source constructor (code/plainCode/algoritmo_v_0_3.py:19-22) sets
  only the node count and Q. The graph exists only after `genera_red`
  (lines 31-45) and the target only after `selecciona_meta` (lines 52-53).
  Calling the reward or the action list before that raises
  `AttributeError` (lines 82, 90, 121). That construction order and its
  error are not modelled.
- GrafoV04.DefineHighRisk: a listed value that is not a node yields None.
  The source raises `KeyError` after it has already reset every risk to 1
  and marked the listed nodes before the bad one; that partial update is
  not modelled.
- AlgoritmoV03.DefineHighRisk: delegates to the version 0.4 function, so a
  value that is not a node yields None, while
  code/plainCode/algoritmo_v_0_3.py:60-68 makes the same reset-then-`KeyError`
  partial update; that partial update is not modelled either.
- GrafoV04.Predefined1: ignores its node-count and target arguments, as the
  source does when `predefinido == 1`. The constructor's dispatch on
  `predefinido` (code/plainCode/grafo_v_0_4.py:24-25) is otherwise not
  modelled.
- Printing, plotting (`matplotlib`, `nx.draw_*`), `np.set_printoptions` and
  the module-level driver code of each version are not modelled. They are
  output and script wiring only. The same goes for the hard-coded
  parameters of the version 0.0 script (alpha, gamma, start node), which
  are parameters of the model.
- code/plainCode/pruebas_grafos.py is not part of this model: it only
  generates and draws random graphs.
