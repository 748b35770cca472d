# Verified model of four AI exercises: planning graph, air cargo, Sudoku, graph search

The repository is a set of small, independent exercises from an artificial
intelligence course. This project models the pure logic of four of them in
Dafny and proves what that logic promises.

- **Planning graph** (`Planning/my_planning_graph.py`): GraphPlan as in
  section 10.3 of Russell and Norvig, *Artificial Intelligence: A Modern
  Approach*, 3rd edition. It covers:
  - literal and action nodes, and the no-op actions;
  - alternating S- and A-levels, grown until two S-levels are equal;
  - the four action-mutex tests and the two literal-mutex tests;
  - the level-sum heuristic.
- **Air cargo** (`Planning/my_air_cargo_problems.py`): a STRIPS domain. It covers:
  - grounding of Load, Unload and Fly;
  - applicable actions, the successor state and the goal test;
  - the builder of the initial positive and negative fluent lists.
- **Sudoku** (`Sudoku/solution.py`, `Sudoku/scratch.py`):
  - constraint propagation: eliminate, only choice, naked twins, reduce to a fixpoint;
  - depth-first search over a map from box name to a string of candidate digits;
  - `scratch.py` is an earlier variant with its own copy semantics, split-based removal and a histogram-based only-choice.
- **Graph search** (`Search/`):
  - a line-based adjacency-list parser (`search.py`);
  - a flat-array grid world (`GridWorld.py`);
  - breadth-first search, uniform-cost search and A* with back-pointer path reconstruction.

Layout (one module per file, named after the file):

| file | module | models |
|---|---|---|
| wrappers.dfy | Wrappers | `Option`, `Result` and the Python errors the code can raise |
| collections.dfy | Collections | `Distinct`, `Elements` and set-size facts |
| text.dfy | Text | `str(int)`, `int(str)`, `str.split('\n')`, `str.split()` |
| grid_world.dfy | GridWorld | `Search/GridWorld.py` |
| deg.dfy | Deg | `Search/search.py` (`DEG`) |
| trace.dfy | Trace | back-pointer path reconstruction shared by the searches |
| bfs.dfy | Bfs | `Search/BFS.py` |
| astar_state.dfy, astar.dfy | AstarState, Astar | `Search/Astar.py` |
| ucs.dfy | Ucs | `Search/UCS.py`, as A* with the zero heuristic |
| strips.dfy | Strips | the `Action`/`expr` records the planning code uses |
| planning_graph.dfy | PlanningGraph | `Planning/my_planning_graph.py` |
| level_sum.dfy | LevelSum | `PlanningGraph.h_levelsum` |
| graph_facts.dfy | GraphFacts | what a built graph means; the parent-link findings |
| air_cargo.dfy | AirCargo | `Planning/my_air_cargo_problems.py` |
| sudoku_board.dfy | SudokuBoard | boxes, units, peers, `grid_values` |
| sudoku.dfy | Sudoku | `eliminate`, `only_choice`, `assign_value`, `naked_twins` of `solution.py` |
| sudoku_search.dfy | SudokuSearch | `reduce_puzzle`, `search`, `solve_standard_sudoku`, `solve` |
| sudoku_scratch.dfy | SudokuScratch | `Sudoku/scratch.py` |

Modelling decisions:
- Python dictionaries become Dafny maps. Python lists become sequences. A
  dictionary whose iteration order matters (`pos_At`) is a sequence of pairs.
- Mutable objects become values. An operation that mutates returns the new
  value instead. `assign_value` returns the board and the `assignments` log
  as a pair.
- Each exception the code can raise (`KeyError`, `ValueError`, `TypeError`,
  `IndexError`, `AssertionError`, `ZeroDivisionError`) is a `Failure` of a
  `Result`. Contracts say exactly when each one happens.
- UCS is the same loop as A* with the heuristic fixed at 0. Its frontier entry
  `(cost, node)` orders like the A* entry `(cost, cost, node)`. The `Ucs`
  module proves that each step (the seed, one relaxation, one pop) agrees
  with the A* step, and `Ucs.FindPath` runs the A* loop with the zero
  heuristic. The step lemmas are not chained into one lemma over a whole run.
- Planning-graph parents follow a `Linking` parameter:
  - `AsWritten` is what the code does;
  - `Intended` links an action to its preconditions, as the docstring of
    `competing_needs_mutex` (`Planning/my_planning_graph.py:594-596`) reads them,
    and a literal to every action producing it, as the comment at
    `Planning/my_planning_graph.py:436-440` describes.

  The S-levels do not depend on the linking (`GraphFacts.SLevelsIndependent`).
  The air-cargo heuristic builds its graph with `Intended`. Both differences
  are listed under Findings.
- Where a Python loop can run forever, the model returns `None` instead:
  - `h_levelsum` when a goal never appears;
  - `h_levelsum` when goals repeat.

## Model

| member | source | states |
|---|---|---|
| Text.IntStringRoundTrip | Search/search.py:89-90 | reading back any rendered integer with `int` gives the same integer, so distances survive `to_string` and re-parsing |
| Text.ParseInt | Search/search.py:90 | `int(w)` accepts exactly an optional sign followed by a digit run whose underscores sit between digits |
| Text.SplitOn | Search/search.py:70 | `split('\n')` gives one piece more than there are separators; no piece holds the separator; joining the pieces restores the text |
| Text.Words | Search/search.py:75 | `split()` gives non-empty words without whitespace, and gives no words exactly when the line is all whitespace |
| Text.SplitUnlines | Search/search.py:45-58 | splitting newline-terminated lines on `'\n'` gives those lines back plus one final empty piece |
| GridWorld.New | Search/GridWorld.py:15-18 | a new grid has the given dimensions, and `get_value` reads 0 at every in-bounds position |
| GridWorld.PyDivMod | Search/GridWorld.py:59-60 | Python floor division: `a == b*q + r`, with the remainder taking the divisor's sign |
| GridWorld.Coords | Search/GridWorld.py:58-61 | `get_coords` raises exactly when `cols == 0`; otherwise `get_node_id` of its result is the input id |
| GridWorld.CoordsOfNodeId | Search/GridWorld.py:55-61 | `get_coords(get_node_id(x, y)) == (x, y)` for every `0 <= x < cols` and every `y` |
| GridWorld.NodeIdOfCoords | Search/GridWorld.py:55-61 | for `cols > 0` every id converts to an `x` in `[0, cols)`, and converts back to the same id |
| GridWorld.Value | Search/GridWorld.py:44-53 | `get_value` is `None` exactly outside `[0, cols) x [0, rows)`; otherwise it is the flat cell `x + cols*y` |
| GridWorld.NewGridIsFree | Search/GridWorld.py:15-18 | every in-bounds cell of a new grid reads 0 |
| GridWorld.Adj | Search/GridWorld.py:63-95 | `adj` raises exactly when `cols == 0`, and returns at most four neighbours |
| GridWorld.AdjOrder | Search/GridWorld.py:63-92 | for every node, `adj` lists, in the order right, left, up, down (ids `id+1`, `id-1`, `id-cols`, `id+cols`), exactly those of the four neighbours inside the grid, each with the cell stored at its id |
| GridWorld.AdjSound | Search/GridWorld.py:77-92 | every returned pair is an in-bounds 4-neighbour of the node, with its node id and its cell value as cost |
| GridWorld.AdjComplete | Search/GridWorld.py:77-92 | every in-bounds 4-neighbour of the node is returned |
| GridWorld.PySet | Search/GridWorld.py:36 | list assignment succeeds exactly for `-len <= i < len`; element `j` becomes the new value exactly when `i` is `j` or its negative alias `j - len`, and every other element is kept |
| GridWorld.VLineFromCells | Search/GridWorld.py:39-41 | the loop from row `y` to `ymax` sets exactly those cells of column `x` and leaves every other cell as it was |
| GridWorld.AddVLineSetsColumn | Search/GridWorld.py:38-42 | for an in-range column and rows, `add_vline` sets exactly `(x, y)` for `ymin <= y <= ymax` to `val`; every other cell reads as before |
| GridWorld.AddPath | Search/GridWorld.py:34-36 | `add_path` succeeds exactly when every step is a valid list index, and keeps the grid's shape |
| GridWorld.AddPathMarks | Search/GridWorld.py:34-36 | after `add_path`, cell `k` is marked exactly when `k` (or `k - len`) is on the path; other cells are unchanged |
| GridWorld.ToStringLines | Search/GridWorld.py:20-31 | `to_string` is `rows` lines, each followed by a newline; line `y` renders row `y` |
| Deg.Dedup | Search/search.py:73-79 | the node dictionary keeps each name once: its names are distinct and are exactly the names met |
| Deg.Heads | Search/search.py:73-79 | the node pass fails exactly when some non-empty line has no first word |
| Deg.HeadsAreHeads | Search/search.py:73-79 | the nodes are exactly the first words of the non-empty lines |
| Deg.ParsePairs | Search/search.py:88-94 | the remaining words parse exactly when they come in pairs of a known node name and an integer; the pairs keep their order |
| Deg.EdgesFromSucceeds | Search/search.py:82-96 | the edge pass succeeds exactly when every non-empty line is well formed |
| Deg.LoadFails | Search/search.py:62-103 | `load` raises exactly when the text is not well formed |
| Deg.LoadNodes | Search/search.py:73-79 | after `load` the node names are distinct, are exactly the line heads, and each has an edge list |
| Deg.LoadEdges | Search/search.py:82-96 | a node's edges are the pairs of all lines it heads, in line order, and every target is a node |
| Deg.LoadClosed | Search/search.py:62-103 | a loaded graph is closed: every edge target is a node |
| Deg.AdjOfLoad | Search/search.py:30-41 | on a loaded graph `adj` raises `KeyError` exactly for a name that heads no line, and otherwise returns the pairs of every line the node heads, in file order |
| Deg.ToStringLines | Search/search.py:45-58 | `to_string` is one line per node: `Node: name`, then its edges in `adj` order |
| Trace.Reverse | Search/BFS.py:49 | the reversed list has element `i` equal to element `len-1-i` of the input |
| Trace.ReverseBackPath | Search/BFS.py:43-49 | reversing a back-pointer chain from the end gives a forward path from its last element to its first |
| Trace.Retrace | Search/BFS.py:43-49 | retracing raises only `KeyError`; a result runs from start to end along edges; it is `[start]` when the two are equal; it always succeeds when the back-pointers lead to start, and raises when an end other than start has no back-pointer |
| Bfs.Seed | Search/BFS.py:18 | `set(start_node)` holds exactly the one-character strings of the start name's characters |
| Bfs.PushKeepsCrumbs | Search/BFS.py:32-38 | enqueuing an unobserved neighbour with its back-pointer keeps every back-pointer an edge, ranked before its child |
| Bfs.Expand | Search/BFS.py:29-49 | scanning a node's neighbours either observes the goal or observes every neighbour, keeping the back-pointers valid |
| Bfs.PopKeeps | Search/BFS.py:25-26 | popping the frontier's head keeps the search invariant, and in a closed graph the popped node has an adjacency list |
| Bfs.SearchStep | Search/BFS.py:25-38 | one pop-and-expand keeps the invariant and either observes a new node or shortens the frontier |
| Bfs.FoundGoal | Search/BFS.py:40-49 | when the goal is observed, the back-pointers lead to start, unless the goal was one of the seed names, which never gets a back-pointer |
| Bfs.FrontierEmpty | Search/BFS.py:51-55 | when the frontier empties, no path from start whose inner nodes avoid the seed reaches the goal |
| Bfs.Search | Search/BFS.py:12-55 | for any initial observed set: a path from start to end along edges; `[]` only when no path avoiding the seed reaches end; `KeyError` only for an unknown start, an open graph, or a seeded end; and never a path to a seeded end |
| Bfs.FindPath | Search/BFS.py:12-55 | as written, seeded with `set(start_node)`: the result is a path from start to end, `[]` only when no path avoiding the start's characters reaches end, or `KeyError` only for an unknown start, an open graph, or an end named by one of the start's characters; such an end is never found |
| Bfs.SeedMiss | Search/BFS.py:18 | on the graph `ab -> b`, `find_path('ab', 'b')` as written raises `KeyError`, while seeding with `{start_node}` returns `[ab, b]` |
| Bfs.LastDeparture | Search/BFS.py:12-55 | every path of one or more edges out of start has a suffix from start to the same node whose inner nodes differ from start |
| Bfs.FindPathFixed | Search/BFS.py:12-55 | seeded with `{start_node}`: `KeyError` only for an unknown start or an open graph, and `[]` only when no path of one or more edges leads from start to end |
| AstarState.EntryLeTotal | Search/Astar.py:40 | the frontier's tuple order `(tot, g, name)` is total |
| AstarState.EntryLeTrans | Search/Astar.py:40 | the tuple order is transitive |
| AstarState.EntryLeAntisym | Search/Astar.py:40 | the tuple order is antisymmetric, so the least entry is unique |
| AstarState.MinExists | Search/Astar.py:40 | a non-empty frontier has exactly one least entry |
| AstarState.RelaxFacts | Search/Astar.py:59-85 | relaxing an edge keeps `explored` and never raises a best cost. It changes the state only for an unexplored neighbour that is new or strictly better, and then pushes `(g+d+h, g+d, w)` and records best cost, path cost and back-pointer |
| AstarState.PopPops | Search/Astar.py:40-41 | with a consistent heuristic, popping the least entry keeps the pops in non-decreasing `tot` order |
| AstarState.PopStep | Search/Astar.py:40-59 | popping a non-goal node keeps the search invariant for its expansion |
| AstarState.FoundGoal | Search/Astar.py:46-55 | popping the goal finds back-pointers that lead from it to start |
| AstarState.MissingNode | Search/Astar.py:59 | `adj` of a popped node raises only when start is unknown or the graph is not closed |
| AstarState.Exhausted | Search/Astar.py:96 | an empty frontier means no path from start reaches the goal |
| AstarState.InitialInv | Search/Astar.py:19-35 | the seeded frontier `(h(start), 0, start)` with `best_cost[start] = h(start)` satisfies the search invariant |
| Astar.Least | Search/Astar.py:40 | the priority queue hands out a least entry |
| Astar.Expand | Search/Astar.py:59-85 | relaxing every edge of the popped node keeps the search invariant |
| Astar.Goal | Search/Astar.py:46-55 | the goal branch retraces the back-pointers and reverses them. It can fail only with `KeyError`, and does when `end` is not `start` and has no back-pointer. It succeeds whenever every back-pointer leads on to `start`, with `[start]` when the ends are equal and otherwise a path of edges from start to end, returned with the explored set |
| Astar.Halt | Search/Astar.py:46-59 | popping the goal, or a node without adjacency, ends the search with a correct answer |
| Astar.Advance | Search/Astar.py:37-85 | one pop-and-expand keeps the invariant and explores a new node or shrinks the frontier |
| Astar.Run | Search/Astar.py:37-96 | the loop's answer is correct; every pop has `tot = g + h`, and pops come in non-decreasing `tot` when `h` is consistent |
| Astar.FindPath | Search/Astar.py:13-96 | as written, `find_path` returns a path from start to end with an explored set holding both. It returns `[]` only when no path reaches end. It raises `KeyError` only for an unknown start or an open graph. Every pop has `tot = g + h`, and pops come in non-decreasing `tot` when `h` is consistent |
| Ucs.OrderAgrees | Search/UCS.py:33-34 | UCS's `(cost, node)` order is the A* order on `(cost, cost, node)` |
| Ucs.Relax | Search/UCS.py:50-62 | a neighbour is pushed, with cost and back-pointer recorded, exactly when it is unexplored and new or strictly cheaper |
| Ucs.InitialAgrees | Search/UCS.py:18-28 | the UCS start state mirrors the A* start state with the zero heuristic |
| Ucs.RelaxAgrees | Search/UCS.py:50-62 | one UCS relaxation mirrors one A* relaxation with the zero heuristic |
| Ucs.PopAgrees | Search/UCS.py:33-34 | a least UCS entry is a least A* entry, and popping it keeps the two states in step |
| Ucs.ZeroConsistent | Search/UCS.py:50-62 | the zero heuristic is consistent exactly when no edge cost is negative |
| Ucs.FindPath | Search/UCS.py:12-75 | UCS's answers are correct in the same sense as A*'s, and with non-negative costs the pops come in non-decreasing cost order |
| PlanningGraph.LitEq | Planning/my_planning_graph.py:137-145 | two literal nodes are equal exactly when symbol and polarity agree |
| PlanningGraph.Lits | Planning/my_planning_graph.py:189-223 | literal nodes of one polarity are exactly the listed symbols with that polarity |
| PlanningGraph.Prenodes | Planning/my_planning_graph.py:189-206 | the precondition nodes are the positive preconditions as positive literals and the negative ones as negative literals |
| PlanningGraph.Effnodes | Planning/my_planning_graph.py:208-223 | the effect nodes are the added fluents as positive literals and the removed ones as negative literals |
| PlanningGraph.PersistentIff | Planning/my_planning_graph.py:177 | an action is persistent exactly when its positive and negative preconditions equal its added and removed effects |
| PlanningGraph.ActEq | Planning/my_planning_graph.py:225-234 | two action nodes are equal exactly when persistence, name and arguments agree |
| PlanningGraph.Noops | Planning/my_planning_graph.py:302-334 | the no-ops are two per fluent, the positive one first |
| PlanningGraph.NoopCarries | Planning/my_planning_graph.py:324-329 | each no-op needs and gives exactly its own literal, so both no-ops are persistent |
| PlanningGraph.NoopsCover | Planning/my_planning_graph.py:302-334 | every literal of a listed fluent has a no-op that needs and gives exactly it |
| PlanningGraph.Mutexify | Planning/my_planning_graph.py:241-252 | `mutexify` raises `TypeError` exactly for nodes of different kinds. Otherwise it adds each node to the other's mutex set and nothing else |
| PlanningGraph.Meets | Planning/my_planning_graph.py:531-545 | two lists meet exactly when they share an element |
| PlanningGraph.InconsistentEffects | Planning/my_planning_graph.py:516-545 | with the test on, two actions are mutex exactly when an effect of one negates an effect of the other; the test is false when off |
| PlanningGraph.InconsistentEffectsSymmetric | Planning/my_planning_graph.py:516-545 | the inconsistent-effects test does not depend on argument order |
| PlanningGraph.Interference | Planning/my_planning_graph.py:547-589 | with the test on, two actions interfere exactly when an effect of either negates a precondition of the other; the test is false when off |
| PlanningGraph.InterferesOneWay | Planning/my_planning_graph.py:564-584 | the add/negative-precondition and remove/positive-precondition list checks are one effect negating one precondition |
| PlanningGraph.NegationMutex | Planning/my_planning_graph.py:646-661 | two literals are negation-mutex exactly when one is the other negated, in either order |
| PlanningGraph.FirstProducer | Planning/my_planning_graph.py:444-455 | finds the first action of the level that produces the literal, or reports that none does |
| PlanningGraph.ActionLevelIff | Planning/my_planning_graph.py:385-418 | an action is on the A-level exactly when it is in the pool and its preconditions are all on the S-level |
| PlanningGraph.LiteralLevelIff | Planning/my_planning_graph.py:424-455 | the next S-level is exactly the union of the effects of the A-level's actions |
| PlanningGraph.InitialLevel | Planning/my_planning_graph.py:360-365 | S0 holds the state's true fluents as positive literals and its false ones as negative literals |
| PlanningGraph.MutexPairs | Planning/my_planning_graph.py:479-493 | the pair loop relates, both ways, exactly the nodes at list positions `i < j` that pass the test |
| PlanningGraph.RowsAll | Planning/my_planning_graph.py:479-493 | after `i` outer rounds the relation holds exactly the passing pairs whose first position is below `i` |
| PlanningGraph.PairsSymmetric | Planning/my_planning_graph.py:249-252 | a relation built by the pair loop is symmetric |
| PlanningGraph.PairsOfSet | Planning/my_planning_graph.py:635-640 | for distinct list elements and a symmetric test, the pair loop relates exactly the distinct elements that pass |
| PlanningGraph.Enumerate | Planning/my_planning_graph.py:635 | listing a set gives each element once |
| PlanningGraph.ActMutexSymmetric | Planning/my_planning_graph.py:461-493 | the combined action-mutex test does not depend on argument order |
| PlanningGraph.LitMutexSymmetric | Planning/my_planning_graph.py:619-640 | the combined literal-mutex test does not depend on argument order |
| PlanningGraph.UpdateActMutex | Planning/my_planning_graph.py:461-493 | `update_a_mutex` relates, both ways, exactly the actions at positions `i < j` that pass some enabled test |
| PlanningGraph.UpdateLitMutex | Planning/my_planning_graph.py:619-640 | `update_s_mutex` relates exactly the distinct literal pairs of the level that pass a literal test, symmetrically |
| PlanningGraph.StepMonotone | Planning/my_planning_graph.py:370-379 | a larger S-level never yields a smaller next S-level |
| PlanningGraph.StepBounded | Planning/my_planning_graph.py:370-379 | every S-level lies inside the union of all the pool's effects, so growth must stop |
| PlanningGraph.AddLevelOk | Planning/my_planning_graph.py:385-455 | adding a level keeps the earlier levels and makes the new A-level, its mutexes and the next S-level follow from the last S-level |
| PlanningGraph.UnrollLevels | Planning/my_planning_graph.py:370-379 | after `n` turns every level follows from the one before it, and S0 is the start level |
| PlanningGraph.Grow | Planning/my_planning_graph.py:374-376 | one turn of the loop adds exactly the next A-level and S-level |
| PlanningGraph.Turn | Planning/my_planning_graph.py:370-379 | one turn reports "levelled off" exactly when the new S-level equals the previous one; otherwise the level grew strictly |
| PlanningGraph.CreateGraph | Planning/my_planning_graph.py:337-382 | `create_graph` raises exactly when levels already exist. Otherwise it stops at the first pair of equal consecutive S-levels, and every level follows from the one before |
| PlanningGraph.NoopsKeep | Planning/my_planning_graph.py:302-334 | with the no-ops in the pool, every S-level is contained in the next one |
| PlanningGraph.Build | Planning/my_planning_graph.py:261-294 | the constructor builds the graph of the problem's actions plus no-ops from the state's S0, and its S-levels never shrink |
| GraphFacts.SLevelsIndependent | Planning/my_planning_graph.py:337-382 | the S- and A-levels do not depend on the mutex switches or the parent linking |
| GraphFacts.LevelMutexes | Planning/my_planning_graph.py:461-493 | in a built graph each level's mutexes are exactly the pairs passing that level's tests, and S0 has none |
| GraphFacts.CompetingNeedsWitness | Planning/my_planning_graph.py:414-416 | a concrete level where two actions are mutex with the code's parent links but not with the intended ones |
| GraphFacts.CompetingNeedsIntended | Planning/my_planning_graph.py:592-617 | with intended links, competing needs means some precondition pair is mutex; this implies the as-written test, never the reverse |
| GraphFacts.InconsistentSupportWitness | Planning/my_planning_graph.py:451-453 | a concrete A-level where two literals have inconsistent support with first-producer links but not with all producers |
| GraphFacts.InconsistentSupportIntended | Planning/my_planning_graph.py:664-695 | with intended links, two literals made by one non-self-mutex action never have inconsistent support; the intended test implies the as-written one |
| GraphFacts.FirstIsProducer | Planning/my_planning_graph.py:451-453 | the code's single parent is one of the literal's producers whenever it has any |
| LevelSum.Cost | Planning/my_planning_graph.py:729-739 | a goal's cost is the first level from `k` holding it positively, or none when no level holds it |
| LevelSum.HLevelSum | Planning/my_planning_graph.py:697-743 | the level-by-level loop computes the level sum, and gives none exactly when the source loop would not end |
| LevelSum.Collected | Planning/my_planning_graph.py:729-739 | the loop's found set can reach the goal count exactly when the goals are distinct and all reached |
| LevelSum.PartSumBounds | Planning/my_planning_graph.py:729-739 | each goal's cost is at most the sum |
| LevelSum.PartSumZero | Planning/my_planning_graph.py:729-739 | the sum is 0 exactly when every counted goal costs 0 |
| LevelSum.LevelSumMeaning | Planning/my_planning_graph.py:697-743 | the level sum bounds each goal's cost, and is 0 exactly when every goal is in S0 |
| AirCargo.FluentsDistinct | Planning/my_air_cargo_problems.py:68-73 | `At(x, a)` and `In(c, p)` are equal only for equal arguments, and never equal each other |
| AirCargo.OverCargos | Planning/my_air_cargo_problems.py:65-77 | grounding a schema over cargos, planes and airports gives `C*P*A` actions, exactly the groundings |
| AirCargo.FlyFroms | Planning/my_air_cargo_problems.py:111-125 | the Fly actions are exactly one per plane and ordered pair of different airports |
| AirCargo.FlyCount | Planning/my_air_cargo_problems.py:111-125 | there are `A*((A-1)*P)` Fly actions for distinct airports |
| AirCargo.GetActionsMembers | Planning/my_air_cargo_problems.py:38-127 | `get_actions` lists exactly the Loads, Unloads and Flys over the domain |
| AirCargo.GetActionsCount | Planning/my_air_cargo_problems.py:38-127 | `get_actions` lists `2*C*P*A + P*A*(A-1)` actions |
| AirCargo.GroundConsistent | Planning/my_air_cargo_problems.py:65-125 | no ground action both adds and removes the same fluent |
| AirCargo.NewProblem | Planning/my_air_cargo_problems.py:16-36 | the initial state partitions the state map, holding the given positives and negatives when those are disjoint; the action list is `get_actions` |
| AirCargo.AllTrue | Planning/my_air_cargo_problems.py:144-146 | the positive-precondition check passes exactly when every clause is a positive fact |
| AirCargo.NoneTrue | Planning/my_air_cargo_problems.py:147-149 | the negative-precondition check passes exactly when no clause is a positive fact |
| AirCargo.Actions | Planning/my_air_cargo_problems.py:129-153 | `actions` keeps, in order, exactly the listed actions whose positive preconditions hold and whose negative ones do not |
| AirCargo.ActionsAppend | Planning/my_air_cargo_problems.py:142-151 | filtering a concatenation is concatenating the filtered parts |
| AirCargo.ResultEffects | Planning/my_air_cargo_problems.py:155-181 | `result` makes the added fluents true and the removed ones false, and leaves every other fluent as it was |
| AirCargo.ResultPartition | Planning/my_air_cargo_problems.py:155-181 | `result` keeps the state a partition of the fluents into true and false |
| AirCargo.GoalTest | Planning/my_air_cargo_problems.py:183-194 | `goal_test` holds exactly when every goal clause is a positive fact |
| AirCargo.Lookup | Planning/my_air_cargo_problems.py:253 | `pos_At[x]` raises `KeyError` exactly for a missing key; otherwise it gives the key's location |
| AirCargo.PosList | Planning/my_air_cargo_problems.py:242-243 | `pos` has one fluent per key, all `At` fluents; with each key once, `At(x, a)` is listed exactly when `pos_At[x]` is `a` |
| AirCargo.NegAt | Planning/my_air_cargo_problems.py:250-260 | the negative `At` list is exactly `At(x, a)` for each object and each other airport; it raises only for a missing object with airports present |
| AirCargo.NegIn | Planning/my_air_cargo_problems.py:263-266 | the negative `In` list is exactly `In(c, p)` for every cargo and plane |
| AirCargo.ListBuilder | Planning/my_air_cargo_problems.py:229-270 | the builder raises `KeyError` exactly when some cargo or plane has no location and there is an airport |
| AirCargo.ListBuilderDisjoint | Planning/my_air_cargo_problems.py:229-270 | with distinct keys, `pos` and `neg` share no fluent |
| AirCargo.ListBuilderComplete | Planning/my_air_cargo_problems.py:229-270 | with distinct keys locating cargos and planes at airports, `pos` and `neg` partition every `At` and `In` fluent of the domain |
| AirCargo.StubHeuristics | Planning/my_air_cargo_problems.py:196-222 | `h_1` is 1 and `h_ignore_preconditions` is 0 in every state |
| AirCargo.PoolHeadsIdentify | Planning/my_planning_graph.py:225-238 | in the grounded actions plus the no-ops, two actions have the same name and arguments exactly when they are the same action, so `PgNode_a` equality on name and arguments is action equality there |
| AirCargo.HPgLevelSum | Planning/my_air_cargo_problems.py:201-211 | the heuristic builds the state's planning graph and returns its level sum |
| SudokuBoard.Cross | Sudoku/solution.py:6-7 | `cross(a, b)` has `len(a)*len(b)` names |
| SudokuBoard.CrossMembers | Sudoku/solution.py:6-7 | `cross(a, b)` holds exactly the two-character names with a row from `a` and a column from `b` |
| SudokuBoard.CrossAt | Sudoku/scratch.py:11-12 | `cross` is row-major: position `i*len(b)+j` is `a[i] + b[j]` |
| SudokuBoard.CrossDistinct | Sudoku/solution.py:6-7 | `cross` of distinct rows and columns has no repeats |
| SudokuBoard.BoxesFacts | Sudoku/solution.py:13 | there are 81 distinct boxes, exactly the row-column names |
| SudokuBoard.BoxCoords | Sudoku/solution.py:10-13 | a name is a box exactly when it has two characters whose row and column numbers both lie in 0..8 |
| SudokuBoard.RowUnits | Sudoku/solution.py:16 | row unit `k` holds exactly the boxes of row `k` |
| SudokuBoard.ColumnUnits | Sudoku/solution.py:17 | column unit `k` holds exactly the boxes of column `k` |
| SudokuBoard.SquareUnits | Sudoku/solution.py:18 | square unit `k` holds exactly the boxes whose row is in band `k / 3` and whose column is in stack `k % 3` |
| SudokuBoard.StandardUnits | Sudoku/solution.py:23 | there are 27 standard units |
| SudokuBoard.Diagonals | Sudoku/solution.py:428-429 | the back slash holds exactly the boxes whose row equals their column; the forward slash exactly those whose row and column add up to 8 |
| SudokuBoard.UnitListsOk | Sudoku/solution.py:16-25 | every unit, standard or diagonal, names only boxes |
| SudokuBoard.PeersMeaning | Sudoku/solution.py:24-25 | `b` is a peer of `a` exactly when the two differ and share a unit; no box is its own peer; being peers is symmetric |
| SudokuBoard.Cell | Sudoku/solution.py:58-62 | a character yields one candidate string exactly when it is `'.'` or a digit; that string allows every digit for `'.'` and only the digit itself otherwise; any other character yields nothing |
| SudokuBoard.Kept | Sudoku/solution.py:56-62 | the kept values are never more than the characters, and each is all digits or one digit |
| SudokuBoard.KeptWellFormed | Sudoku/scratch.py:45-51 | on a grid of dots and digits, one value is kept per character, and it is that character's entry |
| SudokuBoard.ZipMapAt | Sudoku/solution.py:64 | zipping boxes with values maps the `i`th box to the `i`th value |
| SudokuBoard.GridValues | Sudoku/solution.py:46-64 | `grid_values` raises `AssertionError` exactly when it does not keep 81 values; otherwise it maps box `i` to kept value `i` |
| SudokuBoard.GridValuesWellFormed | Sudoku/scratch.py:35-53 | an 81-character grid of dots and digits reads as a board whose box `i` holds character `i`'s entry |
| SudokuBoard.Strip | Sudoku/solution.py:109 | removing digits keeps, in order, exactly the characters not removed |
| SudokuBoard.StripStrip | Sudoku/solution.py:387-390 | removing one set of digits after another is removing both at once |
| SudokuBoard.SolvedKept | Sudoku/solution.py:208-230 | when a board only shrinks and ends with no empty box, every solved box stays solved with the same value |
| Sudoku.Eliminate | Sudoku/solution.py:87-111 | the loop over boxes computes the eliminated board |
| Sudoku.StrikePeers | Sudoku/solution.py:105-109 | one box's value is removed from each of its peers and from nothing else |
| Sudoku.EliminatedMeaning | Sudoku/solution.py:99-111 | a digit stays in a box exactly when it was there and no peer held that digit alone in the input |
| Sudoku.EliminatedShrinks | Sudoku/solution.py:87-111 | `eliminate` only removes candidates |
| Sudoku.EliminateAllows | Sudoku/solution.py:87-111 | `eliminate` never removes a digit of a solution the board allows |
| Sudoku.Places | Sudoku/solution.py:124 | the places of a digit are exactly the unit's boxes that hold it |
| Sudoku.ChoiceStepMeaning | Sudoku/solution.py:123-126 | one digit's step changes only a box of the unit holding it, setting it to that digit. A box that alone holds the digit gets it. Every change sets a box to one of its own candidates |
| Sudoku.OnlyChoiceNarrows | Sudoku/solution.py:113-127 | `only_choice` changes a box only by fixing it to one of its candidates |
| Sudoku.OnlyChoiceAllows | Sudoku/solution.py:113-127 | `only_choice` never removes a digit of a solution the board allows |
| Sudoku.AssignValue | Sudoku/solution.py:326-339 | `assign_value` raises `KeyError` for an unknown box. Otherwise it sets the box, and logs a snapshot exactly when the value changes to a single digit |
| Sudoku.Assigned | Sudoku/solution.py:333-339 | the log only grows, by at most the new board |
| Sudoku.AssignValueIdempotent | Sudoku/solution.py:333-334 | assigning the same value again changes neither the board nor the log |
| Sudoku.PairBoxes | Sudoku/solution.py:360 | the pair boxes are exactly the boxes with two candidates |
| Sudoku.Twins | Sudoku/solution.py:366-369 | the twins are exactly the ordered pairs of a pair box and a peer with the same two candidates |
| Sudoku.Targets | Sudoku/solution.py:382-384 | the targets are exactly the common peers of both twins with more than two candidates |
| Sudoku.StripDigitsMeaning | Sudoku/solution.py:387-390 | removing the twin digits one by one is removing them all from that box |
| Sudoku.StripTargetsMeaning | Sudoku/solution.py:386-390 | the twin digits are removed from every target and from nothing else |
| Sudoku.NakedTwinsMeaning | Sudoku/solution.py:345-392 | `naked_twins` only removes candidates and never touches a box with two or fewer. Each removed digit belongs to a twin pair both of whose boxes see the box. Afterwards no common peer with more than two candidates holds a twin digit. The log only grows |
| Sudoku.NakedTwinsAllows | Sudoku/solution.py:345-392 | `naked_twins` never removes a digit of a solution the board allows |
| SudokuSearch.Round | Sudoku/solution.py:211-221 | a round keeps the board's boxes |
| SudokuSearch.RoundShrinks | Sudoku/solution.py:211-221 | a round of eliminate, only choice and naked twins only removes candidates |
| SudokuSearch.ReduceShrinks | Sudoku/solution.py:197-239 | a reduced board only lost candidates and has no empty box |
| SudokuSearch.ReduceStalls | Sudoku/solution.py:227-230 | `reduce_puzzle` returns the board of a round that solved no new box |
| SudokuSearch.ReduceAllows | Sudoku/solution.py:197-239 | on a board that allows a solution, `reduce_puzzle` succeeds and still allows it |
| SudokuSearch.Fewest | Sudoku/solution.py:252 | the branching box has more than one candidate, and there is none exactly when no box has more than one |
| SudokuSearch.FewestIsLeast | Sudoku/solution.py:252 | no unsolved box comes before the branching box in `(len, name)` order |
| SudokuSearch.SearchSound | Sudoku/solution.py:243-259 | a board returned by `search` only lost candidates, has every box single-valued, and no two peers equal |
| SudokuSearch.SearchComplete | Sudoku/solution.py:243-259 | `search` finds a board whenever the input allows a solution |
| SudokuSearch.Solve | Sudoku/solution.py:411-448 | `solve` appends the two diagonals to the unit list and keeps the units it had |
| SudokuSearch.FoundAgrees | Sudoku/solution.py:395-406 | a single-valued board reached from a grid is filled and keeps the grid's given digits |
| SudokuSearch.SolveStandardSound | Sudoku/solution.py:395-406 | `solve_standard_sudoku` raises exactly for a grid that does not keep 81 values; a board it returns is filled, has no two peers equal, and keeps the given digits |
| SudokuSearch.SolveStandardComplete | Sudoku/solution.py:395-406 | `solve_standard_sudoku` returns a board whenever a solution agrees with the grid |
| SudokuScratch.SplitRemove | Sudoku/scratch.py:81-82 | joining the first two pieces of the split removes the digit and shortens the value |
| SudokuScratch.SplitRemoveOnce | Sudoku/scratch.py:79-84 | for a digit present once, split-based removal is exact removal, one character shorter |
| SudokuScratch.StripDistinct | Sudoku/scratch.py:81-84 | removing digits keeps the candidates free of repeats |
| SudokuScratch.EliminateFromMeaning | Sudoku/scratch.py:70-86 | from any box on, the loop fails with `ValueError` exactly when it reads from the copy and a later single box repeats an earlier single peer; otherwise it ends at the eliminated board |
| SudokuScratch.ClashesAt | Sudoku/scratch.py:70-84 | two single-valued peers with the same digit exist exactly when some box, in box order, repeats an earlier peer |
| SudokuScratch.ScratchEliminateMeaning | Sudoku/scratch.py:56-86 | as written, `eliminate` raises `ValueError` exactly when two single-valued peers hold the same digit, and otherwise gives the eliminated board |
| SudokuScratch.ScratchEliminateCrashes | Sudoku/scratch.py:76-84 | a grid starting `11` crashes the as-written `eliminate` and not the corrected one |
| SudokuScratch.FixedEliminateMeaning | Sudoku/scratch.py:56-86 | reading the value to remove from the input, `eliminate` always gives the eliminated board |
| SudokuScratch.TallyOnce | Sudoku/scratch.py:104-114 | a digit counted once in a unit sits in only one box |
| SudokuScratch.TallyPlaces | Sudoku/scratch.py:104-109 | for repeat-free boxes, the histogram count is the number of the unit's boxes holding the digit |
| SudokuScratch.Uniques | Sudoku/scratch.py:114 | the unique values are exactly the digits counted once |
| SudokuScratch.PlaceMeaning | Sudoku/scratch.py:120-122 | placing a digit fixes exactly the unit's boxes that hold it |
| SudokuScratch.PlaceAllMeaning | Sudoku/scratch.py:119-122 | placing increasing unique digits fixes each holding box to its smallest unique digit, and leaves other boxes alone |
| SudokuScratch.UnitChoice | Sudoku/scratch.py:101-122 | one unit's pass raises only `KeyError`, and keeps the board's boxes |
| SudokuScratch.UnitChoiceMeaning | Sudoku/scratch.py:104-122 | on digit candidates, one unit's pass succeeds, and fixes the boxes holding digits counted once and nothing else |
| SudokuScratch.UnitChoiceNarrows | Sudoku/scratch.py:104-122 | one unit's pass changes a box only by fixing it to one of its candidates |
| SudokuScratch.UnitChoiceAllows | Sudoku/scratch.py:104-122 | one unit's pass never removes a digit of a solution in which the unit holds every digit |
| SudokuScratch.ScratchOnlyChoiceSound | Sudoku/scratch.py:88-126 | `only_choice` raises only `KeyError`, never on digit boards, and only fixes boxes to their own candidates |
| SudokuScratch.ScratchOnlyChoiceAllows | Sudoku/scratch.py:88-126 | `only_choice` never removes a digit of a solution the board allows |
| SudokuScratch.ScratchRoundSound | Sudoku/scratch.py:143-148 | a round raises only `ValueError` or `KeyError`, and otherwise only removes candidates |
| SudokuScratch.AllowedNoClash | Sudoku/scratch.py:76-84 | a board that allows a solution has no two single-valued peers with the same digit, so the as-written `eliminate` cannot crash on it |
| SudokuScratch.ScratchRoundAllows | Sudoku/scratch.py:137-159 | on a repeat-free digit board allowing a solution, a round succeeds and keeps all three properties |
| SudokuScratch.ScratchReduceSound | Sudoku/scratch.py:129-169 | `reduce_puzzle` raises only `ValueError` or `KeyError`; a returned board only lost candidates and has no empty box |
| SudokuScratch.ScratchReduceComplete | Sudoku/scratch.py:129-169 | on a repeat-free digit board allowing a solution, `reduce_puzzle` returns a board that still allows it |

## Left out

- Console output is not modelled: `print`, `display`, `show`, and the timers (`timer_dict`, `add_to_timer`, `display_timer`).
- Driver code is left out: the `__main__` blocks, `Search/grid1.py`, and the `visualize` import.
- `Isolation/game_agent.py` is not part of this model. It runs on an unseen board API, floating-point scores and wall-clock timeouts.
- `DEG.load` does not open a file: the model parses the file's text.
- Library pieces are replaced:
  - states are `(pos, neg)` sets instead of the `encode_state`/`decode_state` strings;
  - fact lookup is set membership instead of `PropKB`;
  - `Action` and `expr` are plain datatypes.
- The `lru_cache` decorators are dropped: they do not change results.
- `solve` does not mutate the global `unitlist`, `units` and `peers` (`Sudoku/solution.py:430-446`). The unit list is a parameter, and `solve` returns the extended list. That makes the repeated appends of the source visible rather than hidden.
- Iteration over Python sets follows one order fixed by the model:
  - `peers[...]` in the Sudoku code;
  - the S-level sets in `update_s_mutex`.

  No board result depends on that order. The order of the snapshots in the `assignments` log that `Sudoku.NakedTwins` returns does.
- `Sudoku.search` falls off its loop with `None` and returns `False` after a failed reduction. Both are the same `None` outcome in the model.
- SudokuScratch.ScratchEliminateMeaning: assumes boxes hold no repeated digit (`NoRepeats`). Boards read by `grid_values` meet this, and every step keeps it (`SudokuScratch.ScratchRoundAllows`). With repeats, `split` leaves a later copy in place, which the model does not describe.
- SudokuSearch.SearchSound: states that a returned board is filled and has no two equal peers. It does not state that each unit holds every digit, which for the standard units follows from the count.
- Bfs.FindPath: the `[]` result is stated only for paths whose inner nodes avoid the start's characters. That is all the `set(start_node)` seed makes true; `Bfs.FindPathFixed` states it for every path.
- `Astar.FindPath` and `Ucs.FindPath` return a `Found(path, explored)` or `NotFound` outcome. This stands for the source's tuple or `[]`.
- The A* heuristic is a function parameter. The priority queue is a multiset with least-entry extraction, under the tuple order of `(tot, g, name)`.
- AirCargo.HPgLevelSum: builds its planning graph with the `Intended` parent links, not the code's. The level sum is the same either way, because the levels do not depend on the links (`GraphFacts.SLevelsIndependent`); only the mutexes differ, as shown under Findings.
- LevelSum.HLevelSum: returns `None` where the source loop never ends, when a goal is missing from every level or a goal is listed twice.
- Text.ParseInt: accepts the ASCII digits `0`-`9` only. Python's `int` also accepts every other Unicode decimal digit (such as `٣` or `３`); the model gives `None` for them, its `ValueError` case.
- Text.Words: splits on ASCII whitespace only. Python's `str.split()` also splits on the other Unicode spaces (`U+0085`, `U+00A0`, `U+1680`, `U+2000`-`U+200A`, `U+2028`, `U+2029`, `U+202F`, `U+205F`, `U+3000`), which the model keeps inside words.
- GridWorld.Coords: takes `int((id - x) / cols)` as the exact quotient. Python's `/` is a float division, which rounds once `|id - x|` exceeds 2^53, so for such ids the source's row can differ from the model's.
- GridWorld.AddPath: a step that is not a valid index gives a bare `IndexError`. The source has by then already written `'x'` into the cells of the earlier steps, a partial update the model does not return; `GridWorld.AddVLine` is modelled the same way for the rows before a bad index.
- Action identity: the model compares action nodes by their whole `Action` value (name, arguments, preconditions and effects). `PgNode_a.__eq__` and `__hash__` (`Planning/my_planning_graph.py:225-238`) compare only persistence, name and arguments. Two pool actions with the same name and arguments but different preconditions or effects are one node in the source and two in the model. In the pool the air-cargo heuristic uses, the grounded actions plus the no-ops, the two comparisons agree (`AirCargo.PoolHeadsIdentify`).
- Serialization (`serialize_actions`) is modelled as `PlanningGraph.Serialize`. It has no contract of its own: it is used by the mutex contracts above.

## Findings

| source | as written | input that shows it | evidently intended | confidence | as-written member | corrected member |
|---|---|---|---|---|---|---|
| Planning/my_planning_graph.py:414-416 | each action node takes every S-node of its level as a parent, so any one mutex pair on the level makes every two actions competing-needs mutex | S-level `{P, Q, R, ¬R}` with only `R`/`¬R` mutex; actions needing `P` and `Q` | parents are the action's preconditions, as the docstring at lines 594-596 describes | not executed | GraphFacts.CompetingNeedsWitness | GraphFacts.CompetingNeedsIntended |
| Planning/my_planning_graph.py:451-453 | adding a literal node to the level set keeps the first equal instance, so only the first producer's link is kept and a literal made together with another by one action can still have inconsistent support | A-level `[makes P, makes Q, makes P and Q]` with only the first two mutex | a literal's parents are all the actions that produce it | not executed | GraphFacts.InconsistentSupportWitness | GraphFacts.InconsistentSupportIntended |
| Sudoku/scratch.py:76 | the value to remove is read from the copy being edited, which an earlier removal may have emptied; the empty value is in every peer, and `split('')` then raises `ValueError` | a grid whose first two characters are `11` (two peers both fixed to 1) | read the value from the input, as the comment at line 75 says | not executed | SudokuScratch.ScratchEliminateCrashes | SudokuScratch.FixedEliminateMeaning |
| Search/BFS.py:18 | the observed set starts as `set(start_node)`, the one-character strings of the start's characters, so a node named by one of them is never enqueued and, when it is the goal, retracing finds no breadcrumb for it and raises `KeyError` | the graph `ab -> b`, searching from `ab` to `b` | `observed = {start_node}`, the start node itself | not executed | Bfs.SeedMiss | Bfs.FindPathFixed |
