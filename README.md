# Verified model of an AI-fundamentals course repository

This project models, in Dafny, the deterministic cores of a collection of
small teaching programs in classical artificial intelligence, and proves what
each of them promises:

- **Constraint satisfaction** (`csp_model`, `csp_arc`, `csp_plain`,
  `south_america`, `csp_scenarios`). A finite-domain binary CSP is solved by
  recursive backtracking: the first unassigned variable is picked, its
  current domain values are tried in order against the neighbours already
  assigned, the shared assignment is extended in place and undone on failure,
  and each value works on its own copy of the domains. Optional forward
  checking prunes the domains of the unassigned neighbours, and optional
  AC-3 narrows every domain to arc consistency with a worklist of directed
  arcs before the search. The searches are methods over an `Assignment`
  class and a domain store. Each is proved equal to a functional search,
  and that search is proved sound (a result is complete and consistent) and
  exhaustive (no result only when no solution exists). The version without
  propagation is proved to be the same search with both flags off. The
  South-America map colouring and a triangle instance are worked examples.
- **Uninformed tree search** (`uninformed_search`,
  `uninformed_search_example`): list-based fringe primitives, nodes with
  parent links, `expand`, and `tree_search` in depth-first and breadth-first
  order.
- **Greedy best-first and A\* search** (`graph_search`): nodes with
  `f = g + h`, a min-`f` priority queue, and the two searches, which are
  proved to return walks from the start to the goal along the state space.
  A\* is also proved to return the walk's true cost as `g`.
- **State spaces**: the farmer, wolf, goat and cabbage river crossing
  (`farmer`) and the two-square vacuum world with its cost and heuristic
  (`vacuum_astar`).
- **Adversarial search** (`minimax`, `nim_rules`, `nim_search`,
  `nim_alphabeta`, `nim_min_alpha`, `tictactoe`, `breakthrough_rules`,
  `breakthrough_search`):
  - the game rules of Nim pile splitting, tic-tac-toe and Breakthrough;
  - minimax values defined as functions;
  - the fail-soft alpha-beta loops, proved as methods to meet the alpha-beta
    window contract against those values.
- **Vacuum agents** (`reflex_vacuum_agent`, `reflex_agent_with_state`,
  `table_driven_agent`): the simple reflex agent, the model-based reflex
  agent in a four-square world, and the table-driven agent. Each is a class
  whose methods update the environment or the agent's memory in place.
  Alongside each is a functional one-step description, used to prove what the
  agent keeps invariant and what its demo run does.
- **Genetic-algorithm individuals** (`number_ga`, `queen_ga`): decoding a
  bit gene, bit-flip mutation, swap mutation, single-point crossover, random
  permutation boards, and the initial population.

Shared pieces: `wrappers` (an `Option` type), `enums` (the two-square
vacuum world's locations, statuses and actions) and `seq_util` (sequence
helpers).

Randomness is passed in as parameters: the index `random.randint` draws, the
two columns `random.sample` draws, and the swaps `random.shuffle` makes.
Where a property holds for every draw, it is proved for every draw.

Python's `float('-inf')` and `float('inf')` in the alpha-beta code are the
integers `NEG = -2` and `POS = 2`. These lie outside every utility, so every
comparison comes out the same as in the source.

Where the documentation and the code differ, the model follows the code.
In `uninformed_search/search.py`, `Node.path` is documented as listing the
root first, but the code lists the node first and the root last.
`UninformedSearch.Path` states what the code does.

## Model

| member | source | states |
|---|---|---|
| UninformedSearch.Insert | uninformed_search/search.py:44-52 | the result has the node at the front when `insert_as_first` holds and at the back otherwise, the old queue in order beside it, and exactly the queue's members plus the node |
| UninformedSearch.InsertAll | uninformed_search/search.py:55-62 | the loop of inserts returns the nodes reversed in front of the queue (depth-first) or the nodes in order behind it (breadth-first) |
| UninformedSearch.Fringe.RemoveFirst | uninformed_search/search.py:65-67 | the head of a non-empty fringe is returned and the fringe keeps its tail in order |
| UninformedSearch.Path | uninformed_search/search.py:20-27 | the parent-following loop returns the node itself first and then every ancestor up to the root |
| UninformedSearch.PathOfRooted | uninformed_search/search.py:14-35 | for a node built by expansion from the root, the path has `depth + 1` nodes, ends at the root node and each node's parent is the next node along a state-space edge |
| UninformedSearch.Expand | uninformed_search/search.py:29-35 | one child per successor, with this node as parent and depth one more, in reverse successor order because each child is inserted at the front |
| UninformedSearch.ChildrenRooted | uninformed_search/search.py:29-35 | every child of a node built from the root is itself built from the root |
| UninformedSearch.NextRooted | uninformed_search/search.py:84-89 | one pass of the search loop keeps every fringe node built from the root |
| UninformedSearch.RunStep | uninformed_search/search.py:84-89 | a pass that pops neither the goal nor a missing state continues from the expanded fringe with one pass fewer |
| UninformedSearch.TreeSearch | uninformed_search/search.py:76-90 | the search loop's result equals the search on the fringe holding only the initial node, ending with the goal's path, an empty fringe, a missing state or an exhausted step bound |
| UninformedSearch.RunFound | uninformed_search/search.py:76-90 | a path found from a fringe of rooted nodes starts at a goal node, ends at the initial node, has one node per level and follows parent links along edges |
| UninformedSearch.TreeSearchFound | uninformed_search/search.py:76-90 | a path `tree_search` reports starts at the goal state and ends at the initial state, one node per level, along state-space edges |
| UninformedSearchExample.BreadthFirstFindsJ | uninformed_search/search.py:99-119 | breadth-first search of the ten-state tree from A finds J after seven expansions and reports J, G, C, A |
| UninformedSearchExample.DepthFirstFindsJ | uninformed_search/search.py:99-119 | depth-first search of the same tree finds J after nine expansions and reports the same path |
| UninformedSearchExample.SearchBothWays | uninformed_search/search.py:113-119 | running the searcher in both modes returns the path J, G, C, A each time |
| GraphSearch.Path | informed_search/graph_search.py:13-18 | the parent-following loop, reversed, is the chain of ancestors read from the root down to the node |
| GraphSearch.PathSnoc | informed_search/graph_search.py:13-18 | the path of a node with a parent is the parent's path followed by the node |
| GraphSearch.PathShape | informed_search/graph_search.py:13-18 | the path starts at a parentless node, ends at the node itself, and each entry is the parent of the next |
| GraphSearch.PriorityQueue.Push | informed_search/graph_search.py:31-32 | the queue holds its old nodes plus the pushed one |
| GraphSearch.PriorityQueue.Pop | informed_search/graph_search.py:34-35 | a node of least `f` is removed and returned, and every other node stays |
| GraphSearch.LeastExists | informed_search/graph_search.py:20-21 | under the `f` order a non-empty queue always has a least node, so `pop` is defined |
| GraphSearch.LeastOfAdd | informed_search/graph_search.py:20-21 | adding a node keeps the lesser of it and the old least node least |
| GraphSearch.WalksSnoc | informed_search/graph_search.py:13-18 | a walk from the start extended by an edge out of its last state is a walk to the new state |
| GraphSearch.PushUnvisited | informed_search/graph_search.py:53-57 | the neighbour loop pushes exactly one node with `g = 0` and the heuristic's `h` for each neighbour not yet visited, in order |
| GraphSearch.PushIfUnvisited | informed_search/graph_search.py:54-57 | one pass of that loop pushes the neighbour when it is unvisited and nothing otherwise |
| GraphSearch.GreedyChildrenGood | informed_search/graph_search.py:52-57 | every node greedy search pushes has `g = 0`, `f = h`, an unvisited state, the popped node as parent and a parent chain along edges back to the start |
| GraphSearch.GreedyBestFirstSearch | informed_search/graph_search.py:41-57 | a path greedy best-first search returns runs from the start to the goal along edges of the state space, every node with `g = 0`. `None` (the frontier ran empty) means no walk from the start reaches the goal. A `KeyError` names a state that has no entry but is the start or listed as a successor |
| GraphSearch.GreedyPath | informed_search/graph_search.py:13-18 | the path of a node greedy search built walks from the start state along edges with `g = 0` throughout |
| GraphSearch.PushImproving | informed_search/graph_search.py:72-76 | the neighbour loop of A* pushes exactly the neighbours that are new or reached more cheaply than recorded, with `g` the parent's `g` plus the step cost |
| GraphSearch.PushIfImproving | informed_search/graph_search.py:73-76 | one pass of that loop pushes the neighbour when it is new or cheaper and nothing otherwise |
| GraphSearch.AStarChildrenGood | informed_search/graph_search.py:71-76 | every node A* pushes has the popped node as parent, `g` equal to the parent's `g` plus the step cost, and improves on the cost recorded for its state |
| GraphSearch.AStarSearch | informed_search/graph_search.py:60-76 | a path A* returns runs from the start to the goal along edges, and the goal node's `g` is the sum of the step costs along it. `None` means no walk from the start reaches the goal. A `KeyError` names a state that has no entry but is the start or listed as a successor |
| GraphSearch.AStarPath | informed_search/graph_search.py:13-18 | the path of a node A* built walks from the start along edges and its `g` is the sum of the step costs on that path |
| GraphSearch.MakeNode | informed_search/graph_search.py:6-11 | the `Node` constructor: it stores `f = g + h`. GraphSearch.GreedyChildrenGood and GraphSearch.AStarChildrenGood state this for every node the searches push |
| GraphSearch.Less | informed_search/graph_search.py:20-21 | `__lt__` orders nodes by `f` alone. GraphSearch.PriorityQueue.Pop removes a node that is least in this order |
| GraphSearch.PriorityQueue.Empty | informed_search/graph_search.py:37-38 | holds exactly when the queue has no node. Both search loops run while it is false, and GraphSearch.ExhaustedUnreachable covers the exit when it becomes true |
| GraphSearch.ExploredStep | informed_search/graph_search.py:47-57 | popping a non-goal node, marking its state visited and pushing a child for each unvisited successor keeps the search invariant: the start is visited or queued, visited states have successor lists, every successor of a visited state is visited or queued, and the goal is unvisited |
| GraphSearch.WalkStaysVisited | informed_search/graph_search.py:47-57 | once the frontier is empty and that invariant holds, every state on a walk from the start is visited |
| GraphSearch.ExhaustedUnreachable | informed_search/graph_search.py:57 | the implicit `None` after the loop: once the frontier is empty, no walk along the state space leads from the start to the goal |
| GraphSearch.GreedyChildrenCover | informed_search/graph_search.py:53-57 | the greedy neighbour loop pushes a node for every neighbour not yet visited |
| GraphSearch.AStarChildrenCover | informed_search/graph_search.py:72-76 | the A* neighbour loop pushes a node for every neighbour with no recorded cost |
| GraphSearch.GreedyListed | informed_search/graph_search.py:52 | the state of every node greedy search creates is the start or listed as some state's successor, so a `KeyError` names such a state |
| GraphSearch.AStarListed | informed_search/graph_search.py:71 | the same for A* |
| VacuumAStar.AllStatesComplete | informed_search/vacuum_astar.py:5-12 | the three nested loops enumerate all eight (location, status of A, status of B) states |
| VacuumAStar.GenerateVacuumStateSpace | informed_search/vacuum_astar.py:4-29 | the dictionary has exactly the eight states as keys and maps each to its successor list |
| VacuumAStar.Successors | informed_search/vacuum_astar.py:12-27 | the successor list of one state: sucking the current square first when it is dirty, then the move to the other square |
| VacuumAStar.SuccessorShape | informed_search/vacuum_astar.py:15-25 | a state has two successors when its current square is dirty and one otherwise; the suck cleans the current square only and stays, the move goes to the other square and keeps both statuses |
| VacuumAStar.NeverDirties | informed_search/vacuum_astar.py:15-25 | no successor turns a clean square dirty |
| VacuumAStar.HeuristicConsistent | informed_search/vacuum_astar.py:32-39 | the dirty-square count lies in 0..2, is 0 exactly when both squares are clean, and drops by at most the unit step cost along each edge |
| VacuumAStar.UnitStepCosts | informed_search/vacuum_astar.py:32-33 | with unit costs a path's cost is its number of steps |
| VacuumAStar.CleanBothSquares | informed_search/vacuum_astar.py:50-57 | a path A* finds from both squares dirty at A leads to both clean at A along edges of the generated space, and its total cost is its number of steps. The run never returns `None` and never raises a `KeyError`, so it finds a path unless the expansion bound runs out |
| VacuumAStar.CleaningRoute | informed_search/vacuum_astar.py:50-53 | suck, move right, suck, move left is a walk of the generated space from both squares dirty at A to both clean at A, so the goal is reachable |
| VacuumAStar.CostFn | informed_search/vacuum_astar.py:32-33 | every move costs 1. VacuumAStar.UnitStepCosts and VacuumAStar.HeuristicConsistent state what follows from that |
| VacuumAStar.HeuristicFn | informed_search/vacuum_astar.py:36-39 | the number of dirty squares. VacuumAStar.HeuristicConsistent states its range, its zeros and that it is consistent |
| VacuumAStar.SpaceIsSpaceOf | informed_search/vacuum_astar.py:4-29 | any dictionary with those keys and successor lists is the one state space |
| Farmer.ValidMeansNothingEaten | uninformed_search/farmer_search.py:7-12 | a state is valid exactly when on neither bank the goat is left, without the farmer, beside the wolf or the cabbage |
| Farmer.SuccessorIsCrossing | uninformed_search/farmer_search.py:15-43 | every successor is valid, has the farmer on the other bank, and moves at most the passengers that stood with the farmer, to the farmer's new bank |
| Farmer.SuccessorOrder | uninformed_search/farmer_search.py:15-43 | at most four successors, listed in the order alone, with wolf, with goat, with cabbage, each option kept only when valid |
| Farmer.SuccessorSymmetric | uninformed_search/farmer_search.py:15-43 | every crossing from a valid state can be undone by a crossing back |
| Farmer.StateSpaceKeys | uninformed_search/farmer_search.py:48-53 | the dictionary's keys are exactly the valid states, ten of the sixteen |
| Farmer.StateSpaceClosed | uninformed_search/farmer_search.py:48-53 | every successor listed in the dictionary is itself a key, so the search never meets a missing state |
| Farmer.Crossing | uninformed_search/farmer_search.py:48-53 | every successor of a valid state is an edge of the dictionary |
| Farmer.SevenCrossings | uninformed_search/farmer_search.py:55-56 | the classic seven crossings lead from everyone on the west bank to everyone on the east bank along edges of the dictionary |
| Farmer.IsValid | uninformed_search/farmer_search.py:7-12 | `is_valid`. Farmer.ValidMeansNothingEaten states what it means |
| Farmer.GenerateSuccessors | uninformed_search/farmer_search.py:15-43 | `generate_successors`. Farmer.SuccessorIsCrossing, Farmer.SuccessorOrder and Farmer.SuccessorSymmetric state what it lists |
| Farmer.StateSpace | uninformed_search/farmer_search.py:48-53 | the `state_space` dictionary. Farmer.StateSpaceKeys and Farmer.StateSpaceClosed state its keys and closure |
| CspModel.CompleteIff | constraint_satisfaction_problems/csp_sa_arc.py:52-53 | on assignments over the problem's distinct variables, the length comparison of `is_complete` holds exactly when every variable is assigned |
| CspModel.FirstUnassigned | constraint_satisfaction_problems/csp_sa_arc.py:55-58 | the loop returns the first listed variable that is not assigned, every earlier one being assigned, and `None` exactly when all are assigned |
| CspModel.SelectWhenIncomplete | constraint_satisfaction_problems/csp_sa_arc.py:55-58 | a variable is selected exactly when the assignment is incomplete, and it is an unassigned variable of the problem |
| CspModel.NeighboursAgree | constraint_satisfaction_problems/csp_sa_arc.py:67-72 | the neighbour loop with its early `return False` holds exactly when every assigned neighbour passes the constraint |
| CspModel.IsConsistent | constraint_satisfaction_problems/csp_sa_arc.py:63-72 | true for an empty assignment without consulting anything; otherwise true exactly when the variable's constraint accepts the value against every assigned neighbour |
| CspModel.ConsistentExtension | constraint_satisfaction_problems/csp_sa_arc.py:35-36 | on a symmetric problem, assigning a value that passes `is_consistent` keeps a pairwise-consistent assignment pairwise consistent |
| CspModel.SolutionIsConsistent | constraint_satisfaction_problems/csp_sa_arc.py:63-72 | every value of a solution passes `is_consistent` against any part of that solution, so the check never rules out a solution |
| CspModel.ColouringSymmetric | constraint_satisfaction_problems/csp_sa_arc.py:8-9 | with `constraint_function` everywhere and symmetric neighbour lists the problem is symmetric, and in a solution neighbours get different values |
| CspModel.ColouringConstraint | constraint_satisfaction_problems/csp_sa_arc.py:8-9 | `constraint_function`. CspModel.ColouringSymmetric states what follows from it: the problem is symmetric and neighbours get different values in a solution |
| CspModel.IsComplete | constraint_satisfaction_problems/csp_sa_arc.py:52-53 | `is_complete`, a length comparison. CspModel.CompleteIff states when it holds: exactly when every variable is assigned |
| CspModel.SelectUnassigned | constraint_satisfaction_problems/csp_sa_arc.py:55-58 | `select_unassigned_variable`. CspModel.FirstUnassigned and CspModel.SelectWhenIncomplete state what it returns |
| CspArc.CompatibleMember | constraint_satisfaction_problems/csp_sa_arc.py:80-81 | a value survives the comprehension of `forward_check` exactly when it is in the neighbour's domain and compatible with the assigned pair |
| CspArc.CompatibleIdempotent | constraint_satisfaction_problems/csp_sa_arc.py:80-81 | filtering a neighbour's domain a second time for the same assignment changes nothing |
| CspArc.PrunedShrinks | constraint_satisfaction_problems/csp_sa_arc.py:74-86 | forward checking only removes values: every value of a pruned domain was in the original |
| CspArc.SearchSound | constraint_satisfaction_problems/csp_sa_arc.py:29-50 | every assignment the recursive search returns assigns every variable, agrees with the starting assignment, takes every new value from the current domains and, for a symmetric problem started consistently, is pairwise consistent |
| CspArc.TrySound | constraint_satisfaction_problems/csp_sa_arc.py:34-48 | the same soundness for the loop over the remaining values of the selected variable |
| CspArc.StepSound | constraint_satisfaction_problems/csp_sa_arc.py:35-45 | a sound answer after assigning a consistent domain value (and pruning, with forward checking) is sound for the caller |
| CspArc.PruneKeepsSolution | constraint_satisfaction_problems/csp_sa_arc.py:74-86 | forward checking with a solution's value never wipes out a domain and keeps every value that solution uses |
| CspArc.SearchExhaustive | constraint_satisfaction_problems/csp_sa_arc.py:29-50 | if some solution extends the assignment and draws its new values from the current domains, the search returns an assignment |
| CspArc.TryExhaustive | constraint_satisfaction_problems/csp_sa_arc.py:34-48 | the loop over values succeeds whenever such a solution uses one of the values still to try |
| CspArc.SearchSucceedsIff | constraint_satisfaction_problems/csp_sa_arc.py:29-50 | for a symmetric problem and a consistent start, the search succeeds exactly when a solution extending the start exists within the current domains |
| CspArc.ForwardCheckingSameVerdict | constraint_satisfaction_problems/csp_sa_arc.py:39-42 | turning forward checking on or off never changes whether the search finds an answer |
| CspArc.ForwardCheck | constraint_satisfaction_problems/csp_sa_arc.py:74-86 | the result is true exactly when no unassigned neighbour loses all its values, and on success each unassigned neighbour's domain is filtered to the compatible values, every other domain unchanged |
| CspArc.Revise | constraint_satisfaction_problems/csp_sa_arc.py:102-109 | removing unsupported values from a copy-driven loop leaves `xi`'s domain holding exactly its supported values in order, every other domain unchanged, and reports true exactly when a value was removed |
| CspArc.SupportedMember | constraint_satisfaction_problems/csp_sa_arc.py:105-107 | a value stays in `xi`'s domain exactly when it was there and some value of `xj` supports it |
| CspArc.SupportedAll | constraint_satisfaction_problems/csp_sa_arc.py:102-109 | `revise` removes nothing exactly when every value of `xi` has a support |
| CspArc.ReviseMakesArcOK | constraint_satisfaction_problems/csp_sa_arc.py:102-109 | after `revise(xi, xj)` every value of `xi` has a support in `xj` |
| CspArc.ReviseKeepsArc | constraint_satisfaction_problems/csp_sa_arc.py:102-109 | revising `(xi, xj)` keeps every consistent arc that does not point at `xi` consistent |
| CspArc.ReviseKeepsReverseArc | constraint_satisfaction_problems/csp_sa_arc.py:97-99 | on a symmetric problem revising `(xi, xj)` keeps `(xj, xi)` consistent, which is why that arc is not re-queued |
| CspArc.ReviseKeepsSolutions | constraint_satisfaction_problems/csp_sa_arc.py:102-109 | revising an arc of the constraint graph never removes a value a solution uses |
| CspArc.ArcOKUnrevised | constraint_satisfaction_problems/csp_sa_arc.py:102-109 | `revise` leaves an already consistent arc as it is |
| CspArc.ReviseShrinks | constraint_satisfaction_problems/csp_sa_arc.py:102-109 | every domain stays a subsequence of its original after a `revise` |
| CspArc.SizeSumShrink | constraint_satisfaction_problems/csp_sa_arc.py:92-99 | shrinking a domain lowers the total domain size, which bounds the number of passes of the `ac3` loop |
| CspArc.Arcs | constraint_satisfaction_problems/csp_sa_arc.py:89-90 | the initial queue holds exactly the arcs `(xi, xj)` with `xj` a neighbour of `xi` |
| CspArc.EnqueueArcsInto | constraint_satisfaction_problems/csp_sa_arc.py:97-99 | the loop appends `(xk, xi)` for each neighbour `xk` of `xi` other than `xj`, in neighbour order |
| CspArc.RequeueMembers | constraint_satisfaction_problems/csp_sa_arc.py:97-99 | the appended arcs are exactly those into `xi` from its neighbours other than `xj` |
| CspArc.AC3 | constraint_satisfaction_problems/csp_sa_arc.py:88-100 | `ac3` only deletes values; on failure some domain is empty; with symmetric neighbour lists it keeps every value a solution uses, so it fails only when there is no solution; on success over a symmetric problem the domains are arc-consistent; already arc-consistent domains are left unchanged |
| CspArc.ReviseInv | constraint_satisfaction_problems/csp_sa_arc.py:93-94 | revising the head arc keeps the domain invariant of `ac3` and changes nothing on arc-consistent domains |
| CspArc.UnrevisedInv | constraint_satisfaction_problems/csp_sa_arc.py:93-94 | a revise that removed nothing leaves the arc it checked consistent, so the queue invariant holds without it |
| CspArc.RequeueInv | constraint_satisfaction_problems/csp_sa_arc.py:94-99 | after a revise that removed something and the re-queueing, every arc outside the queue is consistent again |
| CspArc.EmptyDomainAdmitsNothing | constraint_satisfaction_problems/csp_sa_arc.py:95-96 | an empty domain rules out every solution, so the early `return False` is justified |
| CspArc.RecursiveBacktracking | constraint_satisfaction_problems/csp_sa_arc.py:29-50 | the in-place search returns the assignment object itself holding the answer, or `None` with every key it added deleted again, and its outcome is the value-level search's |
| CspArc.UndoAssign | constraint_satisfaction_problems/csp_sa_arc.py:36-48 | `del assignment[var]` undoes `assignment[var] = value` for a variable that was unassigned |
| CspArc.BacktrackingSearch | constraint_satisfaction_problems/csp_sa_arc.py:19-27 | a returned assignment is complete and draws every value from the problem's domains, and for a symmetric problem is a solution; `None` means no solution exists (with AC-3, for symmetric neighbour lists); without AC-3 the result is the value-level search's |
| SeqUtil.RemoveFirstMultiset | constraint_satisfaction_problems/csp_sa_arc.py:107 | `list.remove(x)` takes away exactly one copy of `x` |
| SeqUtil.RemoveFirstAfter | constraint_satisfaction_problems/csp_sa_arc.py:107 | when `x` does not occur before a position, `list.remove(x)` deletes it there and keeps the rest in order |
| CspArc.OrderDomainValues | constraint_satisfaction_problems/csp_sa_arc.py:60-61 | `order_domain_values`: the variable's current domain, in order. CspArc.TrySound and CspArc.TryExhaustive state what the loop over these values returns |
| CspPlain.PlainIsArcSearch | constraint_satisfaction_problems/csp_sa.py:20-32 | the search without propagation returns exactly what the propagating search returns with forward checking off, over the problem's own domains |
| CspPlain.TryPlainIsTryValues | constraint_satisfaction_problems/csp_sa.py:25-31 | the same equality for the loop over the remaining values |
| CspPlain.PlainSearchCorrect | constraint_satisfaction_problems/csp_sa.py:20-32 | a result from the empty assignment is complete and drawn from the domains, for a symmetric problem it is a solution, and no result means no solution exists |
| CspPlain.RecursiveBacktracking | constraint_satisfaction_problems/csp_sa.py:20-32 | on `None` the assignment is as on entry; on success the same dict is returned holding one value per variable; the outcome is the value-level search's |
| CspPlain.BacktrackingSearch | constraint_satisfaction_problems/csp_sa.py:17-18 | a returned assignment is complete, drawn from the domains and, for a symmetric problem, a solution; `None` means no solution exists |
| SouthAmerica.StatesInOrder | constraint_satisfaction_problems/states.py:29-41 | `list(SAStates)` lists the twelve states by their values 1 to 12 |
| SouthAmerica.ProblemValid | constraint_satisfaction_problems/csp_sa_arc.py:112-136 | the South-America problem is well formed: distinct variables, each with a domain, a neighbour list of other variables and a constraint |
| SouthAmerica.ProblemSymmetric | constraint_satisfaction_problems/csp_sa_arc.py:119-133 | the border lists are symmetric, hence the whole problem is |
| SouthAmerica.WitnessColours | constraint_satisfaction_problems/csp_sa_arc.py:112-136 | a four-colouring exists in which no two bordering states share a colour |
| SouthAmerica.SearchColours | constraint_satisfaction_problems/csp_sa_arc.py:139-143 | the search from the empty assignment succeeds with or without forward checking |
| SouthAmerica.SolveWithAc3AndForwardChecking | constraint_satisfaction_problems/csp_sa_arc.py:139-148 | `main` of the propagating solver returns a solution: every state coloured from the palette, bordering states coloured differently |
| SouthAmerica.SolvePlain | constraint_satisfaction_problems/csp_sa.py:84-91 | `main` of the plain solver returns a solution drawn from the domains |
| CspScenarios.TriangleArcConsistent | constraint_satisfaction_problems/csp_sa_arc.py:88-109 | on a triangle with two colours every arc is already consistent |
| CspScenarios.TriangleUncolourable | constraint_satisfaction_problems/csp_sa_arc.py:8-9 | two colours cannot colour a triangle |
| CspScenarios.TriangleScenario | constraint_satisfaction_problems/csp_sa_arc.py:19-27 | on the triangle AC-3 reports success, and only the search then finds there is no solution, with or without forward checking |
| CspScenarios.UnrelatedBothRed | constraint_satisfaction_problems/csp_sa.py:37-43 | values are tried in domain order, so two unrelated variables both get Red |
| CspPlain.OrderDomainValues | constraint_satisfaction_problems/csp_sa.py:42-43 | `order_domain_values`: the variable's domain in the problem, in order. CspPlain.PlainIsArcSearch states that the search over these values is the propagating search with the problem's own domains |
| NimRules.SplitsFromSpec | adversarial_search/nim_alphabeta.py:61-62 | from `lo` up, the listed pairs are exactly the splits into two unequal parts of at least one, with ascending first parts |
| NimRules.SplitPileOptionsSpec | adversarial_search/nim_alphabeta.py:61-62 | `split_pile_options` lists exactly the pairs `(a, pile - a)` with `a` in `1 .. pile - 1` and `a != pile - a`, in ascending `a`, and lists one at least for a pile of more than two |
| NimRules.SumPermutation | adversarial_search/nim_alphabeta.py:57 | the total number of objects depends only on the multiset of piles, so sorting keeps it |
| NimRules.InsertDescSpec | adversarial_search/nim_alphabeta.py:57 | inserting into a non-increasing list keeps it non-increasing and adds exactly the one element |
| NimRules.SortDescSpec | adversarial_search/nim_alphabeta.py:57 | `sorted(..., reverse=True)` gives a non-increasing permutation of its input |
| NimRules.SortedFixed | adversarial_search/nim_alphabeta.py:57 | a list already in non-increasing order sorts to itself |
| NimRules.SuccessorsOf | adversarial_search/nim_alphabeta.py:49-58 | the nested loops return, pile by pile, one sorted successor per listed split of each pile of more than two |
| NimRules.PileAt | adversarial_search/nim_alphabeta.py:52-57 | successor `k` from pile `i` replaces `s[i]` by the `k`-th listed split and sorts |
| NimRules.SuccessorIsSplit | adversarial_search/nim_alphabeta.py:49-58 | every successor comes from splitting one pile of more than two into unequal parts |
| NimRules.SplitIsSuccessor | adversarial_search/nim_alphabeta.py:49-58 | every such split of a pile of more than two is among the successors |
| NimRules.SplitMultiset | adversarial_search/nim_alphabeta.py:55-57 | a successor holds the piles of the state with the split pile traded for its two parts |
| NimRules.SplitSum | adversarial_search/nim_alphabeta.py:55-57 | a successor keeps the total number of objects |
| NimRules.SplitSorted | adversarial_search/nim_alphabeta.py:55-57 | a successor has one more pile and is in non-increasing order |
| NimRules.MeasureDrops | adversarial_search/nim_alphabeta.py:49-58 | along a move the sum stays, the length grows by one, so `sum(state) - len(state)` drops by exactly one |
| NimRules.NoSuccessorsIffTerminal | adversarial_search/nim_alphabeta.py:38-58 | a state has no successors exactly when `is_terminal` holds, every pile having at most two objects |
| NimRules.ExcessDrops | adversarial_search/nim_alphabeta.py:49-58 | every move lowers the total of `pile - 1` over the piles, so play and the recursive search end |
| NimRules.MovesKeepPositive | adversarial_search/nim_alphabeta.py:49-58 | moves keep every pile non-empty |
| NimRules.TerminalLoses | adversarial_search/nim_alphabeta.py:38-40 | a player left at a terminal state has no move and cannot force a win |
| NimRules.WinBy | adversarial_search/nim_alphabeta.py:49-58 | a move to a position the opponent cannot win makes the position a win for the mover |
| NimRules.LoseIfAll | adversarial_search/nim_alphabeta.py:49-58 | when every move hands the opponent a win, the mover cannot force a win |
| NimRules.FromSix | adversarial_search/nim_alphabeta.py:49-62 | from `[6]` the first listed move is to `[5, 1]`, which the opponent wins, while `[4, 2]` is also listed and lost for the opponent, so `[6]` is a win but not by its first move |
| NimSearch.ValueRange | adversarial_search/nim_alphabeta.py:11-31 | with terminal scores in -1..1 every minimax value lies in -1..1 |
| NimSearch.MaxValue | adversarial_search/nim_alphabeta.py:11-20 | the fail-soft `max_value` result lies within the sentinels and meets the alpha-beta window contract against the minimax value: exact inside the window, a bound outside it |
| NimSearch.MinValue | adversarial_search/nim_alphabeta.py:22-31 | the mirror-image contract for `min_value` |
| NimSearch.MaxIteration | adversarial_search/nim_alphabeta.py:15-19 | one pass of the `max_value` loop either cuts off with a result meeting the window contract or keeps the running maximum and raised alpha in step with the values seen |
| NimSearch.MinIteration | adversarial_search/nim_alphabeta.py:26-30 | the same for one pass of the `min_value` loop |
| NimSearch.MaxValueFull | adversarial_search/nim_alphabeta.py:33-34 | searched with the full window, `max_value` returns the minimax value |
| NimSearch.MinValueFull | adversarial_search/nim_alphabeta.py:33-34 | searched with the full window, `min_value` returns the minimax value |
| NimSearch.MaxDecision | adversarial_search/nim_alphabeta.py:33-35 | `max` with the `min_value` key returns nothing exactly at a terminal state, otherwise the first successor of greatest value |
| NimSearch.MinDecision | adversarial_search/nim_min_alpha.py:29 | `min` with the `max_value` key returns nothing exactly at a terminal state, otherwise the first successor of least value |
| NimSearch.StuckLosesValues | adversarial_search/nim_alphabeta.py:43-46 | when a stuck player loses (-1 for MAX, +1 for MIN), the minimax value says exactly whether the player to move can force a win |
| NimSearch.ConstantValues | adversarial_search/nim_alphabeta.py:43-46 | when every terminal state scores the same `u` whoever is to move, every state's minimax value is `u` |
| NimSearch.ConstantMaxDecision | adversarial_search/nim_alphabeta.py:33-35 | with constant terminal scores the MAX decision is always the first successor |
| NimSearch.ConstantMinDecision | adversarial_search/nim_min_alpha.py:29 | with constant terminal scores the MIN decision is always the first successor |
| NimSearch.StuckLosesMaxDecision | adversarial_search/nim_alphabeta.py:33-35 | with the corrected scores the MAX decision picks a winning move exactly when the position is a win |
| NimSearch.StuckLosesMinDecision | adversarial_search/nim_min_alpha.py:29 | with the corrected scores the MIN decision picks a winning move exactly when the position is a win |
| NimAlphaBeta.AsWrittenIsUtility | adversarial_search/nim_alphabeta.py:43-46 | `utility_of` is -1 at every terminal state, whoever is to move there |
| NimAlphaBeta.AlphaBetaDecision | adversarial_search/nim_alphabeta.py:6-35 | the computer's choice as written: nothing at a terminal state, otherwise always the first successor |
| NimAlphaBeta.AsWrittenLosesFromSix | adversarial_search/nim_alphabeta.py:33-46 | from `[6]`, a win for the computer, the as-written choice hands the opponent a forced win |
| NimAlphaBeta.CorrectedDecision | adversarial_search/nim_alphabeta.py:6-35 | with terminal scores by who is stuck the choice is a successor, and leaves the opponent lost exactly when the position is a win |
| NimAlphaBeta.CorrectedWinsFromSix | adversarial_search/nim_alphabeta.py:6-35 | with the corrected scores the choice from `[6]` leaves the opponent lost |
| NimMinAlpha.AsWrittenIsUtility | adversarial_search/nim_min_alpha.py:36-38 | `utility_of` is +1 at every terminal state, whoever is to move there |
| NimMinAlpha.AlphaBetaDecision | adversarial_search/nim_min_alpha.py:6-29 | the computer's MIN choice as written: nothing at a terminal state, otherwise always the first successor |
| NimMinAlpha.AsWrittenLosesFromSix | adversarial_search/nim_min_alpha.py:29-38 | from `[6]`, a win for the computer, the as-written choice hands the opponent a forced win |
| NimMinAlpha.CorrectedDecision | adversarial_search/nim_min_alpha.py:6-29 | with terminal scores by who is stuck the MIN choice is a successor, and leaves the opponent lost exactly when the position is a win |
| NimMinAlpha.CorrectedWinsFromSix | adversarial_search/nim_min_alpha.py:6-29 | with the corrected scores the MIN choice from `[6]` leaves the opponent lost |
| NimRules.SplitPileOptions | adversarial_search/nim_alphabeta.py:61-62 | `split_pile_options`. NimRules.SplitPileOptionsSpec states what it lists |
| NimRules.IsTerminal | adversarial_search/nim_alphabeta.py:38-40 | `is_terminal`. NimRules.NoSuccessorsIffTerminal ties it to having no moves |
| NimRules.Successors | adversarial_search/nim_alphabeta.py:49-58 | `successors_of` as a value. NimRules.SuccessorIsSplit and NimRules.SplitIsSuccessor state what it lists, and NimRules.SuccessorsOf is the loop that builds it |
| NimAlphaBeta.UtilityOf | adversarial_search/nim_alphabeta.py:43-46 | `utility_of` as written. NimAlphaBeta.AsWrittenIsUtility states its terminal scores, and the Findings table below discusses them |
| NimMinAlpha.UtilityOf | adversarial_search/nim_min_alpha.py:36-38 | `utility_of` as written. NimMinAlpha.AsWrittenIsUtility states its terminal scores, and the Findings table below discusses them |
| Minimax.MaxOfIsMaximum | adversarial_search/tictactoe_minmax.py:53 | the running maximum with `-inf` as start is at least every element, and equals one of them when there are any |
| Minimax.MinOfIsMinimum | adversarial_search/tictactoe_minmax.py:58 | the running minimum with `inf` as start is at most every element, and equals one of them when there are any |
| Minimax.FullWindow | adversarial_search/nim_alphabeta.py:33-34 | a fail-soft result searched with the full window `(-inf, inf)` is the true value |
| Minimax.MaxStep | adversarial_search/nim_alphabeta.py:15-19 | one pass of a `max_value` loop, the child searched with the raised alpha, keeps the running maximum in step with the true values or cuts off with a lower bound |
| Minimax.MinStep | adversarial_search/nim_alphabeta.py:26-30 | the mirror image for a `min_value` loop |
| Minimax.MaxDone | adversarial_search/nim_alphabeta.py:20 | a `max_value` loop that ran to the end meets the window contract |
| Minimax.MinDone | adversarial_search/nim_alphabeta.py:31 | a `min_value` loop that ran to the end meets the window contract |
| Minimax.FirstMaxIsMaxOf | adversarial_search/tictactoe_minmax.py:60 | the element `max(..., key=...)` picks attains the maximum key |
| Minimax.FirstMinIsMinOf | adversarial_search/nim_min_alpha.py:29 | the element `min(..., key=...)` picks attains the minimum key |
| Minimax.ArgMaxFirst | adversarial_search/tictactoe_minmax.py:60 | the index Python's `max` with a key returns: a greatest key, every earlier key strictly smaller |
| Minimax.ArgMinFirst | adversarial_search/nim_min_alpha.py:29 | the index Python's `min` with a key returns: a least key, every earlier key strictly greater |
| TicTacToe.UtilitySpec | adversarial_search/tictactoe_minmax.py:25-34 | the utility is 1 or -1 as the first full line in the listed order holds X or O, and 0 exactly when no line is full |
| TicTacToe.UtilityFromSpec | adversarial_search/tictactoe_minmax.py:31-34 | the same for the loop over the lines from line `k` on |
| TicTacToe.CountUpdate | adversarial_search/tictactoe_minmax.py:43-44 | writing a mark into one cell moves one cell from the count of the old symbol to the count of the new |
| TicTacToe.CountZero | adversarial_search/tictactoe_minmax.py:22 | the count of a symbol is zero exactly when no cell holds it |
| TicTacToe.SuccessorsOf | adversarial_search/tictactoe_minmax.py:37-46 | the loop over the nine cells returns the successor list, the input board left as it was |
| TicTacToe.MovesUpToSpec | adversarial_search/tictactoe_minmax.py:41-45 | after the first `n` cells, each move is to an empty cell, sets only that cell, to the mover's mark, the moves ascend by cell, and every empty cell has one |
| TicTacToe.SuccessorsSpec | adversarial_search/tictactoe_minmax.py:37-46 | one move per empty cell in ascending order, each board the state with only that cell set to the mover (X when the X and O counts are equal, O otherwise) |
| TicTacToe.MoveShape | adversarial_search/tictactoe_minmax.py:39-46 | a move uses up one empty cell and keeps X-count minus O-count in 0..1 |
| TicTacToe.EmptyCellMove | adversarial_search/tictactoe_minmax.py:37-46 | there are no moves exactly when no cell is empty |
| TicTacToe.SuccessorsBelow | adversarial_search/tictactoe_minmax.py:49-58 | every move leads to a board with fewer empty cells, so the recursive minimax ends |
| TicTacToe.ValueRange | adversarial_search/tictactoe_minmax.py:49-58 | every `max_value` and `min_value` is -1, 0 or 1 |
| TicTacToe.DecisionSpec | adversarial_search/tictactoe_minmax.py:49-60 | a decision exists exactly when a cell is empty; it is the cell of the first move of greatest `min_value`, and away from terminal boards that key is the board's minimax value |
| TicTacToe.DecisionKey | adversarial_search/tictactoe_minmax.py:60 | the decided cell's key is the first greatest and, on a non-terminal board, the minimax value |
| TicTacToe.UtilityOf | adversarial_search/tictactoe_minmax.py:25-34 | `utility_of`. TicTacToe.UtilitySpec states what it returns |
| TicTacToe.IsTerminal | adversarial_search/tictactoe_minmax.py:21-22 | `is_terminal`: somebody has a line or no cell is empty. TicTacToe.EmptyCellMove ties the second case to having no moves |
| TicTacToe.Successors | adversarial_search/tictactoe_minmax.py:37-46 | `successors_of` as a value. TicTacToe.SuccessorsSpec states what it lists, and TicTacToe.SuccessorsOf is the loop that builds it |
| TicTacToe.MinmaxDecision | adversarial_search/tictactoe_minmax.py:49-60 | `minmax_decision`. TicTacToe.DecisionSpec and TicTacToe.DecisionKey state what it decides |
| BreakthroughRules.OpponentInvolution | adversarial_search/breakthrough_alpha.py:25-26 | on the two players `get_opponent` gives the other player, and applying it twice gives the player back |
| BreakthroughRules.InitialBoardOf | adversarial_search/breakthrough_alpha.py:11-16 | the nested loops build the board whose first row is Black, whose last row is White and whose other cells are empty, the last row written last |
| BreakthroughRules.InitialShape | adversarial_search/breakthrough_alpha.py:11-16 | the starting board is square; from size 2 on it holds `size` pawns of each side and the game is over for neither; a one-row board holds a single White pawn |
| BreakthroughRules.CountBoardZero | adversarial_search/breakthrough_alpha.py:40 | a side has no pawn on the board exactly when `any(opponent in row ...)` finds none in any row |
| BreakthroughRules.TerminalByCount | adversarial_search/breakthrough_alpha.py:29-40 | the game is over for a player exactly when it has a pawn on its goal row or the opponent's pawn count is zero |
| BreakthroughRules.UtilitySigns | adversarial_search/breakthrough_alpha.py:43-48 | the utility is -1, 0 or 1; it is 0 exactly when the game is over for neither side, and seen from the opponent it is the negation unless both sides have won |
| BreakthroughRules.SuccessorsOf | adversarial_search/breakthrough_alpha.py:51-78 | the loops over all rows and columns return the successor list, row by row and column by column |
| BreakthroughRules.RowSuccessorsOf | adversarial_search/breakthrough_alpha.py:57-77 | the inner loop over the columns of one row collects the moves of that row's pawns in column order |
| BreakthroughRules.CellSuccessorsOf | adversarial_search/breakthrough_alpha.py:58-77 | for one cell: nothing unless it holds the player's pawn and the row ahead exists, otherwise the straight move, then the captures to the left and then the right |
| BreakthroughRules.CapturesOf | adversarial_search/breakthrough_alpha.py:71-77 | the loop over `dc in [-1, 1]` appends the two diagonal captures in that order |
| BreakthroughRules.ForwardMember | adversarial_search/breakthrough_alpha.py:64-68 | the straight move is listed exactly when the cell ahead is empty, and it is that step |
| BreakthroughRules.CaptureMember | adversarial_search/breakthrough_alpha.py:72-77 | a diagonal move is listed exactly when its target is on the board and holds an opposing pawn, and it is that capture |
| BreakthroughRules.SuccessorsMember | adversarial_search/breakthrough_alpha.py:51-78 | a board is a successor exactly when it comes from one legal move of the player: a pawn steps straight ahead onto an empty cell or diagonally ahead onto an opposing pawn |
| BreakthroughRules.MoveCells | adversarial_search/breakthrough_alpha.py:65-67 | a move empties the cell it leaves, puts the pawn on the cell it reaches and leaves every other cell as it was |
| BreakthroughRules.MoveCounts | adversarial_search/breakthrough_alpha.py:66-67 | the mover keeps its number of pawns, and the opponent loses one exactly on a capture |
| BreakthroughRules.SuccessorsAreBoards | adversarial_search/breakthrough_alpha.py:65 | every successor is a square board of the same size |
| BreakthroughRules.NoSuccessors | adversarial_search/breakthrough_alpha.py:51-78 | the successor list is empty exactly when the player has no legal move |
| BreakthroughRules.GoalRowWins | adversarial_search/breakthrough_alpha.py:33-37 | a move onto the goal row ends the game in the mover's favour |
| BreakthroughRules.LastCaptureWins | adversarial_search/breakthrough_alpha.py:39-40 | capturing the opponent's last pawn ends the game in the mover's favour |
| BreakthroughSearch.NextBoardsClosed | adversarial_search/breakthrough_alpha.py:51-78 | `successors_of` maps boards to lists of boards, so the depth-limited values are defined on it |
| BreakthroughSearch.ValueRange | adversarial_search/breakthrough_alpha.py:82-103 | every depth-limited value is a utility or one of the empty-loop values `-inf` and `inf` |
| BreakthroughSearch.MaxValue | adversarial_search/breakthrough_alpha.py:82-91 | `max_value` meets the fail-soft alpha-beta contract against the depth-limited maximum value of the board |
| BreakthroughSearch.MinValue | adversarial_search/breakthrough_alpha.py:93-103 | `min_value` meets the fail-soft alpha-beta contract against the depth-limited minimum value of the board |
| BreakthroughSearch.MaxOverMoves | adversarial_search/breakthrough_alpha.py:85-91 | the loop of `max_value` meets the window contract against the maximum of its successors' values |
| BreakthroughSearch.MinOverMoves | adversarial_search/breakthrough_alpha.py:97-103 | the loop of `min_value` meets the window contract against the minimum of its successors' values |
| BreakthroughSearch.MinValueFull | adversarial_search/breakthrough_alpha.py:105 | with the window `(-inf, inf)` `min_value` returns the exact depth-limited value |
| BreakthroughSearch.AlphaBetaDecision | adversarial_search/breakthrough_alpha.py:81-105 | no decision exactly when the player has no move (where `max` of an empty list raises); otherwise the first successor of greatest key among them |
| BreakthroughSearch.BestIndex | adversarial_search/breakthrough_alpha.py:105 | the loop standing for `max(..., key=...)` returns the first index of greatest key |
| BreakthroughSearch.ReachedGoalValue | adversarial_search/breakthrough_alpha.py:93-103 | a board where the player already stands on its goal row is worth at least a win to `min_value`, whatever the opponent replies |
| BreakthroughSearch.WinningMoveKey | adversarial_search/breakthrough_alpha.py:105 | when a move onto the goal row is available, the chosen move's key is a win |
| BreakthroughRules.CellMovesMember | adversarial_search/breakthrough_alpha.py:58-77 | the boards listed for one cell are exactly the legal moves of the pawn on it |
| BreakthroughRules.Opponent | adversarial_search/breakthrough_alpha.py:25-26 | `get_opponent`. BreakthroughRules.OpponentInvolution states what it returns |
| BreakthroughRules.InitialBoard | adversarial_search/breakthrough_alpha.py:11-16 | `initial_board` as a value. BreakthroughRules.InitialShape states its shape, and BreakthroughRules.InitialBoardOf is the loop that builds it |
| BreakthroughRules.IsTerminal | adversarial_search/breakthrough_alpha.py:29-40 | `is_terminal`. BreakthroughRules.TerminalByCount states when it holds |
| BreakthroughRules.UtilityOf | adversarial_search/breakthrough_alpha.py:43-48 | `utility_of`. BreakthroughRules.UtilitySigns states its values |
| BreakthroughRules.Successors | adversarial_search/breakthrough_alpha.py:51-78 | `successors_of` as a value. BreakthroughRules.SuccessorsMember states what it lists, and BreakthroughRules.SuccessorsOf is the loop that builds it |
| ReflexVacuumAgent.ChooseAction | agents/reflex_vacuum_agent.py:43-51 | the agent sucks exactly when the perceived square is dirty, and otherwise heads for the other square (right from A, left from B) |
| ReflexVacuumAgent.Sense | agents/reflex_vacuum_agent.py:25-26 | the percept is the current square with its status, and there is none exactly when the environment has no entry for that square |
| ReflexVacuumAgent.Actuate | agents/reflex_vacuum_agent.py:28-35 | sucking cleans the current square; a move happens only when the square allows it; otherwise nothing changes; no square gets dirtier, and only the current one can change |
| ReflexVacuumAgent.Agent.Sensor | agents/reflex_vacuum_agent.py:25-26 | reads the environment's current square and its status |
| ReflexVacuumAgent.Agent.Actuator | agents/reflex_vacuum_agent.py:28-35 | updates the environment in place to what `Actuate` gives |
| ReflexVacuumAgent.Agent.Evaluate | agents/reflex_vacuum_agent.py:37-41 | sense, choose and actuate in place, returning the chosen action; nothing changes when sensing fails |
| ReflexVacuumAgent.StepNeverDirties | agents/reflex_vacuum_agent.py:28-41 | no square that was clean before a step is dirty after it |
| ReflexVacuumAgent.DirtyGetsSucked | agents/reflex_vacuum_agent.py:46-47 | at a dirty square a step sucks it clean and stays put |
| ReflexVacuumAgent.CleanMovesOn | agents/reflex_vacuum_agent.py:48-51 | at a clean square a step moves to the other square if the move is allowed, and otherwise changes nothing |
| ReflexVacuumAgent.CleansBaseWorld | agents/reflex_vacuum_agent.py:12-18 | from both squares dirty at A, with moving right allowed at A, the steps suck, move right and suck, cleaning both squares |
| ReflexVacuumAgent.CleanWorldStaysClean | agents/reflex_vacuum_agent.py:43-51 | in a clean world every step keeps both squares clean and never sucks |
| ReflexAgentWithState.MatchRule | agents/reflex_agent_with_state.py:35-54 | suck exactly on a dirty percept; wait exactly when the percept is clean and either every square the model knows was seen clean or the square is unknown; otherwise move to the next square of the tour A, B, C, D |
| ReflexAgentWithState.Sense | agents/reflex_agent_with_state.py:60-61 | the percept is the current square and its status, and there is none exactly when the environment has no entry for the square |
| ReflexAgentWithState.Actuate | agents/reflex_agent_with_state.py:63-78 | an action the square does not allow changes nothing; an allowed move goes to its square; suck cleans the current square; no square gets dirtier, and only the current one can change |
| ReflexAgentWithState.StatefulReflexAgent.constructor | agents/reflex_agent_with_state.py:26-33 | the model knows all four squares as unknown, and the last percept is unknown |
| ReflexAgentWithState.StatefulReflexAgent.UpdateState | agents/reflex_agent_with_state.py:56-58 | records the perceived status of the perceived square in the model and changes nothing else |
| ReflexAgentWithState.StatefulReflexAgent.Actuators | agents/reflex_agent_with_state.py:63-78 | updates the environment in place to what `Actuate` gives |
| ReflexAgentWithState.StatefulReflexAgent.Act | agents/reflex_agent_with_state.py:80-86 | sense, remember the percept, record it in the model, choose by the rule and actuate, in place, returning the action |
| ReflexAgentWithState.InitialSound | agents/reflex_agent_with_state.py:26-33 | the starting model records no square as clean, so it is sound for any environment |
| ReflexAgentWithState.StepNeverDirties | agents/reflex_agent_with_state.py:63-86 | no square that was clean before a step is dirty after it |
| ReflexAgentWithState.StepKeepsSound | agents/reflex_agent_with_state.py:56-86 | a step keeps the model sound: every square it has seen clean is still clean |
| ReflexAgentWithState.StepKeepsKnown | agents/reflex_agent_with_state.py:56-58 | a step never drops a square from the model |
| ReflexAgentWithState.NoOpMeansClean | agents/reflex_agent_with_state.py:41-42 | when a sound agent that knows all four squares waits at a real square, all four squares really are clean |
| ReflexAgentWithState.SuckStep | agents/reflex_agent_with_state.py:38-39 | at a dirty square, where sucking is allowed, a step records the dirt and sucks the square clean |
| ReflexAgentWithState.MoveStep | agents/reflex_agent_with_state.py:44-54 | at a clean square, with some known square not yet seen clean, a step moves on to the next square of the tour |
| ReflexAgentWithState.WaitStep | agents/reflex_agent_with_state.py:41-42 | at a clean square with every known square seen clean, a step waits and changes nothing in the environment |
| ReflexAgentWithState.TourStart | agents/reflex_agent_with_state.py:13-33 | the first world of the tour is the fresh agent at A with every square dirty |
| ReflexAgentWithState.CleansBaseWorld | agents/reflex_agent_with_state.py:89-111 | from the start, eight `act` calls suck and move at A, B and C in turn and suck at D, leaving all four squares clean, and then the agent waits |
| TableDrivenAgent.Lookup | agents/table_driven_agent.py:36-41 | the table's action for exactly this history, and `NO_OP` when the table has no entry for it |
| TableDrivenAgent.Agent.constructor | agents/table_driven_agent.py:7 | the history starts empty |
| TableDrivenAgent.Agent.Perceive | agents/table_driven_agent.py:44-48 | appends the percept to the history and returns the lookup of the whole history |
| TableDrivenAgent.ResponsesAt | agents/table_driven_agent.py:44-48 | over a run, the `i`-th action is the lookup of the first `i + 1` percepts |
| TableDrivenAgent.ResponsesAppend | agents/table_driven_agent.py:46-48 | one more percept appends the lookup of the longer history |
| TableDrivenAgent.TableHistoriesShort | agents/table_driven_agent.py:21-33 | every history the table knows has one to three percepts |
| TableDrivenAgent.LongHistoryWaits | agents/table_driven_agent.py:36-41 | once the history is longer than three percepts the agent can only wait |
| TableDrivenAgent.FirstPerceptCovered | agents/table_driven_agent.py:22-25 | every single percept is in the table: the first action sucks a dirty square and otherwise moves to the other square |
| TableDrivenAgent.DemoRun | agents/table_driven_agent.py:51-57 | the demo's four percepts give right, suck, left, and then no-op |
| NumberGa.FitnessIsBigEndian | genetic_algorithms/number_ga.py:10-12 | the sum of `bit * 2 ** i` over the reversed gene (`SeqUtil.Reversed`) is the gene read as a big-endian binary number |
| NumberGa.WeightedSumShift | genetic_algorithms/number_ga.py:12 | starting the weights one position later doubles the sum |
| NumberGa.BigEndianBounds | genetic_algorithms/number_ga.py:10-12 | a bit gene of length `k` has a fitness in `0 .. 2^k - 1` |
| NumberGa.ThreeBitFitness | genetic_algorithms/number_ga.py:35 | on three bits the fitness is `4a + 2b + c`, lies in 0..7, and is the target 7 only for `(1, 1, 1)` |
| NumberGa.StartingFitness | genetic_algorithms/number_ga.py:36-41 | the four starting genes have the fitnesses 4, 2, 1 and 0 |
| NumberGa.Mutate | genetic_algorithms/number_ga.py:14-19 | `^= 1` flips the lowest bit of the drawn position and changes no other; on a bit gene it turns 0 into 1 and 1 into 0 |
| NumberGa.MutateTwice | genetic_algorithms/number_ga.py:14-19 | flipping the same position twice gives the gene back |
| NumberGa.MutateFitness | genetic_algorithms/number_ga.py:14-19 | flipping a bit moves the fitness by that bit's weight, up when it was 0 and down when it was 1 |
| NumberGa.BigEndianChange | genetic_algorithms/number_ga.py:12 | changing one position changes the value by the difference times that position's weight |
| NumberGa.Reproduce | genetic_algorithms/number_ga.py:21-25 | the child takes its first `point` positions from the first parent and the rest from the second |
| NumberGa.ReproduceBits | genetic_algorithms/number_ga.py:21-25 | crossing two three-bit genes gives a three-bit gene |
| NumberGa.ReproduceSelf | genetic_algorithms/number_ga.py:24 | crossing a gene with itself gives it back |
| QueenGa.Iota | genetic_algorithms/queen_ga.py:38 | `list(range(k))` holds `i` at position `i` |
| QueenGa.PermutationShape | genetic_algorithms/queen_ga.py:36-40 | a permutation of `0 .. n-1` has length `n` and only values in that range |
| QueenGa.Swap | genetic_algorithms/queen_ga.py:20-21 | the tuple swap exchanges the two positions, keeps the others and keeps the multiset of values |
| QueenGa.Mutate | genetic_algorithms/queen_ga.py:17-22 | the two drawn distinct columns are exchanged and every other column is kept |
| QueenGa.MutateKeepsPermutation | genetic_algorithms/queen_ga.py:17-22 | a permutation board stays one after mutation |
| QueenGa.MutateTwice | genetic_algorithms/queen_ga.py:17-22 | mutating the same two columns again gives the board back |
| QueenGa.Reproduce | genetic_algorithms/queen_ga.py:24-28 | the child takes its first `point` columns from the first parent and the rest from the second |
| QueenGa.ReproduceMayRepeat | genetic_algorithms/queen_ga.py:24-28 | crossover does not keep permutations: a concrete pair of permutations gives a child with row 0 twice and no row 7 |
| QueenGa.MissingValue | genetic_algorithms/queen_ga.py:36-40 | a gene missing a value of `0 .. n-1` is no permutation |
| QueenGa.Shuffle | genetic_algorithms/queen_ga.py:39 | `random.shuffle` with any valid draws keeps the length and the multiset of values |
| QueenGa.CreateRandom | genetic_algorithms/queen_ga.py:36-40 | a random board is a permutation of `0 .. 7`, so every value is a row on the board |
| QueenGa.Board.constructor | genetic_algorithms/queen_ga.py:9-10 | the board holds the given gene |
| QueenGa.GetInitialPopulation | genetic_algorithms/queen_ga.py:43-47 | the set ends with exactly `count` boards (none for a negative count), every one a permutation |

## Left out

- Printing, displaying and the demo drivers (`main`, `run`, `display`, `print_path`, `Node.display`, `__repr__`) are not modelled. Only the outcomes of the demo runs are stated as lemmas.
- `user_select_pile` in both Nim programs reads from the console, so it is not modelled.
- `hidden_markov_models/hidden_markov_models.py` is not part of this model, because it is floating-point probability arithmetic over numpy.
- `machine_learning/decision_tree_classification.py` is not part of this model, because it reads a CSV file and calls into pandas, scikit-learn and matplotlib.
- `bayesian_networks/car_diagnosis.py` is not part of this model, because it uses floating-point tables and calls into modules that are not shown.
- `uninformed_search/vacuum_search.py` is only static data and a call to `run`, so it is not modelled. The worked tree-search example uses the state space in `uninformed_search/search.py` instead.
- `constraint_satisfaction_problems/states.py` only declares enumerations. The twelve South-American states are a numbered type in the same order. The `colors` module is not part of this model, so the colours are a datatype in the order the program lists them.
- The `enums` and `enums_extended` modules are not part of this model. Their locations, statuses and actions are datatypes. `Location.allowed_moves` is a parameter `allowed` of the actuators.
- `ga.genetic_algorithm` and `queens_fitness.fitness_fn_negative` are not part of this model, so `Board.get_fitness` is not modelled.
- `NumberGa.Mutate`, `QueenGa.Mutate`, `NumberGa.Reproduce`, `QueenGa.Reproduce`: the `random` draws are parameters, and the bounds on them are the ranges of the draws.
- `QueenGa.CreateRandom`: `random.shuffle`'s swaps are a sequence of draws. It is proved for every valid sequence, but the distribution of the draws is not modelled.
- `QueenGa.GetInitialPopulation`: the draws for up to `count` boards are supplied up front. `Board` has no equality, so every new board enlarges the set, and the loop ends after `count` passes.
- `GraphSearch.PriorityQueue`: `heapq` is modelled as a multiset from which `Pop` removes some element of least `f`. Which of several equal keys `heapq` pops first is not modelled.
- `Node.__lt__`, which `heapq` uses to order nodes, is the predicate `GraphSearch.Less`. The queue's least element is the least `f` under it.
- The example graph and heuristic at the end of `informed_search/graph_search.py`, and the runs on them, are not modelled. With a queue whose ties are unspecified, the outcome of a run is a set of possible paths, not one.
- `UninformedSearch.TreeSearch`: it is bounded by a step count `fuel` and returns `OutOfFuel` when the count runs out. A depth-first tree search on a cyclic state space never ends, which is why the bound is needed. A `KeyError` on a state without an entry is the outcome `MissingState`.
- `GraphSearch.GreedyBestFirstSearch`: it is bounded by a step count `fuel` and returns `OutOfFuel` when the count runs out. That the loop ends on every finite space is not proved. A missing state is `MissingState`.
- `GraphSearch.AStarSearch`: it is bounded by a step count `fuel` and returns `OutOfFuel` when the count runs out. That the loop ends is not proved, and neither is optimality of the returned path. A missing state is `MissingState`.
- `VacuumAStar.CleanBothSquares`: that some expansion bound is large enough for A* to reach the goal is not proved. The contract rules out `None` and `KeyError`, so only `OutOfFuel` stands between the run and a path.
- `CspArc.BacktrackingSearch`: the problem must be well formed. The variables must be distinct, every variable needs a domain, a neighbour list and a constraint, and neighbours must be other variables. A missing entry is a `KeyError` in the source. Repeated variables and self-neighbours are excluded rather than modelled.
- `CspPlain.BacktrackingSearch`: it takes the same well-formedness requirement as `CspArc.BacktrackingSearch`.
- `CspArc.AC3`: the deque is modelled by a sequence popped at the front and appended at the back. It is proved to end, with the measure being the total domain size, then the queue length.
- `BreakthroughSearch.AlphaBetaDecision` and the other Breakthrough members take square boards with at least one row, as `initial_board` makes them. What the source would do on a ragged board is not modelled.
- `TicTacToe.MinmaxDecision`, `BreakthroughSearch.AlphaBetaDecision`, `NimAlphaBeta.AlphaBetaDecision`, `NimMinAlpha.AlphaBetaDecision`: where Python's `max` or `min` on an empty list raises, the decision is `None`.
- `TableDrivenAgent.Agent`: the module-level `total_percepts` list is the agent's field `percepts`.
- `ReflexVacuumAgent.Agent.Sensor`, `ReflexAgentWithState.Sense`: a `KeyError` on a square with no entry is `None`.
- `ReflexVacuumAgent.ChooseAction`: the two-square world has only A and B, so the implicit `None` that the source returns for any other square cannot occur.
- `UninformedSearch.Expand`: `StateSpace.successor` printing a message when no state space is set is not modelled. The state space is always a map.

## Findings

| source | as written | input that shows it | evidently intended | confidence | as-written member | corrected member |
|---|---|---|---|---|---|---|
| adversarial_search/nim_alphabeta.py:43-46 | `utility_of` returns -1 at every final position, whoever is stuck. Every search value is then -1, and `alpha_beta_decision` always takes the first successor | `[6]`: the program moves to `[5, 1]`, from which the opponent wins, although `[4, 2]` wins | score -1 when the player to move at the final position is MAX, and +1 when it is MIN | not executed | NimAlphaBeta.AsWrittenLosesFromSix | NimAlphaBeta.CorrectedWinsFromSix |
| adversarial_search/nim_min_alpha.py:36-38 | `utility_of` returns +1 at every final position, whoever is stuck. Every search value is then +1, and the MIN-first `alpha_beta_decision` always takes the first successor | `[6]`: the program moves to `[5, 1]`, from which the opponent wins, although `[4, 2]` wins | score -1 when MAX (the human) is stuck and +1 when MIN (the computer) is stuck, so that `min` picks a win. The comment at line 37, "+1 if MIN wins", read literally as the computer winning is +1, would have `min` avoid wins | not executed | NimMinAlpha.AsWrittenLosesFromSix | NimMinAlpha.CorrectedWinsFromSix |
