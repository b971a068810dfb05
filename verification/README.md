# GoDo engine core, modelled in Dafny

This project models the playing engine of GoDo, a Python program that plays Dodo and Gopher. Both are two-player games on a hexagonal board of side `size`, written with axial coordinates `(q, r)`.

- **Dodo.** Each player slides a stone one step forward to an empty cell. The player left without a move wins.
- **Gopher.** Each player places a stone on an empty cell. The cell must touch exactly one enemy stone and no friendly stone. The player left without a move loses.

The engine chooses moves with a Monte-Carlo tree search (MCTS). Its playouts are random, or, in the improved mode, guided by a depth-1 alpha-beta search. Positions are hashed with Zobrist keys, and a transposition cache keyed on the hash merges the playout results of equal positions.

The modules follow the source files:

| module | models |
|---|---|
| `Util` | options, integers extended with ±infinity (the source's `float("-inf")`), maxima and minima, repeat-free lists |
| `Hex` | `hex_tools.py`: the six directions and `neighbor` |
| `Bits` | Python's `^` on non-negative integers, with its algebra |
| `Board` | `board_utils.py`: board cells, the neighbour tables, Zobrist key generation, the start hash, `state_to_dict` |
| `Base` | the record `GameState` keeps (grid, turn, opponent, cell sets, stored legal list, hash) and the Zobrist signature of a grid |
| `Dodo`, `Gopher` | `dodo.py`, `gopher.py`: legal actions, `move`, `play`/`undo`, `evaluate` |
| `GameState` | `gamestate.py`: dispatch on the variant, `is_game_over`, `alphabeta` as the source runs it (mutating and restoring the state) |
| `Search` | a minimax reference, the soundness of `alphabeta` against it, and `alphabeta_actions_v1` |
| `Playout` | `simulate_game` of both games |
| `Mcts` | `mcts.py`: nodes held in an arena (a sequence indexed by node number), expansion, rollout with the cache, backpropagation, the tree policy, `perform_iterations` |
| `Agents` | `agents.py`: searcher creation, `update`, `has_played`, and the aggregation in `return_best_move` |

Modelling choices:

- **Set order.** Where the source iterates over a Python set, the model uses the board's enumeration order. That order is rows `r = n … -n`, each with `q` ascending, as in `generate_cells`.
- **Randomness.** `random.shuffle`, `random.choice` and `random.getrandbits` become a draw oracle (`draw: nat -> nat`, or a list of draws). Within one search iteration, the shuffle of a new node's actions reads the even positions of the iteration's oracle and the playout reads the odd ones. So the two never share a draw, just as successive values of one random stream do not.
  - `random.shuffle` is Fisher-Yates driven by the oracle.
  - `random.choice` picks the drawn index modulo the length.
- **UCT.** The UCT choice of `best_child` becomes a selector parameter.
- **Hashes.** Hashes and keys are unbounded naturals, as Python's integers are.
- **Cache.** `STATE_CACHE` is a map threaded through the calls.

## Model

| member | source | states |
|---|---|---|
| Hex.Direction | src/hex_tools.py:32-50 | an index selects one of the six listed directions; a negative index counts from the end, as Python indexing does |
| Hex.Neighbor | src/hex_tools.py:53-63 | the neighbour in any direction is an adjacent cell |
| Hex.AdjacentIsNeighbor | src/hex_tools.py:32-63 | conversely, every adjacent cell is the neighbour in one of the six directions |
| Hex.NeighborOpposite | src/hex_tools.py:32-63 | stepping in direction d and then d+3 returns to the start |
| Hex.NeighborsDistinct | src/hex_tools.py:32-63 | the six neighbours are pairwise different and differ from the cell |
| Board.GenerateCells | src/board_utils.py:43-52 | the cells are exactly the hexagon of the given side: 3·size²−3·size+1 cells, none for a side below 1 |
| Board.EnumerateMembers | src/board_utils.py:46-50 | the row-by-row enumeration lists exactly the board cells |
| Board.NeighborList | src/board_utils.py:62-67 | a cell's list holds exactly its on-board neighbours in the requested directions |
| Board.GenerateNeighbors | src/board_utils.py:62-67 | the table has one entry per board cell, and that entry is the cell's neighbour list |
| Board.NeighborListNoDup | src/board_utils.py:62-67 | a neighbour list has no repeats when the directions have none |
| Board.AllNeighborsAreAdjacent | src/board_utils.py:62-67 | the all-directions table lists exactly the adjacent on-board cells |
| Board.AllNeighborsSymmetric | src/board_utils.py:62-67 | adjacency in the all-directions table is symmetric |
| Board.PovInverse | src/board_utils.py:25-26 | b is a forward neighbour of a for Red exactly when a is a forward neighbour of b for Blue |
| Board.UniqueKey | src/board_utils.py:80-90 | a key is the first draw not yet used, and every draw skipped was already used; when the draws run out, no key is produced |
| Board.GenerateZobristKeys | src/board_utils.py:77-97 | every cell gets a Red and a Blue key; all cell keys and the turn key are pairwise different, and all come from the draws |
| Board.StartHashOrderFree | src/board_utils.py:108-116 | the start hash does not depend on the order in which the state lists its cells |
| Board.EmptyCellCountedAsBlue | src/board_utils.py:108-116 | the hash as written gives an empty listed cell the same hash as a Blue stone on it (the finding below) |
| Board.StartHashEmptyVsBlue | src/board_utils.py:108-116 | the corrected hash tells an empty cell from a Blue one: the two differ by exactly that cell's Blue key |
| Board.StateToDictReads | src/board_utils.py:126-140 | an on-board cell reads R if listed as R, B if listed as B but not R, and 0 otherwise |
| Board.StateToDictIgnoresOffBoard | src/board_utils.py:126-140 | entries for cells off the board have no effect |
| Board.StateToDictRoundTrip | src/board_utils.py:126-140 | listing a grid's cells in board order and converting back gives the grid |
| Board.MakeBoard | src/board_utils.py:21-32 | the tables satisfy the board invariant and the state's cells all have keys; the start hash kept is the corrected one, and the hash `compute_start_hash` stores is it XORed with the Blue keys of the cells the state lists as empty |
| Board.ComputeIsStartHashPlusStray | src/board_utils.py:108-116 | the hash as written is the corrected hash XORed with the Blue key of every cell listed as empty, so the two agree exactly on states that list only Red and Blue cells |
| Base.Opponent | src/gamestate.py:38-40 | the opponent is a player and differs from the turn |
| Base.NewState | src/gamestate.py:38-57 | the opponent is the other player, and the Red, Blue and empty sets are disjoint and hold exactly the cells of that colour |
| Base.StartHashIsSig | src/board_utils.py:108-116 | the corrected start hash of a grid equals its Zobrist signature: the XOR of the key of every occupied cell |
| Dodo.Make | src/dodo.py:20-35 | the constructor's cell sets agree with the grid, and the stored legal list is the legal list of the side to move |
| Dodo.LegalIff | src/dodo.py:56-70 | Step(c, n) is legal exactly when c holds the player's stone and n is an empty forward neighbour of c from the player's point of view |
| Dodo.LegalGeometry | src/dodo.py:56-70 | the same rule in board terms: n is empty, on the board, and one step from c in one of the player's three forward directions |
| Dodo.LegalsNoDup | src/dodo.py:56-70 | no action is listed twice |
| Dodo.LegalDirection | src/dodo.py:56-70 | Red moves strictly increase q+r and Blue moves strictly decrease it |
| Dodo.PlayLowersPotential | src/dodo.py:124-156 | every legal half-move strictly lowers a natural-number measure of the grid, so a playout ends |
| Dodo.PlayUndo | src/dodo.py:176-208 | `undo` after `play` of a legal action gives back the original state |
| Dodo.PlayKeepsValid | src/dodo.py:176-184 | `play` keeps the state well formed and keeps the number of stones of each colour |
| Dodo.MoveIsPlay | src/dodo.py:81-103 | `move` yields the grid and sets of `play` by the side to move, hands the turn over, and keeps the state well formed |
| Dodo.MoveDrift | src/dodo.py:87-92 | the incremental hash keeps its offset from the Zobrist signature, up to the turn key, which flips on every move |
| Dodo.PathIndependent | src/dodo.py:81-103 | two legal move sequences that reach the same grid, with lengths of equal parity, reach the same hash |
| Dodo.EvaluateTurnView | src/dodo.py:222-224 | seen from either side, the heuristic is the opponent's legal count minus the mover's |
| Gopher.EmptyGridIff | src/gopher.py:43-46 | `empty_grid` holds exactly when no cell is occupied |
| Gopher.LegalIff | src/gopher.py:57-85 | a placement is legal exactly when the cell is empty, has no friendly neighbour, and has exactly one enemy neighbour (outside Red's opening on an empty board) |
| Gopher.LegalRule | src/gopher.py:57-85 | the same rule stated with board adjacency instead of the neighbour table |
| Gopher.Opening | src/gopher.py:64-67 | on an empty board Red's only action is the corner (0, size-1), and Blue has none |
| Gopher.NoStoneNoPlace | src/gopher.py:69-85 | when no stone is down and the opening does not apply, nobody has an action |
| Gopher.LegalsNoDup | src/gopher.py:57-85 | no cell is listed twice, although the source reaches a cell from each of its enemy neighbours |
| Gopher.Make | src/gopher.py:20-33 | the constructor's sets agree with the grid, `is_empty` holds exactly on an empty grid, and the stored list is the mover's legal list |
| Gopher.PlayUndo | src/gopher.py:190-221 | `undo` after `play` gives back the state, except that `is_empty` stays cleared |
| Gopher.PlayKeepsValid | src/gopher.py:190-198 | `play` keeps the state well formed and removes exactly one empty cell |
| Gopher.MoveIsPlay | src/gopher.py:96-112 | `move` yields the grid and sets of `play` by the side to move, hands the turn over, and clears `is_empty` |
| Gopher.MoveDrift | src/gopher.py:101-102 | the incremental hash keeps its offset from the Zobrist signature, up to the turn key |
| Gopher.ReplayFacts | src/gopher.py:96-112 | after k legal moves, exactly k empty cells have been filled, and the hash offset depends only on the parity of k |
| Gopher.PathIndependent | src/gopher.py:96-112 | two legal move sequences reaching the same grid have the same length and reach the same hash |
| Gopher.EvaluateTurnView | src/gopher.py:235-237 | seen from either side, the heuristic is the mover's legal count minus the opponent's |
| GameState.GameOverIff | src/gamestate.py:100-108 | a constructed state is over exactly when its side to move has no legal action |
| GameState.PlayKeepsLegalList | src/gamestate.py:67-69 | `play` and `undo` leave the stored legal list, and hence `is_game_over`, unchanged |
| GameState.PlayRestored | src/gamestate.py:188-213 | a legal `play` from a restored state is the same as from the original, and `undo` restores it again |
| GameState.AlphaBetaThreads | src/gamestate.py:179-213 | the in-place search returns the value of the same search without mutation, and leaves the state restored |
| Search.MinimaxOptimal | src/gamestate.py:179-213 | the reference minimax value bounds every child value for its side and is attained by one child |
| Search.AlphaBetaFailSoft | src/gamestate.py:179-213 | for any window a < b, `alphabeta` is fail-soft against minimax: exact inside the window, a bound on the correct side outside it |
| Search.AlphaBetaIsMinimax | src/gamestate.py:179-213 | with the full window, `alphabeta` returns the minimax value |
| Search.AlphaBetaActions | src/gamestate.py:230-267 | with one legal action, it returns that action and an infinite value; otherwise it returns the best child value and every action attaining it, in legal order; the state is restored |
| Search.DepthOneOptimal | src/gamestate.py:230-267 | at depth 1 the child values are the children's minimax values, and the best is the position's minimax value |
| Playout.MoverAlternates | src/dodo.py:124-155 | `turn` opens, `opponent` answers, and the sides alternate |
| Playout.Choice | src/dodo.py:131-137 | `random.choice` returns an element of the list |
| Playout.OptimalPool | src/gamestate.py:230-267 | the set of optimal actions is non-empty and holds only legal actions |
| Playout.Candidates | src/dodo.py:130-137 | an improved playout draws from the optimal actions of `alphabeta_actions_v1`; a plain one draws from the legal list; the pool is non-empty and legal, and the position is untouched |
| Playout.SimulateDodo | src/dodo.py:115-162 | the moves played form a legal game, each drawn from its pool; it ends when the side to move has no action, and that side wins; its length is bounded; the state is restored |
| Playout.SimulateGopher | src/gopher.py:124-176 | as for Dodo, but the side without a move loses; on a bare board no move is made and the opponent wins; the length is at most the number of empty cells |
| Playout.GopherBareBoard | src/gopher.py:134-141 | with `is_empty` cleared first, Red's opening disappears on an empty board, so nobody can move |
| Playout.Simulate | src/dodo.py:115-162 | the winner is a player: the last mover's opponent in Dodo and the last mover in Gopher; the length is the number of half-moves of a whole playout, legal, drawn from the pools and ending with the side to move stuck; the state comes back unchanged |
| Mcts.Argmax | src/mcts.py:18-26 | the index of a maximum, with every earlier element strictly smaller |
| Mcts.ArgmaxUnique | src/mcts.py:18-26 | the first maximal index is the only index with those two properties |
| Mcts.Shuffle | src/mcts.py:86-92 | `random.shuffle` permutes its input |
| Mcts.InitializeActions | src/mcts.py:86-92 | the untried actions are a permutation of the stored legal list |
| Mcts.NewNode | src/mcts.py:42-77 | a new node has no children, no visits and no wins, and its untried actions are a permutation of its legal list |
| Mcts.BooksPartition | src/mcts.py:101-114 | at every node, the untried actions and the children's actions are disjoint, repeat-free, and together exactly the legal actions |
| Mcts.ExpandedHasChildren | src/mcts.py:223-231 | a fully expanded, non-terminal node has a child for `best_child` to choose |
| Mcts.ExpandEffect | src/mcts.py:101-114 | `expand` pops the last untried action and adds a fresh child on the moved state, last among the children; nothing else changes |
| Mcts.ExpandKeepsInv | src/mcts.py:101-114 | `expand` keeps the tree invariant: links, constructed states, the action partition, and wins ≤ visits |
| Mcts.CacheUpdateSound | src/mcts.py:148-162 | the cache entry gains one visit and the reward; the values returned are the updated entry; wins stay within visits |
| Mcts.Rollout | src/mcts.py:134-162 | the reward is 1 exactly when the playout's winner is not the side to move; the game length is that of a whole playout from the node's state; the returned counts are the merged cache entry; no other entry changes |
| Mcts.BackpropagateAlternates | src/mcts.py:173-178 | along the ancestor path every node gains the visits; wins go r, v−r, r, … alternately; every other node is untouched |
| Mcts.BackpropagateKeepsInv | src/mcts.py:173-178 | backpropagating a reward between 0 and the visits keeps the tree invariant |
| Mcts.ExpandKeepsCovered | src/mcts.py:101-114 | `expand` keeps every node's visits at least the total of its children's, each child listed once and linked back to its parent |
| Mcts.BelowChild | src/mcts.py:173-178 | a child of a node lies on the path `backpropagate` climbs exactly when it is the path node just below that node, so at most one child of a node gains visits in one backpropagation |
| Mcts.BackpropagateCoversAt | src/mcts.py:173-178 | after backpropagating visits v ≥ 0, a node still has at least the total of its children's visits |
| Mcts.BackpropagateKeepsCovered | src/mcts.py:173-178 | backpropagation keeps every node's visits at least the total of its children's, with the children's back links |
| Mcts.BestFinalChild | src/mcts.py:211-212 | the chosen child has at least as many visits as every other child |
| Mcts.BestFinalChildFirst | src/mcts.py:211-212 | on ties, the first most-visited child is chosen |
| Mcts.TwoMostVisited | src/mcts.py:286-295 | returns the largest count and the second largest, counting repeats, with minus infinity for what is missing |
| Mcts.TreePolicy | src/mcts.py:223-231 | descends through fully expanded, non-terminal nodes; it stops to expand the first node with untried actions, or at a terminal node; the invariant is kept |
| Mcts.MeanLength | src/mcts.py:277 | the truncated mean game length, but never below 4 |
| Mcts.Iterate | src/mcts.py:247-249 | one iteration keeps the tree and cache invariants, adds at most one node, keeps the states of the nodes already there, and keeps every node's visits at least its children's total; the length returned is that of a whole playout from the state of a node of the tree; expansion and playout read disjoint draws |
| Mcts.RunIterations | src/mcts.py:246-273 | the loop keeps the tree and cache invariants and N(node) ≥ ΣN(children); it runs the whole budget unless the stop test fired at a multiple of 200 simulations; the k-th game length is that of a whole playout from the state of a node of the final tree; the counters are the total of the lengths and one more than their number |
| Mcts.PlayoutsSnoc | src/mcts.py:247-251 | each iteration adds its playout and its length to the record |
| Mcts.RolledFromSnoc | src/mcts.py:247-251 | the recorded playouts stay attached to their nodes while the tree keeps its states |
| Mcts.PerformIterations | src/mcts.py:242-277 | what the loop promises, and the mean returned is the total of the game lengths over the simulation count, which starts at 1, and at least 4 |
| Agents.GenerateSearchers | src/agents.py:102-116 | four fresh searchers with root parallelisation, one without, each rooted at the given state |
| Agents.FreshSound | src/agents.py:102-116 | a fresh searcher satisfies the tree invariant |
| Agents.LastReached | src/agents.py:152-155 | the loop's result is the last child reached by the action, since the loop does not break |
| Agents.Update | src/agents.py:137-155 | an untried action grows a new root under the old one; an explored action makes its child the root and cuts its parent link; otherwise the tree is unchanged |
| Agents.UpdateKeepsSound | src/agents.py:137-155 | `update` keeps the tree invariant |
| Agents.UpdateFollows | src/agents.py:137-155 | for a legal action, the new root differs from the old one, holds the moved position, and was reached by that action |
| Agents.FirstSeen | src/agents.py:323-326 | the scan stops at the first stored action that fits the new grid |
| Agents.DodoSeenOnly | src/agents.py:323-326 | after a Dodo move, that move is the only stored action whose source is now empty and whose target holds the opponent |
| Agents.GopherSeenOnly | src/agents.py:410-413 | after a Gopher move, that cell is the only stored action that now holds the opponent |
| Agents.HasPlayedDetects | src/agents.py:317-328 | when the referee's board is the root position after one legal action, `has_played` recovers that action |
| Agents.BumpGet | src/agents.py:217 | adding n visits for an action changes that action's total by n and no other |
| Agents.Aggregate | src/agents.py:213-218 | each action's tally is the sum of the visits of the root children it reached, across all trees; exactly the actions explored have keys |
| Agents.BestIsMost | src/agents.py:225 | the chosen key has the largest total, and it is the first key with that total |
| Agents.ReturnBestMoveMost | src/agents.py:209-233 | there is no move exactly when no tree explored any action; otherwise the move was explored and has the most total visits |
| Agents.Advance | src/agents.py:232 | every tree is advanced by `update` on the chosen move |

## Left out

- Wall-clock time management in `perform_iterations` is replaced by an iteration budget and a stop oracle, consulted every 200 simulations. The oracle stands in for the floating-point tests of `time_left / time_spent` and the 0.98 win rate. `Mcts.TwoMostVisited` and `Mcts.BestFinalChild` model the quantities those tests read.
- The UCT formula of `best_child` (floats, `np.sqrt`, `np.log`) is a selector parameter. `Mcts.Argmax` models the argmax it feeds.
- Mcts.TwoMostVisited: takes the children's visit counts as a list rather than reading them off a node.
- Mcts.PerformIterations: the visit invariant N(parent) ≥ ΣN(children) is stated as preserved by the search (`Mcts.VisitsCovered`), not as part of the tree invariant `Mcts.Inv`. It needs every listed child to link back to its parent. When `update` in src/agents.py:152-155 makes a child the new root, it cuts that child's parent link while the old root still lists it. From then on the old root no longer gains the visits its former child does.
- The time allocation, `previous_mean_game_length`, and the float average of the mean game lengths in `return_best_move` are not modelled (floating point and the clock).
- Root parallelisation through `ProcessPoolExecutor` is not modelled as concurrency. The trees are taken as they come back from their searches. Each worker process has its own copy of `STATE_CACHE`, so worker updates to the cache are not modelled.
- Agents.ReturnBestMove: the source's `assert len(root_visits) > 0` becomes a `None` result.
- Agents.HasPlayed: cell lookups are total, with a missing cell reading 0, where the source would raise `KeyError`. The lemmas only use it on board grids, where this cannot happen.
- `random.getrandbits(64)` is a list of draws. Keys are not limited to 64 bits. A key generation that runs out of draws gives `None` rather than looping.
- Board.MakeBoard: requires a board side of at least 1 and a state whose cells are on the board. With a cell off the board, the source's `compute_start_hash` raises `KeyError`. The board keeps the corrected start hash rather than the stored `compute_start_hash`. The two differ by the Blue keys of cells listed as empty (`Board.ComputeIsStartHashPlusStray`). So every hash property of the model holds for the corrected hash, and for the stored hash only up to that offset.
- The node fields `player`, `opponent` and `c_param` are not modelled, since nothing in the modelled code reads them except the UCT formula.
- `__str__`, printing, plotting and layout helpers (`get_layout`), the referee and network interface, the command-line entry points and the strategy wrappers around the engines are not modelled.
- Search.AlphaBetaActions: its result is stated against the values its own loop computes (children searched with the narrowing window). It is proved equal to the minimax optimum only at depth 1, the depth the playouts use (`Search.DepthOneOptimal`). At greater depths a narrowed window can make a child's fail-soft value a bound rather than its exact value.
- Playout.GopherBareBoard: Gopher's `simulate_game` clears `is_empty` before generating actions. A playout from an empty board therefore makes no move, and the opponent is declared winner. The search never starts a playout there, so this is recorded as behaviour, not as a finding.

## Findings

| source | as written | input that shows it | evidently intended | confidence | as-written member | corrected member |
|---|---|---|---|---|---|---|
| src/board_utils.py:108-116 | every listed cell that is not Red XORs its Blue key, including empty cells (player 0) | keys {(0,0): (R 1, B 2)} and state [((0,0), 0)]: the hash is 2, the same as for a Blue stone on (0,0), where an empty board should hash to 0 | empty cells contribute nothing, so the start hash is the Zobrist signature that `move` updates incrementally | medium, not executed | Board.ComputeStartHash, Board.EmptyCellCountedAsBlue | Board.StartHash, Base.StartHashIsSig, used by Board.MakeBoard |

The as-written hash differs from the intended one by the same constant in every position reached from a given start. `move` updates the hash incrementally, so equal positions still get equal hashes within one game. The cache lookups therefore do not go wrong, but the start hash of an empty-cell state is not its Zobrist signature.
