# optimal_2048 in Dafny

This project models the two algorithmic parts of `optimal_2048`, a solver for the 2048 sliding-tile puzzle, and proves properties of the model:

- the `GameBoard` of `src/game_utils.rs`: a 4x4 grid of tiles, moved in place, with a random tile spawned after every move that changes the board;
- the best-first search of `src/a_star_search.rs`:
  - a priority heap of `QueueItem`s, a closed set and a `came_from` parent map;
  - the `heuristic` that ranks boards;
  - `reconstruct_path`, which walks the parent links back to the start.

## Files

- `line_rules.dfy` (`LineRules`): one line of four cells, read in the direction the tiles travel.
  - Compaction: the non-zero tiles go first.
  - The first-pair merge.
  - One pass: merge, then compact again.
  - `SlideLine`: compaction, then three passes, as the move loops do.
  - Conservation, shape, idempotence and cascade lemmas.
- `line_steps.dfy` (`LineSteps`): the steps that the in-place loops take through a line, each as a lemma.
- `grid.dfy` (`Grid`): the board as a value.
  - A `Board` is 16 naturals in row-major order, with 0 for an empty cell.
  - Directions and the `make_move` name dispatch.
  - The index map that turns each move into the same loops over "line k, position p": a row left to right, a row right to left, a column top down, a column bottom up.
  - Tile totals per line.
- `spawn.dfy` (`Spawning`): `spawn_new_tile` as a value function.
  - The row-major list of empty cells.
  - An explicit `SpawnChoice` in place of the random draws.
- `moves.dfy` (`Moves`): a whole move on values.
  - The slide of all four lines.
  - The `moved` flag.
  - The spawn.
  - `make_move`, `get_possible_new_states` and `new`.
- `game_utils.dfy` (`GameUtils`): the class `GameBoard`, holding its grid in an `array2<nat>`. Each loop of the source is a method proved against the value functions above.
- `scoring.dfy` (`Scoring`): `heuristic` as a specification function, plus the nested-loop method that computes it.
- `search_rules.dfy` (`SearchRules`): the rules of the search as values.
  - The `QueueItem` order and what the heap pops.
  - The neighbours of one expansion.
  - The entries pushed and the links written.
  - The invariant the search keeps, and runs of pops.
  - The path that the parent links spell out.
- `a_star_search.dfy` (`AStarSearch`): the search loop, one expansion, and `reconstruct_path`, all as methods.

## How the model reads the source

- **Board values.** A board is a `seq<nat>` of 16 cells.
  - `HashSet<GameBoard>` becomes `set<Board>`.
  - `HashMap<GameBoard, (GameBoard, String)>` becomes `map<Board, Link>`.
  - The heap becomes `seq<QueueItem>`.
  - Equality of boards is equality of values, as the derived `Eq`/`Hash` on the grid make it.
- **One move method.** `move_left`, `move_right`, `move_up` and `move_down` are the same loops, differing only in the order they visit cells. `GameBoard.Move(d, c)` runs those loops once, over positions 0..3 of each line k, and reaches each grid cell through `LineRow`/`LineCol`.
- **Randomness.** The random draws are a `SpawnChoice(toChange, prob)`. It is valid when `toChange` is below the number of empty cells and `1 <= prob <= 10`, the ranges `gen_range` promises. Every property about moves holds for all valid choices.
  - In the search, the source of draws is a function `Chooser` of the board and the direction. `Draw` clamps it into the valid ranges.
  - The search closes a board before expanding it, so each (board, direction) pair is drawn at most once per run. A function of the pair therefore loses no generality there.
- **The heap's order.** `QueueItem::cmp` compares costs the other way round. The heap holds `Reverse(item)`, which flips the order a second time. So `BinaryHeap::pop` returns an entry of **largest** cost. The model pops any index `k` with `IsHeapTop(open, k)`, which `HeapTopIsMaxCost` shows are exactly the entries of largest cost.
- **A step bound.** The search runs with a step bound `fuel` and reports `Found(path)`, `Exhausted` (the open set is empty) or `OutOfFuel`.
- **Runs of the search.** One pass of the loop that pops entry k and does not return is the function `Pop` on a `SearchState` (open set, closed set, `came_from`).
  - A run is a sequence of states from the start state, each the `Pop` of the one before at an entry of largest cost whose board is not a goal.
  - `Search` returns its run as ghost outputs. `RunExpandsOnce` and `RunKeepsInv` hold of every run.
  - `Pop` takes the neighbour function as a parameter. The search passes `SearchNeighbours(rng)`, the loop over `POSSIBLE_MOVES`.

## Model

| member | source | states |
|---|---|---|
| Grid.IsGoalCharacterization | src/game_utils.rs:55-60 | the goal test holds exactly when some cell (i, j) of the grid holds the goal tile |
| GameUtils.GameBoard.HasGoal | src/game_utils.rs:55-60 | `is_goal` on the array holds exactly when the goal is one of the board's tiles |
| Grid.DirName | src/game_utils.rs:2 | each name in `POSSIBLE_MOVES` is dispatched by `make_move` to its own direction |
| Grid.ParseDirOnlyNames | src/game_utils.rs:66-72 | only the four names "left", "right", "down", "up" are directions; each is the name of the direction it selects |
| LineRules.NonZeros | src/game_utils.rs:80-90 | the tiles kept by the compaction loop: as many as the line's non-zero cells, with the same total (their order is `NonZerosKeepsOrder`) |
| LineRules.NonZerosKeepsOrder | src/game_utils.rs:80-90 | the kept tiles are the line's own tiles in their order: the tile at position i comes right after the tiles before it |
| LineRules.CompactShape | src/game_utils.rs:80-90 | compaction keeps the length, the tile total and the tile count, and leaves every tile before every empty cell; the tiles are `NonZeros`, in the line's order by `NonZerosKeepsOrder` |
| LineRules.CompactIdentity | src/game_utils.rs:80-90 | compaction leaves a line unchanged exactly when the line is already compacted |
| LineRules.FirstPairSpec | src/game_utils.rs:92-99 | the pair the merge loop finds is the first equal non-zero neighbours in scan order; none is found exactly when there is no such pair |
| LineRules.MergeFirstShape | src/game_utils.rs:92-99 | one merge keeps the tile total and removes exactly one tile when a pair exists; with no pair the line is unchanged |
| LineRules.PairNeedsTwo | src/game_utils.rs:93 | a line with a mergeable pair has at least two tiles |
| LineRules.PassShape | src/game_utils.rs:91-111 | a merge-then-compact pass keeps the tile total, loses one tile per merge, and leaves the line compacted |
| LineRules.PassQuiet | src/game_utils.rs:91-111 | on a compacted line with no pair, a pass changes nothing and sets no flag |
| LineRules.SlidePasses | src/game_utils.rs:79-111 | a slide is one compaction followed by exactly three merge passes |
| LineRules.SlideLineConserves | src/game_utils.rs:79-111 | sliding a line keeps its length and tile total; it lowers the tile count by exactly the number of merges and never raises it; the result is compacted |
| LineRules.SlideLineNoPair | src/game_utils.rs:91-111 | after the three passes, no two neighbouring cells of a 4-cell line are equal tiles |
| LineRules.SlideMovedIffChanged | src/game_utils.rs:78-111 | the `moved` flag of a line is raised exactly when the slide changed the line |
| LineRules.SlideMovedLeavesGap | src/game_utils.rs:78-111 | a line whose slide moved something has an empty cell afterwards |
| LineRules.SlideLineIdempotent | src/game_utils.rs:79-111 | sliding the slid line again changes nothing and raises no flag |
| LineRules.CascadeExample | src/game_utils.rs:91-111 | merges cascade: `[a, a, 2a, 0]` slides to `[4a, 0, 0, 0]` (so `[2, 2, 4, 0]` gives `[8, 0, 0, 0]`) |
| LineRules.CascadeExampleFull | src/game_utils.rs:91-111 | `[a, a, a, a]` slides to `[4a, 0, 0, 0]` (so `[2, 2, 2, 2]` gives `[8, 0, 0, 0]`) |
| Grid.LineIndices | src/game_utils.rs:74-243 | line k of each direction visits row k left to right, row k right to left, column k top down, or column k bottom up |
| Grid.LinesPartition | src/game_utils.rs:79 | in every direction the four lines partition the grid: their totals and tile counts add up to the board's |
| Grid.LineUpdate | src/game_utils.rs:84-85 | writing a cell changes that one position of its own line and no other line |
| Grid.AssembleLines | src/game_utils.rs:79 | rebuilding a board from four lines and reading its lines back in the same direction gives those lines |
| Spawning.EmptyCellsSpec | src/game_utils.rs:258-265 | `positions` lists exactly the empty cells, each once, in row-major order, and has 16 minus the tile count entries |
| Spawning.SpawnOnFullBoard | src/game_utils.rs:266-267 | with no empty cell the spawn changes nothing |
| Spawning.SpawnOneCell | src/game_utils.rs:266-278 | otherwise only the `to_change`-th empty cell changes, to 2 when `prob > 1` and to 4 when `prob == 1`; the total rises by that value and the tile count by one |
| Spawning.ChoicesOnEmpty | src/game_utils.rs:11-18 | on the empty grid, the first draw may pick any of 16 cells and the second any of 15 |
| Moves.SlideBoardLines | src/game_utils.rs:79-112 | the slide of a board slides each of its lines independently |
| Moves.SlideBoardTotals | src/game_utils.rs:74-112 | sliding a board keeps its tile total and never adds a tile |
| Moves.SlideBoardShape | src/game_utils.rs:74-112 | after the slide, every line keeps its own total, is compacted and has no two equal neighbouring tiles |
| Moves.MovedIffChanged | src/game_utils.rs:78-112 | the `moved` flag of a move is raised exactly when the slide changed the board |
| Moves.SlideBoardIdempotent | src/game_utils.rs:74-112 | sliding the slid board again in the same direction changes nothing and raises no flag |
| Moves.MovedLeavesEmptyCell | src/game_utils.rs:113 | a move that returns true has an empty cell for the spawn |
| Moves.NotMovedUnchanged | src/game_utils.rs:113-114 | a move that returns false leaves the board exactly as it was and spawns nothing |
| Moves.MovedSpawnsOne | src/game_utils.rs:113 | a successful move raises the tile total by exactly the spawned 2 or 4, adds one tile to the slid board, and changes the board |
| Moves.ApplyMove | src/game_utils.rs:62-73 | an unknown name returns false and leaves the board unchanged; a move returns true exactly when the board changed |
| Moves.ApplyMoveByName | src/game_utils.rs:66-72 | `make_move` with a direction's name is the slide and spawn for that direction |
| Moves.NewStatesKept | src/game_utils.rs:44-51 | the boards pushed for the first n directions are the move results whose `make_move` returned true |
| Moves.MovedIndicesSpec | src/game_utils.rs:44-51 | the directions listed are exactly those below n that move the board, in increasing order |
| Moves.NewStatesUpToSpec | src/game_utils.rs:44-51 | the first n directions push one board per direction that moves, in `POSSIBLE_MOVES` order: the k-th is `MoveResult` of the k-th such direction with its draw, and its total is larger by the spawned 2 or 4 |
| Moves.NewStatesUpToEmpty | src/game_utils.rs:44-51 | nothing is pushed exactly when none of the first n directions moves |
| Moves.PossibleNewStatesSpec | src/game_utils.rs:40-53 | one new state per direction that moves (so at most four), in the order up, left, down, right; the k-th is the result of the k-th such move with its draw; each has a total larger by the spawned tile and differs from the board; none exactly when no direction moves |
| Moves.NewBoardChoices | src/game_utils.rs:11-18 | the draws `new` accepts are those valid for its first spawn on the empty grid and its second spawn after it |
| Moves.NewBoardTiles | src/game_utils.rs:11-18 | `new` yields exactly two tiles, each 2 or 4, and empty cells elsewhere |
| GameUtils.GameBoard.New | src/game_utils.rs:11-18 | builds the all-empty grid and spawns twice: the board holds `NewBoard(c1, c2)` |
| GameUtils.GameBoard.Copy | src/game_utils.rs:245-252 | the copy is a new object with its own array holding the same cells |
| GameUtils.GameBoard.WriteAt | src/game_utils.rs:84-85 | writing position p of line k changes that position of that line and no other line |
| GameUtils.GameBoard.CompactCell | src/game_utils.rs:82-89 | one step of the compaction loop extends the compacted prefix by cell i; its flag is raised exactly when a tile moves to `target` |
| GameUtils.GameBoard.CompactInPlace | src/game_utils.rs:80-90 | the compaction loop leaves the line compacted and raises its flag exactly when the line changed; other lines stay unchanged |
| GameUtils.GameBoard.MergePairAt | src/game_utils.rs:94-95 | doubles position i of the line and empties position i+1; other lines stay unchanged |
| GameUtils.GameBoard.MergeFirstInPlace | src/game_utils.rs:92-99 | the merge loop merges the first pair and stops, raising its flag exactly when a pair existed; other lines stay unchanged |
| GameUtils.GameBoard.SlideLineInPlace | src/game_utils.rs:80-111 | the loops for one row or column leave `SlideLine` of it, and raise the flag exactly when its slide moved |
| GameUtils.GameBoard.SlideAll | src/game_utils.rs:78-112 | all four lines slid: the grid holds `SlideBoard` of the old one, and `moved` is the move's flag |
| GameUtils.GameBoard.Move | src/game_utils.rs:74-115 | a `move_*` function: the grid holds `MoveResult` of the old one, and the result is the `moved` flag |
| GameUtils.GameBoard.MakeMove | src/game_utils.rs:62-73 | the result and the new grid are those of `ApplyMove` on the old grid |
| GameUtils.GameBoard.SpawnNewTile | src/game_utils.rs:254-279 | builds `positions` with two nested loops and writes one cell: the grid holds `Spawn` of the old one |
| GameUtils.GameBoard.MovedCopy | src/game_utils.rs:46-47 | a fresh copy moved in direction d: success is that move's flag and the copy holds `MoveResult` |
| GameUtils.GameBoard.AddMovedCopy | src/game_utils.rs:45-51 | one iteration keeps the list of copies matched to `NewStatesUpTo` and appends exactly when the move succeeded |
| GameUtils.GameBoard.GetPossibleNewStates | src/game_utils.rs:40-53 | fresh, valid boards, one per moved direction, in the order up, left, down, right: exactly `PossibleNewStates` |
| Scoring.MaxTile | src/a_star_search.rs:71 | the largest tile: no cell is larger and it is one of the cells (0 when there are none) |
| Scoring.AcrossParts | src/a_star_search.rs:80-101 | lines 80-82, 88-90 and 99-101: a horizontal pair adds its gap to smoothness when both cells hold tiles; it adds the saturating drop to monotonicity when the left cell holds a tile; it adds one merge when the two cells hold equal tiles |
| Scoring.BelowParts | src/a_star_search.rs:83-98 | lines 83-85, 91-93 and 96-98: the same three rules for a vertical pair |
| Scoring.MergesBound | src/a_star_search.rs:95-101 | the merge count is at most 24, the number of neighbour pairs |
| Scoring.HeuristicBounds | src/a_star_search.rs:104-113 | the corner term is 0 or 1, merges are at most 24, and the score is at least the empty cells plus 25 times the corner term |
| Scoring.AllEmptyHeuristic | src/a_star_search.rs:70-113 | the all-empty board scores 41: a corner bonus of 25 plus 16 empty cells |
| Scoring.TransposePairs | src/a_star_search.rs:77-103 | each of the three pair sums is unchanged by transposing the grid |
| Scoring.TransposeCorner | src/a_star_search.rs:104-112 | the largest tile and the corner term are unchanged by transposing the grid |
| Scoring.TransposeHeuristic | src/a_star_search.rs:70-113 | the score is unchanged by transposing the grid |
| Scoring.CountEmpty | src/a_star_search.rs:72 | counting the zero cells of the array gives the number of empty cells |
| Scoring.AddPairs | src/a_star_search.rs:79-101 | one iteration of the inner loop adds cell (i, j)'s horizontal and vertical pair scores to the three sums |
| Scoring.Heuristic | src/a_star_search.rs:70-113 | the nested loops compute `25*corner + empty + 2*merges + 2*monotonicity + 2*smoothness` of the board |
| SearchRules.CompareNat | src/a_star_search.rs:28 | `cmp` on unsigned integers is less, equal or greater exactly as the numbers compare |
| SearchRules.QueueCmp | src/a_star_search.rs:20-30 | `QueueItem` ordering is reversed cost: the cheaper entry is the greater; it is equal exactly when `eq` holds |
| SearchRules.HeapCmp | src/a_star_search.rs:36 | inside `Reverse`, entries compare by plain cost |
| SearchRules.HeapTopIsMaxCost | src/a_star_search.rs:36-42 | an entry the heap may pop is exactly one of largest cost |
| SearchRules.OrderIgnoresBoards | src/a_star_search.rs:14-30 | the order and the equality look at costs only, not at moves or boards |
| SearchRules.TopIndex | src/a_star_search.rs:42 | a non-empty heap always has an entry to pop |
| SearchRules.Draw | src/game_utils.rs:268-270 | the draws used are in the valid ranges, and a draw already in range is used as it is |
| SearchRules.OutcomeGrows | src/game_utils.rs:113 | a board reached by a successful move has a strictly larger total than its parent |
| SearchRules.SuccessorsAreOutcomes | src/a_star_search.rs:54-57 | each neighbour of an expansion is an outcome of a successful move of the current board, under its direction's name |
| SearchRules.StuckHasNoSuccessors | src/a_star_search.rs:54-57 | a board that no direction moves has no neighbours |
| SearchRules.SuccessorsKept | src/a_star_search.rs:54-57 | the neighbours of the first n directions are the candidate move results, one per direction, kept exactly where `make_move` returned true |
| SearchRules.SuccessorsSpec | src/a_star_search.rs:54-57 | the neighbours are exactly one per direction of `POSSIBLE_MOVES` whose `make_move` succeeds, in that order: the k-th is the k-th such move's board with its draw, under that direction's name |
| SearchRules.MovesAreSuccessors | src/a_star_search.rs:54-57 | the converse of `SuccessorsAreOutcomes`: every direction whose move succeeds yields its board, under its name, as a neighbour |
| SearchRules.PushedFromNeighbours | src/a_star_search.rs:57-63 | every pushed entry is the `Entry` of a neighbour not yet closed |
| SearchRules.NeighboursPushed | src/a_star_search.rs:57-63 | every neighbour not yet closed has its `Entry` pushed |
| SearchRules.PushedEntries | src/a_star_search.rs:57-63 | an entry is pushed exactly when it is the `Entry` of a neighbour not yet closed: that neighbour's board, `moves_made + 1` moves, and cost `heuristic(&neighbor) + moves_made + 1` |
| SearchRules.InitialInv | src/a_star_search.rs:36-40 | the invariant holds for the start entry `(0, 0, start)` with an empty closed set and parent map |
| SearchRules.CloseKeepsInv | src/a_star_search.rs:45-50 | popping a non-goal board and closing it keeps the invariant |
| SearchRules.SkipKeepsInv | src/a_star_search.rs:50-52 | popping a board that is already closed keeps the invariant |
| SearchRules.LinksOkAdd | src/a_star_search.rs:64 | a new or overwritten link from a closed board, by one of its moves, keeps every link valid |
| SearchRules.LinkedKeys | src/a_star_search.rs:58-64 | every neighbour not yet closed has a link afterwards, and no link is lost |
| SearchRules.LinkedFrame | src/a_star_search.rs:58-64 | a board that is closed or not a neighbour keeps its link, or stays unlinked: no other key is added and no other entry changes |
| SearchRules.LinkedLast | src/a_star_search.rs:58-64 | an unclosed neighbour's link is `(current, direction)` from its last occurrence among the neighbours, so a later insert overwrites an earlier one |
| SearchRules.LinkedOk | src/a_star_search.rs:54-67 | every link written by an expansion runs from a closed board by a successful move |
| SearchRules.PushedOk | src/a_star_search.rs:58-64 | every pushed entry has a linked board, at least one move, and cost the heuristic plus its moves (the exact entries are `PushedEntries`) |
| SearchRules.ExpandKeepsInv | src/a_star_search.rs:54-67 | one expansion keeps the invariant |
| SearchRules.LinksOkDecreasing | src/a_star_search.rs:120-123 | every link the search writes points to a parent of strictly smaller total, so the walk back ends |
| SearchRules.Reversed | src/a_star_search.rs:125 | `path.reverse()`: the same length, element i taken from the other end |
| SearchRules.PathToLinks | src/a_star_search.rs:116-125 | the reconstructed path ends at the board; each step is a linked board with its link's direction; each step's parent is the previous board; the first parent has no link; the path is empty exactly when the board has no link |
| SearchRules.PathFromStart | src/a_star_search.rs:116-125 | from a board the search linked, the path runs from the start by successful moves, ends at the board, and is empty exactly for the start |
| SearchRules.OneLinkPath | src/a_star_search.rs:116-125 | with A of smaller total than B, from `{B: (A, "up")}` with A unlinked, the path to B is `[(B, "up")]` |
| SearchRules.SearchNeighboursOk | src/a_star_search.rs:54-57 | every neighbour the search's expansion finds is an outcome of a successful move |
| SearchRules.PopKeepsInv | src/a_star_search.rs:42-67 | one pass of the loop, skipping or expanding, keeps the search invariant |
| SearchRules.RunKeepsInv | src/a_star_search.rs:42-68 | every state of a run keeps the invariant: links are successful moves from closed boards, no closed board holds the goal, every entry costs the heuristic plus its moves |
| SearchRules.RunExpandsOnce | src/a_star_search.rs:45-52 | along any run the closed set is the set of expanded boards; no board is expanded twice, none expanded holds the goal, and at most one board is expanded per pop |
| AStarSearch.Expand | src/a_star_search.rs:54-67 | the loop over `POSSIBLE_MOVES` pushes exactly the entries `Pushed` and writes exactly the links `Linked` for the board's neighbours, the neighbours being those of `SuccessorsSpec` and the links those of `LinkedFrame` and `LinkedLast` |
| AStarSearch.ReconstructPath | src/a_star_search.rs:116-125 | collecting boards back along the links, then reversing, gives `PathTo` |
| AStarSearch.LoopFound | src/a_star_search.rs:45-48 | a popped goal board has a path from the start by successful moves ending at a goal; it is empty when the start is a goal |
| AStarSearch.LoopSkip | src/a_star_search.rs:50-52 | skipping a closed board keeps the loop invariant |
| AStarSearch.LoopExpand | src/a_star_search.rs:50-67 | closing and expanding a board keeps the loop invariant |
| AStarSearch.LoopExit | src/a_star_search.rs:42 | at loop exit, a start holding the goal was caught at the first pop, and a stuck start empties the heap |
| AStarSearch.Search | src/a_star_search.rs:32-69 | a found path runs from the start by successful moves to a goal board; a start holding the goal gives the empty path; a stuck, non-goal start exhausts the heap; the ghost `states` and `picks` are a run of the loop (so `RunExpandsOnce` and `RunKeepsInv` apply) with at most `fuel` pops, ending with an empty heap, with the fuel spent, or with a popped goal board whose `PathTo` is the returned path |

## Left out

- Printing: `print_pretty`, the commented-out `reconstruct_path` in `src/game_utils.rs`, and every `println!` in `src/a_star_search.rs`. `reconstruct_path` returns its path instead of printing it and the move count.
- `src/main.rs` (command-line parsing, timing, console output, and calls to board counters it does not define) is not part of this model.
- Randomness: `thread_rng` and the 9:1 odds of a 2 against a 4. The draws are explicit `SpawnChoice` parameters or a `Chooser` function. The properties hold for every valid draw and say nothing about probabilities.
- Integer widths: tiles and scores are unbounded `nat`. The `u64` overflow of the merge `*= 2`, of the heuristic's sums and of `cost` is not modelled. Neither is the `i64` cast in the smoothness term, which differs from the model only for tiles of 2^63 or more.
- The internals of `BinaryHeap`, `HashSet` and `HashMap`. The heap is a sequence that pops some entry of largest cost, not `BinaryHeap`'s particular choice among ties; the closed set is a set; `came_from` is a map.
- Search termination: the source loops until the heap is empty. The model stops after `fuel` pops and then reports `OutOfFuel`. Nothing is claimed about optimality or completeness.
- Search outcome: the source returns silently when the heap runs empty. The model reports `Exhausted`.
- `partial_cmp` wraps `cmp` in `Some`; one function, `QueueCmp`, models both.
- Heap entries and `came_from` hold board values rather than `GameBoard` objects. Each neighbour is still moved on a fresh `GameBoard` object (`AStarSearch.Expand`).
- AStarSearch.ReconstructPath: requires that the parent links strictly lower the tile total (`Decreasing`). On a cyclic map the source's walk would not end. The search proves that its own map meets this requirement (`SearchRules.LinksOkDecreasing`).
- GameUtils.GameBoard.GetPossibleNewStates: takes one draw per direction, in the valid ranges, instead of drawing inside each spawn.
- The doc comment of `spawn_new_tile` speaks of two new tiles; the code spawns one, and so does the model.
