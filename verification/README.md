# Sokoban environment, level loader, search node and A* log: a Dafny model

This project models the C++ core of a Sokoban reinforcement-learning environment. The model has
four parts:

- **The environment physics** (`SokobanEnv` in `sokoban_envpool.cc`), module `Physics`:
  - bounds-safe cell reads and writes, where everything off the room reads as wall;
  - the `Reset` scan, which finds the player and counts the boxes not yet on a target;
  - the single-action `Step`, which rewrites a three-cell "arena" ahead of the player;
  - the channel-major colour planes that `WriteState` produces.
- **The level loader** (`level_loader.cc`), module `LevelLoader`:
  - `AddLine`, which maps characters to tiles;
  - the room-splitting loop of `LoadFile` and its choice between sequential and random files;
  - `PrintLevel` with its key string;
  - the `GetLevel` cursor with its load cap.
- **The A\* search node** (`sokoban_node.h`/`sokoban_node.cc`), module `SearchNode`:
  - the grid constructor, which classifies the player, boxes, goals and walls;
  - the coordinate constructor and `compute_unmatched_boxes`;
  - `check_wall`, the goal node, and child generation with pushes;
  - `GetSuccessors`, `IsSameState`, `Hash`, `IsGoal`, the Manhattan heuristic and the unit cost.
- **The A\* logging runner** (`astar_log_level.cc`), module `AStarLog`:
  - the file index taken from the level file's name;
  - the levels skipped before the searched one;
  - the check that a solution path follows the move deltas;
  - the CSV row written for each outcome of the search.

Supporting modules:

- `Tiles` holds the seven tile codes and the cell-count facts.
- `Positions` holds the `(x, y)` pairs, their row-major index and `std::pair` ordering, and the sort used by `Hash`.
- `Wrappers` holds `Option` and `Result`.

Every `throw` and failed `assert` of the code is an `Err` value with its own error case.

Tile codes are WALL=0, EMPTY=1, TARGET=2, BOX_ON_TARGET=3, BOX=4, PLAYER=5 and PLAYER_ON_TARGET=6. BOX_ON_TARGET and PLAYER_ON_TARGET are placed by the order of the colour table and of the printer's key `"# .a$@s"`. Action 0 is the no-op, actions 1 to 4 push and actions 5 to 8 move, so `ACT_PUSH_RIGHT` is 4.

Where the code and its comments disagree, the model follows the code:

- The box-move condition of `Step` is modelled as written (see Findings). `StepUnder` also takes the rule the comment describes, and the step lemmas hold under both rules.
- `AddLine` tests the first character twice and never tests the last.
- The room loop checks the length of every row of a room except the first, whose wall count sets the width. A room with a longer first row can still be accepted (`FirstRowUnchecked`), and it then does not print back as its lines.
- `GetLevel` throws "Loaded all requested levels." once the cap is reached. It neither loops around nor shards levels across workers.
- `IsGoal` reads the stored unmatched counter.
- `get_child_node` (`sokoban_node.cc:136-137`) returns `SokobanNode(new_player_x, new_player_y, new_boxes, goals, walls, this)`. That is six arguments for a seven-parameter constructor whose first parameter is `dim_room`. As written, the arguments shift by one place (`new_player_x` into `dim_room`, `new_boxes` into `player_y`), so the call does not type-check. The model builds the child with the parent's `dim_room` and the new player and boxes, as evidently intended.

## Model

| member | source | states |
|---|---|---|
| Tiles.FromCode | envpool/sokoban/level_loader.h:12-16 | each of the seven byte codes names exactly one tile (its code reads back) |
| Tiles.CodeRoundTrip | envpool/sokoban/level_loader.h:12-16 | no two tiles share a code: reading a tile's code back gives the tile |
| Physics.WorldAt | envpool/sokoban/sokoban_envpool.cc:36-41 | any coordinate off the room reads as WALL; inside, the cell at x + y·dim is read |
| Physics.WorldAssignAt | envpool/sokoban/sokoban_envpool.cc:42-47 | a write off the room is dropped; inside, only the cell at x + y·dim changes |
| Physics.ReadAfterWrite | envpool/sokoban/sokoban_envpool.cc:36-47 | reading a cell after a write sees the written tile at the written cell and the old tile everywhere else |
| Physics.Reset | envpool/sokoban/sokoban_envpool.cc:11-34 | refused iff the level is not dim² cells; otherwise the unmatched counter is the number of plain BOX tiles and the player is on the last PLAYER cell of the column-by-column scan (or keeps its old place when there is none) |
| Physics.Step | envpool/sokoban/sokoban_envpool.cc:49-116 | the no-op changes nothing; any other action either changes nothing or moves the player by exactly its direction; from a live state (counter = number of BOX tiles, player on a player tile) the next state is live and has the same walls and numbers of box-like and target-like tiles |
| Physics.StepUnder | envpool/sokoban/sokoban_envpool.cc:52-57 | the no-op action leaves the whole state unchanged |
| Physics.DirectionTable | envpool/sokoban/sokoban_envpool.cc:49-62 | actions 1 to 4 go up, down, left and right, and actions a and a + 4 share their direction |
| Physics.AsWrittenPushesOnlyOntoTargets | envpool/sokoban/sokoban_envpool.cc:72-77 | as written, a box moves iff the action is a push, the next cell holds a box and the cell behind it is a TARGET; the "empty" disjunct never holds |
| Physics.BoxLandsOnFloor | envpool/sokoban/sokoban_envpool.cc:72-77 | under either rule a moving box lands on an empty or target cell inside the room, never on a wall or another box |
| Physics.PlayerMoveRule | envpool/sokoban/sokoban_envpool.cc:81-116 | the player moves by exactly the action's direction iff the cell ahead is EMPTY or TARGET or its box moves; otherwise nothing changes |
| Physics.StepPreservesInvariant | envpool/sokoban/sokoban_envpool.cc:85-116 | under either push rule, a step keeps the counter equal to the number of BOX tiles and the player on a player tile; it conserves box-like tiles, target-like tiles and every WALL; only the three arena cells change |
| Physics.UnmatchedNeverIncreases | envpool/sokoban/sokoban_envpool.cc:98-107 | as written, a step never increases the number of boxes off target |
| Physics.IntendedPushMovesBox | envpool/sokoban/sokoban_envpool.cc:72-77 | under the rule the comment describes, a push into a box with an empty cell behind moves box and player by one |
| Physics.PushOntoEmptyIsBlocked | envpool/sokoban/sokoban_envpool.cc:74-77 | as written, pushing a box toward an empty cell leaves the state unchanged |
| Physics.PushOntoEmptyIntended | envpool/sokoban/sokoban_envpool.cc:72-77 | under the intended rule the same push moves the box onto the empty cell |
| Physics.PlaneAt | envpool/sokoban/sokoban_envpool.cc:148-154 | channel c of cell i sits at c·|world| + i in the channel-major planes |
| Physics.WriteState | envpool/sokoban/sokoban_envpool.cc:136-156 | refused iff the observation size is not 3·|world|; otherwise out[c·dim² + i] is the colour of cell i on channel c, for every c < 3 and cell i |
| LevelLoader.ParseChar | envpool/sokoban/level_loader.cc:44-67 | exactly the five characters `#@$. ` name a tile, and each names a tile a file can hold |
| LevelLoader.KeyInvertsParse | envpool/sokoban/level_loader.cc:33 | printing a parsed character with the key string gives the character back |
| LevelLoader.ParseInvertsKey | envpool/sokoban/level_loader.cc:33 | parsing the printed character of a parseable tile gives the tile back |
| LevelLoader.AddLine | envpool/sokoban/level_loader.cc:35-69 | accepted iff the line is non-empty, starts with '#' and every character parses; then exactly one tile per character is appended in order; otherwise the error names the offending line or character |
| LevelLoader.AddLineIgnoresLastChar | envpool/sokoban/level_loader.cc:37-38 | a row that ends in floor instead of wall is accepted, because the end is never tested |
| LevelLoader.RoomAt | envpool/sokoban/level_loader.cc:105-133 | a room's width is the number of '#' in its first row; an accepted room is square with width² cells of parseable tiles; failures are bad characters, irregular rows or non-square rooms |
| LevelLoader.ReadRoom | envpool/sokoban/level_loader.cc:118-126 | the room rows are read until a line that does not start with '#'; each must have the announced width, or the error carries the width and the offending line |
| LevelLoader.ParseRooms | envpool/sokoban/level_loader.cc:98-135 | every room of a file is a valid square room; only parse failures can refuse a file |
| LevelLoader.ReadRoomReads | envpool/sokoban/level_loader.cc:118-126 | the rows after a room's first are exactly the run of lines starting with '#'; the read succeeds iff each has the announced width and parses, appends their tiles row after row, and resumes after the line that ended the run |
| LevelLoader.RoomAtReads | envpool/sokoban/level_loader.cc:105-133 | a room is accepted iff its first row parses, the later rows of its run fit the width counted in the first, and the rows make width² cells; the room is then the tiles of its rows, row after row |
| LevelLoader.ParseRoomsReads | envpool/sokoban/level_loader.cc:98-135 | the file's rooms are the rooms read at each room start, in file order; the file is accepted iff every one of them is, and is otherwise refused with the error of one of them |
| LevelLoader.ParsedRoomTiles | envpool/sokoban/level_loader.cc:98-135 | each room of an accepted file is the tiles of its run of '#' lines, row after row |
| LevelLoader.FirstRowUnchecked | envpool/sokoban/level_loader.cc:105-126 | the first row's length is never checked: the lines "#.#.#." and "###" make an accepted 3 x 3 room that prints as three rows of three, not as the file's lines |
| LevelLoader.SkippedLinesIgnored | envpool/sokoban/level_loader.cc:100-105 | blank lines and lines that do not start with '#' before a room change nothing in the parse |
| LevelLoader.IrregularRowRefused | envpool/sokoban/level_loader.cc:119-123 | a row longer than the announced width is refused with that row and width |
| LevelLoader.NonSquareRoomRefused | envpool/sokoban/level_loader.cc:128-133 | rows of the announced width that do not make a square room are refused with the size and width |
| LevelLoader.RoomDim | envpool/sokoban/level_loader.cc:72-74 | the printer's width is the least d ≤ 100 with d·d = size, or 101 when there is none |
| LevelLoader.PrintLevel | envpool/sokoban/level_loader.cc:71-81 | with its line breaks taken out, the printed text is the key of every cell in order |
| LevelLoader.PrintParsedRoom | envpool/sokoban/level_loader.cc:71-81 | round trip: d rows of width d ≤ 101 whose characters parse, concatenated, print back as the rows, each ended by a newline |
| LevelLoader.PrintLoadedRoom | envpool/sokoban/level_loader.cc:71-81 | round trip over the loader: an accepted room whose first row is as long as its wall count (at most 101) prints back as the lines it was read from |
| LevelLoader.Shuffle | envpool/sokoban/level_loader.cc:136-138 | the random-mode room order is a permutation of the parsed rooms |
| LevelLoader.LoadFile | envpool/sokoban/level_loader.cc:83-143 | sequential mode takes the files in list order and fails with NoMoreFiles once exhausted; random mode reads the drawn file and holds a permutation of its rooms; an empty parse fails with NoLevels |
| LevelLoader.GetLevel | envpool/sokoban/level_loader.cc:157-173 | refused iff the cap is positive and reached; otherwise returns the room under the cursor, moves the cursor by one and counts one more load; a file is loaded only when the cursor is at the end |
| LevelLoader.GetLevelReloads | envpool/sokoban/level_loader.cc:162-172 | at the end of the loaded rooms and below the cap, the result is the load's error, or the first room of the loaded file with the cursor on the second and one more load counted |
| LevelLoader.CapBoundsRun | envpool/sokoban/level_loader.cc:159-161 | with a positive cap, no run of requests is served more rooms than the cap leaves |
| LevelLoader.SequentialServesFileOrder | envpool/sokoban/level_loader.cc:157-172 | a fresh sequential loader without a cap serves the first file's rooms in file order |
| Positions.PosOfIndex | envpool/sokoban/sokoban_node.h:27-29 | the row-major index x + y·dim and the coordinate (k mod dim, k div dim) are inverse on the board |
| Positions.SortIsTheSortedArrangement | envpool/sokoban/sokoban_node.cc:183-184 | every sorted listing of a set of boxes is the one the sort produces |
| Positions.SortIgnoresOrder | envpool/sokoban/sokoban_node.cc:183-184 | sorting two listings of the same boxes gives the same sequence |
| SearchNode.GridNode | envpool/sokoban/sokoban_node.h:24-58 | walls[k] iff cell k is WALL; total = number of box listings = number of box-like cells; goals are the target-like cells; the unmatched counter is the number of plain BOX cells |
| SearchNode.FromGrid | envpool/sokoban/sokoban_node.h:24-61 | refused iff the world is shorter than dim² (the checked read) or the box and goal counts differ (the constructor's assertion) |
| SearchNode.GridBoxesAndGoals | envpool/sokoban/sokoban_node.h:34-51 | a coordinate is listed as a box iff its cell holds BOX or BOX_ON_TARGET, and as a goal iff it holds TARGET, BOX_ON_TARGET or PLAYER_ON_TARGET |
| SearchNode.GridBoxesDistinct | envpool/sokoban/sokoban_node.h:27-38 | the scan lists no box cell twice |
| SearchNode.GridScanOrder | envpool/sokoban/sokoban_node.h:27-51 | boxes and goals are listed in the order of the y-outer, x-inner scan, by strictly increasing row-major index; together with the membership rule this leaves exactly one possible listing |
| SearchNode.GridPlayer | envpool/sokoban/sokoban_node.h:29-51 | the player is on the last PLAYER or PLAYER_ON_TARGET cell of the row-by-row scan |
| SearchNode.ComputeUnmatched | envpool/sokoban/sokoban_node.cc:79-91 | the result lies between 0 and the box count, and is 0 iff every box lies on a goal |
| SearchNode.MakeNode | envpool/sokoban/sokoban_node.h:65-78 | the coordinate constructor keeps the given lists, sets total to the box count and the counter to `compute_unmatched_boxes` |
| SearchNode.GridNodeCounted | envpool/sokoban/sokoban_node.h:29-38 | for a grid-built node the stored counter equals what `compute_unmatched_boxes` computes |
| SearchNode.GridNodeSound | envpool/sokoban/sokoban_node.h:24-58 | a node built from a grid with a player cell lists no box twice, no box on a wall or off the board, and no box under the player |
| SearchNode.CheckWall | envpool/sokoban/sokoban_node.cc:93-98 | every coordinate off the board is a wall; on the board the answer is the wall bit of the cell x + y·dim |
| SearchNode.GridCheckWall | envpool/sokoban/sokoban_node.cc:93-98 | `check_wall` holds iff the coordinate is off the board or its cell is WALL |
| SearchNode.IsGoal | envpool/sokoban/sokoban_node.cc:192 | with consistent counters, a node is a goal iff every box lies on a goal |
| SearchNode.GetGoalNode | envpool/sokoban/sokoban_node.cc:100-102 | the goal node puts the boxes on the goals, keeps player and walls, and is a goal |
| SearchNode.GetChild | envpool/sokoban/sokoban_node.cc:104-138 | a move into a wall, off the board, or into a box whose next cell is a wall, off the board or another box returns the node unchanged; otherwise the player moves by the delta, only the first box at the destination moves by the delta, goals and walls are kept and the parent is this node |
| SearchNode.ChildMovesOneBox | envpool/sokoban/sokoban_node.cc:113-133 | at most one box moves, by exactly the delta, and only the one the player walks into |
| SearchNode.ChildStaysSound | envpool/sokoban/sokoban_node.cc:114-133 | when boxes are distinct, off walls and not under the player, the child keeps all three |
| SearchNode.ReachedNodesSound | envpool/sokoban/sokoban_node.cc:104-138 | every node reached by child steps from a grid-built node with a player cell keeps its boxes distinct, off walls and not under the player |
| SearchNode.GetSuccessors | envpool/sokoban/sokoban_node.cc:210-223 | the result is exactly the children of the moves whose child differs from this node and the parent, in `delta` order: each returned node is `Child(n, k)` for an increasing list of moves `k` that contains every such move; each is a real move with this node as parent |
| SearchNode.KeepPicks | envpool/sokoban/sokoban_node.cc:212-222 | skipping the refused candidates keeps exactly the accepted ones, in their original order: the result is the candidates at an increasing list of positions that contains every accepted position |
| SearchNode.IsSameState | envpool/sokoban/sokoban_node.cc:165-176 | equal iff same player and this node's boxes are, in order, the first boxes of the other; a checked read past the other's boxes is an error |
| SearchNode.Hash | envpool/sokoban/sokoban_node.cc:178-190 | the hash is the mixing of the player with the sorted listing of the boxes, whichever sorted listing is taken |
| SearchNode.HashIgnoresBoxOrder | envpool/sokoban/sokoban_node.cc:178-190 | the hash depends only on the player and the multiset of boxes |
| SearchNode.SameStateHashesAlike | envpool/sokoban/sokoban_node.cc:165-190 | nodes `IsSameState` equates with as many boxes hash alike |
| SearchNode.IsSameStateSeesBoxOrder | envpool/sokoban/sokoban_node.cc:165-190 | two listings of the same boxes in different order hash alike but are not the same state |
| SearchNode.NearestGoal | envpool/sokoban/sokoban_node.cc:197-202 | the minimum Manhattan distance from a box to the goals is attained by some goal and below all others |
| SearchNode.GoalDistanceEstimate | envpool/sokoban/sokoban_node.cc:194-206 | with goals present, the estimate is the least total Manhattan distance over all ways of sending each box to some goal: some assignment attains it and none goes below it; it is 0 iff every box lies on a goal |
| SearchNode.SumAttained | envpool/sokoban/sokoban_node.cc:196-204 | sending every box to a goal at its minimum distance gives an assignment whose total distance is the per-box sum |
| SearchNode.GetCost | envpool/sokoban/sokoban_node.cc:208 | every move costs exactly one, whatever the two nodes |
| AStarLog.FileIdx | envpool/sokoban/astar_log_level.cc:32-34 | the file index holds no separator and no dot |
| AStarLog.FileIdxOfPath | envpool/sokoban/astar_log_level.cc:32-34 | a name made of a directory ending in '/' or '\\' (or none), a stem, and an extension starting with '.' (or none) has the stem as its index |
| AStarLog.FileIdxExample | envpool/sokoban/astar_log_level.cc:32-34 | the file `train\000.txt` has the index `000` |
| AStarLog.PickLevel | envpool/sokoban/astar_log_level.cc:38-44 | exactly max(0, level_to_run) rooms are drawn and discarded before the searched one, which is the logged level index; with enough rooms in the first file the searched room is the one at that position |
| AStarLog.CheckPath | envpool/sokoban/astar_log_level.cc:63-84 | stops iff some action is outside 0..3 or has no delta, at the first such node; otherwise the digits are the actions in path order, steps is the path length, and the solution is correct iff every node is the previous position plus its action's delta |
| AStarLog.WalkFollows | envpool/sokoban/astar_log_level.cc:76-81 | a path walked through the delta table passes the consistency check at every node |
| AStarLog.DecimalRoundTrip | envpool/sokoban/astar_log_level.cc:86-90 | numbers are written in decimal digits that read back as the number |
| AStarLog.SolvedFields | envpool/sokoban/astar_log_level.cc:58-90 | the success row holds file index, level index, digits, then the step count, or INCORRECT_SOLUTION_FOUND exactly when the check failed, then the search steps |
| AStarLog.StoppedFields | envpool/sokoban/astar_log_level.cc:92-117 | a non-success row holds level index, the state's label, -1 and the search steps |
| AStarLog.StateLabelDetermines | envpool/sokoban/astar_log_level.cc:92-117 | the label tells the named states apart; every unrecognised state is labelled UNKNOWN |
| AStarLog.SolvedRowFields | envpool/sokoban/astar_log_level.cc:58-90 | a success row splits at its commas back into its five fields when the file index holds no comma |
| AStarLog.StoppedRowFields | envpool/sokoban/astar_log_level.cc:92-117 | a non-success row splits back into its four fields |
| AStarLog.LogRow | envpool/sokoban/astar_log_level.cc:58-117 | a non-success state gives its stopped row; a success gives no row when the path check aborts, and otherwise the solved row whose report holds the path length, one digit per action in path order, and the correctness flag that holds iff every node follows its action's delta |

## Left out

- Reward arithmetic (`sokoban_envpool.cc:118-122`) is left out because it is floating point. `Step` returns only the new state.
- The RGB values of `TINY_COLORS` are not modelled: the colour table is a `Palette` parameter of `WriteState`.
- `IsDone` and the environment's stub header, apart from the action range 0..8, are not modelled.
- Filesystem and stream I/O are not modelled. A file is its `seq<string>` of lines, and the loader's file list is given. The `directory_iterator` order is unspecified.
- AStarLog.PickLevel takes the loader's file list as given. In the code, `RunAStar` passes `level_file_name` to the `LevelLoader` constructor, which lists it with `directory_iterator` (level_loader.cc:27). So the name must be a directory, and a plain file such as `train\000.txt` throws before any level is picked. The file index is then the stem of that directory's name, not of the file the room comes from.
- Verbose printing in `LoadFile` is not modelled. At level 2 it reads `levels.at(1)` and throws on one-room files.
- The random number generator is an oracle `Draw`. It supplies the file index (reduced into range) and the positions `std::shuffle` swaps with (Fisher–Yates). The distribution is not modelled.
- The external A\* search is not part of this model. This covers open/closed lists, `SearchStep`, `AddSuccessor`, solution iteration and memory handling. `GetSuccessors` returns the list of children it would add, and the runner's path is given as a sequence of nodes.
- SearchNode.Hash: the numeric mixing (397, `std::hash<int>`, size_t wrap-around) is a function parameter applied to the player and the sorted boxes.
- SearchNode.GoalDistanceEstimate: uses exact integers and requires a non-empty goal list. The float maximum that the code adds per box when there are no goals is not modelled.
- SearchNode.CheckWall requires the wall bitmap to cover the board. The out-of-range `walls.at` throw for a smaller bitmap is not modelled.
- SearchNode.GetSuccessors compares children with the node and the parent by player and box list. `operator==` is not defined in the code shown. The function has no return value in the code.
- SearchNode.FromGrid models the constructor's `assert(total_boxes == goals.size())` as the `UnbalancedGoals` error.
- `dim_room` is a natural number; negative widths are not modelled.
- AStarLog.CheckPath takes the delta table as a parameter, since `kDelta` and `action_from_parent` are not in the code shown.
- AStarLog.SearchState: the numeric values of the search states belong to the external search library; any other value is `Unrecognised`.
- Loader and node state after a thrown exception is not modelled; an error ends the operation.
- Concurrency of the environment pool, the Python bindings and the command-line drivers (`main` functions, `astar_log.cc`, `sokoban_astar_test.cc`) are not modelled.

## Findings

| source | as written | input that shows it | evidently intended | confidence | as-written member | corrected member |
|---|---|---|---|---|---|---|
| envpool/sokoban/sokoban_envpool.cc:74-77 | the box moves only if `arena[1]` is a box and (`arena[1] == EMPTY` or `arena[2] == TARGET`); the first disjunct contradicts the box test, so a box can only be pushed onto a target | player at (0,0), box at (1,0), empty cell at (2,0), action 4 (push right): nothing moves | the box moves when the cell behind it is EMPTY or TARGET ("has space to move") | high; not executed | Physics.PushOntoEmptyIsBlocked | Physics.PushOntoEmptyIntended |
