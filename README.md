# CatchHubi — a Dafny model of the game core

CatchHubi is a cooperative board game for two to four players. Two rabbits and
two mice move on a 4x4 board of creature tiles, and hidden walls stand between
the tiles. The walls are external walls, free passages, mouse holes, rabbit
windows, plain walls and magic doors. The players find the magic door between
two of them and open it. Opening it wakes the ghost Hubi. Hubi then wanders
the board until two players meet on its tile.

This project models the game's model layer in Dafny and proves properties of
it. It covers the TypeScript revision (`src/ts/models`) and the older
JavaScript revision (`js/models`) wherever the two differ:

- **Values.** Players, directions, tiles, hints and the game constants are
  datatypes and functions: `players.dfy`, `directions.dfy`, `tiles.dfy`,
  `hints.dfy`, `constants.dfy` and `grid.dfy`.
- **Walls** (`walls.dfy`). The `Wall` class has the type cycle of the editor,
  the toggle of a magic door, and opening and revealing.
- **Board** (`boards.dfy`). The `Board` class has the tile layout, the two 5x5
  wall arrays and the wall lookup between two cells.
- **Wall generator.** It is split in three:
  - `graphs.dfy` covers the internal edge list, the Fisher-Yates shuffle and
    the breadth-first component search;
  - `spanning_trees.dfy` covers the union-find spanning tree. It is proved
    equal to a Kruskal fold and proved to be a spanning tree of the grid;
  - `wall_plans.dfy` and `wall_generator.dfy` cover one generation attempt as
    a plan on values: the primary door, the extra doors, the boundary walls,
    the fill loop and the connectivity check. They also cover writing the
    plan into the board's walls and the retry loop.
- **Ghost** (`ghosts.dfy`). The `Ghost` class has `spawn` and `maybeMove`.
- **Phase machine** (`game_state.dfy`). The `GameState` class runs
  NO_STATE → SELECTING_PLAYERS → SELECTING_FIRST_PLAYER → PLAYING_BEFORE_DOOR
  → PLAYING_WITH_HUBI → WON.
- **Game** (`games.dfy` for the TypeScript game, `legacy_games.dfy` for the
  JavaScript game). This covers turns, hints and `moveCurrentPlayer`.

Things the source leaves to the runtime become parameters or nondeterministic
choices:

- Every `Math.random()` choice is a nondeterministic choice: the shuffle
  partner, the spawn tile, the ghost's neighbour, and the coin on a boundary
  edge. The one exception is the ghost's draw, which is a parameter
  `draw` in [0, 1).
- The ghost's probabilities are whole percentages.
- `checkGameOverCondition` is a predicate `gameOver` on the turn count, given
  to the game's constructor.
- Narrator and audio calls have no effect on the model state and are dropped.

`src/ts/models/GameState.ts` is not part of this model. Both games use the
phase machine of `js/models/GameState.js`; the TypeScript `Game` calls the
same methods on it.

## Model

| member | source | states |
|---|---|---|
| Constants.MagicDoorCount | src/ts/models/WallGenerator.ts:11-13 | one magic door on EASY, three on HARD, and always between 1 and 3 |
| Constants.GhostStartPercent | src/ts/Constants.ts:4-8 | the ghost's start probability is exactly 10, 15 and 20 percent for EASY, MEDIUM and HARD |
| Constants.GhostIncrementPercent | src/ts/Constants.ts:9-13 | the probability grows by 5 percent per failed move for every difficulty |
| Grid.NodeOf | src/ts/models/WallGenerator.ts:218-219 | a grid cell's node number r * 4 + c lies in 0..15 |
| Grid.CellOf | src/ts/models/WallGenerator.ts:218-219 | every node number 0..15 is the number of exactly one grid cell (inverse of NodeOf) |
| Grid.NodeOfInjective | src/ts/models/WallGenerator.ts:218-219 | distinct grid cells get distinct node numbers |
| Directions.DRow | src/ts/models/Direction.ts:26-35 | the row delta is -1 exactly for NORTH, 1 exactly for SOUTH, otherwise 0 |
| Directions.DCol | src/ts/models/Direction.ts:37-46 | the column delta is 1 exactly for EAST, -1 exactly for WEST, otherwise 0 |
| Directions.GetDirection | src/ts/models/Direction.ts:7-18 | a direction is returned iff exactly one delta is non-zero (error otherwise); it is a named direction with the deltas' signs |
| Directions.GetDirectionJs | js/models/Direction.js:7-17 | null exactly for (0, 0), undefined exactly when both deltas are non-zero, otherwise the TypeScript result |
| Directions.UnitVectors | src/ts/models/Direction.ts:26-46 | the four named directions are exactly the unit vectors N=(-1,0), S=(1,0), E=(0,1), W=(0,-1); any other instance is (0,0) |
| Directions.DirectionRoundTrip | src/ts/models/Direction.ts:7-46 | getDirection(dRow(d), dCol(d)) == d for every named direction, in both revisions |
| Directions.GetDirectionSignOnly | src/ts/models/Direction.ts:7-18 | getDirection depends only on the signs of its arguments, in both revisions |
| Players.Identities | src/ts/models/Player.ts:14-17 | the four players are the four declared colour/species pairs, blue and green rabbits, yellow and red mice; a colour identifies the player |
| Players.StartCellsInGrid | src/ts/models/Player.ts:40-59 | every starting corner is on the board |
| Players.StartColumns | src/ts/models/Player.ts:40-59 | rabbits start in column 0, mice in column 3, all in row 0 or 3 |
| Players.StartCellsDistinct | src/ts/models/Player.ts:40-59 | two players share a starting corner iff they are the same player |
| Players.NameInjective | src/ts/models/Player.ts:28 | the name `${color}_${type}` identifies the player |
| Players.Capitalize | src/ts/models/Player.ts:61-63 | on ASCII input: same length; the first character is upper-cased and the rest kept; the empty string stays empty |
| Players.CapitalizeIdempotent | src/ts/models/Player.ts:61-63 | capitalising twice is capitalising once |
| Players.Positions.Moved | src/ts/models/Game.ts:125-126 | the moved player stands on the new cell and every other player stays where they were |
| Players.Occupied | src/ts/models/Game.ts:55-57 | a cell is occupied iff getPlayersAt on it is non-empty |
| Players.OccupiedSize | src/ts/models/Game.ts:55-57 | no more cells are occupied than there are registered players |
| Players.PlayerCount | src/ts/models/Game.ts:41-49 | there are four players, so at most four are registered |
| Tiles.CreatureNameInjective | src/ts/models/Tile.ts:1-6 | distinct creature types have distinct names |
| Hints.HintLevels | src/ts/models/DoorHint.ts:15-45 | on EASY every hint is `${color}_${type}` of its tile, on other difficulties only `${type}`, for both door creatures and for the ghost hint |
| Hints.PartialIsSuffix | src/ts/models/DoorHint.ts:31-45 | the partial name is a proper suffix of the full name |
| Hints.HintIndependence | src/ts/models/DoorHint.ts:15-29 | each door-hint getter reads only its own creature; below EASY the colour does not matter |
| Hints.NamesIdentify | src/ts/models/GhostHint.ts:21-27 | a full name identifies creature and colour, a partial name exactly the creature |
| Walls.TypeCycleLength | src/ts/models/Wall.ts:34-58 | the type order NO_WALL → MOUSE_HOLE → … → MAGIC_DOOR → NO_WALL has period exactly six |
| Walls.CycleStep | src/ts/models/Wall.ts:34-58 | cycleState leaves external walls alone; on internal walls it advances the type, keeps revealed, and clears isOpen exactly when leaving MAGIC_DOOR |
| Walls.SixCycles | src/ts/models/Wall.ts:34-58 | six cycleState calls on an internal wall restore it with the door closed, so the cycle is periodic |
| Walls.ToggleInvolution | src/ts/models/Wall.ts:60-66 | toggleOpen is an involution, changes only internal magic doors, and never the type or revealed flag |
| Walls.Wall.constructor | src/ts/models/Wall.ts:24-32 | a new wall is NO_WALL, closed, and revealed exactly when external |
| Walls.Wall.CycleState | src/ts/models/Wall.ts:34-58 | the new state is one step of the type cycle (see CycleStep) |
| Walls.Wall.ToggleOpen | src/ts/models/Wall.ts:60-66 | the new state is the toggle of the old (see ToggleInvolution) |
| Walls.Wall.Open | src/ts/models/Wall.ts:68-70 | the wall is open afterwards; nothing else changes |
| Walls.Wall.Reveal | src/ts/models/Wall.ts:72-74 | the wall is revealed afterwards; nothing else changes |
| Boards.TileLayout | src/ts/models/Board.ts:25-36 | rows 0-1 copy the creature table face up, rows 2-3 its half-turn face down; a tile is white iff row and column have the same parity |
| Boards.HalfTurnSymmetry | src/ts/models/Board.ts:25-36 | opposite tiles show the same creature in the same colour on opposite faces |
| Boards.Board.constructor | src/ts/models/Board.ts:22-51 | the board is laid out: tiles as in TileLayout, 5x5 arrays of new walls, no magic doors yet |
| Boards.Board.NewWallArray | src/ts/models/Board.ts:38-51 | a fresh 5x5 array of new walls, each at its own position, external exactly on the outer rows/columns |
| Boards.Board.GetWallBetween | src/ts/models/Board.ts:58-65 | same row → vertical wall at the larger column; same column → horizontal wall at the larger row; otherwise an error; a found wall is the board's wall at that place |
| Boards.Board.GetWallBetweenJs | js/models/Board.js:47-53 | undefined when the cells share neither row nor column, otherwise the TypeScript result |
| Boards.Board.GetTilesOnBothSides | src/ts/models/Board.ts:67-73 | the tile above / left of the wall, then the tile below / right |
| Boards.Board.GetCell | src/ts/models/Board.ts:75-77 | the tile at (r, c), which knows its own position |
| Boards.Board.GetCreature | src/ts/models/Board.ts:79-81 | the tile under the entity's position |
| Boards.Board.AdjacentRoundTrip | src/ts/models/Board.ts:58-73 | for adjacent cells the lookup is symmetric, finds an internal wall, and that wall's two tiles are exactly the two cells |
| Boards.Board.UnitStepFindsWall | src/ts/models/Board.ts:58-65 | a unit step from the board always finds a wall, external exactly when the step leaves the board |
| Graphs.InternalEdgesAreGridEdges | src/ts/models/WallGenerator.ts:178-191 | the edge list has 24 distinct edges, exactly the internal edges of the grid, row edges first |
| Graphs.GetAllInternalEdges | src/ts/models/WallGenerator.ts:178-191 | the loops build exactly that edge list |
| Graphs.Shuffle | src/ts/models/WallGenerator.ts:193-198 | whatever the random choices, the array ends as a permutation of itself |
| Graphs.PermutationFacts | src/ts/models/WallGenerator.ts:193-198 | a permutation keeps length, membership and distinctness |
| Graphs.ComponentUnique | src/ts/models/WallGenerator.ts:225-249 | a node's component (least closed node set containing it) is unique |
| Graphs.ComponentSize | src/ts/models/WallGenerator.ts:251-283 | node 0's component has 16 nodes iff the edges connect every node |
| Graphs.AdjSound | src/ts/models/WallGenerator.ts:226-232 | every neighbour in the adjacency list lies in any closed set containing the node |
| Graphs.AdjComplete | src/ts/models/WallGenerator.ts:226-232 | each edge puts each end in the other end's list |
| Graphs.AdjNodes | src/ts/models/WallGenerator.ts:226-232 | adjacency lists hold node numbers only |
| Graphs.Adjacency | src/ts/models/WallGenerator.ts:226-232 | the loop builds each node's neighbour list in push order |
| Graphs.VisitNeighbours | src/ts/models/WallGenerator.ts:240-245 | every unvisited neighbour is marked and queued once, and the queue stays duplicate-free |
| Graphs.GetComponent | src/ts/models/WallGenerator.ts:225-249 | the breadth-first search returns exactly the component of start |
| Graphs.GridConnected | src/ts/models/WallGenerator.ts:178-191 | any edge list holding all internal edges connects the 16 tiles |
| SpanningTrees.Kruskal | src/ts/models/WallGenerator.ts:200-223 | after n edges there is one accept flag per edge and every node has a label in 0..15 |
| SpanningTrees.RelabelLabelSet | src/ts/models/WallGenerator.ts:208-216 | a union of two distinct classes removes exactly one class |
| SpanningTrees.KruskalSelects | src/ts/models/WallGenerator.ts:217-222 | the tree is the input's edges selected by the accept flags, in order |
| SpanningTrees.KruskalCount | src/ts/models/WallGenerator.ts:200-223 | tree edges plus classes always make 16, so no tree edge closes a cycle |
| SpanningTrees.KruskalInside | src/ts/models/WallGenerator.ts:200-223 | every processed edge has both ends in one class |
| SpanningTrees.KruskalConnected | src/ts/models/WallGenerator.ts:200-223 | every class is connected by tree edges |
| SpanningTrees.ClassClosed | src/ts/models/WallGenerator.ts:200-223 | a final class is closed under all input edges |
| SpanningTrees.SpanningForest | src/ts/models/WallGenerator.ts:200-223 | the tree is a subsequence of the input with the same components, acyclic, and its classes are its components |
| SpanningTrees.SpanningTreeOfGrid | src/ts/models/WallGenerator.ts:30-32 | on a shuffled grid edge list the tree has 15 edges and connects all 16 tiles |
| SpanningTrees.OneClass | src/ts/models/WallGenerator.ts:200-223 | on a connected input every node ends in node 0's class |
| SpanningTrees.Find | src/ts/models/WallGenerator.ts:203-207 | find with path compression returns the class root and keeps the union-find invariant |
| SpanningTrees.Union | src/ts/models/WallGenerator.ts:208-216 | union merges iff the classes differ, relabelling one class as the other |
| SpanningTrees.BuildSpanningTree | src/ts/models/WallGenerator.ts:200-223 | the union-find loop returns exactly Kruskal's tree |
| WallPlans.BudgetCoversEdges | src/ts/models/WallGenerator.ts:75 | for 1-3 doors the counters (2 W, 4 R, 4 M, 14-k F, k D) are non-negative and sum to the 24 edges |
| WallPlans.TakeOne | src/ts/models/WallGenerator.ts:112-142 | using one letter lowers exactly that counter by one |
| WallPlans.KindOfKeys | src/ts/models/WallGenerator.ts:76 | with distinct keys, the assignment map returns each edge's own letter and nothing for other edges |
| WallPlans.DoorsAreDKeys | src/ts/models/WallGenerator.ts:149-156 | the door list is duplicate-free and holds exactly the edges assigned D |
| WallPlans.FillChoice | src/ts/models/WallGenerator.ts:112-142 | the fill picks a letter with budget left, never D, never W on a boundary edge, and picks none only when no such letter remains |
| WallPlans.FillChoiceFollowsPriority | src/ts/models/WallGenerator.ts:112-142 | the pick is the first available letter of the order: boundary M/R (coin; JS always M first) then F; tree F, R, M, W; other W, M, R, F |
| WallPlans.ChoiceWhenBudgetLeft | src/ts/models/WallGenerator.ts:112-142 | with units left, no doors left and no W when on the boundary, the fill always picks a letter |
| WallPlans.Fill | src/ts/models/WallGenerator.ts:112-142 | each used unit lands in the assignment; no D; no W on the boundary; keys stay distinct; an exactly-fitting budget assigns every edge and spends every counter |
| WallPlans.TreeFirstSorts | src/ts/models/WallGenerator.ts:106-110 | the stable sort is a permutation that puts every tree edge before every other edge |
| WallPlans.BoundaryMembers | src/ts/models/WallGenerator.ts:60-68 | the boundary is exactly the edges other than the door that cross the cut, without duplicates |
| WallPlans.BoundaryEdges | src/ts/models/WallGenerator.ts:60-68 | the loop collects exactly that boundary |
| WallPlans.ExtraDoors | src/ts/models/WallGenerator.ts:85-92 | the first k-1 shuffled boundary edges become doors and leave the boundary; the door counter reaches 0 |
| WallPlans.BoundaryWalls | src/ts/models/WallGenerator.ts:95-100 | the next min(W, boundary) edges become walls and W drops by as many |
| WallPlans.UnassignedCount | src/ts/models/WallGenerator.ts:103 | the unassigned edges are the rest of the list |
| WallPlans.StagedCounts | src/ts/models/WallGenerator.ts:78-100 | before the fill there are k doors (the primary one first) and n walls |
| WallPlans.StagedDistinct | src/ts/models/WallGenerator.ts:78-100 | the staged edges are distinct edges of the list; with fewer than 2 walls, the whole boundary is staged |
| WallPlans.SpentBudget | src/ts/models/WallGenerator.ts:75-142 | once every counter is spent, each letter was used exactly as budgeted |
| WallPlans.Shuffled | src/ts/models/WallGenerator.ts:85 | the shuffled boundary is a permutation of the boundary |
| WallPlans.StageDoorsAndWalls | src/ts/models/WallGenerator.ts:58-100 | the boundary is BoundaryOf; the attempt goes on iff the boundary can take the extra doors (retry otherwise); the staged doors and walls are as StagedCounts says |
| WallPlans.FillReady | src/ts/models/WallGenerator.ts:103-142 | before the fill the counters hold exactly one unit per unassigned edge, no doors, and W only when no boundary edge remains |
| WallPlans.FilledAssignment | src/ts/models/WallGenerator.ts:70-142 | after the fill every internal edge has exactly one letter in the budgeted numbers; the primary door is first and the other doors are boundary edges |
| WallPlans.AssignKinds | src/ts/models/WallGenerator.ts:70-142 | steps 2-3 of an attempt yield a complete assignment with k doors whenever the boundary can take the extra doors |
| WallPlans.CheckConnectivity | src/ts/models/WallGenerator.ts:251-283 | true iff the edges passable for that species connect all 16 tiles |
| WallPlans.RemoveAtMembers | src/ts/models/WallGenerator.ts:38-39 | splicing out edge i leaves exactly the other tree edges |
| WallPlans.FindPrimaryDoor | src/ts/models/WallGenerator.ts:37-56 | returns the first tree edge whose removal separates the rabbit starts from the mouse starts, or reports that none does |
| WallPlans.DoorCrossesCut | src/ts/models/WallGenerator.ts:37-56 | the primary door crosses its cut, and the tree without it is no longer connected |
| WallPlans.Attempt | src/ts/models/WallGenerator.ts:15-147 | one pass is accepted iff a cut exists, the boundary can take the extra doors and both species reach every tile; an accepted assignment is complete |
| WallGenerator.KindType | src/ts/models/WallGenerator.ts:285-293 | every letter gives a wall type other than NO_WALL, and MAGIC_DOOR exactly for D |
| WallGenerator.BoardWallFacts | src/ts/models/Board.ts:38-51 | a board wall is between two tiles iff it stands on an internal edge, and then it is not external |
| WallGenerator.EdgeDeterminesWall | src/ts/models/Board.ts:38-51 | one wall object per internal edge |
| WallGenerator.BoardEdgesIdentify | src/ts/models/Board.ts:38-51 | the same, for the whole board |
| WallGenerator.LookupFindsEdgeWall | src/ts/models/WallGenerator.ts:151 | the lookup on an internal edge's tiles finds the internal board wall standing on that edge |
| WallGenerator.ApplyTypeToWall | src/ts/models/WallGenerator.ts:285-293 | the wall gets the letter's type, and a new magic door is closed |
| WallGenerator.ResetOne | src/ts/models/WallGenerator.ts:168-174 | an internal wall becomes WALL and an external one is unchanged |
| WallGenerator.ResetRow | src/ts/models/WallGenerator.ts:167-174 | the same for one row of one array, all other walls unchanged |
| WallGenerator.ResetArray | src/ts/models/WallGenerator.ts:166-175 | the same for one array, the other array unchanged |
| WallGenerator.ResetWalls | src/ts/models/WallGenerator.ts:165-176 | every internal wall becomes WALL; external walls and every flag are unchanged |
| WallGenerator.Apply | src/ts/models/WallGenerator.ts:149-156 | each assigned edge's wall gets its letter's type; the new doors are appended to magicDoors in assignment order; unassigned walls are unchanged |
| WallGenerator.ApplyNext | src/ts/models/WallGenerator.ts:150-156 | one pass moves the walls one assignment entry further |
| WallGenerator.ApplyPair | src/ts/models/WallGenerator.ts:151-155 | looks up the edge's wall, types it, and appends it to magicDoors iff it became a door; no other wall changes |
| WallGenerator.ApplyStep | src/ts/models/WallGenerator.ts:150-156 | after one pass every wall is as applying the prefix one entry longer gives |
| WallGenerator.CompleteAssignsAll | src/ts/models/WallGenerator.ts:70-142 | a complete plan gives every internal edge a letter |
| WallGenerator.DoorWalls | src/ts/models/WallGenerator.ts:149-156 | the realised door walls are distinct closed MAGIC_DOORs between tiles, and no other internal wall is one |
| WallGenerator.GenerateOnce | src/ts/models/WallGenerator.ts:15-159 | one retry pass resets the internal walls; on acceptance the plan is Accepted, magicDoors are exactly its door walls, and every wall is in the plan's state |
| WallGenerator.ApplyFresh | src/ts/models/WallGenerator.ts:148-157 | empty magicDoors, then apply: the doors are exactly the plan's |
| WallGenerator.PlacedDoors | src/ts/models/WallGenerator.ts:149-156 | the realised door walls are placed as the plan's k doors |
| WallGenerator.Generate | src/ts/models/WallGenerator.ts:6-163 | at most 10000 attempts with the difficulty's door count; success writes an Accepted plan into the walls; failure leaves the internal walls reset and magicDoors unchanged |
| WallGenerator.ResetWallsJs | js/models/WallGenerator.js:263-272 | the JS reset changes no wall |
| WallGenerator.GenerateOnceJs | js/models/WallGenerator.js:7-166 | one JS pass: one door and the JS fill order; on acceptance the door wall is appended to magicDoors, which is not emptied first |
| WallGenerator.GenerateJs | js/models/WallGenerator.js:2-170 | the JS retry loop: as Generate with one door and no reset |
| WallGenerator.NewWalls | src/ts/models/Board.ts:38-51 | every wall of a new board is NO_WALL, closed, revealed iff external |
| WallGenerator.BoardGeometry | src/ts/models/Board.ts:38-51 | the walls between two tiles are exactly those on internal edges, and none is external |
| WallGenerator.GeneratedFromNew | src/ts/models/Board.ts:22-55 | after generation from new walls: all closed, revealed iff external, external NO_WALL, each wall between tiles typed by the plan, other internal walls WALL |
| WallGenerator.GeneratedFromNewJs | js/models/Board.js:11-44 | the same for the JS generator, with untouched walls left NO_WALL |
| WallGenerator.NewBoard | src/ts/models/Board.ts:14-55 | a new board's walls are generated for the difficulty, as GeneratedFromNew says; success places the Accepted plan's doors |
| WallGenerator.NewBoardJs | js/models/Board.js:2-44 | the same for the JS board with one door |
| Ghosts.FreeOf | src/ts/models/Ghost.ts:30-39 | the kept cells are exactly the free cells of the input |
| Ghosts.FreeOfSnoc | src/ts/models/Ghost.ts:30-39 | scanning one more cell appends it iff it is free |
| Ghosts.GridCells | src/ts/models/Ghost.ts:30-31 | the scan visits 16 cells |
| Ghosts.GridCellAt | src/ts/models/Ghost.ts:30-31 | cell (r, c) is visited at position r * 4 + c |
| Ghosts.GridVisit | src/ts/models/Ghost.ts:30-39 | one step of the row-major scan adds the cell iff it is unoccupied |
| Ghosts.FreeTilesMembers | src/ts/models/Ghost.ts:30-39 | the spawn candidates are exactly the unoccupied tiles |
| Ghosts.TargetsAreNeighbours | src/ts/models/Ghost.ts:66-70 | the eight offsets reach exactly the king-move neighbourhood |
| Ghosts.KingMovesMembers | src/ts/models/Ghost.ts:66-86 | the move candidates are exactly the free, on-board king-move neighbours |
| Ghosts.FreeTileExists | src/ts/models/Ghost.ts:41-48 | with fewer than 16 occupied cells spawn always finds a tile |
| Ghosts.Bumped | src/ts/models/Ghost.ts:57 | the grown probability is capped at 100, is the sum otherwise, and never decreases |
| Ghosts.StayPossible | src/ts/models/Ghost.ts:55 | some draw keeps the ghost in place iff its probability is below 100 percent |
| Ghosts.CollectFreeTiles | src/ts/models/Ghost.ts:30-39 | the loop collects exactly the free tiles in row-major order |
| Ghosts.CollectKingMoves | src/ts/models/Ghost.ts:66-86 | the loop collects exactly the free king moves in offset order |
| Ghosts.Ghost.constructor | src/ts/models/Ghost.ts:16-24 | off the board, inactive, probability 0, start and increment from the difficulty tables |
| Ghosts.Ghost.Legacy | js/models/Ghost.js:2-10 | the same with the JS scalar constants 10 and 5 percent (the corrected JS ghost) |
| Ghosts.Ghost.Spawn | src/ts/models/Ghost.ts:26-49 | an active ghost is unchanged; an inactive one becomes active on a free tile with the start probability, iff a free tile exists |
| Ghosts.Ghost.MaybeMove | src/ts/models/Ghost.ts:51-99 | inactive: nothing; draw above the probability: stay and grow it (capped); otherwise reset it and step to a free king-move neighbour, or stay when there is none |
| Ghosts.Ghost.SpawnAsWritten | js/models/Ghost.js:12-35 | as written: the ghost is placed and activated, then the call throws and the probability stays unset, breaking the ghost's invariant |
| Ghosts.Ghost.MaybeMoveAsWritten | js/models/Ghost.js:37-85 | as written: an active ghost always throws and never moves |
| GameStates.PhaseOrder | js/models/GameState.js:93-108 | phases are totally ordered; WON is last and the only phase that is over; it is neither playing nor Hubi-awake; Hubi awake implies playing |
| GameStates.GameState.constructor | js/models/GameState.js:11-15 | a new phase machine is in NO_STATE |
| GameStates.GameState.Init | js/models/GameState.js:17-20 | init goes to SELECTING_PLAYERS from any phase |
| GameStates.GameState.SelectFirstPlayer | js/models/GameState.js:22-29 | advances iff in SELECTING_PLAYERS with a rabbit and a mouse registered; never moves back |
| GameStates.GameState.StartGame | js/models/GameState.js:31-39 | advances iff in SELECTING_FIRST_PLAYER with a first player chosen; never moves back |
| GameStates.GameState.TryOpenDoor | js/models/GameState.js:41-54 | the door opens iff a player stands on each side; the first such opening wakes Hubi and spawns the ghost; otherwise the ghost is untouched |
| GameStates.GameState.CheckWinCondition | js/models/GameState.js:56-66 | won iff Hubi is awake and at least two players stand on the ghost's tile; WON is then the phase |
| Games.RotationCycle | src/ts/models/Game.ts:74-89 | the rotation has period four and visits every player |
| Games.DistanceFrom | src/ts/models/Game.ts:74-89 | the search skips exactly the unregistered players up to the first registered one |
| Games.Distance | src/ts/models/Game.ts:74-89 | between 1 and 4 steps, skipping only unregistered players, ending on a registered one |
| Games.NextRegisteredFacts | src/ts/models/Game.ts:74-89 | the next player is registered; with everyone registered it is the plain successor; a lone player keeps the turn |
| Games.CanPass | src/ts/models/Game.ts:162-179 | passable iff internal and (free passage, mouse hole for mice, rabbit window for rabbits, or an open magic door) |
| Games.CanPassMatchesPlan | src/ts/models/Game.ts:162-179 | canPass agrees with the generator's passability for every plan letter; doors count once opened |
| Games.WallAhead | src/ts/models/Game.ts:106-107 | a unit step always finds a board wall, external exactly when leaving the board |
| Games.FirstClosed | src/ts/models/Game.ts:186-193 | the first closed magic door in magicDoors order, or none when all are open |
| Games.Game.constructor | src/ts/models/Game.ts:27-39 | no players, GREEN_RABBIT placeholder, no hints, no turns, players at their corners, NO_STATE, an inactive ghost for the difficulty |
| Games.Game.AddPlayer | src/ts/models/Game.ts:41-49 | succeeds iff the player was not registered; the player is registered afterwards |
| Games.Game.SetFirstPlayer | src/ts/models/Game.ts:59-68 | succeeds iff the player is registered; the old current player becomes the previous one |
| Games.Game.MoveToNextPlayer | src/ts/models/Game.ts:74-89 | the current player becomes the next registered player in rotation |
| Games.Game.EndTurn | src/ts/models/Game.ts:246-251 | no moves made, the player who just played recorded, the next registered player on |
| Games.Game.CountTurn | src/ts/models/Game.ts:154-159 | one more turn is counted, and the turn passes unless the game is over |
| Games.Game.GenerateHint | src/ts/models/Game.ts:181-200 | a ghost hint while Hubi is awake, else a door hint for the first closed door; it fails iff Hubi sleeps and every door is open |
| Games.Game.GiveHint | src/ts/models/Game.ts:202-218 | a tile keeps its cached hint; a new hint is cached and counts as a turn (no move is recorded once the game is over); an error changes nothing, the turn and the previous player included |
| Games.Game.TryDoor | src/ts/models/Game.ts:114-118 | a closed door between two players opens and clears the hints; the first opening wakes Hubi and spawns the ghost |
| Games.Game.StepPlayer | src/ts/models/Game.ts:120-133 | the player goes through iff canPass, and wins iff the move brings two players onto the awake ghost's tile |
| Games.Game.GhostStep | src/ts/models/Game.ts:135-141 | a ghost awake before the move runs maybeMove unless the mover just reached it; a ghost move clears the hints |
| Games.Game.FinishTurn | src/ts/models/Game.ts:144-159 | the first move against a known wall is a bonus move; otherwise the turn is counted |
| Games.Game.WallsTouched | src/ts/models/Game.ts:106-107 | at most one board wall can change |
| Games.Game.RevealWall | src/ts/models/Game.ts:110-111 | the wall is revealed |
| Games.Game.AfterStep | src/ts/models/Game.ts:135-159 | the ghost step and then the turn logic, as GhostStep and FinishTurn state; a bonus move keeps the turn, the turn counter and the previous player |
| Games.Game.Resolve | src/ts/models/Game.ts:120-159 | the step, then, unless it wins, the ghost step and the turn logic; the step wins iff the player went through onto the ghost's tile next to another player in PLAYING_WITH_HUBI; the phase becomes WON on a win and is kept otherwise; a win or a ghost that does not run leaves the ghost unchanged; a win leaves the turn where it was; a bonus move keeps the turn, the turn counter and the previous player |
| Games.Game.Advance | src/ts/models/Game.ts:106-159 | the whole move through one wall: the registered players are unchanged; the wall is revealed; door opened iff flanked; step iff canPass; hints dropped on an opening or a ghost move; the move wins iff the player reaches the ghost's tile next to another player once the phase (after this move's door) is PLAYING_WITH_HUBI; the phase afterwards is WON, PLAYING_WITH_HUBI after a first opening, or unchanged; a ghost that does not run is freshly spawned if this move woke Hubi and unchanged otherwise; a bonus move keeps the turn, the turn counter and the previous player; ghost and turn as above |
| Games.Game.MoveThrough | src/ts/models/Game.ts:105-159 | a unit step looks up the wall ahead of the current player and the move is Advanced through it; only that wall changes |
| Games.Game.MoveCurrentPlayer | src/ts/models/Game.ts:91-160 | a non-unit direction changes nothing; otherwise only the wall ahead changes, the registered players stay the same and the move is Advanced through it |
| LegacyGames.HintDoor | js/models/Game.js:151-158 | the hint loop stops at the first closed door, or at the last door when all are open |
| LegacyGames.LegacyGame.constructor | js/models/Game.js:2-12 | no players, no current player, no hints, players at their corners, NO_STATE, an inactive ghost with the JS constants |
| LegacyGames.LegacyGame.AddPlayer | js/models/Game.js:14-22 | succeeds iff the player was not registered; the player is registered afterwards |
| LegacyGames.LegacyGame.SetFirstPlayer | js/models/Game.js:32-40 | succeeds iff the player is registered, and then that player is current |
| LegacyGames.LegacyGame.MoveToNextPlayer | js/models/Game.js:46-61 | the current player becomes the next registered player in rotation |
| LegacyGames.LegacyGame.EndTurn | js/models/Game.js:188-191 | no moves made and the next registered player on |
| LegacyGames.LegacyGame.HintFallsThrough | js/models/Game.js:142-165 | the hint fails only without any door while Hubi sleeps; with every door open it is about the last door |
| LegacyGames.LegacyGame.GiveHint | js/models/Game.js:142-165 | a tile keeps its cached hint; a new hint is cached; giving a hint does not end the turn; an error changes nothing |
| LegacyGames.LegacyGame.TryDoor | js/models/Game.js:82-86 | as in the TypeScript game |
| LegacyGames.LegacyGame.StepPlayer | js/models/Game.js:88-102 | the player goes through iff canPass, and may win on arrival |
| LegacyGames.LegacyGame.GhostStep | js/models/Game.js:104-108 | an active ghost always runs maybeMove, also when it was just woken or just reached; a ghost move lands on a free tile and clears the hints |
| LegacyGames.LegacyGame.FinishTurn | js/models/Game.js:111-120 | the first move against a known wall is a bonus move; otherwise the turn ends, with no turn counter |
| LegacyGames.LegacyGame.AfterStep | js/models/Game.js:104-120 | the ghost step, then the turn logic |
| LegacyGames.LegacyGame.Resolve | js/models/Game.js:88-120 | the step, then, unless it wins, the ghost step and the turn logic; the step wins iff the player went through onto the ghost's tile next to another player in PLAYING_WITH_HUBI; the phase becomes WON on a win and is kept otherwise; a win or an inactive ghost leaves the ghost unchanged |
| LegacyGames.LegacyGame.Advance | js/models/Game.js:77-120 | the whole move through one wall, with the registered players unchanged and the win and the phase as in the TypeScript game; a ghost this move woke spawns on a free tile with the start probability and then runs maybeMove from there (stays with the bumped probability, or resets and steps to a free king-move neighbour); an already active ghost steps; a ghost that neither was active nor woke is unchanged; the turn logic ends the turn instead of counting it |
| LegacyGames.LegacyGame.RevealWall | js/models/Game.js:77-80 | the wall is revealed |
| LegacyGames.LegacyGame.WallsTouched | js/models/Game.js:77-80 | at most one board wall can change |
| LegacyGames.LegacyGame.MoveThrough | js/models/Game.js:76-120 | a unit step looks up the wall ahead of the current player and the move is Advanced through it; only that wall changes |
| LegacyGames.LegacyGame.MoveCurrentPlayer | js/models/Game.js:63-121 | a non-unit direction changes nothing; otherwise only the wall ahead changes, the registered players stay the same and the move is Advanced through it, with the win, the phase and the spawn-then-step of a just-woken ghost stated |

## Left out

- Narrator, audio manager, views, controllers and `main`: presentation and
  I/O, with no effect on the model state.
- Every `console` call is dropped.
- `Math.random()`:
  - in the shuffle, the spawn tile, the ghost's neighbour and the boundary
    coin it is a nondeterministic choice;
  - in `maybeMove` it is the parameter `draw`.

  The distribution is not modelled. Nothing is proved about how likely an
  attempt of the generator is to succeed.
- Floating-point probabilities are whole percentages:
  - TypeScript: 0.1/0.15/0.2 start, 0.05 increment;
  - JavaScript: 0.1 and 0.05.
- The `async`/`await` structure is sequential. Nothing runs concurrently in
  the source model layer.
- `getWallChar` and `generateASCII`: debug output only.
- `givePlayerPosition` and `startTurn`: they only narrate.
- `checkGameOverCondition` lives in `src/ts/models/GameState.ts`, which is not
  part of this model. The game takes it as the predicate `gameOver`.
- The `MAGIC_DOOR_USE_RANDOM_COUNT` constant and the UI constants:
  - the generator uses the fixed per-difficulty door count modelled by
    `Constants.MagicDoorCount`;
  - the UI constants are presentation only.
- Games.Game.MoveToNextPlayer, Games.Game.EndTurn, Games.Game.GiveHint,
  Games.Game.MoveCurrentPlayer, Games.Game.MoveThrough: these require at least
  one registered player.
  With none, `moveToNextPlayer` recurses forever.
- LegacyGames.LegacyGame.MoveCurrentPlayer, LegacyGames.LegacyGame.MoveThrough,
  LegacyGames.LegacyGame.GiveHint, LegacyGames.LegacyGame.MoveToNextPlayer,
  LegacyGames.LegacyGame.EndTurn:
  these require a current player. With `currentPlayer` still null, the source
  fails with a TypeError or recurses forever; that failure is not modelled.
- LegacyGames.LegacyGame.constructor: the JavaScript game's ghost is the
  corrected ghost (`Ghosts.Ghost.Legacy` with `Spawn`/`MaybeMove`), not the
  as-written one that throws (see Findings).
- Games.Game.MoveCurrentPlayer: the TypeScript `if (!wall) return;` is not a
  separate branch. `Boards.Board.UnitStepFindsWall` proves that a unit step
  always finds a wall, so that branch is dead.
- Games.Game.MoveCurrentPlayer and LegacyGames.LegacyGame.MoveCurrentPlayer:
  `won` and `ghostMoved` (and, for the JavaScript game, the spawn tile
  `spawnedAt`) are ghost results that record what happened. The source
  returns nothing.
- Players.Capitalize: case mapping is ASCII only. `toUpperCase` maps every
  Unicode letter ('é' to 'É') and can lengthen the string ('ß' to "SS"); the
  model keeps non-ASCII first characters as they are, so its "same length"
  holds of the source only on ASCII input.
- Hint getters (`Hints.Creature1Hint`, `Hints.Creature2Hint`,
  `Hints.GhostCreatureHint`): these carry no contract of their own. They are
  specified by `Hints.HintLevels`, `Hints.HintIndependence` and
  `Hints.NamesIdentify`.
- `getPlayersAt`, `hasPlayer`, `spawnGhost`, `isOver`: these are one-line
  delegations. They appear as `Players.PlayersAt`, set membership, the
  `TryOpenDoor` spawn and `GameState.IsOver`, with no rows of their own.
- GameStates.GameState.TryOpenDoor: opening a door in WON moves the phase back
  to PLAYING_WITH_HUBI. This is modelled as the source has it and noted in the
  contract; it is reachable only if a move is made after the game is won.

## Findings

| source | as written | input that shows it | evidently intended | confidence | as-written member | corrected member |
|---|---|---|---|---|---|---|
| js/models/Ghost.js:12-35 | `spawn` places and activates the ghost, then reads `GHOST_START_PROBABILITY[difficulty]` with `difficulty` bound in none of the shown scripts (`js/main.js:3` binds it only inside its `DOMContentLoaded` callback), so it throws before the probability is set; even a page-level `difficulty` would index the scalar `GHOST_START_PROBABILITY: 0.1` (`js/Constants.js:2`) and yield `undefined`, so the ghost is broken either way | the first door opening of any JavaScript game: some tile is free, the ghost becomes active, and the call throws with probability 0, below the start value | set the probability to the module's scalar start constant (10 percent) | high; not executed | Ghosts.Ghost.SpawnAsWritten | Ghosts.Ghost.Legacy |
| js/models/Ghost.js:37-85 | both branches of `maybeMove` read the same free `difficulty` (lines 43 and 49) before assigning anything, so an active ghost throws on every call and never moves | any move made while Hubi is active, with any draw | grow by the scalar increment (5 percent, capped at 100), or reset to the start value and step | high; not executed | Ghosts.Ghost.MaybeMoveAsWritten | Ghosts.Ghost.MaybeMove |
