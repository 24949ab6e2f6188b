# Snake: the game logic of `SnakeGame.cs`, verified

This project models the game logic of the single-file Unity snake game. It covers:

- the move filter;
- the tick that moves, grows or kills the snake;
- level and run transitions;
- the start layout of the snake;
- the random placement of obstacles and food;
- the per-frame state machine that drives all of the above.

The model has three modules:

- `Grid` (`grid.dfy`): board cells (`Vec`, Unity's `Vector2Int`), the four headings, and the column-by-column listing of free cells. That listing is the nested `for x { for y { ... } }` scan that food and obstacle placement share.
- `Rules` (`rules.dfy`): the rules as pure functions on a snapshot `World` of the game object's fields. Beside them are the lemmas that state what the game promises: no reversal, what a crash, a move or a meal does, the level formulas, and where obstacles and food can land. They also prove that one frame keeps the invariant `Inv`: the snake is on the board, without repeated cells and contiguous; the obstacles are distinct, off the snake and outside the spawn block; food lies on a free cell while the game runs.
- `SnakeGame` (`snake_game.dfy`): the class `Game`, with the source's fields updated in place by methods that keep the source's loops. Each method is proved to leave `State()` exactly where the matching `Rules` function says. `RunFrame` shows that a frame started in a valid state ends in one.

Outside inputs are parameters:

- `Random.Range(0, n)` becomes a caller-supplied natural number reduced modulo `n`. `SpawnFoodReachesEveryFreeCell` shows that no free cell is lost by this.
- The keyboard and the timers of a frame become a `Frame` value: the confirm key, the set of direction keys pressed, the pause key, whether the move timer ran out, and whether the level pause ran out.
- The draws a frame may consume become a `Draws` value.

## Model

| member | source | states |
|---|---|---|
| Grid.CancelIffOpposite | Assets/Scripts/SnakeGame.cs:164 | two headings sum to the zero vector exactly when one is the reverse of the other |
| Grid.StepIsAdjacent | Assets/Scripts/SnakeGame.cs:251-252 | the new head is one unit step from the old head |
| Grid.ColumnFreeSpec | Assets/Scripts/SnakeGame.cs:319-323 | the inner scan lists exactly the unblocked cells of column x from row y up, each once |
| Grid.GridFreeSpec | Assets/Scripts/SnakeGame.cs:318-323 | the nested scan from column x on lists exactly the unblocked cells of those columns, each once |
| Grid.FreeCellsSpec | Assets/Scripts/SnakeGame.cs:317-323 | the free list holds exactly the board cells outside `blocked`, with no repeats |
| Grid.FreeCellsEmptyIffFull | Assets/Scripts/SnakeGame.cs:325 | the free list is empty if and only if every board cell is blocked |
| Rules.ObstacleCount | Assets/Scripts/SnakeGame.cs:177-181 | a level asks for a multiple of 3 obstacles, and none exactly when the level is at most 1 |
| Rules.ObstacleCountStep | Assets/Scripts/SnakeGame.cs:177-181 | from level 1 on, each level asks for 3 more obstacles than the one before |
| Rules.ObstacleCountUncapped | Assets/Scripts/SnakeGame.cs:177-181 | the obstacle count has no upper bound |
| Rules.PressedKey | Assets/Scripts/SnakeGame.cs:155-162 | a key is chosen if and only if one is pressed; it is a pressed key, and first in the order Up, Down, Left, Right |
| Rules.Steer | Assets/Scripts/SnakeGame.cs:151-166 | only the queued direction changes; it becomes the chosen key unless that key reverses the current direction, else stays |
| Rules.SteerNeverReverses | Assets/Scripts/SnakeGame.cs:164-165 | no key press queues the reverse of the current direction, and the current direction is untouched |
| Rules.SteerPreservesInv | Assets/Scripts/SnakeGame.cs:151-166 | steering keeps the invariant |
| Rules.InitialSnakeShape | Assets/Scripts/SnakeGame.cs:236-239 | the start row has min(snakeLength, gridWidth / 2) cells from the centre leftwards, on the board, distinct and contiguous |
| Rules.CentreBlock | Assets/Scripts/SnakeGame.cs:353-356 | the blocked block is exactly the 5x5 square centred on (gridWidth / 2, gridHeight / 2) |
| Rules.RemoveAt | Assets/Scripts/SnakeGame.cs:370 | removing one element shortens the list by one |
| Rules.RemoveAtSpec | Assets/Scripts/SnakeGame.cs:369-370 | what remains was in the list; from a list without repeats the removed cell is gone |
| Rules.Draw | Assets/Scripts/SnakeGame.cs:366-371 | the draw loop yields min(count, candidates) cells, and none for count <= 0 |
| Rules.DrawSpec | Assets/Scripts/SnakeGame.cs:366-371 | every drawn cell is a candidate, and from distinct candidates no cell is drawn twice |
| Rules.PlaceObstaclesAvoidsStart | Assets/Scripts/SnakeGame.cs:348-381 | PlaceObstacles appends min(count, candidates) distinct cells, all on the board, off the snake and outside the spawn block; nothing else changes |
| Rules.FoodCandidatesAreFree | Assets/Scripts/SnakeGame.cs:314-323 | a cell is a food candidate exactly when it is on the board and on neither the snake nor an obstacle |
| Rules.SpawnFoodOutcome | Assets/Scripts/SnakeGame.cs:312-332 | on a full board only `alive` changes, to false (the win); otherwise only the food moves, onto a free board cell |
| Rules.SpawnFoodPicks | Assets/Scripts/SnakeGame.cs:332 | a draw below the number of free cells picks the free cell at that index |
| Rules.SpawnFoodReachesEveryFreeCell | Assets/Scripts/SnakeGame.cs:332 | every free cell is the outcome of some draw |
| Rules.TickCrash | Assets/Scripts/SnakeGame.cs:251-260 | a head off the board or on an obstacle ends the game; snake, score, food and counters are unchanged |
| Rules.TickCollisionIsFatal | Assets/Scripts/SnakeGame.cs:251-266 | every collision, including with the body, only commits the direction and ends the game |
| Rules.TickTailChase | Assets/Scripts/SnakeGame.cs:263-266 | moving into the tail cell is survived when not eating and fatal when eating |
| Rules.TickMoves | Assets/Scripts/SnakeGame.cs:268-289 | a plain move gives the new head followed by the old body without its tail; length, score and food unchanged |
| Rules.TickEats | Assets/Scripts/SnakeGame.cs:268-284 | eating commits the direction, grows the snake by one cell (the tail stays) and raises score by 10 * level and length and food count by one; at FoodForLevel = 4 + level the level advances, the count resets, the pause begins and the food stays; otherwise new food lands on a free cell, or on a full board the game ends in a win; nothing else changes |
| Rules.NewGameStarts | Assets/Scripts/SnakeGame.cs:183-201 | a new run is valid and alive, not started, at level 1 with score 0, full start length, no obstacles, facing right |
| Rules.StartLevelStarts | Assets/Scripts/SnakeGame.cs:203-213 | a level starts valid and started, with the start row, min(ObstacleCount(level), candidates) obstacles, score and level kept, and the food on a free cell whenever the game is alive |
| Rules.TickPreservesInv | Assets/Scripts/SnakeGame.cs:249-292 | a tick keeps the snake on the board, distinct and contiguous, and the food on a free cell |
| Rules.GrowKeepsShape | Assets/Scripts/SnakeGame.cs:263-268 | adding an adjacent, unoccupied head keeps the snake well formed |
| Rules.MoveKeepsShape | Assets/Scripts/SnakeGame.cs:263-289 | adding an adjacent head off the body and dropping the tail keeps the snake well formed |
| Rules.UpdatePreservesInv | Assets/Scripts/SnakeGame.cs:94-147 | every frame keeps the invariant |
| Rules.UpdateMovesOnlyWhilePlaying | Assets/Scripts/SnakeGame.cs:131-147 | during a run, a frame that comes while paused or before the move timer runs out moves nothing and scores nothing |
| SnakeGame.ScanColumn | Assets/Scripts/SnakeGame.cs:319-323 | the inner loop builds the column listing |
| SnakeGame.ScanFree | Assets/Scripts/SnakeGame.cs:317-323 | the nested loops build the free-cell listing |
| SnakeGame.SpawnBlock | Assets/Scripts/SnakeGame.cs:351-356 | the blocked set is the snake's cells plus the 5x5 spawn block |
| SnakeGame.Game.constructor | Assets/Scripts/SnakeGame.cs:83-92 | the object starts valid, in the state NewGame sets up |
| SnakeGame.Game.HandleInput | Assets/Scripts/SnakeGame.cs:151-166 | the new state is Rules.Steer of the old |
| SnakeGame.Game.NewGame | Assets/Scripts/SnakeGame.cs:183-201 | the new state is Rules.NewGame of the old |
| SnakeGame.Game.ResetRun | Assets/Scripts/SnakeGame.cs:185-192 | score, level, food count, flags and length take their start values; nothing else changes |
| SnakeGame.Game.StartLevel | Assets/Scripts/SnakeGame.cs:203-213 | the new state is Rules.StartLevel of the old |
| SnakeGame.Game.NextLevel | Assets/Scripts/SnakeGame.cs:215-222 | the new state is Rules.NextLevel of the old |
| SnakeGame.Game.ResetSnake | Assets/Scripts/SnakeGame.cs:224-247 | the new state is Rules.ResetSnake of the old |
| SnakeGame.Game.Tick | Assets/Scripts/SnakeGame.cs:249-292 | the new state is Rules.Tick of the old |
| SnakeGame.Game.HitsBody | Assets/Scripts/SnakeGame.cs:263-266 | the scan finds the head exactly when Rules.HitsBody holds |
| SnakeGame.Game.Eat | Assets/Scripts/SnakeGame.cs:272-276 | score, length and food count rise as Rules.Eat says; nothing else changes |
| SnakeGame.Game.Die | Assets/Scripts/SnakeGame.cs:294-296 | only `alive` changes, to false |
| SnakeGame.Game.SpawnFood | Assets/Scripts/SnakeGame.cs:312-332 | the new state is Rules.SpawnFood of the old |
| SnakeGame.Game.PlaceObstacles | Assets/Scripts/SnakeGame.cs:348-381 | the obstacles become the old obstacles followed by Rules.Draw of the candidates |
| SnakeGame.Game.ClearObstacles | Assets/Scripts/SnakeGame.cs:383-389 | the obstacle list becomes empty and nothing else changes |
| SnakeGame.Game.Update | Assets/Scripts/SnakeGame.cs:94-147 | the new state is Rules.Update of the old |
| SnakeGame.Game.RunFrame | Assets/Scripts/SnakeGame.cs:94-147 | a frame started in a valid state ends in a valid state |

## Left out

- Rendering, scene and UI work is not modelled. This covers meshes, materials, segments, the head, food and obstacle transforms, walls, camera, light, HUD, messages and fog of war. None of it affects the game state.
- Float timing is not modelled: `SpeedForLevel`, `moveInterval`, `speedStep`, `moveTimer`, `transitionTimer` and `Time.deltaTime`. A frame only says whether the move timer or the level pause ran out (`Frame.tickDue`, `Frame.transitionDone`).
- `Input.GetKeyDown` is not modelled. A frame carries the confirm key (Space/Return), the set of direction keys pressed (W/Up, S/Down, A/Left, D/Right) and the pause key (P/Escape).
- `Random.Range(0, n)` is replaced by a caller-supplied draw taken modulo `n`. Uniformity is not modelled; every free cell can still be drawn.
- Integers are unbounded. The 32-bit `int` fields, `score` for instance, are not wrapped, which matters only after billions of points.
- The serialized settings are fixed at construction. `Game.constructor` requires `gridWidth >= 2`, `gridHeight >= 1` and `initialLength >= 1`. A width below 2 or a start length below 1 leaves the start row empty, so `snake[0]` in `Tick` would fail. A height below 1 leaves no board cell, so the first `SpawnFood` ends the run as a win at once; the model excludes that degenerate board.
- `Game.Tick` requires a non-empty snake. Its only caller, `Update`, reaches it only while a run is under way, and the invariant keeps the snake non-empty then.
- `Game.Update` requires enough obstacle draws for the level when a level pause may end.
- Three methods have no counterpart of their own in the source:
  - `Game.ResetRun` groups the opening assignments of `NewGame`;
  - `Game.Eat` groups the counter updates of an eating tick;
  - `Game.HitsBody` is the self-collision loop of `Tick`.
  The order of their steps is kept.
- `RunFrame` is not a source method. It wraps `Update` to state the invariant of the game object.
