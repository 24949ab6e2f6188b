/** The rules of the single-file snake game, stated as pure functions on a snapshot of the
    game object's state, and the properties the game relies on. The game object in module
    SnakeGame is proved to change its fields exactly as these functions say. */
module Rules {
  import opened Grid

  datatype Option<T> = None | Some(value: T)

  function Min(a: int, b: int): int {
    if a < b then a else b
  }

  function Max(a: int, b: int): int {
    if a < b then b else a
  }

  /** The serialized settings the rules depend on: board size and start length. */
  datatype Config = Config(width: int, height: int, initialLength: int)

  /** Settings under which the start row holds at least one cell, so the snake is never empty. */
  predicate ValidConfig(c: Config) {
    c.width >= 2 && c.height >= 1 && c.initialLength >= 1
  }

  /** The spawn cell, (gridWidth / 2, gridHeight / 2). */
  function Centre(c: Config): Vec {
    Vec(c.width / 2, c.height / 2)
  }

  /** The logical fields of the game object. */
  datatype World = World(
    snake: seq<Vec>,        // head first
    obstacles: seq<Vec>,
    foodPos: Vec,
    direction: Direction,
    nextDirection: Direction,
    score: int,
    level: int,
    foodThisLevel: int,
    snakeLength: int,       // length the snake has earned; persists across levels
    alive: bool,
    started: bool,
    paused: bool,
    inTransition: bool)

  // ===================== Level formulas =====================

  /** Food to eat before the level is complete. */
  function FoodForLevel(lvl: int): int {
    4 + lvl
  }

  /** Obstacles a level asks for: none on level 1, three more on each later level, no cap. */
  function ObstacleCount(lvl: int): (n: nat)
    ensures n % 3 == 0
    ensures n == 0 <==> lvl <= 1
  {
    if lvl <= 1 then 0 else (lvl - 1) * 3
  }

  lemma ObstacleCountStep(lvl: int)
    requires lvl >= 1
    ensures ObstacleCount(lvl + 1) == ObstacleCount(lvl) + 3
  {
  }

  /** No upper bound: every count is exceeded on some level. */
  lemma ObstacleCountUncapped(bound: nat)
    ensures ObstacleCount(bound + 2) > bound
  {
  }

  // ===================== Input =====================

  /** The order in which the key checks run: W/Up, S/Down, A/Left, D/Right. */
  function Priority(d: Direction): nat {
    match d
    case Up => 0
    case Down => 1
    case Left => 2
    case Right => 3
  }

  /** The direction key that wins among the keys pressed this frame, if any. */
  function PressedKey(pressed: set<Direction>): (key: Option<Direction>)
    ensures key.Some? <==> pressed != {}
    ensures key.Some? ==> key.value in pressed
    ensures key.Some? ==> forall d :: d in pressed ==> Priority(key.value) <= Priority(d)
  {
    if Up in pressed then Some(Up)
    else if Down in pressed then Some(Down)
    else if Left in pressed then Some(Left)
    else if Right in pressed then Some(Right)
    else
      assert forall d :: d in pressed ==> d == Up || d == Down || d == Left || d == Right;
      None
  }

  /** HandleInput: the pressed key (or, with none, the pending direction) is queued unless it
      cancels the current direction as a vector sum. */
  function Steer(w: World, pressed: set<Direction>): (r: World)
    ensures r == w.(nextDirection := r.nextDirection)
    ensures r.nextDirection == match PressedKey(pressed)
                               case Some(k) => if k != Opposite(w.direction) then k else w.nextDirection
                               case None => w.nextDirection
  {
    var d := match PressedKey(pressed) case Some(k) => k case None => w.nextDirection;
    var accept := Add(Delta(d), Delta(w.direction)) != Zero;
    assert accept <==> d != Opposite(w.direction) by {
      CancelIffOpposite(d, w.direction);
    }
    if accept then w.(nextDirection := d) else w
  }

  /** No key press can queue the reverse of the current direction. */
  lemma SteerNeverReverses(w: World, pressed: set<Direction>)
    requires w.nextDirection != Opposite(w.direction)
    ensures Steer(w, pressed).nextDirection != Opposite(w.direction)
    ensures Steer(w, pressed).direction == w.direction
  {
  }

  lemma SteerPreservesInv(c: Config, w: World, pressed: set<Direction>)
    requires Inv(c, w)
    ensures Inv(c, Steer(w, pressed))
  {
    SteerNeverReverses(w, pressed);
  }

  // ===================== Snake layout =====================

  /** Cells in the start row: min(snakeLength, gridWidth / 2), never negative. */
  function StartLength(c: Config, snakeLength: int): nat {
    Max(0, Min(snakeLength, c.width / 2))
  }

  /** A horizontal line from the spawn cell towards the left, head first. */
  function InitialSnake(c: Config, snakeLength: int): seq<Vec> {
    seq(StartLength(c, snakeLength), i => Vec(Centre(c).x - i, Centre(c).y))
  }

  /** The snake is well formed: non-empty, on the board, no cell twice, each cell a unit
      step from the next. */
  predicate SnakeShape(c: Config, s: seq<Vec>) {
    && |s| >= 1
    && (forall p :: p in s ==> InGrid(p, c.width, c.height))
    && Distinct(s)
    && Contiguous(s)
  }

  lemma InitialSnakeShape(c: Config, snakeLength: int)
    requires ValidConfig(c) && snakeLength >= 1
    ensures var s := InitialSnake(c, snakeLength);
      && |s| == Min(snakeLength, c.width / 2)
      && |s| <= snakeLength
      && s[0] == Centre(c)
      && SnakeShape(c, s)
  {
    var s := InitialSnake(c, snakeLength);
    forall p | p in s
      ensures InGrid(p, c.width, c.height)
    {
      var i :| 0 <= i < |s| && s[i] == p;
    }
  }

  /** ResetSnake: the start row, facing right with nothing else queued. */
  function ResetSnake(c: Config, w: World): World {
    w.(snake := InitialSnake(c, w.snakeLength), direction := Right, nextDirection := Right)
  }

  // ===================== Obstacles =====================

  /** Within the 5x5 block kept clear around the spawn cell. */
  predicate NearCentre(c: Config, p: Vec) {
    Abs(p.x - Centre(c).x) <= 2 && Abs(p.y - Centre(c).y) <= 2
  }

  function CentreBlock(c: Config): (r: set<Vec>)
    ensures forall p :: p in r <==> NearCentre(c, p)
  {
    var o := Centre(c);
    set x, y | o.x - 2 <= x <= o.x + 2 && o.y - 2 <= y <= o.y + 2 :: Vec(x, y)
  }

  /** Cells an obstacle may take: on the board, off the snake, outside the spawn block. */
  function ObstacleCandidates(c: Config, snake: seq<Vec>): seq<Vec> {
    FreeCells(c.width, c.height, Cells(snake) + CentreBlock(c))
  }

  /** The sequence with its k-th element taken out (List.RemoveAt). */
  function RemoveAt(s: seq<Vec>, k: int): (r: seq<Vec>)
    requires 0 <= k < |s|
    ensures |r| == |s| - 1
  {
    s[..k] + s[k + 1..]
  }

  /** Taking out the k-th element leaves the others; from a list without repeats it takes out
      every copy of that element. */
  lemma RemoveAtSpec(s: seq<Vec>, k: int)
    requires 0 <= k < |s|
    ensures forall p :: p in RemoveAt(s, k) ==> p in s
    ensures Distinct(s) ==> Distinct(RemoveAt(s, k)) && s[k] !in RemoveAt(s, k)
  {
    var r := RemoveAt(s, k);
    assert forall i :: 0 <= i < |r| ==> r[i] == s[if i < k then i else i + 1];
  }

  /** Drawing `count` cells without replacement; draw i picks index picks[i] mod the number of
      candidates left. */
  function Draw(candidates: seq<Vec>, picks: seq<nat>, count: int): (r: seq<Vec>)
    requires count <= |picks|
    decreases |candidates|
    ensures |r| == Max(0, Min(count, |candidates|))
  {
    if count <= 0 || |candidates| == 0 then []
    else
      var k := picks[0] % |candidates|;
      [candidates[k]] + Draw(RemoveAt(candidates, k), picks[1..], count - 1)
  }

  /** Every drawn cell is a candidate, and from candidates without repeats no cell is drawn
      twice. */
  lemma {:induction false} DrawSpec(candidates: seq<Vec>, picks: seq<nat>, count: int)
    requires count <= |picks|
    decreases |candidates|
    ensures forall p :: p in Draw(candidates, picks, count) ==> p in candidates
    ensures Distinct(candidates) ==> Distinct(Draw(candidates, picks, count))
  {
    if count > 0 && |candidates| > 0 {
      var k := picks[0] % |candidates|;
      var rest := Draw(RemoveAt(candidates, k), picks[1..], count - 1);
      RemoveAtSpec(candidates, k);
      DrawSpec(RemoveAt(candidates, k), picks[1..], count - 1);
      if Distinct(candidates) {
        DistinctConcat([candidates[k]], rest);
      }
    }
  }

  /** PlaceObstacles(count): appends the drawn cells to the obstacle list. */
  function PlaceObstacles(c: Config, w: World, count: int, picks: seq<nat>): World
    requires count <= |picks|
  {
    w.(obstacles := w.obstacles + Draw(ObstacleCandidates(c, w.snake), picks, count))
  }

  /** PlaceObstacles adds min(count, candidates) distinct cells, each on the board, off the
      snake and outside the spawn block, and changes nothing else. */
  lemma PlaceObstaclesAvoidsStart(c: Config, w: World, count: int, picks: seq<nat>)
    requires count <= |picks|
    ensures var r := PlaceObstacles(c, w, count, picks);
      var added := r.obstacles[|w.obstacles|..];
      && r == w.(obstacles := w.obstacles + added)
      && |added| == Max(0, Min(count, |ObstacleCandidates(c, w.snake)|))
      && Distinct(added)
      && forall p :: p in added ==>
           InGrid(p, c.width, c.height) && p !in w.snake && !NearCentre(c, p)
  {
    var added := Draw(ObstacleCandidates(c, w.snake), picks, count);
    FreeCellsSpec(c.width, c.height, Cells(w.snake) + CentreBlock(c));
    DrawSpec(ObstacleCandidates(c, w.snake), picks, count);
    assert PlaceObstacles(c, w, count, picks).obstacles[|w.obstacles|..] == added;
  }

  // ===================== Food =====================

  /** Every board cell is taken by the snake or an obstacle. */
  ghost predicate BoardFull(c: Config, w: World) {
    forall p :: InGrid(p, c.width, c.height) ==> p in w.snake || p in w.obstacles
  }

  /** The food lies on the board on a cell that is free. */
  predicate FoodPlaced(c: Config, w: World) {
    InGrid(w.foodPos, c.width, c.height) && w.foodPos !in w.snake && w.foodPos !in w.obstacles
  }

  function FoodCandidates(c: Config, w: World): seq<Vec> {
    FreeCells(c.width, c.height, Cells(w.snake) + Cells(w.obstacles))
  }

  /** SpawnFood: a free cell chosen by `draw`, or, when none is left, the game ends in a win. */
  function SpawnFood(c: Config, w: World, draw: nat): World {
    var free := FoodCandidates(c, w);
    if |free| == 0 then w.(alive := false)
    else w.(foodPos := free[draw % |free|])
  }

  /** The food candidates are exactly the free board cells. */
  lemma FoodCandidatesAreFree(c: Config, w: World, p: Vec)
    ensures p in FoodCandidates(c, w)
        <==> InGrid(p, c.width, c.height) && p !in w.snake && p !in w.obstacles
  {
    FreeCellsSpec(c.width, c.height, Cells(w.snake) + Cells(w.obstacles));
  }

  /** On a full board the game ends (in a win) and nothing else changes; otherwise only the
      food moves, onto a free board cell. */
  lemma SpawnFoodOutcome(c: Config, w: World, draw: nat)
    ensures BoardFull(c, w) ==> SpawnFood(c, w, draw) == w.(alive := false)
    ensures !BoardFull(c, w) ==>
      && SpawnFood(c, w, draw) == w.(foodPos := SpawnFood(c, w, draw).foodPos)
      && FoodPlaced(c, SpawnFood(c, w, draw))
  {
    var free := FoodCandidates(c, w);
    FreeCellsEmptyIffFull(c.width, c.height, Cells(w.snake) + Cells(w.obstacles));
    if |free| != 0 {
      FoodCandidatesAreFree(c, w, free[draw % |free|]);
    }
  }

  lemma SpawnFoodPicks(c: Config, w: World, i: nat)
    requires i < |FoodCandidates(c, w)|
    ensures SpawnFood(c, w, i).foodPos == FoodCandidates(c, w)[i]
  {
    assert i % |FoodCandidates(c, w)| == i;
  }

  /** Reducing the draw modulo the number of free cells loses nothing: every free cell is the
      outcome of some draw. */
  lemma SpawnFoodReachesEveryFreeCell(c: Config, w: World, p: Vec)
    requires InGrid(p, c.width, c.height) && p !in w.snake && p !in w.obstacles
    ensures exists draw: nat :: SpawnFood(c, w, draw).foodPos == p
  {
    var free := FoodCandidates(c, w);
    FoodCandidatesAreFree(c, w, p);
    var i :| 0 <= i < |free| && free[i] == p;
    SpawnFoodPicks(c, w, i);
  }

  // ===================== Level and run transitions =====================

  /** NextLevel: the level count advances and the between-levels pause begins. */
  function NextLevel(w: World): World {
    w.(level := w.level + 1, foodThisLevel := 0, inTransition := true)
  }

  /** The counters and flags of a new run: score 0, level 1, alive, not started, not paused. */
  function FreshRun(c: Config, w: World): World {
    w.(score := 0, level := 1, foodThisLevel := 0, inTransition := false,
       alive := true, started := false, paused := false,
       snakeLength := c.initialLength)
  }

  /** NewGame: a fresh run on an empty board. */
  function NewGame(c: Config, w: World, draw: nat): World {
    SpawnFood(c, ResetSnake(c, FreshRun(c, w).(obstacles := [])), draw)
  }

  /** StartLevel: clear the obstacles, reset the snake, place this level's obstacles, then food. */
  function StartLevel(c: Config, w: World, picks: seq<nat>, draw: nat): World
    requires ObstacleCount(w.level) <= |picks|
  {
    var w1 := ResetSnake(c, w.(obstacles := []));
    var w2 := PlaceObstacles(c, w1, ObstacleCount(w.level), picks);
    SpawnFood(c, w2, draw).(started := true)
  }

  // ===================== One simulation step =====================

  /** The cell the head moves into on the next tick. */
  function NextHead(w: World): Vec
    requires |w.snake| >= 1
  {
    Add(w.snake[0], Delta(w.nextDirection))
  }

  /** The self-collision scan: the whole body when the snake is about to eat, otherwise all
      but the tail cell, which moves away in the same tick. */
  predicate HitsBody(snake: seq<Vec>, head: Vec, eating: bool)
    requires |snake| >= 1
  {
    head in snake[..if eating then |snake| else |snake| - 1]
  }

  /** The tick does not end in a collision with a wall, an obstacle or the body. */
  predicate Survives(c: Config, w: World)
    requires |w.snake| >= 1
  {
    var head := NextHead(w);
    InGrid(head, c.width, c.height) && head !in w.obstacles
    && !HitsBody(w.snake, head, head == w.foodPos)
  }

  /** The reward for eating: 10 points per level, one more cell of length, one more food
      towards the level. */
  function Eat(w: World): World {
    w.(score := w.score + 10 * w.level, snakeLength := w.snakeLength + 1,
       foodThisLevel := w.foodThisLevel + 1)
  }

  /** Tick: commit the queued direction, then move, eat or die. */
  function Tick(c: Config, w: World, draw: nat): World
    requires |w.snake| >= 1
  {
    var w1 := w.(direction := w.nextDirection);
    var head := NextHead(w);
    if !InGrid(head, c.width, c.height) || head in w.obstacles then w1.(alive := false)
    else
      var eating := head == w.foodPos;
      if HitsBody(w.snake, head, eating) then w1.(alive := false)
      else if eating then
        var w2 := Eat(w1.(snake := [head] + w.snake));
        if w2.foodThisLevel >= FoodForLevel(w2.level) then NextLevel(w2)
        else SpawnFood(c, w2, draw)
      else
        w1.(snake := [head] + w.snake[..|w.snake| - 1])
  }

  /** Running into a wall or an obstacle only ends the game: snake, score, food and counters
      stay as they were. */
  lemma TickCrash(c: Config, w: World, draw: nat)
    requires |w.snake| >= 1
    requires !InGrid(NextHead(w), c.width, c.height) || NextHead(w) in w.obstacles
    ensures Tick(c, w, draw) == w.(direction := w.nextDirection, alive := false)
  {
  }

  /** Any collision, including with the body, ends the game and changes nothing else. */
  lemma TickCollisionIsFatal(c: Config, w: World, draw: nat)
    requires |w.snake| >= 1 && !Survives(c, w)
    ensures Tick(c, w, draw) == w.(direction := w.nextDirection, alive := false)
  {
  }

  /** Moving into the cell the tail is vacating is legal when not eating, whereas an eating
      move into any body cell, the tail included, is fatal. */
  lemma TickTailChase(c: Config, w: World, draw: nat)
    requires SnakeShape(c, w.snake) && w.alive
    requires InGrid(NextHead(w), c.width, c.height) && NextHead(w) !in w.obstacles
    requires NextHead(w) == w.snake[|w.snake| - 1]
    ensures NextHead(w) != w.foodPos ==> Survives(c, w) && Tick(c, w, draw).alive
    ensures NextHead(w) == w.foodPos ==> !Tick(c, w, draw).alive
  {
    var s := w.snake;
    if NextHead(w) == w.foodPos {
      assert s[|s| - 1] in s[..|s|];
    }
  }

  /** A plain move: the new head followed by the old body without its tail cell; length,
      score and food unchanged. */
  lemma TickMoves(c: Config, w: World, draw: nat)
    requires |w.snake| >= 1 && Survives(c, w) && NextHead(w) != w.foodPos
    ensures var r := Tick(c, w, draw);
      && r.snake == [NextHead(w)] + w.snake[..|w.snake| - 1]
      && |r.snake| == |w.snake|
      && r == w.(snake := r.snake, direction := w.nextDirection)
  {
  }

  /** The state an eating tick reaches before the level check: the direction committed, the
      new head added in front of the whole body, 10 * level points and one more cell of
      length earned, one more food counted. */
  function Grown(w: World): World
    requires |w.snake| >= 1
  {
    w.(direction := w.nextDirection, snake := [NextHead(w)] + w.snake,
       score := w.score + 10 * w.level, snakeLength := w.snakeLength + 1,
       foodThisLevel := w.foodThisLevel + 1)
  }

  /** Eating: the snake grows by exactly one cell (the tail stays), the score rises by
      10 * level, and the length and food counters each rise by one. On the last food of the
      level the level advances, the counter resets and the pause begins with no new food;
      otherwise new food is spawned on a free cell, or, when the grown snake and the obstacles
      fill the board, the game ends in a win. Nothing else changes. */
  lemma TickEats(c: Config, w: World, draw: nat)
    requires |w.snake| >= 1 && Survives(c, w) && NextHead(w) == w.foodPos
    ensures var r := Tick(c, w, draw);
      var g := Grown(w);
      && |r.snake| == |w.snake| + 1
      && (w.foodThisLevel + 1 >= FoodForLevel(w.level) ==>
            r == g.(level := w.level + 1, foodThisLevel := 0, inTransition := true))
      && (w.foodThisLevel + 1 < FoodForLevel(w.level) ==>
            && r == SpawnFood(c, g, draw)
            && (BoardFull(c, g) ==> r == g.(alive := false))
            && (!BoardFull(c, g) ==> r == g.(foodPos := r.foodPos) && FoodPlaced(c, r)))
  {
    if w.foodThisLevel + 1 < FoodForLevel(w.level) {
      SpawnFoodOutcome(c, Grown(w), draw);
    }
  }

  // ===================== The invariant =====================

  /** Obstacles sit on distinct board cells, off the snake and outside the spawn block. */
  predicate ObstaclesPlaced(c: Config, w: World) {
    && Distinct(w.obstacles)
    && forall o :: o in w.obstacles ==>
         InGrid(o, c.width, c.height) && o !in w.snake && !NearCentre(c, o)
  }

  /** What holds of the game object between frames, except where the food is. */
  predicate Consistent(c: Config, w: World) {
    && ValidConfig(c)
    && SnakeShape(c, w.snake)
    && |w.snake| <= w.snakeLength
    && ObstaclesPlaced(c, w)
    && w.nextDirection != Opposite(w.direction)
    && w.score >= 0
    && w.level >= 1
    && 0 <= w.foodThisLevel < FoodForLevel(w.level)
  }

  /** What holds of the game object between frames: while the game runs, the food is on a
      free cell. (Between levels the head rests on the food just eaten.) */
  predicate Inv(c: Config, w: World) {
    Consistent(c, w) && (w.alive && !w.inTransition ==> FoodPlaced(c, w))
  }

  /** The cell just right of the spawn cell, or on a two-wide board the one to its left: always
      on the board, inside the spawn block and off the start row. */
  function SpareCell(c: Config): Vec {
    if c.width >= 3 then Vec(Centre(c).x + 1, Centre(c).y) else Vec(0, Centre(c).y)
  }

  lemma SpareCellFree(c: Config, snakeLength: int)
    requires ValidConfig(c)
    ensures InGrid(SpareCell(c), c.width, c.height)
    ensures NearCentre(c, SpareCell(c))
    ensures SpareCell(c) !in InitialSnake(c, snakeLength)
  {
  }

  /** A new run starts from a valid, living state on an empty board, at level 1 with score 0. */
  lemma NewGameStarts(c: Config, w: World, draw: nat)
    requires ValidConfig(c)
    ensures var r := NewGame(c, w, draw);
      && Inv(c, r)
      && r.alive && !r.started && !r.paused && !r.inTransition
      && r.score == 0 && r.level == 1 && r.foodThisLevel == 0
      && r.snakeLength == c.initialLength
      && r.obstacles == []
      && r.snake == InitialSnake(c, c.initialLength)
      && r.direction == Right && r.nextDirection == Right
  {
    var w2 := ResetSnake(c, FreshRun(c, w).(obstacles := []));
    InitialSnakeShape(c, c.initialLength);
    SpareCellFree(c, c.initialLength);
    assert !BoardFull(c, w2) by {
      assert SpareCell(c) !in w2.snake && SpareCell(c) !in w2.obstacles;
    }
    SpawnFoodOutcome(c, w2, draw);
  }

  /** A level starts from a valid state with the food always placed: the spawn block is kept
      clear of obstacles and the snake covers only part of it. */
  lemma StartLevelStarts(c: Config, w: World, picks: seq<nat>, draw: nat)
    requires Consistent(c, w) && ObstacleCount(w.level) <= |picks|
    ensures var r := StartLevel(c, w, picks, draw);
      && Inv(c, r)
      && r.alive == w.alive && r.started
      && r.snake == InitialSnake(c, w.snakeLength)
      && r.direction == Right && r.nextDirection == Right
      && |r.obstacles| == Min(ObstacleCount(w.level), |ObstacleCandidates(c, r.snake)|)
      && (r.alive ==> FoodPlaced(c, r))
      && r.score == w.score && r.level == w.level && r.foodThisLevel == w.foodThisLevel
  {
    var w1 := ResetSnake(c, w.(obstacles := []));
    var w2 := PlaceObstacles(c, w1, ObstacleCount(w.level), picks);
    InitialSnakeShape(c, w.snakeLength);
    PlaceObstaclesAvoidsStart(c, w1, ObstacleCount(w.level), picks);
    assert w2.obstacles == w2.obstacles[|w1.obstacles|..];
    SpareCellFree(c, w.snakeLength);
    assert !BoardFull(c, w2) by {
      assert SpareCell(c) !in w2.snake && SpareCell(c) !in w2.obstacles;
    }
    SpawnFoodOutcome(c, w2, draw);
  }

  /** A tick that runs keeps the invariant: in particular the snake's cells stay on the board,
      pairwise distinct and contiguous. */
  lemma TickPreservesInv(c: Config, w: World, draw: nat)
    requires Inv(c, w) && w.alive && !w.inTransition
    ensures Inv(c, Tick(c, w, draw))
  {
    var s := w.snake;
    var head := NextHead(w);
    var r := Tick(c, w, draw);
    if Survives(c, w) {
      StepIsAdjacent(s[0], w.nextDirection);
      if head == w.foodPos {
        GrowKeepsShape(c, s, head);
        SpawnFoodOutcome(c, Eat(w.(direction := w.nextDirection, snake := [head] + s)), draw);
      } else {
        MoveKeepsShape(c, s, head);
      }
    }
  }

  lemma GrowKeepsShape(c: Config, s: seq<Vec>, head: Vec)
    requires SnakeShape(c, s) && InGrid(head, c.width, c.height)
    requires head !in s && Adjacent(head, s[0])
    ensures SnakeShape(c, [head] + s)
  {
    var t := [head] + s;
    DistinctConcat([head], s);
    forall i | 0 <= i < |t| - 1
      ensures Adjacent(t[i], t[i + 1])
    {
      if i > 0 {
        assert t[i] == s[i - 1] && t[i + 1] == s[i];
      }
    }
  }

  lemma MoveKeepsShape(c: Config, s: seq<Vec>, head: Vec)
    requires SnakeShape(c, s) && InGrid(head, c.width, c.height)
    requires head !in s[..|s| - 1] && Adjacent(head, s[0])
    ensures SnakeShape(c, [head] + s[..|s| - 1])
  {
    var body := s[..|s| - 1];
    var t := [head] + body;
    assert forall i, j :: 0 <= i < j < |body| ==> body[i] == s[i] && body[j] == s[j];
    DistinctConcat([head], body);
    forall i | 0 <= i < |t| - 1
      ensures Adjacent(t[i], t[i + 1])
    {
      if i > 0 {
        assert t[i] == s[i - 1] && t[i + 1] == s[i];
      }
    }
  }

  // ===================== The frame loop =====================

  /** What one frame brings: Space/Return, the direction keys pressed, P/Escape, whether the
      move timer ran out and whether the between-levels pause ran out. */
  datatype Frame = Frame(confirm: bool, pressed: set<Direction>, pauseKey: bool,
                         tickDue: bool, transitionDone: bool)

  /** The random draws a frame may consume: one for food, one per obstacle of a new level. */
  datatype Draws = Draws(food: nat, obstaclePicks: seq<nat>)

  /** Update: restart after a game over, leave the between-levels pause, wait for the first
      key, toggle pause, steer and move. */
  function Update(c: Config, w: World, f: Frame, d: Draws): World
    requires w.alive && !w.inTransition ==> |w.snake| >= 1
    requires w.alive && w.inTransition ==> ObstacleCount(w.level) <= |d.obstaclePicks|
  {
    if !w.alive then
      if f.confirm then NewGame(c, w, d.food) else w
    else if w.inTransition then
      if f.transitionDone then StartLevel(c, w.(inTransition := false), d.obstaclePicks, d.food)
      else w
    else if !w.started && !(f.confirm || f.pressed != {}) then w
    else
      var w1 := w.(started := true);
      if f.pauseKey then w1.(paused := !w1.paused)
      else if w1.paused then w1
      else
        var w2 := Steer(w1, f.pressed);
        if f.tickDue then Tick(c, w2, d.food) else w2
  }

  /** Every frame keeps the invariant. */
  lemma UpdatePreservesInv(c: Config, w: World, f: Frame, d: Draws)
    requires Inv(c, w)
    requires w.alive && w.inTransition ==> ObstacleCount(w.level) <= |d.obstaclePicks|
    ensures Inv(c, Update(c, w, f, d))
  {
    if !w.alive {
      if f.confirm {
        NewGameStarts(c, w, d.food);
      }
    } else if w.inTransition {
      if f.transitionDone {
        StartLevelStarts(c, w.(inTransition := false), d.obstaclePicks, d.food);
      }
    } else if !w.started && !(f.confirm || f.pressed != {}) {
    } else {
      var w1 := w.(started := true);
      if !f.pauseKey && !w1.paused {
        var w2 := Steer(w1, f.pressed);
        SteerNeverReverses(w1, f.pressed);
        if f.tickDue {
          TickPreservesInv(c, w2, d.food);
        }
      }
    }
  }

  /** The snake only moves while the game is running: alive, started, not paused and not
      between levels. */
  lemma UpdateMovesOnlyWhilePlaying(c: Config, w: World, f: Frame, d: Draws)
    requires |w.snake| >= 1
    requires w.alive && !w.inTransition && (w.paused || !f.tickDue)
    ensures Update(c, w, f, d).snake == w.snake
    ensures Update(c, w, f, d).score == w.score
  {
  }
}
