/** The game object of SnakeGame.cs without its rendering: the fields it updates in place and
    the methods that update them, each proved to change the state exactly as the matching
    function of module Rules says; a whole frame keeps the invariant Rules.Inv. */
module SnakeGame {
  import opened Grid
  import Rules

  /** The inner loop of the free-cell scans: column x, bottom to top, skipping blocked cells. */
  method ScanColumn(x: int, height: int, blocked: set<Vec>) returns (column: seq<Vec>)
    ensures column == ColumnFree(x, 0, height, blocked)
  {
    column := [];
    var y := 0;
    while y < height
      invariant column + ColumnFree(x, y, height, blocked) == ColumnFree(x, 0, height, blocked)
    {
      var p := Vec(x, y);
      ghost var above := ColumnFree(x, y + 1, height, blocked);
      if p !in blocked {
        assert ColumnFree(x, y, height, blocked) == [p] + above;
        column := column + [p];
      } else {
        assert ColumnFree(x, y, height, blocked) == above;
      }
      y := y + 1;
    }
  }

  /** The nested scan `for x in 0..width { for y in 0..height { if !blocked.Contains(p) free.Add(p) } }`
      shared by food and obstacle placement. */
  method ScanFree(width: int, height: int, blocked: set<Vec>) returns (free: seq<Vec>)
    ensures free == FreeCells(width, height, blocked)
  {
    free := [];
    var x := 0;
    while x < width
      invariant free + GridFree(x, width, height, blocked) == FreeCells(width, height, blocked)
    {
      var column := ScanColumn(x, height, blocked);
      assert GridFree(x, width, height, blocked) == column + GridFree(x + 1, width, height, blocked);
      free := free + column;
      x := x + 1;
    }
  }

  /** The cells of the snake plus the 5x5 block around the centre, built as PlaceObstacles
      does: the snake's HashSet, then the nested `for dx in -2..2 { for dy in -2..2 }` loop. */
  method SpawnBlock(c: Rules.Config, snake: seq<Vec>) returns (blocked: set<Vec>)
    ensures blocked == Cells(snake) + Rules.CentreBlock(c)
  {
    blocked := Cells(snake);
    var center := Vec(c.width / 2, c.height / 2);
    for dx := -2 to 3
      invariant forall p :: p in blocked <==>
        p in snake || (center.x - 2 <= p.x < center.x + dx && Abs(p.y - center.y) <= 2)
    {
      for dy := -2 to 3
        invariant forall p :: p in blocked <==>
          p in snake || (center.x - 2 <= p.x < center.x + dx && Abs(p.y - center.y) <= 2)
                     || (p.x == center.x + dx && center.y - 2 <= p.y < center.y + dy)
      {
        blocked := blocked + {Add(center, Vec(dx, dy))};
      }
    }
  }

  class Game {
    // Serialized settings, fixed for the lifetime of the object.
    const gridWidth: int
    const gridHeight: int
    const initialLength: int

    // Snake state
    var snake: seq<Vec>       // head first
    var direction: Direction
    var nextDirection: Direction
    var snakeLength: int

    var foodPos: Vec

    // Game state
    var score: int
    var alive: bool
    var started: bool
    var paused: bool

    // Level and progress
    var level: int
    var foodThisLevel: int
    var inTransition: bool

    var obstacles: seq<Vec>

    function Cfg(): Rules.Config {
      Rules.Config(gridWidth, gridHeight, initialLength)
    }

    /** The logical state, as the rules see it. */
    function State(): Rules.World
      reads this
    {
      Rules.World(snake, obstacles, foodPos, direction, nextDirection, score, level,
                  foodThisLevel, snakeLength, alive, started, paused, inTransition)
    }

    ghost predicate Valid()
      reads this
    {
      Rules.Inv(Cfg(), State())
    }

    /** Start(): the settings, then NewGame. */
    constructor (width: int, height: int, startLength: int, draw: nat)
      requires Rules.ValidConfig(Rules.Config(width, height, startLength))
      ensures gridWidth == width && gridHeight == height && initialLength == startLength
      ensures Valid()
      ensures alive && !started && !paused && !inTransition
      ensures score == 0 && level == 1 && foodThisLevel == 0 && snakeLength == startLength
      ensures obstacles == [] && snake == Rules.InitialSnake(Cfg(), startLength)
      ensures direction == Right && nextDirection == Right
    {
      gridWidth, gridHeight, initialLength := width, height, startLength;
      new;
      ghost var blank := State();
      NewGame(draw);
      Rules.NewGameStarts(Cfg(), blank, draw);
    }

    /** HandleInput: queue the pressed direction unless it reverses the current one. */
    method HandleInput(pressed: set<Direction>)
      modifies this`nextDirection
      ensures State() == Rules.Steer(old(State()), pressed)
    {
      var d := nextDirection;
      if Up in pressed {
        d := Up;
      } else if Down in pressed {
        d := Down;
      } else if Left in pressed {
        d := Left;
      } else if Right in pressed {
        d := Right;
      }
      if Add(Delta(d), Delta(direction)) != Zero {
        nextDirection := d;
      }
    }

    method NewGame(draw: nat)
      modifies this
      ensures State() == Rules.NewGame(Cfg(), old(State()), draw)
    {
      ResetRun();
      ClearObstacles();
      ResetSnake();
      SpawnFood(draw);
    }

    /** The opening assignments of NewGame: score, level, food count, flags and length. */
    method ResetRun()
      modifies this`score, this`level, this`foodThisLevel, this`inTransition, this`alive,
               this`started, this`paused, this`snakeLength
      ensures score == 0 && level == 1 && foodThisLevel == 0 && !inTransition
      ensures alive && !started && !paused && snakeLength == initialLength
    {
      score := 0;
      level := 1;
      foodThisLevel := 0;
      inTransition := false;
      alive := true;
      started := false;
      paused := false;
      snakeLength := initialLength;
    }

    method StartLevel(picks: seq<nat>, draw: nat)
      requires Rules.ObstacleCount(level) <= |picks|
      modifies this
      ensures State() == Rules.StartLevel(Cfg(), old(State()), picks, draw)
    {
      ClearObstacles();
      ResetSnake();
      PlaceObstacles(Rules.ObstacleCount(level), picks);
      SpawnFood(draw);
      started := true;
    }

    method NextLevel()
      modifies this`level, this`foodThisLevel, this`inTransition
      ensures State() == Rules.NextLevel(old(State()))
    {
      level := level + 1;
      foodThisLevel := 0;
      inTransition := true;
    }

    /** ResetSnake: a horizontal line growing left from the centre, facing right. */
    method ResetSnake()
      modifies this`snake, this`direction, this`nextDirection
      ensures State() == Rules.ResetSnake(Cfg(), old(State()))
    {
      snake := [];
      direction := Right;
      nextDirection := Right;
      var center := Vec(gridWidth / 2, gridHeight / 2);
      var len := Rules.Min(snakeLength, gridWidth / 2);
      ghost var target := Rules.InitialSnake(Cfg(), snakeLength);
      var i := 0;
      while i < len
        modifies this`snake
        invariant 0 <= i <= |target|
        invariant snake == target[..i]
      {
        snake := snake + [Add(center, Scale(Delta(Left), i))];
        i := i + 1;
      }
      assert |target| == Rules.Max(0, len);
      assert target[..i] == target;
    }

    /** Tick: commit the queued direction, then die, move or eat. */
    method Tick(draw: nat)
      requires |snake| >= 1
      modifies this
      ensures State() == Rules.Tick(Cfg(), old(State()), draw)
    {
      direction := nextDirection;
      var head := Add(snake[0], Delta(direction));

      // Wall collision
      if head.x < 0 || head.x >= gridWidth || head.y < 0 || head.y >= gridHeight {
        Die();
        return;
      }

      // Obstacle collision
      if head in obstacles {
        Die();
        return;
      }

      // Self collision
      var eating := head == foodPos;
      var hit := HitsBody(head, eating);
      if hit {
        Die();
        return;
      }

      ghost var body := snake;
      snake := [head] + snake;

      if eating {
        Eat();
        if foodThisLevel >= Rules.FoodForLevel(level) {
          NextLevel();
          return;
        }
        SpawnFood(draw);
      } else {
        snake := snake[..|snake| - 1];
        assert snake == [head] + body[..|body| - 1];
      }
    }

    /** The self-collision scan of Tick: the whole body when eating, all but the tail otherwise. */
    method HitsBody(head: Vec, eating: bool) returns (hit: bool)
      requires |snake| >= 1
      ensures hit == Rules.HitsBody(snake, head, eating)
    {
      var checkLimit := if eating then |snake| else |snake| - 1;
      var i := 0;
      while i < checkLimit
        invariant 0 <= i <= checkLimit
        invariant head !in snake[..i]
      {
        if snake[i] == head {
          assert snake[..checkLimit][i] == head;
          return true;
        }
        i := i + 1;
      }
      assert snake[..i] == snake[..checkLimit];
      return false;
    }

    /** The score, length and food-count updates of Tick when the head lands on the food. */
    method Eat()
      modifies this`score, this`snakeLength, this`foodThisLevel
      ensures State() == Rules.Eat(old(State()))
    {
      score := score + 10 * level;
      snakeLength := snakeLength + 1;
      foodThisLevel := foodThisLevel + 1;
    }

    method Die()
      modifies this`alive
      ensures State() == old(State()).(alive := false)
    {
      alive := false;
    }

    /** SpawnFood: put the food on the free cell chosen by `draw`, or end the game in a win when
        no cell is free. */
    method SpawnFood(draw: nat)
      modifies this`foodPos, this`alive
      ensures State() == Rules.SpawnFood(Cfg(), old(State()), draw)
    {
      var blocked := Cells(snake);
      for k := 0 to |obstacles|
        invariant forall p :: p in blocked <==> p in snake || p in obstacles[..k]
      {
        blocked := blocked + {obstacles[k]};
      }
      assert obstacles[..|obstacles|] == obstacles;
      assert blocked == Cells(snake) + Cells(obstacles);

      var free := ScanFree(gridWidth, gridHeight, blocked);
      if |free| == 0 {
        alive := false;
        return;
      }
      foodPos := free[draw % |free|];
    }

    /** PlaceObstacles(count): draw `count` cells without replacement from the board cells off
        the snake and outside the 5x5 block around the centre, appending each to the obstacles. */
    method PlaceObstacles(count: int, picks: seq<nat>)
      requires count <= |picks|
      modifies this`obstacles
      ensures obstacles == old(obstacles) + Rules.Draw(Rules.ObstacleCandidates(Cfg(), snake), picks, count)
    {
      var blocked := SpawnBlock(Cfg(), snake);
      var candidates := ScanFree(gridWidth, gridHeight, blocked);
      ghost var all := candidates;
      ghost var placed: seq<Vec> := [];
      var i := 0;
      while i < count && |candidates| > 0
        invariant 0 <= i <= |picks|
        invariant i <= count || i == 0
        invariant obstacles == old(obstacles) + placed
        invariant placed + Rules.Draw(candidates, picks[i..], count - i) == Rules.Draw(all, picks, count)
      {
        var idx := picks[i] % |candidates|;
        var pos := candidates[idx];
        ghost var rest := Rules.Draw(Rules.RemoveAt(candidates, idx), picks[i + 1..], count - i - 1);
        assert picks[i..][1..] == picks[i + 1..];
        assert Rules.Draw(candidates, picks[i..], count - i) == [pos] + rest;
        assert placed + ([pos] + rest) == (placed + [pos]) + rest;
        candidates := Rules.RemoveAt(candidates, idx);
        obstacles := obstacles + [pos];
        placed := placed + [pos];
        i := i + 1;
      }
    }

    method ClearObstacles()
      modifies this`obstacles
      ensures State() == old(State()).(obstacles := [])
    {
      obstacles := [];
    }

    /** Update, once per frame: restart after a game over, end the between-levels pause, wait
        for the first key, toggle pause, then steer and, when the move timer has run out, tick. */
    method Update(frame: Rules.Frame, draws: Rules.Draws)
      requires alive && !inTransition ==> |snake| >= 1
      requires alive && inTransition ==> Rules.ObstacleCount(level) <= |draws.obstaclePicks|
      modifies this
      ensures State() == Rules.Update(Cfg(), old(State()), frame, draws)
    {
      if !alive {
        if frame.confirm {
          NewGame(draws.food);
        }
        return;
      }

      if inTransition {
        if frame.transitionDone {
          inTransition := false;
          StartLevel(draws.obstaclePicks, draws.food);
        }
        return;
      }

      if !started {
        if frame.confirm || frame.pressed != {} {
          started := true;
        } else {
          return;
        }
      }

      // Pause toggle
      if frame.pauseKey {
        paused := !paused;
        return;
      }

      if paused {
        return;
      }

      HandleInput(frame.pressed);

      if frame.tickDue {
        Tick(draws.food);
      }
    }

    /** A frame of a game object in a valid state leaves it in a valid state. */
    method RunFrame(frame: Rules.Frame, draws: Rules.Draws)
      requires Valid()
      requires alive && inTransition ==> Rules.ObstacleCount(level) <= |draws.obstaclePicks|
      modifies this
      ensures Valid()
    {
      Rules.UpdatePreservesInv(Cfg(), State(), frame, draws);
      Update(frame, draws);
    }
  }
}
