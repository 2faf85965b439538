/** The game around the snake: the dot, the timers, the game-over and quit
    flags, the gate that allows one direction change per movement tick, and
    what one frame and one input event do to them. */
module GameSession {
  import opened Grid
  import opened Rules
  import opened SnakeModel

  /** The keys the game reacts to; every other key is `OtherKey`. */
  datatype Key = Escape | NewGameKey | ArrowRight | ArrowLeft | ArrowUp | ArrowDown | OtherKey

  /** An input event: a key press, or the window being closed. */
  datatype Event = KeyDown(key: Key) | QuitRequest

  /** The direction an arrow key asks for. */
  function KeyDirection(k: Key): (r: Option<int>)
    ensures r.Some? ==> IsDirection(r.value)
    ensures r.Some? <==> k in {ArrowRight, ArrowLeft, ArrowUp, ArrowDown}
  {
    match k
    case ArrowRight => Some(Right)
    case ArrowLeft => Some(Left)
    case ArrowUp => Some(Up)
    case ArrowDown => Some(Down)
    case _ => None
  }

  /** A frame's clock difference, given in whole milliseconds, in seconds. */
  function Seconds(ms: nat): (r: real)
    ensures 0.0 <= r
  {
    ms as real * 0.001
  }

  class Game {
    var snake: Snake
    /** The target cell. */
    var dot: Cell
    /** Seconds played in this game; shown to the player. */
    var worldTime: real
    /** Seconds since the last movement tick. */
    var snakeTime: real
    /** Seconds since the last speed-up. */
    var speedupTime: real
    /** An arrow key may change the direction (re-armed by every tick). */
    var canMove: bool
    var gameOver: bool
    var quit: bool

    /** The snake is valid and the dot is a board cell off the body. */
    ghost predicate Valid()
      reads this, snake, snake.body
    {
      snake.Valid() && InGrid(dot) && dot !in snake.Body()
    }

    /** Start of the program: timers at zero, flags cleared, a new snake and
        a dot placed from the random draws. */
    constructor (draws: seq<nat>)
      requires HasFreeDraw(draws, InitialBody())
      ensures Valid() && fresh(snake) && fresh(snake.body)
      ensures snake.State() == Pose(InitialBody(), Right) && snake.speed == InitialSpeed
      ensures Some(dot) == FirstFree(draws, InitialBody())
      ensures worldTime == 0.0 && snakeTime == 0.0 && speedupTime == 0.0
      ensures !canMove && !gameOver && !quit
    {
      snake := new Snake();
      dot := Cell(0, 0);
      worldTime, snakeTime, speedupTime := 0.0, 0.0, 0.0;
      canMove, gameOver, quit := false, false, false;
      new;
      Reset(draws);
    }

    /** Dot placement: take the random draws two at a time as a candidate
        cell until one is off the body. `draws` stands for the stream of
        random numbers; the loop finishes because some candidate is free. */
    method InitDot(draws: seq<nat>)
      requires snake.Valid() && HasFreeDraw(draws, snake.Body())
      modifies this`dot
      ensures Some(dot) == FirstFree(draws, snake.Body())
      ensures InGrid(dot) && dot !in snake.Body()
    {
      FirstFreeIsFirst(draws, snake.Body());
      var flag := false;
      var k: nat := 0;
      while !flag
        invariant 2 * k <= |draws|
        invariant flag ==> Some(dot) == FirstFree(draws, snake.Body())
        invariant !flag ==> FirstFree(draws[2 * k..], snake.Body()) == FirstFree(draws, snake.Body())
        invariant !flag ==> FirstFree(draws[2 * k..], snake.Body()).Some?
        decreases |draws| - 2 * k
      {
        ghost var rest := draws[2 * k..];
        flag := true;
        dot := Cell(draws[2 * k] % RowCells, draws[2 * k + 1] % ColCells);
        assert dot == DrawCell(rest, 0);
        var i := 0;
        while i < snake.length
          invariant 0 <= i <= snake.length
          invariant forall j :: 0 <= j < i ==> snake.body[j] != dot
        {
          if snake.body[i] == dot {
            flag := false;
            break;
          }
          i := i + 1;
        }
        assert flag <==> dot !in snake.Body();
        assert rest[2..] == draws[2 * k + 2..];
        k := k + 1;
      }
    }

    /** A new game: a new snake, a new dot, timers at zero, flags cleared
        (the quit flag is left alone). */
    method Reset(draws: seq<nat>)
      requires HasFreeDraw(draws, InitialBody())
      modifies this
      ensures Valid() && fresh(snake) && fresh(snake.body)
      ensures snake.State() == Pose(InitialBody(), Right) && snake.speed == InitialSpeed
      ensures Some(dot) == FirstFree(draws, InitialBody())
      ensures worldTime == 0.0 && snakeTime == 0.0 && speedupTime == 0.0
      ensures !canMove && !gameOver && quit == old(quit)
    {
      snake := new Snake();
      InitDot(draws);
      gameOver := false;
      worldTime, snakeTime, speedupTime := 0.0, 0.0, 0.0;
      canMove := false;
    }

    /** A movement tick is due this frame. */
    ghost predicate TickDue(delta: real)
      reads this, snake
    {
      !gameOver && snakeTime + delta >= snake.speed
    }

    /** A speed-up is due this frame. */
    ghost predicate SpeedupDue(delta: real)
      reads this
    {
      !gameOver && speedupTime + delta >= SpeedupTime as real
    }

    /** The snake after this frame's tick, if one is due. */
    ghost function Moved(delta: real): (p: Pose)
      reads this, snake, snake.body
      requires Valid()
      ensures |p.body| == snake.length
    {
      UpdateShiftsBody(snake.State());
      if TickDue(delta) then Rules.Update(snake.State()) else snake.State()
    }

    /** The moved head lands on the dot this frame. */
    ghost predicate Eats(delta: real)
      reads this, snake, snake.body
      requires Valid()
    {
      !gameOver && Moved(delta).body[0] == dot
    }

    /** The dot is a board cell off every segment but possibly the head:
        the state between a tick and the eating test. */
    ghost predicate DotOffTail()
      reads this, snake, snake.body
    {
      snake.Valid() && InGrid(dot) && dot !in snake.Body()[1..]
    }

    /** One frame of the main loop: unless the game is over, advance the
        clocks and move and speed up the snake as due, then eat the dot if
        the head is on it; then end the game if the snake collides with
        itself. Eating needs a free slot in the buffer and a free candidate
        among the draws. */
    method Frame(elapsedMs: nat, draws: seq<nat>)
      requires Valid()
      requires Eats(Seconds(elapsedMs)) ==>
               snake.length < Capacity && HasFreeDraw(draws, Moved(Seconds(elapsedMs)).body)
      modifies this, snake, snake.body
      ensures Valid() && snake == old(snake) && snake.body == old(snake.body)
      ensures var mid, eats := old(Moved(Seconds(elapsedMs))), old(Eats(Seconds(elapsedMs)));
              snake.State() == (if eats then Pose(Grown(mid.body), mid.direction) else mid) &&
              (if eats then Some(dot) == FirstFree(draws, mid.body) else dot == old(dot))
      ensures var delta := Seconds(elapsedMs);
              var ticks, speeds := old(TickDue(delta)), old(SpeedupDue(delta));
              canMove == (old(canMove) || ticks) &&
              worldTime == (if old(gameOver) then old(worldTime) else old(worldTime) + delta) &&
              snakeTime == (if old(gameOver) then old(snakeTime) else if ticks then 0.0 else old(snakeTime) + delta) &&
              speedupTime == (if old(gameOver) then old(speedupTime) else if speeds then 0.0 else old(speedupTime) + delta) &&
              snake.speedUps == old(snake.speedUps) + (if speeds then 1 else 0)
      ensures gameOver == (old(gameOver) || SelfCollides(snake.Body()))
      ensures quit == old(quit)
    {
      var delta := Seconds(elapsedMs);
      if !gameOver {
        Advance(delta);
        Eat(draws);
      }
      EndOnCollision();
    }

    /** The end of every frame: the game is over once the snake collides
        with itself. */
    method EndOnCollision()
      requires Valid()
      modifies this`gameOver
      ensures gameOver == (old(gameOver) || SelfCollides(snake.Body()))
    {
      var collided := snake.CheckCollision();
      if collided {
        gameOver := true;
      }
    }

    /** The clock part of a frame: advance the three timers by `delta`;
        when the tick is due move the snake, re-arm the arrow keys and
        restart the tick timer; when the speed-up is due speed the snake up
        and restart the speed-up timer. */
    method Advance(delta: real)
      requires Valid() && !gameOver
      modifies this`worldTime, this`snakeTime, this`speedupTime, this`canMove, snake, snake.body
      ensures DotOffTail() && snake.body == old(snake.body)
      ensures snake.State() == old(Moved(delta)) && dot == old(dot) && !gameOver
      ensures var ticks, speeds := old(TickDue(delta)), old(SpeedupDue(delta));
              canMove == (old(canMove) || ticks) &&
              worldTime == old(worldTime) + delta &&
              snakeTime == (if ticks then 0.0 else old(snakeTime) + delta) &&
              speedupTime == (if speeds then 0.0 else old(speedupTime) + delta) &&
              snake.speedUps == old(snake.speedUps) + (if speeds then 1 else 0)
    {
      ghost var mid := Moved(delta);
      worldTime := worldTime + delta;
      speedupTime := speedupTime + delta;
      snakeTime := snakeTime + delta;
      if snakeTime >= snake.speed {
        snake.Update();
        canMove := true;
        snakeTime := 0.0;
      }
      assert snake.State() == mid;
      if speedupTime >= SpeedupTime as real {
        snake.SpeedUp();
        speedupTime := 0.0;
      }
    }

    /** The eating part of a frame: when the head is on the dot, place a new
        dot off the body and then grow the snake. */
    method Eat(draws: seq<nat>)
      requires DotOffTail()
      requires snake.HeadOn(dot) ==> snake.length < Capacity && HasFreeDraw(draws, snake.Body())
      modifies this`dot, snake`length, snake.body
      ensures Valid()
      ensures var eats := old(snake.HeadOn(dot));
              snake.State() == (if eats then Pose(Grown(old(snake.Body())), old(snake.direction)) else old(snake.State())) &&
              (if eats then Some(dot) == FirstFree(draws, old(snake.Body())) else dot == old(dot))
    {
      ghost var before := snake.Body();
      var eaten := snake.HeadOn(dot);
      if eaten {
        InitDot(draws);
        snake.Grow();
        assert snake.Body() == before + [before[|before| - 1]];
        assert dot !in snake.Body();
      } else {
        assert before == [before[0]] + before[1..];
        assert dot !in snake.Body();
      }
    }

    /** An arrow key is taken: the game runs, the gate is open, the key does
        not reverse a snake longer than one segment, and the head has room in
        the key's direction. */
    ghost predicate Accepts(k: Key): (r: bool)
      reads this, snake, snake.body
      requires Valid()
      ensures r ==> k in {ArrowRight, ArrowLeft, ArrowUp, ArrowDown} && canMove && !gameOver
      ensures r && snake.length > 1 ==> KeyDirection(k).value != Opposite(snake.direction)
      ensures r && InGrid(snake.Body()[0]) ==> InGrid(Step(snake.Body()[0], KeyDirection(k).value))
    {
      var d := KeyDirection(k);
      d.Some? && !gameOver && canMove &&
      (snake.direction != Opposite(d.value) || snake.length == 1) &&
      HasRoom(snake.Body()[0], d.value)
    }

    /** One input event: Escape or closing the window quits, 'n' starts a
        new game, an accepted arrow key sets the direction and closes the
        gate until the next tick; anything else changes nothing. */
    method HandleEvent(e: Event, draws: seq<nat>)
      requires Valid()
      requires e == KeyDown(NewGameKey) ==> HasFreeDraw(draws, InitialBody())
      modifies this, snake
      ensures Valid()
      ensures e == QuitRequest || e == KeyDown(Escape) ==>
              quit && snake == old(snake) && unchanged(snake) && dot == old(dot) &&
              canMove == old(canMove) && gameOver == old(gameOver) &&
              worldTime == old(worldTime) && snakeTime == old(snakeTime) &&
              speedupTime == old(speedupTime)
      ensures e == KeyDown(NewGameKey) ==>
              fresh(snake) && snake.State() == Pose(InitialBody(), Right) &&
              Some(dot) == FirstFree(draws, InitialBody()) &&
              worldTime == 0.0 && snakeTime == 0.0 && speedupTime == 0.0 &&
              !canMove && !gameOver && quit == old(quit)
      ensures e.KeyDown? && e.key !in {Escape, NewGameKey} ==>
              snake == old(snake) && snake.body == old(snake.body) &&
              snake.Body() == old(snake.Body()) && snake.speed == old(snake.speed) &&
              dot == old(dot) && gameOver == old(gameOver) && quit == old(quit) &&
              worldTime == old(worldTime) && snakeTime == old(snakeTime) &&
              speedupTime == old(speedupTime) &&
              if old(Accepts(e.key)) then snake.direction == KeyDirection(e.key).value && !canMove
              else snake.direction == old(snake.direction) && canMove == old(canMove)
    {
      match e
      case QuitRequest =>
        quit := true;
      case KeyDown(k) =>
        if k == Escape {
          quit := true;
        } else if k == NewGameKey {
          Reset(draws);
        } else {
          Steer(k);
        }
    }

    /** An arrow key: when it is accepted, set the direction and close the
        gate until the next tick; otherwise change nothing. */
    method Steer(k: Key)
      requires Valid() && k !in {Escape, NewGameKey}
      modifies this`canMove, snake`direction
      ensures Valid()
      ensures if old(Accepts(k)) then snake.direction == KeyDirection(k).value && !canMove
              else snake.direction == old(snake.direction) && canMove == old(canMove)
    {
      if !gameOver && canMove {
        var h := snake.body[0];
        if k == ArrowRight && (snake.direction != Left || snake.length == 1) {
          if h.x < RowCells - 1 {
            snake.direction := Right;
            canMove := false;
          }
        } else if k == ArrowLeft && (snake.direction != Right || snake.length == 1) {
          if h.x > 0 {
            snake.direction := Left;
            canMove := false;
          }
        } else if k == ArrowUp && (snake.direction != Down || snake.length == 1) {
          if h.y > 0 {
            snake.direction := Up;
            canMove := false;
          }
        } else if k == ArrowDown && (snake.direction != Up || snake.length == 1) {
          if h.y < ColCells - 1 {
            snake.direction := Down;
            canMove := false;
          }
        }
      }
    }
  }

  /** Between two movement ticks at most one arrow key changes the
      direction: once a key has been accepted, the next one is ignored.
      A property of two consecutive events, not an operation of the game;
      the arrow keys draw no random numbers, hence the empty `draws`. */
  method TwoKeysBetweenTicks(g: Game, first: Key, second: Key)
    requires g.Valid()
    requires first !in {Escape, NewGameKey} && second !in {Escape, NewGameKey}
    modifies g, g.snake
    ensures g.Valid()
    ensures old(g.Accepts(first)) ==> g.snake.direction == KeyDirection(first).value && !g.canMove
  {
    g.HandleEvent(KeyDown(first), []);
    g.HandleEvent(KeyDown(second), []);
  }
}
