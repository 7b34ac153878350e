/**
 * The game controller: the phase machine driven by button clicks, the
 * direction keys, and the playing tick (move, eat, collide).
 */
module GameController {
  import opened Grid
  import opened SnakeEntity
  import opened FoodEntity

  /** Points for one piece of food. */
  const FoodValue: int := 10

  datatype Phase = Menu | Playing | GameOver

  /** A direction key; each stands for the arrow key and its WASD twin. */
  datatype Key = UpKey | DownKey | LeftKey | RightKey | OtherKey

  /** A button of the menu screen (Start, Exit) or of the game-over screen (Retry, MainMenu). */
  datatype Button = Start | Exit | Retry | MainMenu

  function KeyVector(key: Key): Cell
    requires key != OtherKey
  {
    match key
    case UpKey => UpVec
    case DownKey => DownVec
    case LeftKey => LeftVec
    case RightKey => RightVec
  }

  /** The direction after one key press: a key that would reverse the snake is ignored. */
  function Steer(current: Cell, key: Key): (r: Cell)
    ensures key == OtherKey ==> r == current
    ensures key != OtherKey ==> r == if KeyVector(key) == Opposite(current) then current else KeyVector(key)
    ensures IsDirection(current) ==> IsDirection(r) && r != Opposite(current)
  {
    match key
    case UpKey => if current != DownVec then UpVec else current
    case DownKey => if current != UpVec then DownVec else current
    case LeftKey => if current != RightVec then LeftVec else current
    case RightKey => if current != LeftVec then RightVec else current
    case OtherKey => current
  }

  /**
   * Each key is checked against the direction stored by the previous key, not
   * against the direction of the last move: two keys pressed between two ticks
   * can turn the snake right round, whatever way it is going.
   */
  lemma TwoKeysCanReverse(d: Cell)
    requires IsDirection(d)
    ensures exists first, second :: Steer(Steer(d, first), second) == Opposite(d)
  {
    if d == UpVec || d == DownVec {
      assert Steer(Steer(d, RightKey), if d == UpVec then DownKey else UpKey) == Opposite(d);
    } else {
      assert Steer(Steer(d, UpKey), if d == RightVec then LeftKey else RightKey) == Opposite(d);
    }
  }

  /** The food is off the snake, unless the snake covers the whole grid. */
  ghost predicate FoodClear(food: Cell, body: seq<Cell>) {
    food !in body || GridFull(body)
  }

  /**
   * A playing tick that does not end the game leaves the food off the snake:
   * either the head missed the food, which was off the old body, or the food
   * was eaten and respawned away from the new body. When the snake already
   * covers the grid, surviving the tick means the head took the cell the tail left.
   */
  lemma TickKeepsFoodClear(body: seq<Cell>, dir: Cell, length: int, food: Cell, draws: seq<Cell>)
    requires |body| >= 1 && ValidDraws(draws)
    requires FoodClear(food, body)
    ensures var moved := Moved(body, dir, length);
            var newFood := if moved[0] == food then Respawned(food, moved, draws) else food;
            OnGrid(moved[0]) && moved[0] !in moved[1..] ==> FoodClear(newFood, moved)
  {
    RespawnAvoidsSnake(food, Moved(body, dir, length), draws);
  }

  class Game {
    const snake: Snake
    const food: Food
    var score: int
    var state: Phase
    /** The flag of the main loop: cleared by the Exit button or by closing the window. */
    var running: bool

    ghost predicate Valid()
      reads this, snake, food
    {
      snake.Valid() && OnGrid(food.position) &&
      score >= 0 && score % FoodValue == 0 &&
      (state == Playing ==> FoodClear(food.position, snake.positions))
    }

    /** `initialFood` is the cell `random_position` drew for the first food. */
    constructor (initialFood: Cell)
      requires OnGrid(initialFood)
      ensures Valid() && fresh(snake) && fresh(food)
      ensures state == Menu && score == 0 && running
      ensures snake.positions == [Centre] && snake.direction == RightVec && snake.length == 1
      ensures food.position == initialFood
    {
      snake := new Snake();
      food := new Food(initialFood);
      score := 0;
      state := Menu;
      running := true;
    }

    /** A direction key: it steers the snake while playing and does nothing otherwise. */
    method KeyDown(key: Key)
      requires Valid()
      modifies snake`direction
      ensures Valid()
      ensures snake.direction == if state == Playing then Steer(old(snake.direction), key) else old(snake.direction)
    {
      if state == Playing {
        snake.direction := Steer(snake.direction, key);
      }
    }

    /** A click on a button; `draws` feeds the food respawn a (re)start performs. */
    method Click(button: Button, draws: seq<Cell>)
      requires Valid() && ValidDraws(draws)
      modifies this, snake, food
      ensures Valid()
      ensures (old(state) == Menu && button == Start) || (old(state) == GameOver && button == Retry) ==>
                state == Playing && score == 0 && running == old(running) &&
                snake.positions == [Centre] && snake.direction == RightVec && snake.length == 1 &&
                food.position == Respawned(old(food.position), [Centre], draws)
      ensures old(state) == Menu && button == Exit ==>
                !running && state == Menu && score == old(score) && unchanged(snake, food)
      ensures old(state) == GameOver && button == MainMenu ==>
                state == Menu && running == old(running) && score == old(score) && unchanged(snake, food)
      ensures old(state) == Playing || (old(state) == Menu && button in {Retry, MainMenu}) ||
              (old(state) == GameOver && button in {Start, Exit}) ==>
                state == old(state) && running == old(running) && score == old(score) && unchanged(snake, food)
    {
      if state == Menu {
        if button == Start {
          state := Playing;
          snake.Reset();
          RespawnAvoidsSnake(food.position, snake.positions, draws);
          assert Cell(0, 0) !in snake.positions;
          food.Respawn(snake.positions, draws);
          score := 0;
        } else if button == Exit {
          running := false;
        }
      } else if state == GameOver {
        if button == Retry {
          state := Playing;
          snake.Reset();
          RespawnAvoidsSnake(food.position, snake.positions, draws);
          assert Cell(0, 0) !in snake.positions;
          food.Respawn(snake.positions, draws);
          score := 0;
        } else if button == MainMenu {
          state := Menu;
        }
      }
    }

    /** Closing the window ends the main loop in any phase. */
    method Quit()
      requires Valid()
      modifies this`running
      ensures Valid() && !running
    {
      running := false;
    }

    /** One frame of play: move, then eat, then check for collisions. Other phases do nothing. */
    method Tick(draws: seq<Cell>)
      requires Valid() && ValidDraws(draws)
      modifies this, snake, food
      ensures Valid() && running == old(running)
      ensures old(state) != Playing ==> state == old(state) && score == old(score) && unchanged(snake, food)
      ensures old(state) == Playing ==>
                var moved := Moved(old(snake.positions), old(snake.direction), old(snake.length));
                var ate := moved[0] == old(food.position);
                snake.positions == moved && snake.direction == old(snake.direction) &&
                snake.length == old(snake.length) + (if ate then 1 else 0) &&
                food.position == (if ate then Respawned(old(food.position), moved, draws) else old(food.position)) &&
                score == old(score) + (if ate then FoodValue else 0) &&
                (state == GameOver <==> snake.CollidesWithSelf() || snake.CollidesWithWall()) &&
                (state == Playing || state == GameOver)
    {
      if state == Playing {
        TickKeepsFoodClear(snake.positions, snake.direction, snake.length, food.position, draws);
        snake.Move();
        RespawnAvoidsSnake(food.position, snake.positions, draws);
        if snake.positions[0] == food.position {
          snake.Grow();
          food.Respawn(snake.positions, draws);
          score := score + FoodValue;
        }
        assert OnGrid(food.position) && score % FoodValue == 0;
        assert OnGrid(snake.positions[0]) && snake.positions[0] !in snake.positions[1..] ==>
                 FoodClear(food.position, snake.positions);
        if snake.CollidesWithSelf() || snake.CollidesWithWall() {
          state := GameOver;
        }
      }
    }
  }

  /**
   * Start a game whose first food lands three cells right of the centre and run
   * three ticks: the snake eats on the third, scoring 10 and raising its target
   * length to 2, yet its body is still the single head cell; the fourth tick
   * makes it two cells long. `startDraws` feeds the respawn at the start and
   * `laterDraws` every later one.
   */
  method EatOnThirdTick(startDraws: seq<Cell>, laterDraws: seq<Cell>)
    returns (bodyAfterThree: seq<Cell>, length: int, score: int, bodyAfterFour: seq<Cell>)
    requires ValidDraws(startDraws) && ValidDraws(laterDraws)
    requires startDraws[0] == Cell(Centre.x + 3, Centre.y)
    ensures bodyAfterThree == [Cell(13, 10)] && length == 2 && score == 10
    ensures bodyAfterFour == [Cell(14, 10), Cell(13, 10)]
  {
    var game := new Game(Cell(0, 0));
    game.Click(Start, startDraws);
    assert FirstFreeDraw(startDraws, 0, [Centre]) == Some(Cell(13, 10));
    assert game.food.position == Cell(13, 10);
    game.Tick(laterDraws);
    assert game.snake.positions == [Cell(11, 10)] && game.state == Playing;
    game.Tick(laterDraws);
    assert game.snake.positions == [Cell(12, 10)] && game.state == Playing;
    game.Tick(laterDraws);
    assert game.snake.positions == [Cell(13, 10)] && game.state == Playing;
    bodyAfterThree, length, score := game.snake.positions, game.snake.length, game.score;
    game.Tick(laterDraws);
    bodyAfterFour := game.snake.positions;
  }
}
