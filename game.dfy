/** The game state machine: the snake, the food cell, the grid and the
    game-over flag, with the key handler, the tick, eating and food placement. */
module Games {
  import opened Directions
  import opened Snakes

  /** Keys as the game sees them: the four arrows and every other key. */
  datatype Key = ArrowUp | ArrowDown | ArrowLeft | ArrowRight | OtherKey

  /** The heading a key asks for; a non-arrow key asks for the current one. */
  function KeyDirection(key: Key, current: Direction): (r: Direction)
    ensures key == OtherKey ==> r == current
  {
    match key
    case ArrowUp => Up
    case ArrowDown => Down
    case ArrowLeft => Left
    case ArrowRight => Right
    case OtherKey => current
  }

  /** An arrow key asks for the same heading whatever the current one is. */
  lemma ArrowIgnoresHeading(key: Key, a: Direction, b: Direction)
    requires key != OtherKey
    ensures KeyDirection(key, a) == KeyDirection(key, b)
  {
  }

  /** A non-arrow key is never refused as a reversal, whatever the heading. */
  lemma OtherKeyNeverReverses(current: Direction)
    ensures KeyDirection(OtherKey, current) != Opposite(current)
  {
  }

  /** While the heading is Right, the Left arrow is refused as a reversal and
      every other key is accepted. */
  lemma OnlyLeftRefusedWhileRight(key: Key)
    ensures KeyDirection(key, Right) == Opposite(Right) <==> key == ArrowLeft
  {
  }

  /** Cell `c` lies on the grid `[0, width) x [0, height)`. */
  predicate InGrid(c: Cell, width: int, height: int)
  {
    0 <= c.0 < width && 0 <= c.1 < height
  }

  /** Cell `c` lies off the outer border ring: `[1, width-1) x [1, height-1)`,
      the range food is drawn from. */
  predicate InInterior(c: Cell, width: int, height: int)
  {
    1 <= c.0 < width - 1 && 1 <= c.1 < height - 1
  }

  /** Some cell of `draws` is not in `body`. */
  predicate HasFree(draws: seq<Cell>, body: seq<Cell>)
  {
    exists i :: 0 <= i < |draws| && draws[i] !in body
  }

  /** What the random source promises food placement: every draw is an
      interior cell (so the grid is at least 3 x 3, or no draw could be), and
      some draw is off the body, so the resampling ends. */
  predicate FoodSupply(draws: seq<Cell>, width: int, height: int, body: seq<Cell>)
  {
    (forall i :: 0 <= i < |draws| ==> InInterior(draws[i], width, height)) &&
    HasFree(draws, body)
  }

  /** The first draw that is not on `body`: where the resampling stops. */
  function FirstFree(draws: seq<Cell>, body: seq<Cell>): (r: Cell)
    requires HasFree(draws, body)
    ensures r !in body
    ensures exists i :: 0 <= i < |draws| && draws[i] == r &&
                        forall j :: 0 <= j < i ==> draws[j] in body
  {
    if draws[0] !in body then draws[0]
    else
      assert HasFree(draws[1..], body) by {
        var k :| 0 <= k < |draws| && draws[k] !in body;
        assert draws[1..][k - 1] == draws[k];
      }
      var r := FirstFree(draws[1..], body);
      assert exists i :: 0 <= i < |draws[1..]| && draws[1..][i] == r &&
                         forall j :: 0 <= j < i ==> draws[1..][j] in body;
      var i :| 0 <= i < |draws[1..]| && draws[1..][i] == r &&
               forall j :: 0 <= j < i ==> draws[1..][j] in body;
      assert draws[i + 1] == r;
      assert forall j :: 0 <= j < i + 1 ==> draws[j] in body by {
        forall j | 0 <= j < i + 1 ensures draws[j] in body {
          if j > 0 { assert draws[j] == draws[1..][j - 1]; }
        }
      }
      r
  }

  /** The first free draw of a supply is an interior cell off the body. */
  lemma {:induction false} FirstFreePlacement(draws: seq<Cell>, width: int, height: int, body: seq<Cell>)
    requires FoodSupply(draws, width, height, body)
    ensures InInterior(FirstFree(draws, body), width, height)
    ensures FirstFree(draws, body) !in body
    ensures width >= 3 && height >= 3
  {
    var r := FirstFree(draws, body);
    var i :| 0 <= i < |draws| && draws[i] == r &&
             forall j :: 0 <= j < i ==> draws[j] in body;
    assert InInterior(draws[i], width, height);
  }

  class Game {
    var snake: Snake
    var foodX: int
    var foodY: int
    var width: int
    var height: int
    var gameOver: bool

    ghost predicate Valid()
      reads this, snake
    {
      snake.Valid()
    }

    function Food(): Cell
      reads this
    {
      (foodX, foodY)
    }

    /** The start position: a one-cell snake at (2, 2) heading Right, food at
        (6, 4), running; the grid size is the caller's. */
    constructor (width: int, height: int)
      ensures Valid() && fresh(snake)
      ensures snake.body == [(2, 2)] && snake.direction == Right
      ensures Food() == (6, 4) && !gameOver
      ensures this.width == width && this.height == height
    {
      snake := new Snake([(2, 2)], Right);
      foodX, foodY := 6, 4;
      this.width, this.height := width, height;
      gameOver := false;
    }

    /** A key press while running: the requested heading is refused when it
        reverses the stored one, otherwise the snake moves one cell at once,
        without any collision check. The stored heading never changes. */
    method HandleKeyEvent(key: Key)
      requires Valid()
      modifies snake
      ensures Valid() && unchanged(this)
      ensures snake.direction == old(snake.direction)
      ensures old(gameOver) ==> snake.body == old(snake.body)
      ensures KeyDirection(key, old(snake.direction)) == Opposite(old(snake.direction)) ==>
                snake.body == old(snake.body)
      ensures !old(gameOver) && KeyDirection(key, old(snake.direction)) != Opposite(old(snake.direction)) ==>
                |snake.body| == |old(snake.body)| + 1 &&
                snake.body[0] == Step(old(snake.body)[0], Some(KeyDirection(key, old(snake.direction)))) &&
                snake.body[1..] == old(snake.body)
      ensures !old(gameOver) && key == OtherKey ==>
                snake.body[0] == Step(old(snake.body)[0], Some(old(snake.direction)))
      ensures old(snake.direction) == Right && key == ArrowLeft ==> snake.body == old(snake.body)
    {
      if !gameOver {
        var dir := KeyDirection(key, snake.HeadDirection());
        if dir == Opposite(snake.HeadDirection()) {
          return;
        }
        snake.MoveForward(Some(dir));
      }
    }

    /** Whether one step from the head in `dir` stays on the grid and off the
        body. With no heading the target is the head itself, which is on the
        body, so the answer is false. */
    function CheckIfSnakeAlive(dir: Option<Direction>): (alive: bool)
      reads this, snake
      requires Valid()
      ensures alive <==> InGrid(Step(snake.Head(), dir), width, height) &&
                         Step(snake.Head(), dir) !in snake.body
      ensures dir.None? ==> !alive
    {
      var target := Step(snake.body[0], dir);
      var x, y := target.0, target.1;
      if x < 0 || x >= width || y < 0 || y >= height || snake.OverlapTail(x, y) then false
      else true
    }

    /** Moves the food to the first draw that is off the body; the snake, the
        grid and the flag stay as they are. */
    method AddFood(draws: seq<Cell>)
      requires Valid()
      requires FoodSupply(draws, width, height, snake.body)
      modifies this`foodX, this`foodY
      ensures Valid()
      ensures Food() == FirstFree(draws, snake.body)
      ensures InInterior(Food(), width, height)
      ensures !snake.OverlapTail(foodX, foodY)
    {
      var i := 0;
      ghost var k :| 0 <= k < |draws| && draws[k] !in snake.body;
      var newX, newY := draws[0].0, draws[0].1;
      while snake.OverlapTail(newX, newY)
        invariant 0 <= i <= k
        invariant (newX, newY) == draws[i]
        invariant forall j :: 0 <= j < i ==> draws[j] in snake.body
        decreases k - i
      {
        i := i + 1;
        newX, newY := draws[i].0, draws[i].1;
      }
      foodX, foodY := newX, newY;
      FirstFreeUnique(draws, snake.body, i);
      FirstFreePlacement(draws, width, height, snake.body);
    }

    /** When the head is on the food, the food cell is appended at the tail
        and new food is placed; otherwise nothing changes. */
    method CheckEating(draws: seq<Cell>)
      requires Valid()
      requires snake.Head() == Food() ==>
                 FoodSupply(draws, width, height, snake.body + [Food()])
      modifies this`foodX, this`foodY, snake
      ensures Valid()
      ensures snake.direction == old(snake.direction)
      ensures old(snake.Head() == Food()) ==>
                snake.body == old(snake.body) + [old(Food())] &&
                Food() == FirstFree(draws, snake.body) &&
                InInterior(Food(), width, height) &&
                Food() !in snake.body
      ensures old(snake.Head() != Food()) ==>
                snake.body == old(snake.body) && Food() == old(Food())
    {
      var head := snake.body[0];
      if head.0 == foodX && head.1 == foodY {
        snake.body := snake.body + [(foodX, foodY)];
        AddFood(draws);
      }
    }

    /** One tick in heading `dir`: a move off the grid or onto the body ends
        the game and changes nothing else; a safe move prepends the new head
        and then checks for food. */
    method UpdateSnake(dir: Option<Direction>, draws: seq<Cell>)
      requires Valid()
      requires !gameOver && CheckIfSnakeAlive(dir) && Step(snake.Head(), dir) == Food() ==>
                 FoodSupply(draws, width, height, snake.body + [Food()])
      modifies this, snake
      ensures Valid() && snake == old(snake)
      ensures width == old(width) && height == old(height)
      ensures snake.direction == old(snake.direction)
      ensures old(gameOver) ==>
                gameOver && snake.body == old(snake.body) && Food() == old(Food())
      ensures !old(gameOver) && !old(CheckIfSnakeAlive(dir)) ==>
                gameOver && snake.body == old(snake.body) && Food() == old(Food())
      ensures !old(gameOver) && dir.None? ==> gameOver
      ensures !old(gameOver) && old(CheckIfSnakeAlive(dir)) ==>
                !gameOver &&
                InGrid(snake.body[0], width, height) &&
                snake.body[0] !in old(snake.body) &&
                snake.body == [Step(old(snake.body)[0], dir)] + old(snake.body) +
                              (if snake.body[0] == old(Food()) then [old(Food())] else [])
      ensures !old(gameOver) && old(CheckIfSnakeAlive(dir)) && snake.body[0] == old(Food()) ==>
                HasFree(draws, snake.body) && Food() == FirstFree(draws, snake.body) &&
                InInterior(Food(), width, height) && Food() !in snake.body
      ensures !old(gameOver) && old(CheckIfSnakeAlive(dir)) && snake.body[0] != old(Food()) ==>
                Food() == old(Food())
    {
      if !gameOver {
        if CheckIfSnakeAlive(dir) {
          snake.MoveForward(dir);
          CheckEating(draws);
        } else {
          gameOver := true;
        }
      }
    }

    /** Back to the start position on the same grid, with a new snake. */
    method Restart()
      modifies this
      ensures Valid() && fresh(snake)
      ensures snake.body == [(2, 2)] && snake.direction == Right
      ensures Food() == (6, 4) && !gameOver
      ensures width == old(width) && height == old(height)
    {
      snake := new Snake([(2, 2)], Right);
      foodX, foodY := 6, 4;
      gameOver := false;
    }
  }

  /** A draw index whose predecessors are all on the body and which is itself
      off it is the one FirstFree picks. */
  lemma {:induction false} FirstFreeUnique(draws: seq<Cell>, body: seq<Cell>, i: nat)
    requires i < |draws| && draws[i] !in body
    requires forall j :: 0 <= j < i ==> draws[j] in body
    ensures HasFree(draws, body) && FirstFree(draws, body) == draws[i]
  {
    var r := FirstFree(draws, body);
    var m :| 0 <= m < |draws| && draws[m] == r &&
             forall j :: 0 <= j < m ==> draws[j] in body;
    if m < i {
      assert draws[m] in body;
    }
  }

  /** From the start position on a 30 x 20 grid, four ticks Right reach
      (6, 2) with a body of five cells: no tick trims the tail, and the food
      at (6, 4) is not on the way. */
  method FourTicksRight() returns (g: Game)
    ensures fresh(g) && fresh(g.snake)
    ensures g.Valid() && !g.gameOver && g.Food() == (6, 4)
    ensures g.width == 30 && g.height == 20
    ensures g.snake.body == [(6, 2), (5, 2), (4, 2), (3, 2), (2, 2)]
    ensures g.snake.direction == Right
  {
    g := new Game(30, 20);
    g.UpdateSnake(Some(Right), []);
    assert g.snake.body == [(3, 2), (2, 2)];
    assert g.CheckIfSnakeAlive(Some(Right));
    g.UpdateSnake(Some(Right), []);
    assert g.snake.body == [(4, 2), (3, 2), (2, 2)];
    assert g.CheckIfSnakeAlive(Some(Right));
    g.UpdateSnake(Some(Right), []);
    assert g.snake.body == [(5, 2), (4, 2), (3, 2), (2, 2)];
    assert g.CheckIfSnakeAlive(Some(Right));
    g.UpdateSnake(Some(Right), []);
  }

  /** Continuing from there, two ticks Down reach the food at (6, 4): the
      body grows by one for the move and by one for the meal, and the food
      moves to the first draw that is off the body. */
  method TwoTicksDownToFood()
  {
    var g := FourTicksRight();
    assert g.CheckIfSnakeAlive(Some(Down));
    g.UpdateSnake(Some(Down), []);
    ghost var body := [(6, 3), (6, 2), (5, 2), (4, 2), (3, 2), (2, 2)];
    assert g.snake.body == body;
    assert g.CheckIfSnakeAlive(Some(Down));
    var draws := [(6, 4), (3, 2), (3, 3)];
    assert draws[2] !in body + [(6, 4)];
    g.UpdateSnake(Some(Down), draws);
    assert g.snake.body == [(6, 4)] + body + [(6, 4)];
    assert !g.gameOver && |g.snake.body| == 8;
    FirstFreeUnique(draws, g.snake.body, 2);
    assert g.Food() == (3, 3);
  }

  /** Two ticks Left from the start reach the left wall at x = 0; the third
      would leave the grid, so the game ends and the body stays as it was. */
  method RunIntoLeftWall()
  {
    var g := new Game(30, 20);
    g.UpdateSnake(Some(Left), []);
    g.UpdateSnake(Some(Left), []);
    assert g.snake.body == [(0, 2), (1, 2), (2, 2)] && !g.gameOver;
    g.UpdateSnake(Some(Left), []);
    assert g.gameOver && g.snake.body == [(0, 2), (1, 2), (2, 2)];
    g.HandleKeyEvent(ArrowUp);
    assert g.snake.body == [(0, 2), (1, 2), (2, 2)];
  }

  /** Key presses move the snake without the eating check: pressing Down
      twice from (6, 2) puts the head on the food, the food stays where it is
      and the body does not grow beyond the one cell per move. */
  method KeysMoveOntoFood()
  {
    var g := FourTicksRight();
    g.HandleKeyEvent(ArrowDown);
    assert g.snake.body == [(6, 3), (6, 2), (5, 2), (4, 2), (3, 2), (2, 2)];
    g.HandleKeyEvent(ArrowDown);
    assert g.snake.body[0] == (6, 4) == g.Food();
    assert |g.snake.body| == 7 && !g.gameOver;
  }
}
