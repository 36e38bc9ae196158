/**
 The game state of script.js and the commands that change it: key presses,
 the timer tick, and the start, pause, reset and game-over transitions.
 Every operation returns the next state instead of mutating globals.
 */
module Game {
  import opened Wrappers
  import opened Grid
  import opened Food
  import opened Collision

  /** Points awarded for each food eaten (script.js:151). */
  const FoodPoints: int := 10

  /** The keys handleKeyPress distinguishes; every other key is ignored. */
  datatype Key = ArrowUp | ArrowDown | ArrowLeft | ArrowRight | OtherKey

  /**
   The module-level variables of script.js: the gameState record, the snake
   (head first), the food cell, and the current and pending directions.
   */
  datatype GameState = GameState(
    running: bool,
    paused: bool,
    score: int,
    highScore: int,
    snake: seq<Cell>,
    food: Cell,
    direction: Direction,
    nextDirection: Direction)

  /** Ticks and key presses act only while the game runs unpaused. */
  predicate Live(s: GameState) {
    s.running && !s.paused
  }

  /** Two directions are perpendicular: neither the same nor reversed. */
  predicate Perpendicular(d: Direction, e: Direction) {
    d != e && d != Opposite(e)
  }

  // ---------------------------------------------------------------------------
  // Input

  /** The direction an arrow key asks for. */
  function KeyDirection(k: Key): Option<Direction> {
    match k
    case ArrowUp => Some(Up)
    case ArrowDown => Some(Down)
    case ArrowLeft => Some(Left)
    case ArrowRight => Some(Right)
    case OtherKey => None
  }

  /**
   handleKeyPress: while the game runs unpaused, an arrow key sets the pending
   direction when it is perpendicular to the current one; the test is made
   against `direction`, not against the pending direction.
   */
  function OnKey(s: GameState, k: Key): (r: GameState)
    ensures r == s.(nextDirection := r.nextDirection)
    ensures !Live(s) || KeyDirection(k).None? ==> r == s
    ensures Live(s) && KeyDirection(k).Some? ==>
              if Perpendicular(KeyDirection(k).value, s.direction)
              then r.nextDirection == KeyDirection(k).value
              else r == s
    ensures r.nextDirection != s.nextDirection ==> Perpendicular(r.nextDirection, s.direction)
  {
    if !s.running || s.paused then s
    else
      match k
      case ArrowUp => if Dy(s.direction) == 0 then s.(nextDirection := Up) else s
      case ArrowDown => if Dy(s.direction) == 0 then s.(nextDirection := Down) else s
      case ArrowLeft => if Dx(s.direction) == 0 then s.(nextDirection := Left) else s
      case ArrowRight => if Dx(s.direction) == 0 then s.(nextDirection := Right) else s
      case OtherKey => s
  }

  // ---------------------------------------------------------------------------
  // Movement

  /** The cell the head enters on the next move. */
  function NextHead(s: GameState): Cell
    requires s.snake != []
  {
    Move(s.snake[0], s.nextDirection)
  }

  /** The next move lands on the food. */
  predicate Eats(s: GameState)
    requires s.snake != []
  {
    NextHead(s) == s.food
  }

  /** The body right after the new head is pushed and before the tail is popped. */
  function Grown(s: GameState): (body: seq<Cell>)
    requires s.snake != []
  {
    [NextHead(s)] + s.snake
  }

  /**
   The food cell generateFood would settle on is a free spot of the grown body
   whenever the next move eats (GenerateFood yields such cells).
   */
  predicate FoodReady(s: GameState, newFood: Cell)
    requires s.snake != []
  {
    Eats(s) ==> FoodSpot(Grown(s), newFood)
  }

  /**
   moveSnake: commit the pending direction, push the new head; on food score
   10 and place new food (against the grown body), otherwise drop the tail.
   */
  function MoveSnake(s: GameState, newFood: Cell): (r: GameState)
    requires s.snake != []
    requires FoodReady(s, newFood)
    ensures r.direction == s.nextDirection && r.nextDirection == s.nextDirection
    ensures r.running == s.running && r.paused == s.paused && r.highScore == s.highScore
    ensures |r.snake| >= 1 && r.snake[0] == Move(s.snake[0], s.nextDirection)
    ensures Eats(s) ==>
              && r.snake[1..] == s.snake
              && |r.snake| == |s.snake| + 1
              && r.score == s.score + 10
              && r.food == newFood && FoodSpot(r.snake, r.food)
    ensures !Eats(s) ==>
              && r.snake[1..] == s.snake[..|s.snake| - 1]
              && |r.snake| == |s.snake|
              && r.score == s.score
              && r.food == s.food
  {
    var body := Grown(s);
    if NextHead(s) == s.food then
      s.(direction := s.nextDirection, snake := body, score := s.score + FoodPoints, food := newFood)
    else
      s.(direction := s.nextDirection, snake := body[..|body| - 1])
  }

  // ---------------------------------------------------------------------------
  // Lifecycle

  /**
   endGame: stop the run and keep the best score seen; the score itself and
   the board stay as they are.
   */
  function EndGame(s: GameState): (r: GameState)
    ensures !r.running && !r.paused
    ensures r.score == s.score
    ensures r.highScore >= s.highScore && r.highScore >= s.score
    ensures r.highScore == s.highScore || r.highScore == s.score
    ensures r.snake == s.snake && r.food == s.food
    ensures r.direction == s.direction && r.nextDirection == s.nextDirection
  {
    var s' := s.(running := false, paused := false);
    if s.score > s.highScore then s'.(highScore := s.score) else s'
  }

  /**
   The gameLoop function: nothing happens unless the game runs unpaused;
   otherwise move, and end the game exactly when the moved snake collides.
   */
  function Tick(s: GameState, newFood: Cell): (r: GameState)
    requires s.snake != []
    requires Live(s) ==> FoodReady(s, newFood)
    ensures !Live(s) ==> r == s
    ensures Live(s) ==> r.snake == MoveSnake(s, newFood).snake && r.score == MoveSnake(s, newFood).score
    ensures Live(s) ==> (r.running <==> !Collides(r.snake))
    ensures Live(s) && r.running ==> r == MoveSnake(s, newFood)
    ensures Live(s) && !r.running ==> r == EndGame(MoveSnake(s, newFood))
    ensures r.highScore >= s.highScore
    ensures r.score == s.score || r.score == s.score + 10
    ensures |r.snake| == |s.snake| + (if Live(s) && Eats(s) then 1 else 0)
  {
    if !s.running || s.paused then s
    else
      var m := MoveSnake(s, newFood);
      if Collides(m.snake) then EndGame(m) else m
  }

  /** startGame: ignored while running; otherwise run unpaused from the current board. */
  function Start(s: GameState): (r: GameState)
    ensures s.running ==> r == s
    ensures r.running
    ensures !s.running ==> !r.paused
    ensures r.snake == s.snake && r.food == s.food && r.score == s.score && r.highScore == s.highScore
    ensures r.direction == s.direction && r.nextDirection == s.nextDirection
  {
    if s.running then s else s.(running := true, paused := false)
  }

  /** togglePause: ignored unless running; otherwise flip the paused flag. */
  function TogglePause(s: GameState): (r: GameState)
    ensures !s.running ==> r == s
    ensures s.running ==> r.running && r.paused != s.paused
    ensures r == s.(paused := r.paused)
  {
    if !s.running then s else s.(paused := !s.paused)
  }

  /** initSnake: three cells in a row at the board's centre, head rightmost. */
  function InitSnake(): (body: seq<Cell>)
    ensures |body| == 3
    ensures body[0] == Cell(GridWidth / 2, GridHeight / 2)
    ensures forall i :: 0 <= i < |body| ==> InGrid(body[i])
    ensures forall i, j :: 0 <= i < j < |body| ==> body[i] != body[j]
    ensures forall i :: 0 <= i < |body| - 1 ==> body[i] == Move(body[i + 1], Right)
  {
    var cx := CanvasWidth / 2 / BlockSize;
    var cy := CanvasHeight / 2 / BlockSize;
    [Cell(cx, cy), Cell(cx - 1, cy), Cell(cx - 2, cy)]
  }


  /**
   resetGameState: a fresh snake, food placed off it, heading right; the run
   flags and the scores are left alone.
   */
  function ResetGameState(s: GameState, newFood: Cell): (r: GameState)
    requires FoodSpot(InitSnake(), newFood)
    ensures r.snake == InitSnake()
    ensures r.food == newFood
    ensures r.direction == Right && r.nextDirection == Right
    ensures r.running == s.running && r.paused == s.paused
    ensures r.score == s.score && r.highScore == s.highScore
  {
    var body := InitSnake();
    s.(snake := body, food := newFood, direction := Right, nextDirection := Right)
  }

  /** resetGame: stop, clear the score, keep the high score, rebuild the board. */
  function Reset(s: GameState, newFood: Cell): (r: GameState)
    requires FoodSpot(InitSnake(), newFood)
    ensures !r.running && !r.paused
    ensures r.score == 0 && r.highScore == s.highScore
    ensures r.snake == InitSnake() && r.food == newFood && FoodSpot(r.snake, r.food)
    ensures r.direction == Right && r.nextDirection == Right
  {
    ResetGameState(s.(running := false, paused := false, score := 0), newFood)
  }

  /**
   The state on page load: the initial gameState record with the stored high
   score (initGame, script.js:17-27 and 56), then resetGameState.
   */
  function Init(storedHighScore: int, newFood: Cell): (r: GameState)
    requires FoodSpot(InitSnake(), newFood)
    ensures !r.running && !r.paused
    ensures r.score == 0 && r.highScore == storedHighScore
    ensures r.snake == InitSnake() && r.food == newFood && FoodSpot(r.snake, r.food)
    ensures r.direction == Right && r.nextDirection == Right
  {
    ResetGameState(GameState(false, false, 0, storedHighScore, [], Cell(0, 0), Right, Right), newFood)
  }
}
