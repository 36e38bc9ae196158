/**
 Concrete runs on the 40 x 30 board: the worked examples of the game's
 behaviour, and a reachable running state whose body repeats a cell.
 */
module Scenarios {
  import opened Grid
  import opened Food
  import opened Game
  import opened Invariants

  /** From the initial board, one tick that misses the food shifts the snake one cell right. */
  lemma StepWithoutFood()
    ensures
      var s := Start(Init(0, Cell(19, 14)));
      && Tick(s, Cell(0, 0)).snake == [Cell(21, 15), Cell(20, 15), Cell(19, 15)]
      && Tick(s, Cell(0, 0)).score == 0
      && Tick(s, Cell(0, 0)).food == Cell(19, 14)
      && Tick(s, Cell(0, 0)).running
  {
  }

  /** With food at (21, 15) the first tick eats it: the tail stays and ten points are scored. */
  lemma StepOntoFood()
    ensures
      var s := Start(Init(0, Cell(21, 15)));
      && Tick(s, Cell(0, 0)).snake == [Cell(21, 15), Cell(20, 15), Cell(19, 15), Cell(18, 15)]
      && Tick(s, Cell(0, 0)).score == 10
      && Tick(s, Cell(0, 0)).food == Cell(0, 0)
      && Tick(s, Cell(0, 0)).running
  {
  }

  /** A food draw that lands on the snake is discarded and the next draw is used. */
  lemma FoodRedrawnOffSnake()
    ensures GenerateFood(InitSnake(), [Draw(20.0 / 39.0, 15.0 / 29.0), Draw(0.0, 0.0)]).value == Cell(0, 0)
  {
    assert (20.0 / 39.0) * 39.0 == 20.0;
    assert (15.0 / 29.0) * 29.0 == 15.0;
  }

  /** Game over with 150 points over a best of 100 records 150; a lower score leaves the best alone. */
  lemma HighScoreAtGameOver(s: GameState)
    ensures EndGame(s.(score := 150, highScore := 100)).highScore == 150
    ensures EndGame(s.(score := 50, highScore := 100)).highScore == 100
  {
  }

  /**
   Distinct segments are not an invariant of the code: a valid running snake
   bites its own body, the game ends, and after the start button the flags
   return to running on that board, which has a cell occupied twice.
   */
  lemma RestartKeepsOverlap()
    ensures
      var s := GameState(true, false, 20, 0,
                         [Cell(5, 5), Cell(5, 6), Cell(6, 6), Cell(6, 5), Cell(7, 5)],
                         Cell(0, 0), Up, Right);
      var t := Start(Tick(s, Cell(0, 0)));
      && Valid(s) && Distinct(s.snake)
      && !Tick(s, Cell(0, 0)).running
      && Valid(t) && t.running && !Distinct(t.snake)
  {
    var s := GameState(true, false, 20, 0,
                       [Cell(5, 5), Cell(5, 6), Cell(6, 6), Cell(6, 5), Cell(7, 5)],
                       Cell(0, 0), Up, Right);
    TickValid(s, Cell(0, 0));
    assert Tick(s, Cell(0, 0)).snake[0] == Tick(s, Cell(0, 0)).snake[4];
  }
}
