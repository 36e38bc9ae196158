/**
 Properties of the game that hold across operations: the state invariant
 every reachable state keeps, and the facts about a single move that the
 source's ordering of moveSnake and checkCollisions guarantees.
 */
module Invariants {
  import opened Grid
  import opened Food
  import opened Collision
  import opened Game
  import opened Events

  /** Consecutive segments share an edge. */
  predicate Connected(snake: seq<Cell>) {
    forall i :: 0 <= i < |snake| - 1 ==> Adjacent(snake[i], snake[i + 1])
  }

  /** No cell is occupied twice. */
  predicate Distinct(snake: seq<Cell>) {
    forall i, j :: 0 <= i < j < |snake| ==> snake[i] != snake[j]
  }

  /**
   What every state reachable from page load satisfies: at least the three
   initial segments, ten points per segment grown, food off the body and
   inside the food range, the head one step from the neck along the current
   direction, a connected body, a pending direction that does not reverse the
   current one, and pausing only while running.
   */
  predicate Valid(s: GameState) {
    && |s.snake| >= 3
    && s.score == FoodPoints * (|s.snake| - 3)
    && s.food !in s.snake
    && InFoodRange(s.food)
    && s.snake[0] == Move(s.snake[1], s.direction)
    && Connected(s.snake)
    && s.nextDirection != Opposite(s.direction)
    && (s.paused ==> s.running)
  }

  // ---------------------------------------------------------------------------
  // The invariant is established and preserved by every operation

  lemma InitValid(storedHighScore: int, newFood: Cell)
    requires FoodSpot(InitSnake(), newFood)
    ensures Valid(Init(storedHighScore, newFood))
  {
    var r := Init(storedHighScore, newFood);
    MoveIsAdjacentStep(r.snake[1], Right);
    MoveIsAdjacentStep(r.snake[2], Right);
  }

  lemma ResetValid(s: GameState, newFood: Cell)
    requires FoodSpot(InitSnake(), newFood)
    ensures Valid(Reset(s, newFood))
  {
    var r := Reset(s, newFood);
    MoveIsAdjacentStep(r.snake[1], Right);
    MoveIsAdjacentStep(r.snake[2], Right);
  }

  lemma OnKeyValid(s: GameState, k: Key)
    requires Valid(s)
    ensures Valid(OnKey(s, k))
  {
  }

  lemma StartValid(s: GameState)
    requires Valid(s)
    ensures Valid(Start(s))
  {
  }

  lemma TogglePauseValid(s: GameState)
    requires Valid(s)
    ensures Valid(TogglePause(s))
  {
  }

  lemma EndGameValid(s: GameState)
    requires Valid(s)
    ensures Valid(EndGame(s))
  {
  }

  /** One move keeps the body connected and the food off it. */
  lemma MoveSnakeValid(s: GameState, newFood: Cell)
    requires Valid(s) && FoodReady(s, newFood)
    ensures Valid(MoveSnake(s, newFood))
  {
    var m := MoveSnake(s, newFood);
    var n := |s.snake|;
    MoveIsAdjacentStep(s.snake[0], s.nextDirection);
    assert m.snake == [m.snake[0]] + m.snake[1..];
    assert m.snake[1] == s.snake[0];
    forall i | 1 <= i < |m.snake| - 1
      ensures Adjacent(m.snake[i], m.snake[i + 1])
    {
      assert m.snake[i] == s.snake[i - 1] && m.snake[i + 1] == s.snake[i];
    }
    if !Eats(s) {
      assert s.snake == s.snake[..n - 1] + [s.snake[n - 1]];
      assert m.food in s.snake[..n - 1] ==> m.food in s.snake;
    }
  }

  lemma TickValid(s: GameState, newFood: Cell)
    requires Valid(s)
    requires Live(s) ==> FoodReady(s, newFood)
    ensures Valid(Tick(s, newFood))
  {
    if Live(s) {
      MoveSnakeValid(s, newFood);
    }
  }

  // ---------------------------------------------------------------------------
  // Facts about one move

  /** Since the pending direction never reverses the current one, the head cannot move back onto the neck. */
  lemma NeckNeverEntered(s: GameState)
    requires Valid(s)
    ensures NextHead(s) != s.snake[1]
  {
    if NextHead(s) == s.snake[1] {
      MoveIsAdjacentStep(s.snake[1], s.direction);
      MoveInjective(s.snake[0], s.nextDirection, Opposite(s.direction));
      assert false;
    }
  }

  /**
   The tail is popped before the collision check, so on a non-eating move the
   head may enter the cell the tail just left without a body collision.
   */
  lemma VacatedTailIsFree(s: GameState, newFood: Cell)
    requires Live(s) && s.snake != [] && FoodReady(s, newFood)
    requires Distinct(s.snake)
    requires !Eats(s) && NextHead(s) == s.snake[|s.snake| - 1]
    ensures !HitsBody(Tick(s, newFood).snake)
    ensures InGrid(NextHead(s)) ==> Tick(s, newFood).running
  {
    var n := |s.snake|;
    var r := Tick(s, newFood);
    assert r.snake[1..] == s.snake[..n - 1];
  }

  /** Food lies on the board and off the body, so a move that eats never ends the game. */
  lemma EatingNeverCollides(s: GameState, newFood: Cell)
    requires Valid(s) && Live(s) && FoodReady(s, newFood)
    requires Eats(s)
    ensures Tick(s, newFood).running
    ensures Tick(s, newFood).score == s.score + FoodPoints
  {
    var m := MoveSnake(s, newFood);
    assert m.snake[0] == s.food && m.snake[1..] == s.snake;
  }

  /** A move that does not end the game keeps a duplicate-free body duplicate-free. */
  lemma TickKeepsDistinct(s: GameState, newFood: Cell)
    requires s.snake != [] && (Live(s) ==> FoodReady(s, newFood))
    requires Distinct(s.snake)
    requires Tick(s, newFood).running
    ensures Distinct(Tick(s, newFood).snake)
  {
    var r := Tick(s, newFood);
    if Live(s) {
      var n := |s.snake|;
      var tail := r.snake[1..];
      assert tail == s.snake || tail == s.snake[..n - 1];
      assert Distinct(tail) by {
        forall i, j | 0 <= i < j < |tail|
          ensures tail[i] != tail[j]
        {
          assert tail[i] == s.snake[i] && tail[j] == s.snake[j];
        }
      }
      forall i, j | 0 <= i < j < |r.snake|
        ensures r.snake[i] != r.snake[j]
      {
        if i == 0 {
          assert r.snake[j] == tail[j - 1];
        } else {
          assert r.snake[i] == tail[i - 1] && r.snake[j] == tail[j - 1];
        }
      }
    }
  }

  // ---------------------------------------------------------------------------
  // The lifecycle commands

  /** Pausing twice while running restores the state. */
  lemma TogglePauseInvolution(s: GameState)
    ensures TogglePause(TogglePause(s)) == s
  {
  }

  /** Ending an ended game changes nothing more. */
  lemma EndGameIdempotent(s: GameState)
    ensures EndGame(EndGame(s)) == EndGame(s)
  {
  }

  /** A reset forgets the run: only the high score carries over. */
  lemma ResetForgetsRun(s: GameState, t: GameState, newFood: Cell)
    requires FoodSpot(InitSnake(), newFood)
    requires s.highScore == t.highScore
    ensures Reset(s, newFood) == Reset(t, newFood)
  {
  }

  /** The start button works straight after game over, without a reset: the flags return to running on the ended board. */
  lemma StartAfterGameOver(s: GameState)
    ensures Start(EndGame(s)).running && !Start(EndGame(s)).paused
    ensures Start(EndGame(s)).snake == s.snake && Start(EndGame(s)).score == s.score
  {
  }

  // ---------------------------------------------------------------------------
  // Event sequences

  /** Every handler keeps the invariant. */
  lemma DispatchValid(s: GameState, e: Event)
    requires Valid(s) && Enabled(s, e)
    ensures Valid(Dispatch(s, e))
  {
    match e
    case KeyDown(k) => OnKeyValid(s, k);
    case TimerTick(d) => TickValid(s, d);
    case StartClick => StartValid(s);
    case PauseClick => TogglePauseValid(s);
    case ResetClick(d) => ResetValid(s, d);
  }

  /** Every state reachable from a valid state is valid; in particular food is never on the body. */
  lemma {:induction false} RunPreservesValid(s: GameState, events: seq<Event>)
    requires Valid(s) && Feasible(s, events)
    ensures Valid(Run(s, events))
    ensures Run(s, events).food !in Run(s, events).snake
    decreases |events|
  {
    if |events| > 0 {
      DispatchValid(s, events[0]);
      RunPreservesValid(Dispatch(s, events[0]), events[1..]);
    }
  }

  /** The high score never decreases, whatever happens. */
  lemma {:induction false} HighScoreNeverDecreases(s: GameState, events: seq<Event>)
    requires Feasible(s, events)
    ensures Run(s, events).highScore >= s.highScore
    decreases |events|
  {
    if |events| > 0 {
      HighScoreNeverDecreases(Dispatch(s, events[0]), events[1..]);
    }
  }

  /** Every state reachable from page load keeps the invariant, so food is never on the body. */
  lemma ReachableValid(storedHighScore: int, food: Cell, events: seq<Event>)
    requires FoodSpot(InitSnake(), food)
    requires Feasible(Init(storedHighScore, food), events)
    ensures Valid(Run(Init(storedHighScore, food), events))
    ensures Run(Init(storedHighScore, food), events).food !in Run(Init(storedHighScore, food), events).snake
  {
    InitValid(storedHighScore, food);
    RunPreservesValid(Init(storedHighScore, food), events);
  }

  /** Without a reset the score never decreases: it only grows, in steps of ten. */
  lemma {:induction false} ScoreNeverDecreasesWithoutReset(s: GameState, events: seq<Event>)
    requires Feasible(s, events) && NoReset(events)
    ensures Run(s, events).score >= s.score
    ensures (Run(s, events).score - s.score) % FoodPoints == 0
    decreases |events|
  {
    if |events| > 0 {
      assert NoReset(events[1..]) by {
        forall i | 0 <= i < |events[1..]|
          ensures !events[1..][i].ResetClick?
        {
          assert events[1..][i] == events[i + 1];
        }
      }
      ScoreNeverDecreasesWithoutReset(Dispatch(s, events[0]), events[1..]);
    }
  }
}
