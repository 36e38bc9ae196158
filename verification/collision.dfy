/**
 The collision test run after every move (checkCollisions, script.js:163-180):
 the head has left the board, or it sits on a later segment of the body.
 */
module Collision {
  import opened Grid

  /** The head is outside [0, 40) x [0, 30). */
  predicate HitsWall(snake: seq<Cell>)
    requires snake != []
  {
    !InGrid(snake[0])
  }

  /** The head shares its cell with some segment behind it. */
  predicate HitsBody(snake: seq<Cell>)
    requires snake != []
  {
    snake[0] in snake[1..]
  }

  /** The game-over condition. */
  predicate Collides(snake: seq<Cell>)
    requires snake != []
  {
    HitsWall(snake) || HitsBody(snake)
  }

  /** The source's scan: bounds first, then every segment from index 1 on, compared coordinate by coordinate. */
  method CheckCollisions(snake: seq<Cell>) returns (hit: bool)
    requires snake != []
    ensures hit <==> Collides(snake)
    ensures hit <==> !InGrid(snake[0]) || exists i :: 1 <= i < |snake| && snake[i] == snake[0]
  {
    var head := snake[0];
    if head.x < 0 || head.x >= GridWidth || head.y < 0 || head.y >= GridHeight {
      return true;
    }
    var i := 1;
    while i < |snake|
      invariant 1 <= i <= |snake|
      invariant forall j :: 1 <= j < i ==> snake[j] != head
    {
      if head.x == snake[i].x && head.y == snake[i].y {
        assert snake[1..][i - 1] == head;
        return true;
      }
      i := i + 1;
    }
    assert forall c :: c in snake[1..] ==> exists j :: 1 <= j < |snake| && snake[j] == c;
    return false;
  }
}
