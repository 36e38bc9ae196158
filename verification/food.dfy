/**
 Food placement (generateFood, script.js:122-132). Each call of Math.random is
 a value in [0, 1); the do-while loop draws a pair of them per attempt and
 keeps the first cell that no snake segment occupies.
 */
module Food {
  import opened Wrappers
  import opened Grid

  /** The largest multiplier used for a coordinate: one less than the cell count (39 and 29). */
  const MaxX: int := CanvasWidth / BlockSize - 1
  const MaxY: int := CanvasHeight / BlockSize - 1

  /** The do-while loop's exit condition, with the range every candidate has: a free cell food may take. */
  predicate FoodSpot(snake: seq<Cell>, c: Cell) {
    c !in snake && InFoodRange(c)
  }

  /** A value Math.random can return. */
  type Unit = r: real | 0.0 <= r < 1.0

  /** The two random numbers one loop iteration consumes, for x and for y. */
  datatype Draw = Draw(rx: Unit, ry: Unit)

  /** The cells a food candidate can occupy: [0, 39) x [0, 29). */
  predicate InFoodRange(c: Cell) {
    0 <= c.x < MaxX && 0 <= c.y < MaxY
  }

  /** Math.floor(random * m) for a positive whole multiplier m. */
  function ScaledFloor(r: Unit, m: int): (n: int)
    requires m > 0
    ensures 0 <= n < m
  {
    assert r * m as real < m as real by {
      assert (1.0 - r) * m as real > 0.0;
    }
    (r * m as real).Floor
  }

  /** The cell one loop iteration proposes: floor(random * max) per coordinate. */
  function Candidate(d: Draw): (c: Cell)
    ensures InFoodRange(c)
    ensures InGrid(c) && c.x != GridWidth - 1 && c.y != GridHeight - 1
  {
    Cell(ScaledFloor(d.rx, MaxX), ScaledFloor(d.ry, MaxY))
  }

  /** Every cell of the food range is proposed by some draw, so the range is exactly the image of Candidate. */
  lemma CandidateCoversFoodRange(c: Cell)
    requires InFoodRange(c)
    ensures exists d: Draw :: Candidate(d) == c
  {
    assert MaxX == 39 && MaxY == 29;
    var rx: real := c.x as real / 39.0;
    var ry: real := c.y as real / 29.0;
    assert 0.0 <= rx < 1.0 && 0.0 <= ry < 1.0;
    assert rx * 39.0 == c.x as real;
    assert ry * 29.0 == c.y as real;
    var d := Draw(rx, ry);
    assert Candidate(d) == c;
  }

  /**
   The do-while loop run on a finite stream of draws: the first candidate
   that no segment occupies, or None when every supplied draw hits the snake
   (the source would then keep drawing).
   */
  function GenerateFood(snake: seq<Cell>, draws: seq<Draw>): (r: Option<Cell>)
    ensures r.Some? ==> FoodSpot(snake, r.value)
    ensures r.None? <==> forall k :: 0 <= k < |draws| ==> Candidate(draws[k]) in snake
    ensures r.Some? ==> exists k :: 0 <= k < |draws| && Candidate(draws[k]) == r.value
                                  && forall j :: 0 <= j < k ==> Candidate(draws[j]) in snake
    decreases |draws|
  {
    if |draws| == 0 then None
    else
      var c := Candidate(draws[0]);
      if c !in snake then
        assert Candidate(draws[0]) == c;
        Some(c)
      else
        var rest := GenerateFood(snake, draws[1..]);
        assert forall k :: 1 <= k < |draws| ==> draws[k] == draws[1..][k - 1];
        assert rest.Some? ==> exists k :: 1 <= k < |draws| && Candidate(draws[k]) == rest.value
                                         && forall j :: 0 <= j < k ==> Candidate(draws[j]) in snake;
        rest
  }
}
