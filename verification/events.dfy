/**
 The wiring of setupEventListeners (script.js:67-76) plus the timer: the
 inputs the program reacts to, the handler bound to each, and the state after
 a whole sequence of them.
 */
module Events {
  import opened Grid
  import opened Food
  import opened Game

  /** The inputs script.js reacts to: key presses, timer ticks and the buttons. */
  datatype Event =
    | KeyDown(key: Key)
    | TimerTick(food: Cell)
    | StartClick
    | PauseClick
    | ResetClick(food: Cell)

  /** The event can be handled: ticks need a body, and food placement needs a free food spot. */
  predicate Enabled(s: GameState, e: Event) {
    match e
    case TimerTick(d) => s.snake != [] && (Live(s) ==> FoodReady(s, d))
    case ResetClick(d) => FoodSpot(InitSnake(), d)
    case _ => true
  }

  /** The handler bound to each event (the play-again button shares resetGame). */
  function Dispatch(s: GameState, e: Event): (r: GameState)
    requires Enabled(s, e)
    ensures r.highScore >= s.highScore
  {
    match e
    case KeyDown(k) => OnKey(s, k)
    case TimerTick(d) => Tick(s, d)
    case StartClick => Start(s)
    case PauseClick => TogglePause(s)
    case ResetClick(d) => Reset(s, d)
  }

  /** Every event of the sequence is enabled when it arrives. */
  predicate Feasible(s: GameState, events: seq<Event>)
    decreases |events|
  {
    |events| == 0 || (Enabled(s, events[0]) && Feasible(Dispatch(s, events[0]), events[1..]))
  }

  /** The state after handling the events in order. */
  function Run(s: GameState, events: seq<Event>): GameState
    requires Feasible(s, events)
    decreases |events|
  {
    if |events| == 0 then s else Run(Dispatch(s, events[0]), events[1..])
  }

  /** The sequence contains no reset or play-again click. */
  predicate NoReset(events: seq<Event>) {
    forall i :: 0 <= i < |events| ==> !events[i].ResetClick?
  }
}
