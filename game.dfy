/**
 * The game loop: one pass of the endless loop of `main` as one tick, and the
 * start of a game. Randomness is supplied by the caller: the randint draws
 * for apple placement as a list of (column, row) pairs, consumed in order,
 * and the direction picked at random on a restart.
 */
module Game {
  import opened Wrappers
  import opened Grid
  import opened Keys
  import opened Snakes

  /** A (column, row) pair within the ranges the placement draws from. */
  predicate InRange(draw: (int, int)) {
    0 <= draw.0 < GridWidth && 0 <= draw.1 < GridHeight
  }

  predicate ValidDraws(draws: seq<(int, int)>) {
    forall i :: 0 <= i < |draws| ==> InRange(draws[i])
  }

  /**
   * Where the apple ends up when it is re-drawn until it lands off `body`:
   * the index of the first draw whose cell is free, or None when every
   * supplied draw falls on the body.
   */
  function FirstFree(draws: seq<(int, int)>, body: seq<Cell>): (r: Option<nat>)
    requires ValidDraws(draws)
    ensures r.Some? ==> r.value < |draws| && RandomCell(draws[r.value].0, draws[r.value].1) !in body
    ensures forall j :: 0 <= j < |draws| && (r.None? || j < r.value) ==> RandomCell(draws[j].0, draws[j].1) in body
    decreases |draws|
  {
    if draws == [] then None
    else if RandomCell(draws[0].0, draws[0].1) !in body then Some(0)
    else
      match FirstFree(draws[1..], body)
      case None => None
      case Some(k) => Some(k + 1)
  }

  /**
   * What a tick did. Closed: the window was closed. Stalled: the apple was
   * eaten and every supplied draw fell on the body, so the re-draw loop has
   * not finished. Ticked: the tick completed; `ate` when the head reached the
   * apple, `crashed` when it reached the rest of the body and the snake was
   * reset.
   */
  datatype Outcome = Closed | Stalled | Ticked(ate: bool, crashed: bool)

  /** A new game: an apple at the drawn cell, not checked against the snake, and a snake at Start. */
  method NewGame(ix: int, iy: int) returns (snake: Snake, apple: Apple)
    requires 0 <= ix < GridWidth && 0 <= iy < GridHeight
    ensures fresh(snake) && fresh(apple)
    ensures snake.Valid() && Distinct(snake.positions)
    ensures snake.positions == [Start] && snake.length == 1
    ensures snake.direction == Right && snake.nextDirection == None
    ensures apple.position == RandomCell(ix, iy)
  {
    apple := new Apple(ix, iy);
    snake := new Snake(Start);
  }

  /**
   * Re-draws the apple until it lands off `body`, taking the draws in order.
   * `placed` is false when every supplied draw fell on the body; the apple
   * then sits at the last of them.
   */
  method Relocate(apple: Apple, body: seq<Cell>, draws: seq<(int, int)>) returns (placed: bool)
    requires ValidDraws(draws)
    modifies apple
    ensures placed <==> FirstFree(draws, body).Some?
    ensures placed ==>
      var k := FirstFree(draws, body).value;
      apple.position == RandomCell(draws[k].0, draws[k].1)
    ensures placed ==> apple.position !in body
    ensures !placed && |draws| > 0 ==> apple.position == RandomCell(draws[|draws| - 1].0, draws[|draws| - 1].1)
    ensures |draws| == 0 ==> apple.position == old(apple.position)
  {
    placed := false;
    var i := 0;
    while !placed && i < |draws|
      invariant 0 <= i <= |draws|
      invariant placed ==> 1 <= i && apple.position == RandomCell(draws[i - 1].0, draws[i - 1].1) && apple.position !in body
      invariant !placed && 1 <= i ==> apple.position == RandomCell(draws[i - 1].0, draws[i - 1].1)
      invariant i == 0 ==> apple.position == old(apple.position)
      invariant forall j :: 0 <= j < i && (!placed || j < i - 1) ==> RandomCell(draws[j].0, draws[j].1) in body
    {
      apple.position := RandomCell(draws[i].0, draws[i].1);
      i := i + 1;
      placed := apple.position !in body;
    }
  }

  /**
   * One tick: handle the frame's events, commit the buffered direction, move;
   * on reaching the apple raise the target length by one and re-draw the
   * apple until it is off the body; finally reset the snake if its head is on
   * the rest of its body.
   */
  method Tick(snake: Snake, apple: Apple, events: seq<Event>, draws: seq<(int, int)>,
              choice: Direction) returns (out: Outcome)
    requires snake.Valid() && ValidDraws(draws)
    modifies snake, apple
    ensures snake.Valid()
    ensures out.Closed? <==> Quit in events
    ensures out.Closed? ==>
      snake.positions == old(snake.positions) && snake.direction == old(snake.direction) &&
      snake.length == old(snake.length) && apple.position == old(apple.position)
    ensures !out.Closed? ==>
      var d := Steer(events, old(snake.direction), old(snake.nextDirection));
      var body := Moved(old(snake.positions), d, old(snake.length));
      var ate := body[0] == old(apple.position);
      var free := FirstFree(draws, body);
      && snake.nextDirection == None
      && (out.Stalled? <==> ate && free.None?)
      && (out.Ticked? ==> out.ate == ate && out.crashed == (body[0] in body[1..]))
      && (!ate ==> apple.position == old(apple.position))
      && (ate && free.Some? ==> apple.position == RandomCell(draws[free.value].0, draws[free.value].1) && apple.position !in body)
      && (out.Stalled? || out == Ticked(ate, false) ==>
            snake.positions == body && snake.direction == d &&
            snake.length == old(snake.length) + (if ate then 1 else 0))
      && (out == Ticked(ate, true) ==>
            snake.positions == [Start] && snake.length == 1 && snake.direction == choice)
    ensures out.Ticked? && Distinct(old(snake.positions)) ==> Distinct(snake.positions)
  {
    var quit := HandleKeys(snake, events);
    if quit {
      return Closed;
    }
    snake.UpdateDirection();
    snake.Move();
    ghost var body := snake.positions;
    if Distinct(old(snake.positions)) {
      MovedDistinct(old(snake.positions), snake.direction, snake.length);
    }
    var ate := snake.Head() == apple.position;
    if ate {
      snake.length := snake.length + 1;
      var placed := Relocate(apple, snake.positions, draws);
      if !placed {
        return Stalled;
      }
    }
    var crashed := snake.Head() in snake.positions[1..];
    if crashed {
      snake.Reset(choice);
    }
    out := Ticked(ate, crashed);
  }
}
