/**
 * The game objects: the snake, whose body, direction, direction buffer and
 * target length change in place every tick, and the apple, whose position
 * the game loop overwrites.
 */
module Snakes {
  import opened Wrappers
  import opened Grid
  import opened Keys

  /** No cell occurs twice in `s`. */
  predicate Distinct(s: seq<Cell>) {
    forall i, j :: 0 <= i < j < |s| ==> s[i] != s[j]
  }

  /**
   * The body after one move: the new head, one step from the old head, in
   * front of the old body; the old last cell is dropped exactly when the
   * longer list would exceed `length`. Growth after `length` was raised thus
   * shows on the next move, not at once.
   */
  function Moved(body: seq<Cell>, d: Direction, length: int): (r: seq<Cell>)
    requires |body| >= 1
    ensures |r| == if |body| < length then |body| + 1 else |body|
    ensures r[0] == Advance(body[0], d)
    ensures forall i :: 1 <= i < |r| ==> r[i] == body[i - 1]
    ensures |body| <= length ==> |r| <= length
    ensures (forall c :: c in body ==> OnGrid(c)) ==> forall c :: c in r ==> OnGrid(c)
  {
    var grown := [Advance(body[0], d)] + body;
    if |grown| > length then grown[..|grown| - 1] else grown
  }

  /**
   * A duplicate-free body stays duplicate-free after a move unless the new
   * head runs into the rest of the body, which is what the self-collision
   * test looks for.
   */
  lemma MovedDistinct(body: seq<Cell>, d: Direction, length: int)
    requires |body| >= 1 && Distinct(body)
    ensures var r := Moved(body, d, length);
            r[0] !in r[1..] ==> Distinct(r)
  {
  }

  class Snake {
    /** The position the shared game-object initialiser records: always Start. */
    var position: Cell
    /** The body, head first. */
    var positions: seq<Cell>
    var direction: Direction
    /** The direction requested by the player and not yet taken. */
    var nextDirection: Option<Direction>
    /** The number of cells the body is allowed to reach. */
    var length: int

    ghost predicate Valid()
      reads this
    {
      position == Start &&
      1 <= |positions| <= length &&
      (forall c :: c in positions ==> OnGrid(c)) &&
      (nextDirection.Some? ==> nextDirection.value != Opposite(direction))
    }

    /**
     * A one-cell snake at `start` heading right. The argument reaches the body
     * only: the recorded `position` stays Start whatever `start` is.
     */
    constructor (start: Cell)
      ensures position == Start
      ensures positions == [start] && direction == Right
      ensures nextDirection == None && length == 1
      ensures OnGrid(start) ==> Valid()
    {
      position := Start;
      positions := [start];
      direction := Right;
      nextDirection := None;
      length := 1;
    }

    function Head(): (h: Cell)
      reads this
      requires |positions| >= 1
      ensures h in positions
      ensures Valid() ==> OnGrid(h)
    {
      positions[0]
    }

    /**
     * One step in the current direction: the direction loop applies the step
     * for the one direction that matches, then the new head is put in front
     * and the tail is dropped if the body is longer than `length`.
     */
    method Move()
      requires Valid()
      modifies this`positions
      ensures Valid()
      ensures positions == Moved(old(positions), direction, length)
    {
      var head := Head();
      var i := 0;
      while i < |Directions|
        invariant 0 <= i <= |Directions|
        invariant head == if DirectionIndex(direction) < i then Advance(positions[0], direction)
                          else positions[0]
      {
        if Directions[i] == direction {
          head := Advance(head, Directions[i]);
        }
        i := i + 1;
      }
      positions := [head] + positions;
      if |positions| > length {
        positions := positions[..|positions| - 1];
      }
    }

    /** Takes the buffered direction, if any, and empties the buffer. */
    method UpdateDirection()
      requires Valid()
      modifies this`direction, this`nextDirection
      ensures Valid()
      ensures nextDirection == None
      ensures old(nextDirection).Some? ==> direction == old(nextDirection).value
      ensures old(nextDirection).None? ==> direction == old(direction)
      ensures direction != Opposite(old(direction))
    {
      if nextDirection.Some? {
        direction := nextDirection.value;
        nextDirection := None;
      }
    }

    /**
     * Back to a one-cell snake at the recorded position (Start), heading in
     * `choice`, the direction drawn at random from the four.
     */
    method Reset(choice: Direction)
      requires Valid()
      modifies this`positions, this`direction, this`nextDirection, this`length
      ensures Valid()
      ensures positions == [Start] && length == 1
      ensures nextDirection == None && direction == choice
    {
      positions := [position];
      direction := choice;
      nextDirection := None;
      length := 1;
    }
  }

  /**
   * Handles one frame's events for `snake`: each accepted arrow key
   * overwrites the buffer; a Quit ends the handling and is reported.
   */
  method HandleKeys(snake: Snake, events: seq<Event>) returns (quit: bool)
    requires snake.Valid()
    modifies snake`nextDirection
    ensures snake.Valid()
    ensures (snake.nextDirection, quit) == Buffer(events, snake.direction, old(snake.nextDirection))
  {
    quit := false;
    var i := 0;
    while i < |events|
      invariant 0 <= i <= |events|
      invariant snake.Valid()
      invariant Buffer(events, snake.direction, old(snake.nextDirection))
             == Buffer(events[i..], snake.direction, snake.nextDirection)
    {
      assert events[i..][1..] == events[i + 1..];
      match events[i] {
        case Quit =>
          quit := true;
          return;
        case OtherEvent =>
        case KeyPress(k) =>
          var req := Request(k, snake.direction);
          if req.Some? {
            snake.nextDirection := req;
          }
      }
      i := i + 1;
    }
  }

  class Apple {
    var position: Cell

    /** An apple at the cell picked by the draws (ix, iy); the snake is not consulted. */
    constructor (ix: int, iy: int)
      requires 0 <= ix < GridWidth && 0 <= iy < GridHeight
      ensures position == RandomCell(ix, iy)
    {
      position := RandomCell(ix, iy);
    }
  }
}
