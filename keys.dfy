/**
 * Keyboard input: which direction an arrow key asks for, and what one frame's
 * worth of events leaves in the snake's one-slot direction buffer.
 */
module Keys {
  import opened Wrappers
  import opened Grid

  datatype Key = KeyUp | KeyDown | KeyLeft | KeyRight | OtherKey

  /** The events the game distinguishes: closing the window, a key press, anything else. */
  datatype Event = Quit | KeyPress(key: Key) | OtherEvent

  /** The direction an arrow key stands for; None for any other key. */
  function Arrow(k: Key): Option<Direction> {
    match k
    case KeyUp => Some(Up)
    case KeyDown => Some(Down)
    case KeyLeft => Some(Left)
    case KeyRight => Some(Right)
    case OtherKey => None
  }

  /**
   * The direction a key press buffers while the snake travels `current`:
   * the key's own direction unless that is the exact reversal of `current`.
   */
  function Request(k: Key, current: Direction): (r: Option<Direction>)
    ensures r.Some? <==> Arrow(k).Some? && Arrow(k).value != Opposite(current)
    ensures r.Some? ==> r == Arrow(k)
  {
    if k == KeyUp && current != Down then Some(Up)
    else if k == KeyDown && current != Up then Some(Down)
    else if k == KeyLeft && current != Right then Some(Left)
    else if k == KeyRight && current != Left then Some(Right)
    else None
  }

  /**
   * The buffered direction and whether the player quit, after the events of
   * one frame are handled in order starting from buffer `pending`. Handling
   * stops at the first Quit. The travelling direction does not change while
   * events are handled, so every request is judged against `current`.
   */
  function Buffer(events: seq<Event>, current: Direction, pending: Option<Direction>)
    : (r: (Option<Direction>, bool))
    ensures r.1 <==> Quit in events
    ensures r.0 == pending || (r.0.Some? && r.0.value != Opposite(current))
    decreases |events|
  {
    if events == [] then (pending, false)
    else
      match events[0]
      case Quit => (pending, true)
      case OtherEvent => Buffer(events[1..], current, pending)
      case KeyPress(k) =>
        var req := Request(k, current);
        Buffer(events[1..], current, if req.Some? then req else pending)
  }

  /**
   * The last accepted arrow key of a frame decides the buffer, whatever came
   * before it.
   */
  lemma {:induction false} LastArrowWins(events: seq<Event>, current: Direction,
                                         pending: Option<Direction>, k: Key)
    requires Quit !in events
    requires Request(k, current).Some?
    ensures Buffer(events + [KeyPress(k)], current, pending) == (Arrow(k), false)
  {
    if events == [] {
      assert [KeyPress(k)][1..] == [];
    } else {
      assert (events + [KeyPress(k)])[1..] == events[1..] + [KeyPress(k)];
      match events[0]
      case Quit =>
      case OtherEvent =>
        LastArrowWins(events[1..], current, pending, k);
      case KeyPress(j) =>
        var req := Request(j, current);
        LastArrowWins(events[1..], current, if req.Some? then req else pending, k);
    }
  }

  /**
   * Handling a frame in two runs, the first without a Quit, is handling the
   * second run from the buffer the first run left: each accepted arrow
   * simply overwrites what was buffered before.
   */
  lemma {:induction false} BufferAppend(xs: seq<Event>, ys: seq<Event>, current: Direction,
                                        pending: Option<Direction>)
    requires Quit !in xs
    ensures Buffer(xs + ys, current, pending) == Buffer(ys, current, Buffer(xs, current, pending).0)
  {
    if xs == [] {
      assert xs + ys == ys;
    } else {
      assert (xs + ys)[0] == xs[0];
      assert (xs + ys)[1..] == xs[1..] + ys;
      match xs[0]
      case Quit =>
      case OtherEvent =>
        BufferAppend(xs[1..], ys, current, pending);
      case KeyPress(j) =>
        var req := Request(j, current);
        BufferAppend(xs[1..], ys, current, if req.Some? then req else pending);
    }
  }

  /** An event that leaves the buffer as it is: not a Quit and not an accepted arrow key. */
  predicate Ignored(e: Event, current: Direction) {
    e.OtherEvent? || (e.KeyPress? && Request(e.key, current).None?)
  }

  /** A frame of ignored events leaves the buffer untouched and does not quit. */
  lemma {:induction false} IgnoredKeepBuffer(events: seq<Event>, current: Direction,
                                             pending: Option<Direction>)
    requires forall i :: 0 <= i < |events| ==> Ignored(events[i], current)
    ensures Buffer(events, current, pending) == (pending, false)
  {
    if events != [] {
      assert Ignored(events[0], current);
      IgnoredKeepBuffer(events[1..], current, pending);
    }
  }

  /**
   * The last accepted arrow key of a frame decides the buffer, whatever came
   * before it, when only ignored events follow it.
   */
  lemma LastAcceptedWins(events: seq<Event>, k: Key, rest: seq<Event>, current: Direction,
                         pending: Option<Direction>)
    requires Quit !in events
    requires Request(k, current).Some?
    requires forall i :: 0 <= i < |rest| ==> Ignored(rest[i], current)
    ensures Buffer(events + [KeyPress(k)] + rest, current, pending) == (Arrow(k), false)
  {
    LastArrowWins(events, current, pending, k);
    BufferAppend(events + [KeyPress(k)], rest, current, pending);
    IgnoredKeepBuffer(rest, current, Arrow(k));
  }

  /**
   * The direction the snake travels after a frame's events are handled and
   * the buffer is committed. As long as the buffer never holds the reversal
   * of `current`, the snake never turns straight back.
   */
  function Steer(events: seq<Event>, current: Direction, pending: Option<Direction>): (d: Direction)
    requires pending.Some? ==> pending.value != Opposite(current)
    ensures d != Opposite(current)
    ensures d == current || Buffer(events, current, pending).0 == Some(d)
  {
    var p := Buffer(events, current, pending).0;
    if p.Some? then p.value else current
  }
}
