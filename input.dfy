/** Keyboard handling: arrow keys queue a pending heading for the snake. */
module Input {
  import opened Options
  import opened Grid
  import opened Snakes

  datatype Key = ArrowUp | ArrowDown | ArrowLeft | ArrowRight | OtherKey

  /** The events of one poll: a window-close request, a key press, or anything else. */
  datatype Event = Quit | KeyPress(key: Key) | OtherEvent

  /** The heading an arrow key asks for. */
  function KeyDirection(key: Key): Option<Direction> {
    match key
    case ArrowUp => Some(Up)
    case ArrowDown => Some(Down)
    case ArrowLeft => Some(Left)
    case ArrowRight => Some(Right)
    case OtherKey => None
  }

  /** The heading one key press queues while the snake heads `current`, if any: an arrow key
      is accepted unless it asks for the exact reversal of `current`. */
  function Filter(key: Key, current: Direction): (queued: Option<Direction>)
    ensures queued.Some? <==> KeyDirection(key).Some? && KeyDirection(key).value != Opposite(current)
    ensures queued.Some? ==> queued == KeyDirection(key)
  {
    if key == ArrowUp && current != Down then Some(Up)
    else if key == ArrowDown && current != Up then Some(Down)
    else if key == ArrowLeft && current != Right then Some(Left)
    else if key == ArrowRight && current != Left then Some(Right)
    else None
  }

  /** The pending heading after the events of one poll, starting from `pending`; every key is
      judged against the committed heading `current`, and a quit request ends the poll. */
  function Pending(pending: Option<Direction>, current: Direction, events: seq<Event>): (p: Option<Direction>)
    ensures p == pending || exists i :: 0 <= i < |events| && events[i].KeyPress? && p == Filter(events[i].key, current)
    decreases |events|
  {
    if events == [] then pending
    else match events[0]
      case Quit => pending
      case KeyPress(key) =>
        var queued := Filter(key, current);
        Pending(if queued.Some? then queued else pending, current, events[1..])
      case OtherEvent => Pending(pending, current, events[1..])
  }

  /** A quit request ends the poll: the events after it have no effect. */
  lemma {:induction false} PendingStopsAtQuit(pending: Option<Direction>, current: Direction,
                                              before: seq<Event>, after: seq<Event>)
    requires Quit !in before
    ensures Pending(pending, current, before + [Quit] + after) == Pending(pending, current, before)
    decreases |before|
  {
    var all := before + [Quit] + after;
    if before == [] {
      assert all[0] == Quit;
    } else {
      assert all[0] == before[0] && all[1..] == before[1..] + [Quit] + after;
      assert before[0] in before;
      var queued := if before[0].KeyPress? then Filter(before[0].key, current) else None;
      PendingStopsAtQuit(if queued.Some? then queued else pending, current, before[1..], after);
    }
  }

  /** Whatever keys are pressed in one poll, the pending heading either stays as it was or is
      one that does not reverse the committed heading. */
  lemma {:induction false} PendingNeverReverses(pending: Option<Direction>, current: Direction, events: seq<Event>)
    ensures var p := Pending(pending, current, events);
            p == pending || (p.Some? && p.value != Opposite(current))
    decreases |events|
  {
    if events != [] && !events[0].Quit? {
      var queued := if events[0].KeyPress? then Filter(events[0].key, current) else None;
      var next := if queued.Some? then queued else pending;
      PendingNeverReverses(next, current, events[1..]);
    }
  }

  /** The last accepted key of a poll wins, whatever came before it in the poll. */
  lemma {:induction false} LastAcceptedKeyWins(pending: Option<Direction>, current: Direction, events: seq<Event>, key: Key)
    requires Quit !in events
    requires Filter(key, current).Some?
    ensures Pending(pending, current, events + [KeyPress(key)]) == Filter(key, current)
    decreases |events|
  {
    var all := events + [KeyPress(key)];
    if events == [] {
      assert all[1..] == [];
    } else {
      assert all[0] == events[0] && all[1..] == events[1..] + [KeyPress(key)];
      assert events[0] in events;
      var queued := if events[0].KeyPress? then Filter(events[0].key, current) else None;
      LastAcceptedKeyWins(if queued.Some? then queued else pending, current, events[1..], key);
    }
  }

  /** Processes the events of one poll in order. Returns `true` when a quit request was met;
      the events after it are not processed. */
  method HandleKeys(snake: Snake, events: seq<Event>) returns (quit: bool)
    modifies snake
    ensures quit == (Quit in events)
    ensures snake.nextDirection == Pending(old(snake.nextDirection), snake.direction, events)
    ensures snake.positions == old(snake.positions) && snake.direction == old(snake.direction)
    ensures snake.length == old(snake.length) && snake.last == old(snake.last)
  {
    ghost var goal := Pending(snake.nextDirection, snake.direction, events);
    var i := 0;
    while i < |events|
      invariant 0 <= i <= |events|
      invariant Quit !in events[..i]
      invariant goal == Pending(snake.nextDirection, snake.direction, events[i..])
      invariant snake.positions == old(snake.positions) && snake.direction == old(snake.direction)
      invariant snake.length == old(snake.length) && snake.last == old(snake.last)
    {
      assert events[i..][0] == events[i] && events[i..][1..] == events[i + 1..];
      match events[i] {
        case Quit =>
          assert Quit in events;
          return true;
        case KeyPress(key) =>
          var queued := Filter(key, snake.direction);
          if queued.Some? {
            snake.nextDirection := queued;
          }
        case OtherEvent =>
      }
      assert events[..i + 1] == events[..i] + [events[i]];
      i := i + 1;
    }
    assert events[..i] == events;
    return false;
  }
}
