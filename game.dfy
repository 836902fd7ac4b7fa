/** The game loop: start-up and one tick of the frame loop. */
module Game {
  import opened Options
  import opened Grid
  import opened Snakes
  import opened Apples
  import opened Input

  /** Start-up: a snake at the centre heading `initialDirection`, and an apple placed away
      from it. */
  method NewGame(initialDirection: Direction, draws: seq<Draw>) returns (snake: Snake, apple: Apple)
    requires AllInRange(draws) && FreeDrawFrom(draws, [Center], 0)
    ensures fresh(snake) && fresh(apple)
    ensures snake.Valid() && apple.Valid()
    ensures snake.positions == [Center] && snake.direction == initialDirection && snake.length == 1
    ensures snake.nextDirection == None && snake.last == None
    ensures apple.position == DrawCell(draws[FirstFree(draws, [Center], 0)]) && apple.position != Center
  {
    snake := new Snake(initialDirection);
    apple := new Apple(Some(snake.positions), draws);
  }

  /** The heading the snake moves in during a tick whose poll left `pending` queued. */
  function Heading(pending: Option<Direction>, harm: bool, resetDirection: Direction, current: Direction): (d: Direction)
    ensures !harm && (pending.None? || pending.value != Opposite(current)) ==> d != Opposite(current)
  {
    if pending.Some? then pending.value else if harm then resetDirection else current
  }

  /** What the part of a tick after the poll does, when `pending` is the heading the poll left
      queued: the apple moves to the first free drawn cell if the head was on it, self-harm
      resets the snake before it turns and moves, and otherwise the snake moves as `Advance`
      says, one cell longer if it ate. */
  twostate predicate Updated(snake: Snake, apple: Apple, new pending: Option<Direction>, draws: seq<Draw>,
                             resetDirection: Direction)
    requires old(snake.positions) != []
    requires old(snake.HeadPosition()) == old(apple.position) ==> FreeDrawFrom(draws, old(snake.positions), 0)
    reads snake, apple
  {
    var eats := old(snake.HeadPosition()) == old(apple.position);
    var harm := old(snake.CheckSelfHarm());
    && snake.nextDirection == None
    && snake.direction == Heading(pending, harm, resetDirection, old(snake.direction))
    && (eats ==> apple.position == DrawCell(draws[FirstFree(draws, old(snake.positions), 0)]))
    && (!eats ==> apple.position == old(apple.position))
    && (harm ==> snake.positions == [Step(Center, snake.direction)] && snake.length == 1
                 && snake.last == Some(Center))
    && (!harm ==> snake.length == old(snake.length) + (if eats then 1 else 0))
    && (!harm ==> var m := Advance(old(snake.positions), Step(old(snake.HeadPosition()), snake.direction), snake.length);
                  snake.positions == m.body && snake.last == (if m.dropped.Some? then m.dropped else old(snake.last)))
  }

  /** The part of a tick after the poll: eat the apple if the head is on it, reset after
      self-harm, commit the pending heading and move. `draws` and `resetDirection` stand for the
      random cells and the random heading of that tick. */
  method Update(snake: Snake, apple: Apple, draws: seq<Draw>, resetDirection: Direction)
    requires snake.Valid() && apple.Valid()
    requires AllInRange(draws)
    requires snake.HeadPosition() == apple.position ==> FreeDrawFrom(draws, snake.positions, 0)
    modifies snake, apple
    ensures snake.Valid() && apple.Valid()
    ensures old(snake.HeadPosition()) == old(apple.position) ==> apple.position !in old(snake.positions)
    ensures Updated(snake, apple, old(snake.nextDirection), draws, resetDirection)
  {
    if snake.HeadPosition() == apple.position {
      snake.length := snake.length + 1;
      apple.RandomizePosition(Some(snake.positions), draws);
    }
    if snake.CheckSelfHarm() {
      snake.Reset(resetDirection);
    }
    snake.UpdateDirection();
    snake.Move();
  }

  /** One tick of the frame loop: poll the events, then update. `events` stands for the event
      queue of that tick. A quit request ends the tick at once. */
  method Tick(snake: Snake, apple: Apple, events: seq<Event>, draws: seq<Draw>, resetDirection: Direction)
    returns (quit: bool)
    requires snake.Valid() && apple.Valid()
    requires AllInRange(draws)
    requires snake.HeadPosition() == apple.position ==> FreeDrawFrom(draws, snake.positions, 0)
    modifies snake, apple
    ensures snake.Valid() && apple.Valid()
    ensures quit == (Quit in events)
    ensures quit ==> snake.positions == old(snake.positions) && snake.direction == old(snake.direction)
    ensures quit ==> snake.length == old(snake.length) && apple.position == old(apple.position)
    ensures quit ==> snake.last == old(snake.last)
    ensures quit ==> snake.nextDirection == Pending(old(snake.nextDirection), old(snake.direction), events)
    ensures !quit && old(snake.HeadPosition()) == old(apple.position) ==> apple.position !in old(snake.positions)
    ensures !quit ==>
      Updated(snake, apple, Pending(old(snake.nextDirection), old(snake.direction), events), draws, resetDirection)
    ensures !quit && !old(snake.CheckSelfHarm()) && old(snake.nextDirection) == None ==>
      snake.direction != Opposite(old(snake.direction))
  {
    quit := HandleKeys(snake, events);
    if quit {
      return;
    }
    PendingNeverReverses(old(snake.nextDirection), snake.direction, events);
    Update(snake, apple, draws, resetDirection);
  }
}
