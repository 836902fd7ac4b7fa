/** The snake: an ordered list of cells, head first, that advances one cell per tick. */
module Snakes {
  import opened Options
  import opened Grid

  /** The list after one move, and the tail cell it dropped, if any. */
  datatype Moved = Moved(body: seq<Cell>, dropped: Option<Cell>)

  /** The list update of one move: `head` goes in front and the old last cell is dropped
      only when the list has grown beyond the target `length`. */
  function Advance(body: seq<Cell>, head: Cell, length: int): (m: Moved)
    requires body != []
    ensures m.body != [] && m.body[0] == head
    ensures m.body[1..] <= body
    ensures |body| + 1 > length ==> |m.body| == |body| && m.dropped == Some(body[|body| - 1])
    ensures |body| + 1 <= length ==> |m.body| == |body| + 1 && m.dropped == None
    ensures |body| <= length ==> |m.body| <= length
    ensures OnGrid(head) && AllOnGrid(body) ==> AllOnGrid(m.body)
  {
    var grown := [head] + body;
    if |grown| > length then Moved(grown[..|grown| - 1], Some(grown[|grown| - 1]))
    else Moved(grown, None)
  }

  /** `n` moves in a fixed direction with a fixed target length: what the game loop does over
      `n` ticks in which no key is pressed, nothing is eaten and the snake does not hit itself. */
  function Glide(body: seq<Cell>, d: Direction, length: int, n: nat): (r: seq<Cell>)
    requires body != []
    ensures r != [] && r[0] == StepN(body[0], d, n)
  {
    if n == 0 then body
    else
      var before := Glide(body, d, length, n - 1);
      Advance(before, Step(before[0], d), length).body
  }

  function Min(a: int, b: int): int {
    if a <= b then a else b
  }

  /** Over ticks without eating, the snake grows one cell per tick until it reaches its target
      length and then keeps that length. */
  lemma {:induction false} GlideLength(body: seq<Cell>, d: Direction, length: int, n: nat)
    requires body != [] && |body| <= length
    ensures |Glide(body, d, length, n)| == Min(length, |body| + n)
  {
    if n > 0 {
      GlideLength(body, d, length, n - 1);
    }
  }

  /** A snake at its target length keeps it, however many cells it glides. */
  lemma GlideKeepsFullLength(body: seq<Cell>, d: Direction, n: nat)
    requires body != []
    ensures |Glide(body, d, |body|, n)| == |body|
  {
    GlideLength(body, d, |body|, n);
  }

  /** The worked example of the game: a fresh snake at the centre moving down is, after one
      tick without growth, a single cell just below the centre, and the centre is erased. */
  lemma FirstMoveDown()
    ensures Advance([Center], Step(Center, Down), 1) == Moved([Cell(320, 260)], Some(Center))
  {}

  class Snake {
    var positions: seq<Cell>
    var direction: Direction
    var nextDirection: Option<Direction>
    var length: int
    var last: Option<Cell>

    /** The list is never empty, never longer than the target length, and every cell in it
        is a grid cell of the screen. */
    ghost predicate Valid()
      reads this
    {
      1 <= |positions| <= length && AllOnGrid(positions)
    }

    constructor (initialDirection: Direction)
      ensures Valid()
      ensures positions == [Center] && direction == initialDirection && length == 1
      ensures nextDirection == None && last == None
    {
      new;
      Reset(initialDirection);
      nextDirection := None;
      last := None;
    }

    /** Back to a single cell at the centre, with the freshly chosen heading `newDirection`. */
    method Reset(newDirection: Direction)
      modifies this
      ensures positions == [Center] && direction == newDirection && length == 1 && last == None
      ensures nextDirection == old(nextDirection)
      ensures Valid()
    {
      CenterOnGrid();
      positions := [Center];
      direction := newDirection;
      length := 1;
      last := None;
    }

    /** Commits the pending heading, if there is one. */
    method UpdateDirection()
      modifies this
      ensures old(nextDirection).Some? ==> direction == old(nextDirection).value
      ensures old(nextDirection).None? ==> direction == old(direction)
      ensures nextDirection == None
      ensures positions == old(positions) && length == old(length) && last == old(last)
    {
      if nextDirection.Some? {
        direction := nextDirection.value;
        nextDirection := None;
      }
    }

    /** Puts the wrapped-around new head in front and drops the tail once the list is longer
        than `length`, remembering the dropped cell in `last`. */
    method Move()
      requires positions != []
      modifies this
      ensures var m := Advance(old(positions), Step(old(positions[0]), direction), length);
              positions == m.body && last == (if m.dropped.Some? then m.dropped else old(last))
      ensures direction == old(direction) && nextDirection == old(nextDirection)
      ensures length == old(length)
      ensures old(Valid()) ==> Valid()
    {
      var head := HeadPosition();
      var newHead := Step(head, direction);
      positions := [newHead] + positions;
      if |positions| > length {
        last := Some(positions[|positions| - 1]);
        positions := positions[..|positions| - 1];
      }
    }

    function HeadPosition(): (head: Cell)
      reads this
      requires positions != []
      ensures head == positions[0] && head in positions
      ensures Valid() ==> OnGrid(head)
    {
      positions[0]
    }

    function CheckSelfHarm(): (harm: bool)
      reads this
      requires positions != []
      ensures harm <==> exists i :: 1 <= i < |positions| && positions[i] == positions[0]
    {
      HeadPosition() in positions[1..]
    }
  }

  /** Self-harm is the head cell occurring more than once in the whole list. */
  lemma SelfHarmIsRepeatedHead(snake: Snake)
    requires snake.positions != []
    ensures snake.CheckSelfHarm() <==> multiset(snake.positions)[snake.positions[0]] >= 2
  {
    var body := snake.positions;
    assert body == [body[0]] + body[1..];
    assert multiset(body)[body[0]] == 1 + multiset(body[1..])[body[0]];
  }
}
