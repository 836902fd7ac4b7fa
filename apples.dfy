/** The apple: a single grid cell, placed by drawing random cells until one is free. */
module Apples {
  import opened Options
  import opened Grid

  /** One random draw: a column in [0, 31] and a row in [0, 23], both chosen by the caller
      in place of the random number generator. */
  datatype Draw = Draw(column: int, row: int)

  predicate InRange(d: Draw) {
    0 <= d.column <= GridWidth - 1 && 0 <= d.row <= GridHeight - 1
  }

  predicate AllInRange(draws: seq<Draw>) {
    forall i :: 0 <= i < |draws| ==> InRange(draws[i])
  }

  /** The screen cell a draw stands for. */
  function DrawCell(d: Draw): (c: Cell)
    ensures InRange(d) ==> OnGrid(c)
  {
    Cell(d.column * GridSize, d.row * GridSize)
  }

  /** Every grid cell can be drawn, by exactly one draw in range. */
  lemma DrawCellCoversGrid(c: Cell, d: Draw)
    requires OnGrid(c)
    ensures InRange(Draw(c.x / GridSize, c.y / GridSize))
    ensures DrawCell(Draw(c.x / GridSize, c.y / GridSize)) == c
    ensures DrawCell(d) == c ==> d == Draw(c.x / GridSize, c.y / GridSize)
  {
    assert c.x == GridSize * (c.x / GridSize) + c.x % GridSize;
    assert c.y == GridSize * (c.y / GridSize) + c.y % GridSize;
  }

  /** An absent list of snake cells counts as an empty one. */
  function Occupied(snakePositions: Option<seq<Cell>>): (occupied: seq<Cell>)
    ensures snakePositions.None? ==> occupied == []
    ensures forall c :: c in occupied <==> snakePositions.Some? && c in snakePositions.value
  {
    if snakePositions.None? then [] else snakePositions.value
  }

  /** Some draw at index `from` or later lands on a free cell. */
  predicate FreeDrawFrom(draws: seq<Draw>, occupied: seq<Cell>, from: nat) {
    exists j :: from <= j < |draws| && DrawCell(draws[j]) !in occupied
  }

  /** The index of the first draw from `from` on that lands on a free cell: where the
      rejection sampling stops. */
  function FirstFree(draws: seq<Draw>, occupied: seq<Cell>, from: nat): (k: nat)
    requires FreeDrawFrom(draws, occupied, from)
    ensures from <= k < |draws| && DrawCell(draws[k]) !in occupied
    ensures forall j :: from <= j < k ==> DrawCell(draws[j]) in occupied
    decreases |draws| - from
  {
    if DrawCell(draws[from]) !in occupied then from
    else FirstFree(draws, occupied, from + 1)
  }

  /** On a full board no draw is free, so the sampling loop could not stop. */
  lemma FullBoardHasNoFreeDraw(draws: seq<Draw>, occupied: seq<Cell>)
    requires AllInRange(draws)
    requires forall c :: OnGrid(c) ==> c in occupied
    ensures !FreeDrawFrom(draws, occupied, 0)
  {
    forall j | 0 <= j < |draws|
      ensures DrawCell(draws[j]) in occupied
    {
      assert OnGrid(DrawCell(draws[j]));
    }
  }

  class Apple {
    var position: Cell

    ghost predicate Valid()
      reads this
    {
      OnGrid(position)
    }

    /** Starts at the default centre position and is then placed at random. */
    constructor (snakePositions: Option<seq<Cell>>, draws: seq<Draw>)
      requires AllInRange(draws) && FreeDrawFrom(draws, Occupied(snakePositions), 0)
      ensures Valid() && position !in Occupied(snakePositions)
      ensures position == DrawCell(draws[FirstFree(draws, Occupied(snakePositions), 0)])
    {
      position := Center;
      new;
      RandomizePosition(snakePositions, draws);
    }

    /** Takes draws one after another and stops at the first whose cell holds no part of
        the snake. */
    method RandomizePosition(snakePositions: Option<seq<Cell>>, draws: seq<Draw>)
      requires AllInRange(draws)
      requires FreeDrawFrom(draws, Occupied(snakePositions), 0)
      modifies this
      ensures position == DrawCell(draws[FirstFree(draws, Occupied(snakePositions), 0)])
      ensures Valid() && position !in Occupied(snakePositions)
      ensures snakePositions.None? ==> position == DrawCell(draws[0])
    {
      var occupied := Occupied(snakePositions);
      var i := 0;
      while true
        invariant 0 <= i < |draws|
        invariant FreeDrawFrom(draws, occupied, i)
        invariant FirstFree(draws, occupied, i) == FirstFree(draws, occupied, 0)
        decreases |draws| - i
      {
        position := DrawCell(draws[i]);
        if position !in occupied {
          break;
        }
        i := i + 1;
      }
    }
  }
}
