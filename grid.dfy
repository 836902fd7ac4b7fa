/** The board: a 640 x 480 screen cut into 20 x 20 cells, that is 32 x 24 cells.
    Movement wraps around both edges, so the board is a torus. */
module Grid {
  const ScreenWidth: int := 640
  const ScreenHeight: int := 480
  const GridSize: int := 20
  const GridWidth: int := ScreenWidth / GridSize
  const GridHeight: int := ScreenHeight / GridSize

  /** A screen position in pixels. */
  datatype Cell = Cell(x: int, y: int)

  /** The four headings of the game; `Dx` and `Dy` are their unit vectors. */
  datatype Direction = Up | Down | Left | Right

  function Dx(d: Direction): int {
    match d
    case Left => -1
    case Right => 1
    case _ => 0
  }

  function Dy(d: Direction): int {
    match d
    case Up => -1
    case Down => 1
    case _ => 0
  }

  /** The heading that points the other way. */
  function Opposite(d: Direction): (o: Direction)
    ensures Dx(o) == -Dx(d) && Dy(o) == -Dy(d)
    ensures o != d
  {
    match d
    case Up => Down
    case Down => Up
    case Left => Right
    case Right => Left
  }

  predicate InBounds(c: Cell) {
    0 <= c.x < ScreenWidth && 0 <= c.y < ScreenHeight
  }

  predicate Aligned(c: Cell) {
    c.x % GridSize == 0 && c.y % GridSize == 0
  }

  /** A cell the game can draw: inside the screen and on the 20-pixel grid. */
  predicate OnGrid(c: Cell) {
    InBounds(c) && Aligned(c)
  }

  predicate AllOnGrid(cells: seq<Cell>) {
    forall i :: 0 <= i < |cells| ==> OnGrid(cells[i])
  }

  /** The default position of every game object: the middle of the screen. */
  const Center: Cell := Cell(ScreenWidth / 2, ScreenHeight / 2)

  lemma CenterOnGrid()
    ensures OnGrid(Center) && Center == Cell(320, 240)
  {}

  /** Reducing a multiple of the grid size modulo a screen dimension keeps it a multiple,
      because both screen dimensions are multiples of the grid size. */
  lemma ModKeepsAligned(a: int, m: int)
    requires m == ScreenWidth || m == ScreenHeight
    ensures a % GridSize == 0 ==> (a % m) % GridSize == 0
  {
    if a % GridSize == 0 {
      var q, k := a / m, a / GridSize;
      assert a == m * q + a % m;
      assert a == GridSize * k;
      assert a % m == GridSize * (k - (m / GridSize) * q);
    }
  }

  /** One move of the head: the cell one grid step further in direction `d`, wrapped around
      the screen edges. */
  function Step(c: Cell, d: Direction): (r: Cell)
    ensures InBounds(r)
    ensures Aligned(c) ==> Aligned(r)
  {
    var x := c.x + Dx(d) * GridSize;
    var y := c.y + Dy(d) * GridSize;
    ModKeepsAligned(x, ScreenWidth);
    ModKeepsAligned(y, ScreenHeight);
    Cell(x % ScreenWidth, y % ScreenHeight)
  }

  /** Stepping back the other way undoes a step, on every cell of the screen. */
  lemma StepThenOpposite(c: Cell, d: Direction)
    requires InBounds(c)
    ensures Step(Step(c, d), Opposite(d)) == c
  {
    WrapBack(c.x, Dx(d) * GridSize, ScreenWidth);
    WrapBack(c.y, Dy(d) * GridSize, ScreenHeight);
  }

  /** Wrapping after a shift and again after the reverse shift gives back the start. */
  lemma WrapBack(v: int, s: int, m: int)
    requires m == ScreenWidth || m == ScreenHeight
    requires 0 <= v < m && -m < s < m
    ensures ((v + s) % m + -s) % m == v
  {
    if s < 0 {
      assert (v + s) % m == if v + s >= 0 then v + s else v + s + m;
    } else if s > 0 {
      assert (v + s) % m == if v + s < m then v + s else v + s - m;
    }
  }

  /** `n` consecutive steps in one direction. */
  function StepN(c: Cell, d: Direction, n: nat): Cell {
    if n == 0 then c else Step(StepN(c, d, n - 1), d)
  }

  /** Adding to a remainder and reducing again is reducing the plain sum. */
  lemma ModAdd(a: int, b: int, m: int)
    requires m == ScreenWidth || m == ScreenHeight
    ensures (a % m + b) % m == (a + b) % m
  {
    if m == ScreenWidth {
      var z, q := a + b, a / 640;
      assert a % 640 + b == 640 * (z / 640 - q) + z % 640;
    } else {
      var z, q := a + b, a / 480;
      assert a % 480 + b == 480 * (z / 480 - q) + z % 480;
    }
  }

  /** Closed form of `n` steps: the offset is added once, and the result wrapped. */
  lemma {:induction false} StepNFormula(c: Cell, d: Direction, n: nat)
    requires InBounds(c)
    ensures StepN(c, d, n) == Cell((c.x + Dx(d) * (n * GridSize)) % ScreenWidth,
                                   (c.y + Dy(d) * (n * GridSize)) % ScreenHeight)
  {
    if n > 0 {
      StepNFormula(c, d, n - 1);
      var dx, dy := Dx(d) * ((n - 1) * GridSize), Dy(d) * ((n - 1) * GridSize);
      assert Dx(d) * (n * GridSize) == dx + Dx(d) * GridSize;
      assert Dy(d) * (n * GridSize) == dy + Dy(d) * GridSize;
      ModAdd(c.x + dx, Dx(d) * GridSize, ScreenWidth);
      ModAdd(c.y + dy, Dy(d) * GridSize, ScreenHeight);
    }
  }

  /** The number of cells in a full row or column crossed by heading `d`. */
  function LapLength(d: Direction): (n: nat)
    ensures n * GridSize == if Dx(d) != 0 then ScreenWidth else ScreenHeight
  {
    if Dx(d) != 0 then GridWidth else GridHeight
  }

  /** Within one screen dimension, a shift by a whole dimension is invisible after wrapping
      and a shift by less than that in either direction is not. */
  lemma WrapShift(v: int, s: int, m: int)
    requires m == ScreenWidth || m == ScreenHeight
    requires 0 <= v < m && -m <= s <= m
    ensures (v + s) % m == v <==> s == 0 || s == m || s == -m
  {
    if s < 0 && s != -m {
      assert (v + s) % m == if v + s >= 0 then v + s else v + s + m;
    } else if 0 < s && s != m {
      assert (v + s) % m == if v + s < m then v + s else v + s - m;
    }
  }

  /** The board is a torus: going straight for a whole lap brings the head back to its cell,
      and no shorter positive number of steps does. */
  lemma Lap(c: Cell, d: Direction, n: nat)
    requires InBounds(c)
    ensures StepN(c, d, LapLength(d)) == c
    ensures 0 < n < LapLength(d) ==> StepN(c, d, n) != c
  {
    var k := LapLength(d);
    StepNFormula(c, d, k);
    WrapShift(c.x, Dx(d) * (k * GridSize), ScreenWidth);
    WrapShift(c.y, Dy(d) * (k * GridSize), ScreenHeight);
    if 0 < n < k {
      StepNFormula(c, d, n);
      WrapShift(c.x, Dx(d) * (n * GridSize), ScreenWidth);
      WrapShift(c.y, Dy(d) * (n * GridSize), ScreenHeight);
    }
  }
}
