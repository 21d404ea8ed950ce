/** Headings on the grid, cells, and the one-step move that both the snake and
    the collision check compute. */
module Directions {

  /** A compass heading. */
  datatype Direction = Up | Down | Left | Right

  /** An optional heading; `None` means "stay on the current cell". */
  datatype Option<T> = None | Some(value: T)

  /** A grid cell `(x, y)`; y grows downwards. Coordinates are unbounded here. */
  type Cell = (int, int)

  /** The reverse heading, used to refuse a 180-degree turn. */
  function Opposite(d: Direction): (r: Direction)
    ensures r != d
  {
    match d
    case Up => Down
    case Down => Up
    case Left => Right
    case Right => Left
  }

  /** Reversing twice gives back the original heading. */
  lemma OppositeInvolution(d: Direction)
    ensures Opposite(Opposite(d)) == d
  {
  }

  function Abs(n: int): nat
  {
    if n < 0 then -n else n
  }

  /** Manhattan distance between two cells. */
  function Distance(a: Cell, b: Cell): nat
  {
    Abs(a.0 - b.0) + Abs(a.1 - b.1)
  }

  /** True when `b` lies on the side of `a` that heading `d` points to,
      on the same row (Left, Right) or column (Up, Down). */
  predicate Toward(a: Cell, b: Cell, d: Direction)
  {
    match d
    case Up => b.0 == a.0 && b.1 < a.1
    case Down => b.0 == a.0 && b.1 > a.1
    case Left => b.1 == a.1 && b.0 < a.0
    case Right => b.1 == a.1 && b.0 > a.0
  }

  /** The cell reached from `c` by one step in `dir`; with no heading the
      cell itself. */
  function Step(c: Cell, dir: Option<Direction>): (r: Cell)
    ensures dir.None? ==> r == c
    ensures dir.Some? ==> Distance(c, r) == 1 && Toward(c, r, dir.value)
  {
    match dir
    case Some(Up) => (c.0, c.1 - 1)
    case Some(Down) => (c.0, c.1 + 1)
    case Some(Left) => (c.0 - 1, c.1)
    case Some(Right) => (c.0 + 1, c.1)
    case None => c
  }

  /** A step followed by a step in the opposite heading returns to the start,
      so a reversal would put the head back onto the cell it just left. */
  lemma StepThenOppositeReturns(c: Cell, d: Direction)
    ensures Step(Step(c, Some(d)), Some(Opposite(d))) == c
  {
  }
}
