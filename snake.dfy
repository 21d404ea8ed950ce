/** The snake: its body, head first, and its stored heading. */
module Snakes {
  import opened Directions

  /** True when cell `c` occurs somewhere in `body`, scanning from the head:
      the `any` over the body's iterator in overlap_tail. */
  function Occurs(body: seq<Cell>, c: Cell): (r: bool)
    ensures r <==> exists i :: 0 <= i < |body| && body[i] == c
  {
    if body == [] then false
    else if body[0] == c then true
    else Occurs(body[1..], c)
  }

  class Snake {
    /** The occupied cells; the head is `body[0]`. */
    var body: seq<Cell>
    /** The stored heading; no operation of the game ever changes it. */
    var direction: Direction

    /** The body is never empty, so the head always exists. */
    ghost predicate Valid()
      reads this
    {
      |body| > 0
    }

    constructor (start: seq<Cell>, heading: Direction)
      requires |start| > 0
      ensures Valid()
      ensures body == start && direction == heading
    {
      body := start;
      direction := heading;
    }

    function Head(): Cell
      reads this
      requires Valid()
    {
      body[0]
    }

    /** Prepends the cell one step from the head in `dir` (the head itself
        for `None`) and keeps every old cell, tail included. */
    method MoveForward(dir: Option<Direction>)
      requires Valid()
      modifies this
      ensures Valid()
      ensures |body| == |old(body)| + 1
      ensures body[0] == Step(old(body)[0], dir)
      ensures body[1..] == old(body)
      ensures direction == old(direction)
    {
      var head := body[0];
      var newHead := Step(head, dir);
      body := [newHead] + body;
    }

    /** The stored heading, not the one last requested. */
    function HeadDirection(): (d: Direction)
      reads this
      ensures d == direction
    {
      direction
    }

    /** Whether `(x, y)` is one of the body's cells. */
    function OverlapTail(x: int, y: int): (r: bool)
      reads this
      ensures r <==> (x, y) in body
    {
      Occurs(body, (x, y))
    }
  }
}
