/** The snake: its body cells (head first), its direction and its target length. */
module SnakeEntity {
  import opened Grid

  /** Where `reset` puts the snake: the centre of the grid. */
  const Centre: Cell := Cell(Width / 2, Height / 2)

  /**
   * The body after one step: the new head is the old head moved by `dir`,
   * and the old tail is dropped once the body would be longer than `length`.
   */
  function Moved(body: seq<Cell>, dir: Cell, length: int): (r: seq<Cell>)
    requires |body| >= 1
    ensures |r| >= 1 && r[0] == Add(body[0], dir)
    ensures r[1..] <= body
    ensures |body| < length ==> |r| == |body| + 1
    ensures |body| >= length ==> |r| == |body|
    ensures |body| <= length ==> |r| <= length
    ensures |body| == length ==> |r| == length
  {
    var grown := [Add(body[0], dir)] + body;
    if |grown| > length then grown[..|grown| - 1] else grown
  }

  class Snake {
    var positions: seq<Cell>
    var direction: Cell
    var length: int

    ghost predicate Valid()
      reads this
    {
      1 <= |positions| <= length && IsDirection(direction)
    }

    constructor ()
      ensures Valid()
      ensures positions == [Centre] && direction == RightVec && length == 1
    {
      new;
      Reset();
    }

    method Reset()
      modifies this
      ensures Valid()
      ensures positions == [Centre] && direction == RightVec && length == 1
    {
      positions := [Centre];
      direction := RightVec;
      length := 1;
    }

    method Move()
      requires Valid()
      modifies this`positions
      ensures Valid()
      ensures positions == Moved(old(positions), direction, length)
    {
      var newHead := Add(positions[0], direction);
      positions := [newHead] + positions;
      if |positions| > length {
        positions := positions[..|positions| - 1];
      }
    }

    method Grow()
      requires Valid()
      modifies this`length
      ensures Valid()
      ensures length == old(length) + 1
    {
      length := length + 1;
    }

    /** The head lies on one of the other body cells. */
    function CollidesWithSelf(): (r: bool)
      reads this
      requires Valid()
      ensures r <==> exists i :: 1 <= i < |positions| && positions[i] == positions[0]
    {
      positions[0] in positions[1..]
    }

    /** The head has left the grid. */
    function CollidesWithWall(): (r: bool)
      reads this
      requires Valid()
      ensures r <==> !OnGrid(positions[0])
    {
      var head := positions[0];
      head.x < 0 || head.x >= Width || head.y < 0 || head.y >= Height
    }
  }

  /**
   * Growth is lazy: `grow` only raises the target length, and the extra cell
   * appears on the next move, whatever the direction.
   */
  lemma GrowthShowsOnNextMove(body: seq<Cell>, dir: Cell, length: int)
    requires 1 <= |body| <= length
    ensures |Moved(body, dir, length + 1)| == |body| + 1
  {
  }
}
