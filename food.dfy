/** The food: one cell, moved somewhere off the snake whenever it is eaten. */
module FoodEntity {
  import opened Grid

  datatype Option<T> = None | Some(value: T)

  /** How many random cells `respawn` tries before it falls back to a scan. */
  const MaxAttempts: int := 100

  /**
   * The random cells `respawn` would draw, supplied by the caller: one per
   * attempt, each on the grid as `random_position` guarantees.
   */
  predicate ValidDraws(draws: seq<Cell>) {
    |draws| == MaxAttempts && forall i :: 0 <= i < |draws| ==> OnGrid(draws[i])
  }

  /** The first of `draws[i..]` that is not occupied, if any. */
  function FirstFreeDraw(draws: seq<Cell>, i: nat, occupied: seq<Cell>): (r: Option<Cell>)
    requires i <= |draws|
    decreases |draws| - i
    ensures r.None? <==> forall j :: i <= j < |draws| ==> draws[j] in occupied
    ensures r.Some? ==> exists j :: i <= j < |draws| && draws[j] == r.value && r.value !in occupied &&
                                  forall k :: i <= k < j ==> draws[k] in occupied
  {
    if i == |draws| then None
    else if draws[i] !in occupied then Some(draws[i])
    else FirstFreeDraw(draws, i + 1, occupied)
  }

  /**
   * The first unoccupied cell at or after (x, y) in column-major order:
   * x runs over the columns in the outer loop and y over the rows in the inner one.
   */
  function ScanFrom(x: int, y: int, occupied: seq<Cell>): (r: Option<Cell>)
    requires 0 <= x <= Width && 0 <= y <= Height
    decreases Width - x, Height - y
    ensures r.Some? ==> OnGrid(r.value) && r.value !in occupied && !XMajorBefore(r.value, Cell(x, y))
    ensures forall c :: OnGrid(c) && !XMajorBefore(c, Cell(x, y)) && (r.None? || XMajorBefore(c, r.value))
                        ==> c in occupied
  {
    if x == Width then None
    else if y == Height then ScanFrom(x + 1, 0, occupied)
    else if Cell(x, y) !in occupied then Some(Cell(x, y))
    else ScanFrom(x, y + 1, occupied)
  }

  /** Where `respawn` puts the food that is now at `current`, given the random draws. */
  function Respawned(current: Cell, occupied: seq<Cell>, draws: seq<Cell>): Cell
    requires ValidDraws(draws)
  {
    match FirstFreeDraw(draws, 0, occupied)
    case Some(c) => c
    case None =>
      match ScanFrom(0, 0, occupied)
      case Some(c) => c
      case None => current
  }

  /** The food lands on a free grid cell whenever there is one, and stays where it was when there is none. */
  lemma RespawnAvoidsSnake(current: Cell, occupied: seq<Cell>, draws: seq<Cell>)
    requires ValidDraws(draws)
    ensures var r := Respawned(current, occupied, draws);
            (!GridFull(occupied) ==> OnGrid(r) && r !in occupied) &&
            (GridFull(occupied) ==> r == current)
  {
  }

  /** A free draw wins, and it is the first free one. */
  lemma RespawnTakesFirstFreeDraw(current: Cell, occupied: seq<Cell>, draws: seq<Cell>, i: int)
    requires ValidDraws(draws)
    requires 0 <= i < |draws| && draws[i] !in occupied
    ensures exists j :: 0 <= j <= i && draws[j] == Respawned(current, occupied, draws) && draws[j] !in occupied &&
                        forall k :: 0 <= k < j ==> draws[k] in occupied
  {
  }

  /** When every draw is occupied, the first free cell in column-major order wins. */
  lemma RespawnScansColumnMajor(current: Cell, occupied: seq<Cell>, draws: seq<Cell>)
    requires ValidDraws(draws)
    requires forall i :: 0 <= i < |draws| ==> draws[i] in occupied
    requires !GridFull(occupied)
    ensures var r := Respawned(current, occupied, draws);
            OnGrid(r) && r !in occupied && forall c :: OnGrid(c) && XMajorBefore(c, r) ==> c in occupied
  {
  }

  class Food {
    var position: Cell

    /** `initial` is the cell `random_position` drew. */
    constructor (initial: Cell)
      requires OnGrid(initial)
      ensures position == initial
    {
      position := initial;
    }

    method Respawn(snakePositions: seq<Cell>, draws: seq<Cell>)
      requires ValidDraws(draws)
      modifies this
      ensures position == Respawned(old(position), snakePositions, draws)
    {
      var attempts := 0;
      while attempts < MaxAttempts
        invariant 0 <= attempts <= MaxAttempts
        invariant position == old(position)
        invariant FirstFreeDraw(draws, attempts, snakePositions) == FirstFreeDraw(draws, 0, snakePositions)
      {
        var newPos := draws[attempts];
        if newPos !in snakePositions {
          assert FirstFreeDraw(draws, 0, snakePositions) == Some(newPos);
          position := newPos;
          return;
        }
        attempts := attempts + 1;
      }
      assert FirstFreeDraw(draws, 0, snakePositions) == None;
      for x := 0 to Width
        invariant position == old(position)
        invariant ScanFrom(x, 0, snakePositions) == ScanFrom(0, 0, snakePositions)
      {
        for y := 0 to Height
          invariant position == old(position)
          invariant ScanFrom(x, y, snakePositions) == ScanFrom(0, 0, snakePositions)
        {
          if Cell(x, y) !in snakePositions {
            assert ScanFrom(0, 0, snakePositions) == Some(Cell(x, y));
            position := Cell(x, y);
            return;
          }
        }
      }
    }
  }
}
