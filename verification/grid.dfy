/** The cell buffer of the simulation: a square, non-wrapping board of cells.
    Row index `x` selects a row, column index `y` a cell inside it. Boards are
    immutable values; every operation returns a new board. */
module Grid {

  /** One cell of the board; its only state is whether it is alive. */
  datatype Cell = Cell(alive: bool)

  /** A board position. Coordinates are unbounded integers so that the
      offsets of border cells (for example `x - 1` with `x == 0`) can be
      represented before they are clipped. */
  datatype Coord = Coord(x: int, y: int)

  type Board = seq<seq<Cell>>

  /** Every row exists and holds exactly `size` cells. */
  predicate IsSquare(g: Board, size: nat) {
    |g| == size && forall x :: 0 <= x < size ==> |g[x]| == size
  }

  /** `c` is a position of a `size × size` board. */
  predicate InBounds(c: Coord, size: nat) {
    0 <= c.x < size && 0 <= c.y < size
  }

  /** An all-dead `size × size` board: the nested loops that fill the board
      before the seed pattern is planted. */
  function AllDead(size: nat): (r: Board)
    ensures IsSquare(r, size)
    ensures forall x, y :: 0 <= x < size && 0 <= y < size ==> !r[x][y].alive
  {
    seq(size, _ => seq(size, _ => Cell(false)))
  }

  /** The board with the cell at `c` replaced by `cell`. */
  function SetCell(g: Board, size: nat, c: Coord, cell: Cell): (r: Board)
    requires IsSquare(g, size) && InBounds(c, size)
    ensures IsSquare(r, size)
    ensures r[c.x][c.y] == cell
    ensures forall x, y :: 0 <= x < size && 0 <= y < size && (x, y) != (c.x, c.y) ==> r[x][y] == g[x][y]
  {
    g[c.x := g[c.x][c.y := cell]]
  }

  /** Flipping a cell: what a click on a cell does to that cell. */
  function Flip(cell: Cell): (r: Cell)
    ensures r.alive != cell.alive
  {
    Cell(!cell.alive)
  }

  /** Flips the alive flag of the cell at `c` and nothing else. */
  function Toggle(g: Board, size: nat, c: Coord): (r: Board)
    requires IsSquare(g, size) && InBounds(c, size)
    ensures IsSquare(r, size)
    ensures r[c.x][c.y].alive == !g[c.x][c.y].alive
    ensures forall x, y :: 0 <= x < size && 0 <= y < size && (x, y) != (c.x, c.y) ==> r[x][y] == g[x][y]
  {
    SetCell(g, size, c, Flip(g[c.x][c.y]))
  }

  /** Toggling the same cell twice gives back the original board. */
  lemma ToggleTwice(g: Board, size: nat, c: Coord)
    requires IsSquare(g, size) && InBounds(c, size)
    ensures Toggle(Toggle(g, size, c), size, c) == g
  {
    var t := Toggle(Toggle(g, size, c), size, c);
    forall x | 0 <= x < size ensures t[x] == g[x] {
      assert |t[x]| == |g[x]|;
      forall y | 0 <= y < size ensures t[x][y] == g[x][y] {
      }
    }
  }
}
