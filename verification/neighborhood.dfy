/** The Moore neighbourhood of a cell, clipped at the board's edges (the board
    does not wrap), and the number of live cells in it. */
module Neighborhood {
  import opened Grid

  /** `c` is one of the eight cells touching `(x, y)` horizontally,
      vertically or diagonally. */
  predicate Adjacent(c: Coord, x: int, y: int) {
    c != Coord(x, y) && -1 <= c.x - x <= 1 && -1 <= c.y - y <= 1
  }

  /** Row-major order on positions. */
  predicate Before(a: Coord, b: Coord) {
    a.x < b.x || (a.x == b.x && a.y < b.y)
  }

  /** The eight neighbour offsets of `(x, y)`, unclipped, in the fixed order
      row above (left to right), same row (left, right), row below. */
  function NeighborCoords(x: int, y: int): (r: seq<Coord>)
    ensures |r| == 8
  {
    [ Coord(x - 1, y - 1), Coord(x - 1, y), Coord(x - 1, y + 1),
      Coord(x, y - 1),                      Coord(x, y + 1),
      Coord(x + 1, y - 1), Coord(x + 1, y), Coord(x + 1, y + 1) ]
  }

  /** The offset list is in strictly increasing row-major order (so it has no
      repeats) and holds exactly the cells adjacent to `(x, y)`. */
  lemma NeighborCoordsSpec(x: int, y: int)
    ensures forall i, j :: 0 <= i < j < 8 ==> Before(NeighborCoords(x, y)[i], NeighborCoords(x, y)[j])
    ensures forall c :: c in NeighborCoords(x, y) <==> Adjacent(c, x, y)
  {
  }

  /** The positions of `cs` that lie on a `size × size` board, in their
      original order: the bounds filter of the neighbour lookup. */
  function Clip(cs: seq<Coord>, size: nat): (r: seq<Coord>)
    ensures |r| <= |cs|
    ensures forall i :: 0 <= i < |r| ==> InBounds(r[i], size)
  {
    if |cs| == 0 then []
    else
      var last := cs[|cs| - 1];
      Clip(cs[..|cs| - 1], size) + (if InBounds(last, size) then [last] else [])
  }

  /** A position survives clipping iff it was listed and lies on the board. */
  lemma {:induction false} ClipMembers(cs: seq<Coord>, size: nat)
    ensures forall c :: c in Clip(cs, size) <==> c in cs && InBounds(c, size)
  {
    if |cs| > 0 {
      var front := cs[..|cs| - 1];
      ClipMembers(front, size);
      assert cs == front + [cs[|cs| - 1]];
    }
  }

  /** The cells of `g` at the positions `cs`, in order. */
  function CellsAt(g: Board, size: nat, cs: seq<Coord>): (r: seq<Cell>)
    requires IsSquare(g, size)
    requires forall i :: 0 <= i < |cs| ==> 0 <= cs[i].x < size && 0 <= cs[i].y < size
    ensures |r| == |cs|
    ensures forall i :: 0 <= i < |cs| ==> r[i] == g[cs[i].x][cs[i].y]
  {
    seq(|cs|, i requires 0 <= i < |cs| => g[cs[i].x][cs[i].y])
  }

  /** The cells of the in-bounds positions among `cs`. */
  function Neighbors(g: Board, size: nat, cs: seq<Coord>): (r: seq<Cell>)
    requires IsSquare(g, size)
    ensures |r| == |Clip(cs, size)| <= |cs|
  {
    CellsAt(g, size, Clip(cs, size))
  }

  /** The number of live cells in `cells`, summed left to right starting
      from zero. */
  function CountAlive(cells: seq<Cell>): (r: nat)
    ensures r <= |cells|
    ensures r == 0 <== forall i :: 0 <= i < |cells| ==> !cells[i].alive
    ensures r == |cells| <== forall i :: 0 <= i < |cells| ==> cells[i].alive
  {
    if |cells| == 0 then 0
    else CountAlive(cells[..|cells| - 1]) + (if cells[|cells| - 1].alive then 1 else 0)
  }

  /** The number of live cells around `(x, y)` on the board. */
  function LiveNeighborCount(g: Board, size: nat, x: int, y: int): (r: nat)
    requires IsSquare(g, size)
    ensures r <= 8
  {
    CountAlive(Neighbors(g, size, NeighborCoords(x, y)))
  }

  /** Reference definition of the same count: the set of live board cells
      adjacent to `(x, y)`, independent of any enumeration order. */
  function LiveNeighborSet(g: Board, size: nat, x: int, y: int): set<Coord>
    requires IsSquare(g, size)
  {
    set i, j | 0 <= i < size && 0 <= j < size && Adjacent(Coord(i, j), x, y) && g[i][j].alive :: Coord(i, j)
  }

  /** No position occurs twice in `cs`. */
  predicate Distinct(cs: seq<Coord>) {
    forall i, j :: 0 <= i < j < |cs| ==> cs[i] != cs[j]
  }

  /** Extending the position list by one position extends the neighbour
      cells by that position's cell exactly when it is on the board. */
  lemma NeighborsSnoc(g: Board, size: nat, cs: seq<Coord>, last: Coord)
    requires IsSquare(g, size)
    ensures Neighbors(g, size, cs + [last])
         == Neighbors(g, size, cs) + (if InBounds(last, size) then [g[last.x][last.y]] else [])
  {
    assert (cs + [last])[..|cs|] == cs;
  }

  /** Counting live cells distributes over concatenation with one cell. */
  lemma CountAliveSnoc(cells: seq<Cell>, extra: seq<Cell>)
    requires |extra| <= 1
    ensures CountAlive(cells + extra) == CountAlive(cells) + CountAlive(extra)
  {
    if |extra| == 1 {
      assert (cells + extra)[..|cells|] == cells;
      assert extra[..0] == [];
    } else {
      assert cells + extra == cells;
    }
  }

  /** The live count over a prefix one position longer grows by one exactly
      when the new position is a live board cell. */
  lemma CountPrefixStep(g: Board, size: nat, cs: seq<Coord>, k: nat)
    requires IsSquare(g, size) && k < |cs|
    ensures CountAlive(Neighbors(g, size, cs[..k + 1]))
         == CountAlive(Neighbors(g, size, cs[..k]))
            + (if InBounds(cs[k], size) && g[cs[k].x][cs[k].y].alive then 1 else 0)
  {
    var c := cs[k];
    assert cs[..k + 1] == cs[..k] + [c];
    NeighborsSnoc(g, size, cs[..k], c);
    var extra: seq<Cell> := if InBounds(c, size) then [g[c.x][c.y]] else [];
    CountAliveSnoc(Neighbors(g, size, cs[..k]), extra);
  }

  /** The set of live board positions listed in `cs`. */
  function LiveListed(g: Board, size: nat, cs: seq<Coord>): set<Coord>
    requires IsSquare(g, size)
  {
    set c | c in cs && InBounds(c, size) && g[c.x][c.y].alive
  }

  /** The live set of a non-empty list is that of the list without its last
      position, plus that position when it is a live board cell. */
  lemma LiveListedLast(g: Board, size: nat, cs: seq<Coord>)
    requires IsSquare(g, size) && |cs| > 0
    ensures LiveListed(g, size, cs)
         == LiveListed(g, size, cs[..|cs| - 1])
            + (var last := cs[|cs| - 1];
               if InBounds(last, size) && g[last.x][last.y].alive then {last} else {})
  {
    assert cs == cs[..|cs| - 1] + [cs[|cs| - 1]];
  }

  /** Dropping the last position of a duplicate-free list leaves a
      duplicate-free list that does not contain that position. */
  lemma DistinctFront(cs: seq<Coord>)
    requires Distinct(cs) && |cs| > 0
    ensures Distinct(cs[..|cs| - 1])
    ensures cs[|cs| - 1] !in cs[..|cs| - 1]
  {
  }

  /** Counting the live cells at the clipped positions of a duplicate-free
      list is the same as taking the size of the set of those positions. */
  lemma {:induction false} CountClippedIsCard(g: Board, size: nat, cs: seq<Coord>)
    requires IsSquare(g, size)
    requires Distinct(cs)
    ensures CountAlive(Neighbors(g, size, cs)) == |LiveListed(g, size, cs)|
  {
    if |cs| == 0 {
      assert LiveListed(g, size, cs) == {};
    } else {
      var k := |cs| - 1;
      DistinctFront(cs);
      CountClippedIsCard(g, size, cs[..k]);
      CountPrefixStep(g, size, cs, k);
      assert cs[..k + 1] == cs;
      LiveListedLast(g, size, cs);
    }
  }

  /** Clipping keeps a duplicate-free list duplicate-free. */
  lemma {:induction false} ClipDistinct(cs: seq<Coord>, size: nat)
    requires Distinct(cs)
    ensures Distinct(Clip(cs, size))
  {
    if |cs| > 0 {
      var front := cs[..|cs| - 1];
      DistinctFront(cs);
      ClipDistinct(front, size);
      ClipMembers(front, size);
    }
  }

  /** A duplicate-free list has as many elements as the set of its elements. */
  lemma {:induction false} DistinctCard(cs: seq<Coord>)
    requires Distinct(cs)
    ensures |set c | c in cs| == |cs|
  {
    if |cs| == 0 {
      assert (set c | c in cs) == {};
    } else {
      var front := cs[..|cs| - 1];
      var last := cs[|cs| - 1];
      DistinctFront(cs);
      DistinctCard(front);
      assert (set c | c in cs) == (set c | c in front) + {last};
    }
  }

  /** The live-neighbour count equals the number of live board cells adjacent
      to `(x, y)`: clipping and counting the fixed offset list neither misses
      nor double-counts a neighbour. */
  lemma LiveNeighborCountIsCard(g: Board, size: nat, x: int, y: int)
    requires IsSquare(g, size)
    ensures LiveNeighborCount(g, size, x, y) == |LiveNeighborSet(g, size, x, y)|
  {
    var cs := NeighborCoords(x, y);
    NeighborCoordsSpec(x, y);
    CountClippedIsCard(g, size, cs);
    var s := LiveListed(g, size, cs);
    forall c | c in LiveNeighborSet(g, size, x, y) ensures c in s {
    }
    assert s == LiveNeighborSet(g, size, x, y);
  }

  /** The positions of `cs` that lie on the board, as a set. */
  function ClippedSet(cs: seq<Coord>, size: nat): set<Coord> {
    set p | p in Clip(cs, size)
  }

  /** On a board with at least two rows, the on-board neighbours of a corner
      are the two cells beside it and the one diagonally inside it. */
  lemma CornerClippedSet(size: nat, c: Coord)
    requires size >= 2
    requires (c.x == 0 || c.x == size - 1) && (c.y == 0 || c.y == size - 1)
    ensures ClippedSet(NeighborCoords(c.x, c.y), size)
         == {Coord(if c.x == 0 then 1 else size - 2, c.y),
             Coord(c.x, if c.y == 0 then 1 else size - 2),
             Coord(if c.x == 0 then 1 else size - 2, if c.y == 0 then 1 else size - 2)}
  {
    var ix := if c.x == 0 then 1 else size - 2;
    var iy := if c.y == 0 then 1 else size - 2;
    var corners := {Coord(ix, c.y), Coord(c.x, iy), Coord(ix, iy)};
    var clipped := Clip(NeighborCoords(c.x, c.y), size);
    NeighborCoordsSpec(c.x, c.y);
    ClipMembers(NeighborCoords(c.x, c.y), size);
    forall p | p in clipped ensures p in corners {
      assert Adjacent(p, c.x, c.y) && InBounds(p, size);
    }
    forall p | p in corners ensures p in clipped {
      assert Adjacent(p, c.x, c.y);
    }
  }

  /** On a board with at least two rows, each corner cell has exactly three
      neighbours on the board, so at most three live ones. */
  lemma CornerNeighbors(g: Board, size: nat, c: Coord)
    requires IsSquare(g, size) && size >= 2
    requires (c.x == 0 || c.x == size - 1) && (c.y == 0 || c.y == size - 1)
    ensures |Clip(NeighborCoords(c.x, c.y), size)| == 3
    ensures LiveNeighborCount(g, size, c.x, c.y) <= 3
  {
    var cs := NeighborCoords(c.x, c.y);
    var clipped := Clip(cs, size);
    var ix := if c.x == 0 then 1 else size - 2;
    var iy := if c.y == 0 then 1 else size - 2;
    CornerClippedSet(size, c);
    NeighborCoordsSpec(c.x, c.y);
    assert ix != c.x && iy != c.y;
    assert |{Coord(ix, c.y), Coord(c.x, iy), Coord(ix, iy)}| == 3;
    ClipDistinct(cs, size);
    DistinctCard(clipped);
    assert (set p | p in clipped) == ClippedSet(cs, size);
  }
}
