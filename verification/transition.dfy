/** One generation of the automaton: every cell's next state is decided from
    its own state and its live-neighbour count in the OLD board, through the
    two rule tables. */
module Transition {
  import opened Grid
  import opened Neighborhood
  import opened Rules

  /** The next state of one cell: alive when it is alive and the `death`
      table holds for its count, or when it is dead and the `birth` table
      holds for its count; dead in every other case. */
  predicate NextAlive(alive: bool, n: nat, rules: RuleTables)
    requires Valid(rules) && n < TableSize
  {
    (alive && rules.death[n]) || (!alive && rules.birth[n])
  }

  /** The next generation of `g`. Each cell of the result depends only on the
      old board and the rule tables, never on cells already computed. */
  function Step(g: Board, size: nat, rules: RuleTables): (r: Board)
    requires IsSquare(g, size) && Valid(rules)
    ensures IsSquare(r, size)
    ensures forall x, y :: 0 <= x < size && 0 <= y < size ==>
      r[x][y].alive == NextAlive(g[x][y].alive, LiveNeighborCount(g, size, x, y), rules)
  {
    seq(size, x requires 0 <= x < size =>
      seq(size, y requires 0 <= y < size =>
        Cell(NextAlive(g[x][y].alive, LiveNeighborCount(g, size, x, y), rules))))
  }

  /** The live-neighbour count as the component computes it: walk the eight
      offsets, skip those off the board, and add one for every live cell. */
  method CountLiveNeighbors(g: Board, size: nat, x: int, y: int) returns (n: nat)
    requires IsSquare(g, size)
    ensures n == LiveNeighborCount(g, size, x, y)
    ensures n == |LiveNeighborSet(g, size, x, y)|
  {
    var cs := NeighborCoords(x, y);
    assert CountAlive(Neighbors(g, size, cs[..0])) == 0 by {
      assert cs[..0] == [];
    }
    n := 0;
    var k := 0;
    while k < |cs|
      invariant 0 <= k <= |cs|
      invariant n == CountAlive(Neighbors(g, size, cs[..k]))
    {
      var c := cs[k];
      CountPrefixStep(g, size, cs, k);
      if InBounds(c, size) && g[c.x][c.y].alive {
        n := n + 1;
      }
      k := k + 1;
    }
    assert cs[..k] == cs;
    LiveNeighborCountIsCard(g, size, x, y);
  }

  /** The inner loop of the step: overwrite every cell of row `x` of
      `newCells` with its next state, decided from the counts in `cells`. */
  method StepRowInPlace(cells: Board, newCells: Board, size: nat, rules: RuleTables, x: nat)
    returns (updated: Board)
    requires IsSquare(cells, size) && IsSquare(newCells, size) && Valid(rules) && x < size
    ensures IsSquare(updated, size)
    ensures updated[x] == Step(cells, size, rules)[x]
    ensures forall i :: 0 <= i < size && i != x ==> updated[i] == newCells[i]
  {
    ghost var next := Step(cells, size, rules);
    updated := newCells;
    var y := 0;
    while y < size
      invariant 0 <= y <= size
      invariant IsSquare(updated, size)
      invariant forall i :: 0 <= i < size && i != x ==> updated[i] == newCells[i]
      invariant forall j :: 0 <= j < y ==> updated[x][j] == next[x][j]
    {
      var n := CountLiveNeighbors(cells, size, x, y);
      var alive := cells[x][y].alive;
      if (alive && rules.death[n]) || (!alive && rules.birth[n]) {
        updated := SetCell(updated, size, Coord(x, y), Cell(true));
      } else {
        updated := SetCell(updated, size, Coord(x, y), Cell(false));
      }
      y := y + 1;
    }
  }

  /** The step as the component runs it: start from a copy of the board, then
      overwrite every cell, row by row, with the state decided from the
      counts in the unchanged old board. */
  method StepInPlace(cells: Board, size: nat, rules: RuleTables) returns (newCells: Board)
    requires IsSquare(cells, size) && Valid(rules)
    ensures newCells == Step(cells, size, rules)
  {
    ghost var next := Step(cells, size, rules);
    newCells := cells;
    var x := 0;
    while x < size
      invariant 0 <= x <= size
      invariant IsSquare(newCells, size)
      invariant forall i :: 0 <= i < x ==> newCells[i] == next[i]
    {
      newCells := StepRowInPlace(cells, newCells, size, rules, x);
      x := x + 1;
    }
  }

  /** Two boards that agree on a cell and on all of its neighbours give that
      cell the same next state: a step reads nothing outside the 3 × 3
      window of the old board. */
  lemma StepIsLocal(g1: Board, g2: Board, size: nat, rules: RuleTables, x: nat, y: nat)
    requires IsSquare(g1, size) && IsSquare(g2, size) && Valid(rules)
    requires x < size && y < size
    requires g1[x][y] == g2[x][y]
    requires forall i, j :: 0 <= i < size && 0 <= j < size && Adjacent(Coord(i, j), x, y) ==> g1[i][j] == g2[i][j]
    ensures Step(g1, size, rules)[x][y] == Step(g2, size, rules)[x][y]
  {
    LiveNeighborCountIsCard(g1, size, x, y);
    LiveNeighborCountIsCard(g2, size, x, y);
    assert LiveNeighborSet(g1, size, x, y) == LiveNeighborSet(g2, size, x, y);
  }

  /** A live cell is alive next generation exactly when the `death` entry
      for its count is true; a dead cell exactly when the `birth` entry is.
      No `death` entry ever kills a cell. */
  lemma DeathTableIsSurvival(g: Board, size: nat, rules: RuleTables, x: nat, y: nat)
    requires IsSquare(g, size) && Valid(rules) && x < size && y < size
    ensures |LiveNeighborSet(g, size, x, y)| < TableSize
    ensures g[x][y].alive ==>
      (Step(g, size, rules)[x][y].alive <==> rules.death[|LiveNeighborSet(g, size, x, y)|])
    ensures !g[x][y].alive ==>
      (Step(g, size, rules)[x][y].alive <==> rules.birth[|LiveNeighborSet(g, size, x, y)|])
  {
    LiveNeighborCountIsCard(g, size, x, y);
  }

  /** With the start-up tables a step is Conway's Life (B3/S23): a cell is
      alive next generation iff it has exactly three live neighbours, or it
      is alive and has exactly two. */
  lemma DefaultsAreLife(g: Board, size: nat, x: nat, y: nat)
    requires IsSquare(g, size) && x < size && y < size
    ensures Step(g, size, Defaults())[x][y].alive
        <==> (var n := |LiveNeighborSet(g, size, x, y)|;
              n == 3 || (g[x][y].alive && n == 2))
  {
    DeathTableIsSurvival(g, size, Defaults(), x, y);
  }

  /** A cell with no live neighbours is dead next generation under the
      start-up tables, and so an all-dead board stays all dead. */
  lemma DeadBoardStaysDead(size: nat)
    ensures Step(AllDead(size), size, Defaults()) == AllDead(size)
  {
    var g := AllDead(size);
    var r := Step(g, size, Defaults());
    forall x | 0 <= x < size ensures r[x] == g[x] {
      forall y | 0 <= y < size ensures r[x][y] == g[x][y] {
        DefaultsAreLife(g, size, x, y);
        assert LiveNeighborSet(g, size, x, y) == {};
      }
    }
  }
}
