/** The simulation state held by the component and the operations that change
    it: seeding, (re)starting, ticking, pausing, clicking a cell, editing the
    birth table and changing the board size. */
module Game {
  import opened Grid
  import opened Neighborhood
  import opened Rules
  import opened Transition

  /** The board size the component starts with. */
  const InitialSize: nat := 50

  /** The glider planted by a reset. */
  const Glider: set<Coord> := {Coord(0, 2), Coord(1, 3), Coord(2, 1), Coord(2, 2), Coord(2, 3)}

  /** The smallest board on which every glider cell exists. On smaller boards
      the component's seed writes hit a missing row or cell and fail. */
  const MinSeedSize: nat := 4

  /** The board with the cell at `c` made alive. */
  function Plant(g: Board, size: nat, c: Coord): (r: Board)
    requires IsSquare(g, size) && InBounds(c, size)
    ensures IsSquare(r, size)
    ensures forall x, y :: 0 <= x < size && 0 <= y < size ==> (r[x][y].alive <==> g[x][y].alive || Coord(x, y) == c)
  {
    SetCell(g, size, c, Cell(true))
  }

  /** A fresh all-dead `size × size` board with the glider planted, one cell
      at a time as the component does. */
  function ResetBoard(size: nat): (r: Board)
    requires size >= MinSeedSize
    ensures IsSquare(r, size)
    ensures forall x, y :: 0 <= x < size && 0 <= y < size ==> (r[x][y].alive <==> Coord(x, y) in Glider)
  {
    var g0 := AllDead(size);
    var g1 := Plant(g0, size, Coord(0, 2));
    var g2 := Plant(g1, size, Coord(1, 3));
    var g3 := Plant(g2, size, Coord(2, 1));
    var g4 := Plant(g3, size, Coord(2, 2));
    Plant(g4, size, Coord(2, 3))
  }

  /** Everything the component keeps between ticks. The timer period is not
      part of the state: it only decides when ticks happen. */
  datatype State = State(size: nat, cells: Board, generation: nat, rules: RuleTables, paused: bool)

  /** The board matches the size and both rule tables have nine entries. */
  predicate Consistent(s: State) {
    IsSquare(s.cells, s.size) && Valid(s.rules)
  }

  /** Restarting the game: the generation counter goes back to zero and the
      board, size, rules and pause flag are kept. */
  function StartGame(s: State): (r: State)
    ensures r.generation == 0
    ensures r.size == s.size && r.cells == s.cells && r.rules == s.rules && r.paused == s.paused
  {
    s.(generation := 0)
  }

  /** The state after start-up: default size and rules, a seeded board,
      generation zero, not paused. */
  function Init(): (s: State)
    ensures Consistent(s)
    ensures s.size == InitialSize && s.generation == 0 && !s.paused && s.rules == Defaults()
    ensures forall x, y :: 0 <= x < s.size && 0 <= y < s.size ==> (s.cells[x][y].alive <==> Coord(x, y) in Glider)
  {
    StartGame(State(InitialSize, ResetBoard(InitialSize), 0, Defaults(), false))
  }

  /** One firing of the timer. While paused nothing happens; otherwise the
      generation counter goes up by one and the board is replaced by the
      next generation computed from the current board and rules. */
  function Tick(s: State): (r: State)
    requires Consistent(s)
    ensures Consistent(r)
    ensures s.paused ==> r == s
    ensures !s.paused ==> r.generation == s.generation + 1 && r.cells == Step(s.cells, s.size, s.rules)
    ensures r.size == s.size && r.rules == s.rules && r.paused == s.paused
  {
    if s.paused then s
    else s.(generation := s.generation + 1, cells := Step(s.cells, s.size, s.rules))
  }

  /** `k` consecutive timer firings. */
  function Ticks(s: State, k: nat): (r: State)
    requires Consistent(s)
    ensures Consistent(r)
    ensures r.size == s.size && r.rules == s.rules && r.paused == s.paused
  {
    if k == 0 then s else Tick(Ticks(s, k - 1))
  }

  /** The board after `k` steps under fixed rules. */
  function Generations(g: Board, size: nat, rules: RuleTables, k: nat): (r: Board)
    requires IsSquare(g, size) && Valid(rules)
    ensures IsSquare(r, size)
  {
    if k == 0 then g else Step(Generations(g, size, rules, k - 1), size, rules)
  }

  /** However many ticks fire while paused, board and generation stay put. */
  lemma {:induction false} PausedTicksChangeNothing(s: State, k: nat)
    requires Consistent(s) && s.paused
    ensures Ticks(s, k) == s
  {
    if k > 0 {
      PausedTicksChangeNothing(s, k - 1);
    }
  }

  /** While running, `k` ticks advance the generation counter by exactly `k`
      and leave the board `k` steps further on. */
  lemma {:induction false} RunningTicksAdvance(s: State, k: nat)
    requires Consistent(s) && !s.paused
    ensures Ticks(s, k).generation == s.generation + k
    ensures Ticks(s, k).cells == Generations(s.cells, s.size, s.rules, k)
  {
    if k > 0 {
      RunningTicksAdvance(s, k - 1);
    }
  }

  /** The reset button: re-seed the board, then restart. */
  function Reset(s: State): (r: State)
    requires s.size >= MinSeedSize && Valid(s.rules)
    ensures Consistent(r) && r.generation == 0
    ensures forall x, y :: 0 <= x < r.size && 0 <= y < r.size ==> (r.cells[x][y].alive <==> Coord(x, y) in Glider)
    ensures r.size == s.size && r.rules == s.rules && r.paused == s.paused
  {
    StartGame(s.(cells := ResetBoard(s.size)))
  }

  /** A new board size: store it, re-seed a board of that size, restart. */
  function Resize(s: State, size: nat): (r: State)
    requires size >= MinSeedSize && Valid(s.rules)
    ensures Consistent(r) && r.size == size && r.generation == 0
    ensures forall x, y :: 0 <= x < size && 0 <= y < size ==> (r.cells[x][y].alive <==> Coord(x, y) in Glider)
    ensures r.rules == s.rules && r.paused == s.paused
  {
    Reset(s.(size := size))
  }

  /** A change of the pause control. */
  function SetPaused(s: State, paused: bool): (r: State)
    ensures r.paused == paused
    ensures r.size == s.size && r.cells == s.cells && r.generation == s.generation && r.rules == s.rules
  {
    s.(paused := paused)
  }

  /** A click on a cell flips that cell only; the generation counter, rules
      and pause flag are untouched. */
  function ClickCell(s: State, c: Coord): (r: State)
    requires Consistent(s) && InBounds(c, s.size)
    ensures Consistent(r)
    ensures r.size == s.size && r.generation == s.generation && r.rules == s.rules && r.paused == s.paused
    ensures r.cells[c.x][c.y].alive == !s.cells[c.x][c.y].alive
    ensures forall x, y :: 0 <= x < s.size && 0 <= y < s.size && (x, y) != (c.x, c.y) ==> r.cells[x][y] == s.cells[x][y]
  {
    s.(cells := Toggle(s.cells, s.size, c))
  }

  /** Clicking the same cell twice restores the state. */
  lemma ClickCellTwice(s: State, c: Coord)
    requires Consistent(s) && InBounds(c, s.size)
    ensures ClickCell(ClickCell(s, c), c) == s
  {
    ToggleTwice(s.cells, s.size, c);
  }

  /** Editing a birth entry changes only that entry; the board and the
      generation counter are untouched until the next tick uses the table. */
  function SetBirth(s: State, i: nat, value: bool): (r: State)
    requires Consistent(s) && i < TableSize
    ensures Consistent(r)
    ensures r.rules.birth[i] == value
    ensures forall n :: 0 <= n < TableSize && n != i ==> r.rules.birth[n] == s.rules.birth[n]
    ensures r.rules.death == s.rules.death
    ensures r.size == s.size && r.cells == s.cells && r.generation == s.generation && r.paused == s.paused
  {
    s.(rules := SetBirthRule(s.rules, i, value))
  }

  /** The board holds exactly the glider. */
  predicate SeededWithGlider(g: Board, size: nat) {
    size >= MinSeedSize && IsSquare(g, size)
    && forall x, y :: 0 <= x < size && 0 <= y < size ==> (g[x][y].alive <==> Coord(x, y) in Glider)
  }

  /** On a board holding exactly the glider, the live neighbours of any cell
      are the glider cells adjacent to it. */
  lemma SeededNeighbors(g: Board, size: nat, x: int, y: int)
    requires SeededWithGlider(g, size)
    ensures LiveNeighborSet(g, size, x, y) == set c | c in Glider && Adjacent(c, x, y)
  {
    var s := set c | c in Glider && Adjacent(c, x, y);
    forall c | c in s ensures c in LiveNeighborSet(g, size, x, y) {
      assert InBounds(c, size);
    }
  }

  /** Under the start-up tables, the next state of a glider-board cell with
      `n` live neighbours, where `live` lists those neighbours. */
  lemma GliderCellNext(g: Board, size: nat, x: nat, y: nat, live: set<Coord>)
    requires SeededWithGlider(g, size) && x < size && y < size
    requires live == set c | c in Glider && Adjacent(c, x, y)
    ensures Step(g, size, Defaults())[x][y].alive
        <==> |live| == 3 || (Coord(x, y) in Glider && |live| == 2)
  {
    SeededNeighbors(g, size, x, y);
    DefaultsAreLife(g, size, x, y);
  }

  /** The top glider cell has one live neighbour, (1, 3), and dies. */
  lemma GliderTopDies(g: Board, size: nat)
    requires SeededWithGlider(g, size)
    ensures !Step(g, size, Defaults())[0][2].alive
  {
    var live := {Coord(1, 3)};
    assert (set p | p in Glider && Adjacent(p, 0, 2)) == live;
    assert |live| == 1;
    GliderCellNext(g, size, 0, 2, live);
  }

  /** The glider cell (2, 3) has two live neighbours and survives. */
  lemma GliderCornerSurvives(g: Board, size: nat)
    requires SeededWithGlider(g, size)
    ensures Step(g, size, Defaults())[2][3].alive
  {
    var live := {Coord(1, 3), Coord(2, 2)};
    assert (set p | p in Glider && Adjacent(p, 2, 3)) == live;
    assert |live| == 2;
    GliderCellNext(g, size, 2, 3, live);
  }

  /** The empty cell (3, 2) has three live neighbours and is born. */
  lemma GliderCellBorn(g: Board, size: nat)
    requires SeededWithGlider(g, size)
    ensures Step(g, size, Defaults())[3][2].alive
  {
    var live := {Coord(2, 1), Coord(2, 2), Coord(2, 3)};
    assert (set p | p in Glider && Adjacent(p, 3, 2)) == live;
    assert |live| == 3;
    GliderCellNext(g, size, 3, 2, live);
  }

  /** The empty cell (3, 3) has only two live neighbours and stays dead. */
  lemma GliderCellStaysDead(g: Board, size: nat)
    requires SeededWithGlider(g, size)
    ensures !Step(g, size, Defaults())[3][3].alive
  {
    var live := {Coord(2, 2), Coord(2, 3)};
    assert (set p | p in Glider && Adjacent(p, 3, 3)) == live;
    assert |live| == 2 && Coord(3, 3) !in Glider;
    GliderCellNext(g, size, 3, 3, live);
  }

  /** The first step from a reset board under the start-up tables: the top
      glider cell dies, (2, 3) survives, (3, 2) is born and (3, 3) stays
      dead. */
  lemma GliderFirstStep(size: nat)
    requires size >= MinSeedSize
    ensures !Step(ResetBoard(size), size, Defaults())[0][2].alive
    ensures Step(ResetBoard(size), size, Defaults())[2][3].alive
    ensures Step(ResetBoard(size), size, Defaults())[3][2].alive
    ensures !Step(ResetBoard(size), size, Defaults())[3][3].alive
  {
    var g := ResetBoard(size);
    assert SeededWithGlider(g, size);
    GliderTopDies(g, size);
    GliderCornerSurvives(g, size);
    GliderCellBorn(g, size);
    GliderCellStaysDead(g, size);
  }
}
