# Generalised Life simulation engine

A Dafny model of the simulation engine of an Angular "game of life" component
(`src/app/app.component.ts`). The engine runs a Life-like cellular automaton
on a square `size × size` board that does not wrap at the edges. Two 9-entry
rule tables are indexed by a cell's live-neighbour count 0..8:

- `birthRule[n]` decides whether a dead cell with `n` live neighbours comes alive;
- `deathRule[n]` decides whether a live cell with `n` live neighbours is alive next generation.

The `deathRule` table is really a survival table. The code keeps a live cell
alive exactly when its `deathRule` entry is true, and no entry ever kills a
cell (lines 107-115; `Transition.DeathTableIsSurvival`). The start-up tables
are birth {3} and "death" {2, 3}, which is classic B3/S23 Life
(`Transition.DefaultsAreLife`).

Modules, one file each:

- `Grid` (`grid.dfy`): cells, positions and boards (`seq<seq<Cell>>`). It has the all-dead board, single-cell writes and the click toggle.
- `Neighborhood` (`neighborhood.dfy`): the eight neighbour offsets and the filter that clips them to the board. It counts live neighbours with a left-to-right sum, and gives an order-free reference count: the size of the set of live adjacent board cells.
- `Rules` (`rules.dfy`): the two rule tables, their start-up values and the birth-table setter.
- `Transition` (`transition.dfy`): one generation as a pure function, plus the component's copy-then-overwrite loop as a method proved equal to it.
- `Game` (`game.dfy`): the component's state (size, board, generation counter, rule tables, pause flag). It covers the seed, start, reset, resize, tick, pause, cell click and birth-rule edit.

## Model

| member | source | states |
|---|---|---|
| `Grid.AllDead` | src/app/app.component.ts:31-39 | the board built before seeding is `size × size` and every cell is dead |
| `Grid.SetCell` | src/app/app.component.ts:40-44 | writing one cell keeps the board square, sets that cell and leaves every other cell as it was |
| `Grid.Flip` | src/app/app.component.ts:79-81 | a click gives the cell the opposite alive flag |
| `Grid.Toggle` | src/app/app.component.ts:79-81 | toggling a position flips exactly that cell's alive flag and no other cell changes |
| `Grid.ToggleTwice` | src/app/app.component.ts:79-81 | toggling the same cell twice gives back the original board |
| `Neighborhood.NeighborCoords` | src/app/app.component.ts:58-69 | the offset list always has exactly 8 entries, with no clipping |
| `Neighborhood.NeighborCoordsSpec` | src/app/app.component.ts:58-69 | the 8 offsets are in strictly increasing row-major order, so none repeats; a position is in the list iff it is adjacent to (x, y) and is not (x, y) itself |
| `Neighborhood.Clip` | src/app/app.component.ts:72-75 | the filter never lengthens the list, and every position it keeps satisfies 0 <= x, y <= size - 1 |
| `Neighborhood.ClipMembers` | src/app/app.component.ts:72-75 | a position survives the filter iff it was in the input and lies on the board |
| `Neighborhood.ClipDistinct` | src/app/app.component.ts:72-75 | filtering a list without repeats gives a list without repeats |
| `Neighborhood.Neighbors` | src/app/app.component.ts:71-77 | there is one neighbour cell per kept position, so never more cells than positions |
| `Neighborhood.CountAlive` | src/app/app.component.ts:104-106 | the left-to-right sum of alive flags is at most the number of cells; it is 0 when none are alive and the full length when all are |
| `Neighborhood.LiveNeighborCount` | src/app/app.component.ts:103-106 | a cell's live-neighbour count is at most 8, so it always indexes a 9-entry rule table |
| `Neighborhood.CountClippedIsCard` | src/app/app.component.ts:71-77 | for a list without repeats, counting live cells at the kept positions equals the size of the set of live on-board positions in the list |
| `Neighborhood.LiveNeighborCountIsCard` | src/app/app.component.ts:58-77 | the live-neighbour count equals the number of live board cells adjacent to (x, y), with no neighbour missed or counted twice |
| `Neighborhood.CornerClippedSet` | src/app/app.component.ts:72-75 | on a board of size >= 2, a corner's on-board neighbours are exactly the two cells beside it and the one diagonally inside |
| `Neighborhood.CornerNeighbors` | src/app/app.component.ts:71-77 | on a board of size >= 2, every corner has exactly 3 on-board neighbours and at most 3 live ones |
| `Rules.Defaults` | src/app/app.component.ts:26-27 | at start-up, birth holds only for 3 and the "death" (survival) table only for 2 and 3 |
| `Rules.SetBirthRule` | src/app/app.component.ts:83-85 | entry i of the birth table takes the new value; every other birth entry and the whole death table are kept |
| `Rules.SetBirthRuleLastWins` | src/app/app.component.ts:83-85 | setting the same birth entry twice leaves the tables as if only the second value had been set |
| `Rules.SetBirthRuleSameValue` | src/app/app.component.ts:83-85 | writing back the value an entry already holds leaves both tables unchanged |
| `Transition.Step` | src/app/app.component.ts:96-118 | the next board has the same size; each cell's next state is `NextAlive`: alive iff (old alive and deathRule[n]) or (old dead and birthRule[n]), where n is the live-neighbour count in the OLD board |
| `Transition.CountLiveNeighbors` | src/app/app.component.ts:103-106 | walking the eight offsets, skipping off-board ones and adding 1 per live cell gives the live-neighbour count, which is the size of the set of live adjacent cells |
| `Transition.StepRowInPlace` | src/app/app.component.ts:102-117 | the inner loop rewrites row x to its next-generation contents and changes no other row |
| `Transition.StepInPlace` | src/app/app.component.ts:98-118 | copying the board and overwriting every cell row by row, with counts read from the unchanged old board, gives exactly the next generation |
| `Transition.StepIsLocal` | src/app/app.component.ts:98-106 | two boards that agree on a cell and its neighbours give that cell the same next state, because a step reads only the 3 × 3 window of the old board |
| `Transition.DeathTableIsSurvival` | src/app/app.component.ts:107-115 | a live cell is alive next generation iff deathRule holds for its neighbour count, and a dead cell iff birthRule holds; no deathRule entry kills |
| `Transition.DefaultsAreLife` | src/app/app.component.ts:107-115 | with the start-up tables, a cell is alive next generation iff it has exactly 3 live neighbours, or is alive with exactly 2 |
| `Transition.DeadBoardStaysDead` | src/app/app.component.ts:107-115 | with the start-up tables, an all-dead board stays all dead |
| `Game.ResetBoard` | src/app/app.component.ts:30-45 | the seeded board is `size × size`; exactly (0,2), (1,3), (2,1), (2,2), (2,3) are alive and every other cell is dead |
| `Game.StartGame` | src/app/app.component.ts:87-88 | starting sets the generation counter to 0 and keeps the board, size, rules and pause flag |
| `Game.Init` | src/app/app.component.ts:20-50 | after start-up the size is 50, the rules are the defaults, the board holds the glider seed, the generation is 0 and the game is not paused |
| `Game.Tick` | src/app/app.component.ts:94-118 | a paused tick changes nothing; an unpaused tick adds 1 to the generation and replaces the board with the next generation; size, rules and pause flag are kept |
| `Game.Ticks` | src/app/app.component.ts:90-97 | any number of ticks keeps the state consistent and keeps size, rules and pause flag |
| `Game.PausedTicksChangeNothing` | src/app/app.component.ts:94 | any number of ticks while paused leaves board and generation unchanged |
| `Game.RunningTicksAdvance` | src/app/app.component.ts:96-118 | while running, k ticks add exactly k to the generation and leave the board k steps on |
| `Game.Reset` | src/app/app.component.ts:123-126 | reset re-seeds the board at the current size and sets the generation to 0; rules and pause flag are kept |
| `Game.Resize` | src/app/app.component.ts:51-55 | a new size n gives an n × n glider-seeded board at generation 0; rules and pause flag are kept |
| `Game.SetPaused` | src/app/app.component.ts:94 | the pause control changes only the pause flag |
| `Game.ClickCell` | src/app/app.component.ts:79-81 | a click flips exactly one cell and leaves generation, rules, pause flag and every other cell unchanged |
| `Game.ClickCellTwice` | src/app/app.component.ts:79-81 | clicking the same cell twice restores the whole state |
| `Game.SetBirth` | src/app/app.component.ts:83-85 | editing birth entry i changes only that entry; the board and generation stay as they are until the next tick |
| `Game.SeededNeighbors` | src/app/app.component.ts:40-44 | on a board holding exactly the glider, the live neighbours of any position are the glider cells adjacent to it |
| `Game.GliderCellNext` | src/app/app.component.ts:107-115 | on a glider board under the start-up tables, a cell is alive next generation iff three glider cells are adjacent to it, or it is a glider cell with two adjacent glider cells |
| `Game.GliderFirstStep` | src/app/app.component.ts:107-115 | the first step from a freshly reset board of size >= 4 under the start-up tables kills (0,2) (1 neighbour), keeps (2,3) alive (2 neighbours), births (3,2) (3 neighbours) and leaves (3,3) dead (2 neighbours) |

## Left out

- Angular plumbing (`@Component`, the `ngOnInit` subscription wiring, the form controls) is UI glue. A size change is modelled as "set size, re-seed, restart" (`Game.Resize`). The pause control is modelled as a plain flag (`Game.SetPaused`).
- The RxJS timer (`interval`, `switchMap`, `startWith`, `unsubscribe`) and the tick period are timing behaviour with no state effect. A change of period restarts the timer but leaves board and generation alone, so the model has only the abstract tick `Game.Tick`.
- `sleep` is unused and `console.log` is output only.
- Game.ResetBoard: requires size >= 4. For smaller sizes the seed writes at lines 40-44 hit a missing row or cell and throw. The half-seeded board that a throw leaves behind is not modelled.
- Game.Reset: requires size >= 4, because it re-seeds through `Game.ResetBoard` (lines 123-126), which throws on smaller boards.
- Game.Resize: requires the new size >= 4, because the size handler re-seeds through `Game.ResetBoard` (lines 51-55). The throw on a smaller size, after the new size is already stored, is not modelled.
- Rules.SetBirthRule: requires 0 <= i < 9. The code has no bounds check, and an out-of-range index would silently extend the array.
- Game.SetBirth: requires 0 <= i < 9, for the same reason as `Rules.SetBirthRule`.
- The component has no error results, no bounds or period validation and no setter for `deathRule`; none is added here.
- The generation counter is an unbounded `nat`. A JavaScript number stays exact up to 2^53 increments, far beyond any run.
- `onClickCell` receives a cell object, not coordinates. The model addresses the cell by position on the current board. A click on a cell object from a board that a tick has already replaced is not modelled.
- Sizes are natural numbers. A non-integer or negative value typed into the size control is not modelled.
