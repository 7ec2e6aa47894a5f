# Cleansweeper engine in Dafny

This project models the game engine of Cleansweeper, a minesweeper game written in
Rust (`src/main.rs`). The board is a height-by-width grid of cells stored row-major
in one vector. Each cell is in one of six states:

- concealed safe or concealed mine;
- flagged;
- opened;
- exploded safe or exploded mine.

The moves follow the source, including its unusual button mapping:

- A left click **flags** a cell. Flagging a safe cell loses the game.
- A right click **opens** a cell. Opening a mine loses the game.
- After a cell is opened, or a mine is flagged, a depth-first **flood** runs. It
  opens every concealed safe neighbour of each opened cell that has no counted
  (unflagged) mine around it. A flagged mine no longer counts towards its neighbours'
  numbers, so flagging can extend the opened area.
- `start` lays the mines, collects the "zero cells" (concealed safe cells with no
  counted mine around them) in row-major order, and opens one of them.
- The game is won when every cell is opened or flagged.

The project has one module per concern:

| module | file | contents |
|---|---|---|
| `Cells` | `cells.dfy` | the cell states and how the rules classify them |
| `Topology` | `topology.dfy` | positions, the four directions, the 8-neighbourhood and its geometry |
| `Board` | `board.dfy` | value-level view of the grid contents: addressing, `n_bombs`, the flood's specification and loop invariant, `is_win`, the zero-cell list, the mine layout |
| `Moves` | `moves.dfy` | `open`, `flag` and `start` as relations between the board before and after, and what every move keeps |
| `Sweeper` | `sweeper.dfy` | `class Grid`: the storage is an `array` updated in place. The `Grid` methods that change or read the storage (`new`, `index`/`index_mut`, `flood`, `flag`, `open`, `start`) are proved against the relations above. `neighbors`, `n_bombs`, `is_win` and the four directions only compute values, so they are functions in `Topology` and `Board` |
| `Game` | `game.dfy` | `GameOver`, and `class App` (the `AppData` state), whose methods are the mouse-down handler, the Restart button and the launch in `main` |

The central invariant is `Game.Consistent`, kept by `Game.App.Valid`. It holds
two things:

- The status agrees with the board: an ongoing game has no exploded cell, a lost
  game has one, and a won game is all opened and flagged cells.
- Every opened cell with a zero count has no concealed safe neighbour
  (`Board.ZerosClosed`).

The flood is specified by `Board.FloodSpec`, which says three things:

- only concealed safe cells are opened;
- each opened cell is reached from the stack's initial cells through a chain of
  neighbours, each link starting at a cell with no counted mine around it;
- every initial or opened cell with a zero count is left with no concealed safe
  neighbour.

`Board.FloodUnique` proves that these conditions determine the board. So the
result of `open`, `flag` and `start` does not depend on the order in which the
stack is popped.

Randomness is replaced by parameters:

- the mine layout is a row-major `seq<bool>`, where `true` marks a mine;
- the start cell is an index `choice` into the zero-cell list.

## Model

| member | source | states |
|---|---|---|
| `Topology.Neighbors` | src/main.rs:70-89 | exactly eight slots; every present slot is a cell at king-move distance one, and it is on the board whenever `pos` is |
| `Topology.NeighborsComplete` | src/main.rs:70-89 | every on-board cell at king-move distance one from `pos` occupies one of its slots |
| `Topology.NeighborSetIsAdjacency` | src/main.rs:70-89 | for an on-board cell, the set of neighbours is exactly the on-board cells at king-move distance one (both directions) |
| `Topology.NeighborsDistinct` | src/main.rs:70-89 | no cell fills two slots, so counting slots counts cells |
| `Topology.NeighborsSymmetric` | src/main.rs:70-89 | q is a neighbour of p exactly when p is one of q, so the edge handling of `above`/`below`/`left`/`right` is consistent |
| `Topology.Above` | src/main.rs:198-207 | None exactly on the top row; otherwise the cell one row up in the same column |
| `Topology.Below` | src/main.rs:208-217 | None exactly when `pos` is on or below the last row; otherwise the cell one row down in the same column |
| `Topology.Left` | src/main.rs:218-227 | None exactly in the first column; otherwise the cell one column left in the same row |
| `Topology.Right` | src/main.rs:228-237 | None exactly when `pos` is in or right of the last column; otherwise the cell one column right in the same row |
| `Topology.NeighborCount` | src/main.rs:198-237 | the number of present slots is (rows available) x (columns available) - 1, so the directions stop at every edge and never wrap |
| `Topology.CornerHasThreeNeighbors` | src/main.rs:198-237 | the top-left and bottom-right corners of a board at least 2 x 2 have three neighbours |
| `Topology.InteriorHasEightNeighbors` | src/main.rs:198-237 | a cell off every edge has all eight neighbours |
| `Board.Idx` | src/main.rs:44-57 | the address `row * width + col` of an on-board cell lies inside the vector |
| `Board.IdxInjective` | src/main.rs:44-57 | two on-board cells with the same address are the same cell |
| `Board.CellUpdate` | src/main.rs:52-57 | writing through `index_mut` changes the written cell and no other cell |
| `Board.NBombs` | src/main.rs:91-100 | a neighbour count is at most eight |
| `Board.NBombsCountsMineNeighbors` | src/main.rs:90-100 | `n_bombs` equals the number of distinct neighbours that are SecretBomb or ExplodedBomb; flagged mines are not counted |
| `Board.NoMineNextToZero` | src/main.rs:113-127 | a cell with count zero has no SecretBomb or ExplodedBomb neighbour (why the flood's mine arm is unreachable) |
| `Board.NBombsAwayFromUpdate` | src/main.rs:137-142 | writing a cell that is not a neighbour of `pos` leaves the count of `pos` unchanged |
| `Board.OpeningKeepsCounts` | src/main.rs:113-129 | opening concealed safe cells changes no cell's count |
| `Board.OpenOneSafe` | src/main.rs:117-120 | opening one concealed safe cell lowers the number of concealed safe cells by one (the flood's termination measure) |
| `Board.OpenOneStep` | src/main.rs:117-120 | opening a concealed safe neighbour and pushing it keeps an exact record of the cells opened so far |
| `Board.Seeds` | src/main.rs:103-112 | the initial stack is opened on-board cells; it holds `pos` when `pos` is opened, and every opened neighbour of `pos` when `pos` is flagged |
| `Board.ClosedStaysClosed` | src/main.rs:113-129 | opening safe cells keeps a cell with no concealed safe neighbour in that state |
| `Board.FloodStarts` | src/main.rs:103-113 | at loop entry the flood invariant holds with every seed on the stack |
| `Board.FloodTop` | src/main.rs:113-114 | the cell on top of the stack is an opened on-board cell (the `assert_eq!`) |
| `Board.FloodPopsCounted` | src/main.rs:113-115 | popping a cell with a neighbouring mine keeps the flood invariant |
| `Board.FloodPopsZero` | src/main.rs:113-128 | popping a zero-count cell and opening and pushing its concealed safe neighbours keeps the flood invariant |
| `Board.FloodBegins` | src/main.rs:103-113 | at loop entry the loop state (invariant and empty trail) holds with every seed on the stack |
| `Board.FloodStep` | src/main.rs:113-128 | one pop, with or without opening the neighbours, keeps the loop state; the trail grows by exactly the pushed cells, each a child of the popped cell |
| `Board.FloodEnds` | src/main.rs:113-129 | an empty stack means the flood met `FloodSpec`: only safe cells were opened, every changed cell lies on a trail from the seeds through zero-count cells, and every seed and opened cell has no concealed safe neighbour when its count is zero |
| `Board.TrailStarts` | src/main.rs:103-113 | before the loop the trail is empty and every stack entry is a seed |
| `Board.TrailPopsCounted` | src/main.rs:113-115 | popping a cell with a neighbouring mine keeps the trail and leaves the board alone |
| `Board.TrailPopsZero` | src/main.rs:115-121 | opening and pushing concealed safe neighbours of a popped zero-count cell extends the trail by them, each with the popped cell as parent, and the trail still accounts for every changed cell |
| `Board.TrailExtends` | src/main.rs:115-121 | appending concealed safe neighbours of a zero-count seed or trail cell keeps a valid trail |
| `Board.EdgesExtend` | src/main.rs:115-121 | each appended cell is a concealed safe neighbour of its parent, which has count zero |
| `Board.RootedExtends` | src/main.rs:113-121 | each appended cell's parent is a seed or an earlier trail cell |
| `Board.TrailParentClosed` | src/main.rs:113-128 | under any result meeting the flood's closure conditions, the parent of a trail cell is closed once the earlier trail cells are opened |
| `Board.ClosedNeighborOpened` | src/main.rs:115-121 | a concealed safe neighbour of a closed zero-count cell is opened |
| `Board.TrailOpensIn` | src/main.rs:102-129 | every cell on a trail from the seeds is opened in any result meeting the flood's closure conditions |
| `Board.FloodOpensShared` | src/main.rs:102-129 | a cell one flood opened is opened by every flood from the same board and seeds |
| `Board.FloodUnique` | src/main.rs:102-129 | two results meeting `FloodSpec` from the same board and seeds are equal: the flood's result does not depend on the order it pops the stack |
| `Board.FloodClosesZeros` | src/main.rs:102-129 | a flood seeded with every opened cell that might have a concealed safe neighbour leaves every opened zero-count cell without one |
| `Board.AllPositionsRowMajor` | src/main.rs:131-135 | `is_win`'s iteration visits every cell exactly once, entry k being the cell at address k |
| `Board.IsWin` | src/main.rs:131-135 | the board is won exactly when every on-board cell is Opened or Flagged |
| `Board.IsWinIff` | src/main.rs:131-135 | the board is won exactly when every cell is Opened or Flagged |
| `Board.ExplodedIsNotWin` | src/main.rs:131-135 | a board with an exploded cell is never won |
| `Board.RowZerosIff` | src/main.rs:183-189 | the cells collected from one row prefix are exactly the cells of that prefix that pass the test |
| `Board.RowsZerosByRow` | src/main.rs:182-190 | a cell is collected by the outer loop over the first rows exactly when its row is one of them and the inner loop over that row collects it |
| `Board.ZeroPositionsIff` | src/main.rs:182-190 | a cell is in `zero_positions` exactly when it is an on-board concealed safe cell with no counted mine around it |
| `Board.LayoutRoundTrip` | src/main.rs:170-180 | the mines laid by `start` are exactly the given layout, and every laid cell is concealed |
| `Moves.OpenOutcome` | src/main.rs:152-165 | `open`'s table by the state of the cell; an outcome keeps the board size and reports an explosion exactly when the cell was a concealed mine |
| `Moves.FlagOutcome` | src/main.rs:137-150 | `flag`'s table by the state of the cell; an outcome keeps the board size and reports an explosion exactly when the cell was concealed safe |
| `Moves.StartCell` | src/main.rs:191-194 | the cell `start` opens is on the board and is a zero cell |
| `Moves.OpenKeepsMines` | src/main.rs:152-165 | `open` never moves a mine |
| `Moves.FlagKeepsMines` | src/main.rs:137-150 | `flag` never moves a mine |
| `Moves.OpenReportsExplosion` | src/main.rs:152-165 | on a board with no exploded cell, `open` returns true exactly when it leaves an exploded cell |
| `Moves.FlagReportsExplosion` | src/main.rs:137-150 | on a board with no exploded cell, `flag` returns true exactly when it leaves an exploded cell |
| `Moves.ResolvedCellIgnoresMoves` | src/main.rs:137-165 | `open` and `flag` on an opened, flagged or exploded cell change nothing and report no explosion |
| `Moves.OpenKeepsZerosClosed` | src/main.rs:152-165 | `open` preserves "every opened zero-count cell has no concealed safe neighbour" |
| `Moves.FlagKeepsZerosClosed` | src/main.rs:137-150 | `flag` preserves the same, although flagging a mine lowers its neighbours' counts |
| `Moves.StartIsFair` | src/main.rs:167-197 | after `start` the chosen cell is opened, nothing exploded, the mines are the given layout, and zero cells have no concealed safe neighbour |
| `Moves.OpenDeterministic` | src/main.rs:152-165 | `open` has one outcome: two outcomes from the same board and cell are the same board and the same report |
| `Moves.FlagDeterministic` | src/main.rs:137-150 | `flag` has one outcome: two outcomes from the same board and cell are the same board and the same report |
| `Moves.StartDeterministic` | src/main.rs:167-197 | given the layout and the chosen zero cell, `start` has one outcome |
| `Moves.OpenStopsAtCountedCell` | src/main.rs:113-128 | on the one-row board safe, safe, mine, safe, safe, opening the left end opens only its neighbour, which counts the mine; an outcome that also opens the cells beyond the mine is excluded |
| `Moves.FloodStopsAtCountedCell` | src/main.rs:113-128 | the flood of that example opens exactly the neighbour of the left end |
| `Sweeper.Grid.Get` | src/main.rs:44-50 | reads the cell of `pos` in the row-major view |
| `Sweeper.Grid.Set` | src/main.rs:52-57 | the new contents are the old ones with exactly the cell at `pos` replaced |
| `Sweeper.Grid.constructor` | src/main.rs:60-69 | a fresh grid of the given size whose contents are the outcome of `start`, the one board `Moves.StartDeterministic` allows |
| `Sweeper.Grid.Flood` | src/main.rs:102-130 | the array after the stack flood meets `FloodSpec` from the seeds of `pos`: every change is the opening of a concealed safe cell reached from the seeds through zero-count cells, and the result is the one board `Board.FloodUnique` allows |
| `Sweeper.Grid.OpenAround` | src/main.rs:116-127 | opens exactly the concealed safe neighbours of a zero-count cell and returns them as pushed, each a neighbour of that cell; afterwards no neighbour is concealed safe |
| `Sweeper.Grid.StaysRevealed` | src/main.rs:116-127 | neighbours already visited stay not concealed-safe while the loop opens the next one |
| `Sweeper.Grid.OpenNeighbor` | src/main.rs:117-126 | opens a neighbour exactly when it was concealed safe, and reports whether it did |
| `Sweeper.Grid.Open` | src/main.rs:152-165 | the array and result follow `open`'s table: a mine explodes and returns true; a safe cell opens and floods; anything else is unchanged. The outcome is unique (`Moves.OpenDeterministic`) |
| `Sweeper.Grid.Flag` | src/main.rs:137-150 | the array and result follow `flag`'s table: a mine is flagged and floods; a safe cell explodes and returns true; anything else is unchanged. The outcome is unique (`Moves.FlagDeterministic`) |
| `Sweeper.Grid.Start` | src/main.rs:167-197 | the array is the layout with the chosen zero cell opened and flooded, the one board `Moves.StartDeterministic` allows, and that opening does not explode |
| `Sweeper.Grid.LayMines` | src/main.rs:170-180 | afterwards the array is the given layout, cell by cell |
| `Sweeper.Grid.CollectZeros` | src/main.rs:181-190 | returns the board's zero cells in row-major order |
| `Sweeper.Grid.CollectRowZeros` | src/main.rs:183-189 | returns one row's zero cells, left to right |
| `Game.StatusAfterMove` | src/main.rs:276-302 | the status is Win exactly when the board is won, Loss exactly when the move exploded and the board is not won, and Ongoing otherwise |
| `Game.MoveDeterministic` | src/main.rs:272-302 | a click on an ongoing game has one outcome: the same board and the same report |
| `Game.MoveDecidesStatus` | src/main.rs:276-303 | on an ongoing game a click reports an explosion exactly when the board has an exploded cell; the status becomes Loss exactly then, and Win exactly when nothing exploded and the board is won |
| `Game.MoveKeepsConsistent` | src/main.rs:276-303 | after a click on an ongoing game the new status is consistent with the new board |
| `Game.StartIsOngoing` | src/main.rs:418-423 | a freshly started board is consistent with the status Ongoing |
| `Game.App.constructor` | src/main.rs:479-488 | the launched application holds a fresh grid that was started twice, as `main` does, and an ongoing, consistent game; the board is the one outcome of the second `start` |
| `Game.App.MouseDown` | src/main.rs:272-307 | once the game is over a click changes nothing; otherwise the board is the one outcome of the click (`Game.MoveDeterministic`), the status is what the board dictates, and consistency is kept |
| `Game.App.Restart` | src/main.rs:418-423 | the game is ongoing again on a newly started board, the one outcome of `start`, consistent with its status |

## Left out

- Random numbers (`thread_rng`, the `f64` comparison against `fraction`, `gen_range`) are replaced by the `mines` layout and the `choice` index, both given by the caller.
- The `fraction` field and `main`'s two assertions that it lies in [0, 1] are left out: they are floating point, and the layout parameter makes them unnecessary.
- `start` panics when the zero-cell list is empty. The model requires `choice` to index that list instead, so the panicking case is excluded rather than modelled.
- `Arc` copy-on-write sharing of the storage and druid's `Data` comparison are left out. The model's array is never shared.
- Drawing is left out: `paint`, `layout`, `lifecycle`, `update`, the labels and fonts, and the `WindowConnected` repaint.
- The pixel-to-cell mapping `grid_pos` is not modelled. The handler receives its result: `None` off the board, or an on-board position.
- Mouse buttons other than left and right are merged into one `OtherButton`. Events other than mouse-down are not modelled.
- Command-line parsing (`clap`) and the window launch in `main` are left out. `Game.App.constructor` keeps only the grid construction, the second `start` and the initial status.
- `usize` overflow of `height * width` and of `row * width + col` is not modelled. Integers are unbounded, and grids of at least one row and one column are assumed, as the unsigned `height - 1` and `width - 1` in `below` and `right` need.
- Sweeper.Grid.Flood, Sweeper.Grid.Open and Sweeper.Grid.Flag require that no cell is ExplodedSafe, which the source does not check. This is stronger than strictly needed to rule out the `unreachable!()` arms of `flood`, and it holds on every board a player reaches while the game is ongoing.
