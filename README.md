# Minesweeper board logic

A Dafny model of the board logic of a Bevy minesweeper. Rendering and ECS plumbing are not part of it.

- `grid.dfy`, module `Grid`, models `src/grid.rs`:
  - the `Position`, `CellKind` and `CellState` components;
  - the cell layout that `setup_grid` spawns;
  - the unclipped Moore neighbourhood `calc_pos_neighbors`;
  - `drop_mines` (40 mines);
  - `set_mines_neighbors_count`, counting and kind update only;
  - the label colour table `get_color_from_neighbor_mines_count`.
- `app.dfy`, module `App`, models `src/main.rs`. This is an older variant that tags cells with separate `Mine` and `MineNeighbor` components. It covers:
  - its own copy of `calc_pos_neighbors`;
  - `drop_mines` (30 mines);
  - the tag variant of `set_mines_neighbors_count`;
  - the bounds test and the direct pushes of `flood_fill`;
  - the loop in `display_clicked_cell` that turns uncovered empty cells antique white.

`src/main.rs` imports `GridOptions` and `GridPlugin`, and `src/grid.rs` does not define them. So the two files do not build together as they stand, and each is modelled as written. `App` reuses `Grid`'s `Position` and `Color`. It also reuses `Grid`'s counting loop, because the loop at src/main.rs:213-222 is the same code as src/grid.rs:151-159.

How the state is represented:
- The ECS world holds one entity per cell. `setup_grid` spawns cells in order, so it is modelled as a method that returns the sequence of spawned cells.
- The systems that rewrite components in place (`drop_mines`, `set_mines_neighbors_count`, the recolouring loop) are methods over an `array` of cell records in query order. Each has `modifies` on that array. Each is proved equal to a specification function of the old contents (`WithMines`, `WithNeighborCounts`, `WithMineTags`, `WithMineNeighborTags`, `Recoloured`). The properties are then proved as lemmas about those functions.
- `choose_multiple(rng, amount)` returns `min(amount, n)` distinct cells out of `n`. The model takes these as a caller-supplied sequence `chosen` of distinct indices (`ValidChoice`). Which cells the RNG picks is not modelled.

Where the model follows the code rather than the usual minesweeper rules:
- The neighbour list is not clipped to the board. An edge or corner cell gets positions off the grid (see `Grid.CornerNeighborsLeaveGrid`). These positions can never match a mine, so they do not change a count.
- The mine counts are the constants 40 (grid.rs) and 30 (main.rs). `choose_multiple` caps them at the number of cells. Nothing rejects a board with too few cells.
- No mine placement avoids the first clicked cell.
- These files have no flags, win or loss logic, and no iterative flood fill. `CellState::Flagged` and `CellState::Uncovered` are declared but never assigned. None of this is invented here.

## Model

| member | source | states |
|---|---|---|
| `Grid.DefaultGridParams` | src/grid.rs:11-35 | The default grid has 20 rows of 20 cells. |
| `Grid.CalcPosNeighbors` | src/grid.rs:200-235 | Returns exactly 8 positions, all different. A position is in the list if and only if it differs from `pos` and is within 1 of it in both x and y. |
| `Grid.NeighborhoodSymmetric` | src/grid.rs:200-235 | Neighbourhood is symmetric: q is listed for p if and only if p is listed for q. |
| `Grid.CornerNeighborsLeaveGrid` | src/grid.rs:200-235 | The list is not clipped. On a grid of at least 2×2, only (1,0), (1,1) and (0,1) of the corner (0,0)'s eight listed neighbours are on the grid, and (-1,-1) is listed too. |
| `Grid.RowCellsProperties` | src/grid.rs:62-90 | One pass of the inner loop spawns `cols` cells. The cell at index i is at (i, row), Empty and Covered. |
| `Grid.LayoutSize` | src/grid.rs:61-92 | The nested loops spawn rows × cols cells. |
| `Grid.LayoutCells` | src/grid.rs:61-92 | Every spawned cell is Empty and Covered, and its position is on the grid. |
| `Grid.LayoutCovers` | src/grid.rs:61-92 | Every position (x, y) with x < cells per row and y < row count is spawned. |
| `Grid.LayoutDistinct` | src/grid.rs:61-92 | No position is spawned twice. |
| `Grid.LayoutProperties` | src/grid.rs:61-92 | The nested loops spawn rows×cols cells, all Empty and Covered. Their positions are exactly the in-grid positions (x = col < cells per row, y = row < row count), each once. |
| `Grid.SetupGrid` | src/grid.rs:61-92 | The nested `for row`/`for col` loops produce the layout above, with its size, kinds, states, coverage and distinct positions. |
| `Grid.WithMinesChangesOnlyChosen` | src/grid.rs:117-126 | After placement, the mine cells are the old mine cells plus the chosen ones. Positions and states are kept, and unchosen cells are unchanged. |
| `Grid.DropMinesCount` | src/grid.rs:117-126 | On a mine-free board, `drop_mines` leaves exactly min(40, #cells) mines. |
| `Grid.DropMines` | src/grid.rs:117-126 | The in-place loop over the chosen cells sets their kind to Mine and leaves the array equal to `WithMines` of the old contents. |
| `Grid.OccurrencesOfDistinct` | src/grid.rs:153-158 | In a duplicate-free list, a position matches once if it is present and never otherwise. |
| `Grid.PairCountIsIntersection` | src/grid.rs:151-159 | If both lists are duplicate-free, the number of equal (mine, neighbour) pairs equals the size of the intersection of the two sets. |
| `Grid.CountNeighborMines` | src/grid.rs:151-159 | The nested counting loop computes the pair count. If both lists are duplicate-free, that count is the size of the intersection, so it is at most the number of neighbours. |
| `Grid.MinePositionsProperties` | src/grid.rs:135-144 | The collected mine positions are exactly the positions of Mine cells. They are duplicate-free when cell positions are. |
| `Grid.NeighborMineCount` | src/grid.rs:151-163 | A cell's count is the number of mines adjacent to it, at most 8. |
| `Grid.NeighborMineCountOnGrid` | src/grid.rs:151-163 | When all mines are on the grid, the count equals the number of adjacent on-grid mines: the off-grid positions in the neighbour list never match. |
| `Grid.SetMinesNeighborsCount` | src/grid.rs:135-164 | The system leaves the array equal to `WithNeighborCounts` of the old contents. |
| `Grid.WithNeighborCountsKeepsMines` | src/grid.rs:146-164 | Counting neither creates nor removes a mine, so the mine cells and mine positions stay the same. |
| `Grid.WithNeighborCountsKinds` | src/grid.rs:146-164 | Mine and MineNeighbor cells are unchanged. An Empty cell becomes `MineNeighbor{n}` if and only if its count n > 0, and stays Empty if and only if n = 0. Positions and states are kept. |
| `Grid.WithNeighborCountsIdempotent` | src/grid.rs:146-164 | Running the count a second time gives the same board. |
| `Grid.WithNeighborCountsCorrect` | src/grid.rs:151-164 | With distinct positions, a counted cell stays Empty if and only if no mine is adjacent. Otherwise it holds the number of adjacent mines, which is in 1..8, so the u8 counter cannot overflow. |
| `Grid.GeneratedBoard` | src/grid.rs:61-164 | setup_grid, then drop_mines, then the count give min(40, #cells) mines with every cell Covered. Every non-mine cell is Empty if and only if it has no adjacent mine; otherwise it holds the number of adjacent mines (1..8). |
| `Grid.GetColorFromNeighborMinesCount` | src/grid.rs:189-198 | The function is total. 1, 2, 3, 4 and 5 map to dark green, sea green, yellow green, yellow and orange, each colour for that count only. Every other count maps to red. |
| `App.CalcPosNeighbors` | src/main.rs:231-266 | Returns the same 8 positions, in the same order, as `Grid.CalcPosNeighbors`. |
| `App.DropMinesTagsExactly` | src/main.rs:196-205 | The tagged cells are the old ones plus the chosen ones. On an untagged board that is exactly min(30, #cells) cells. Nothing but the Mine tag changes, and unchosen cells are untouched. |
| `App.DropMines` | src/main.rs:196-205 | The loop inserts the Mine tag on every chosen cell and leaves the array equal to `WithMineTags` of the old contents. |
| `App.MinePositionsProperties` | src/main.rs:210-215 | The `mines_pos` query yields exactly the positions of Mine-tagged cells. They are duplicate-free when cell positions are. |
| `App.SetMinesNeighborsCount` | src/main.rs:207-229 | The system leaves the array equal to `WithMineNeighborTags` of the old contents. |
| `App.WithMineNeighborTagsChanges` | src/main.rs:209-228 | Only the MineNeighbor component changes, and Mine cells are untouched. A non-mine cell gets `MineNeighbor{n}` when n > 0 and is unchanged when n = 0. |
| `App.WithMineNeighborTagsIdempotent` | src/main.rs:207-229 | Running the tag variant twice gives the same components as running it once. |
| `App.WithMineNeighborTagsCorrect` | src/main.rs:209-228 | Take distinct positions and untagged cells. A mine cell never gets a count. A non-mine cell is tagged if and only if some mine is adjacent, with the number of adjacent mines (1..8). |
| `App.InBoundsIsDefaultGrid` | src/main.rs:136-139 | The literal test 0 ≤ x ≤ 19, 0 ≤ y ≤ 19 accepts exactly the positions of the default 20×20 grid. |
| `App.DescentRevisits` | src/main.rs:134-148 | Every in-bounds position has an in-bounds neighbour to descend into. Each such neighbour lists the starting position as a descent target again, so the unmarked recursion revisits it. |
| `App.CountAtProperties` | src/main.rs:129-132 | The number of wanted cells at p is positive if and only if such a cell exists, and it is at most 1 when positions are distinct. |
| `App.DirectPushesProperties` | src/main.rs:129-132 | The direct pushes contain only the clicked position. It is present if and only if a non-mine cell (empty or mine-neighbour) stands there, so a mine cell is never pushed. With distinct positions it is pushed at most once. |
| `App.NoDescentTargetsExactly` | src/main.rs:134-148 | The clicked position has no neighbour passing the 0..19 bounds test if and only if one of its coordinates lies outside -1..20. |
| `App.FloodFillDirect` | src/main.rs:126-186 | The two loops push the clicked position once per empty cell there and once per mine-neighbour cell there. It appears if and only if a non-mine cell stands there, and at most once when positions are distinct. |
| `App.RecolourUncovered` | src/main.rs:103-110 | The labelled nested loop turns antique white exactly the empty cells whose position is in the uncover list. Every other cell stays as it was. |
| `App.ClickRecoloursOnlyClickedEmptyCell` | src/main.rs:93-110 | Revealing the direct flood_fill result recolours only an empty cell at the clicked position. A mine-neighbour cell pushed by flood_fill is outside the loop's query and keeps its colour. |
| `App.ClickRecoloursNothingOnDefaultGrid` | src/main.rs:93-148 | On a board whose positions all lie in 0..19, in every case where flood_fill returns (`App.DescentSkipped`: no empty cell, or no in-bounds neighbour of the click), no empty cell stands at the click and revealing recolours nothing. |

## Left out

- The recursive descent of `flood_fill` (src/main.rs:141-147) is not modelled. It recurses on every in-bounds neighbour without marking visited cells, so it never terminates while an empty cell exists and the clicked position has a neighbour with both coordinates in 0..19. `App.DescentRevisits` states the cycle. `App.FloodFillDirect` covers only the pushes the function makes itself. It equals the whole result only when the descent is never entered, which `App.DescentSkipped` names and `App.NoDescentTargetsExactly` characterises.
- App.FloodFillDirect: does not include the positions gathered by the descent, for the reason above.
- App.ClickRecoloursOnlyClickedEmptyCell: speaks of the direct pushes, which are flood_fill's whole result only under `App.DescentSkipped`. On the 0..19 board an empty cell at the click always enters the descent, so its recolouring case is never reached there (`App.ClickRecoloursNothingOnDefaultGrid`); it describes what the reveal loop does with a list of that form.
- Bevy ECS plumbing is not modelled: `Commands`, `Query` filters other than as predicates, plugins, the `App` schedule in `main`, entity and child spawning, and `Name` components. Deferred command application is left out. Its only effect would be on the `mines_pos` query, which the model reads once before the loop.
- Rendering is not modelled: sprites, float `Transform` layout, the grid background, text labels and font loading. `get_color_from_neighbor_mines_count` is modelled, but not the label that uses it.
- `handle_click` is not modelled. It is float cursor-to-world arithmetic with `floor` and `abs`.
- `setup_camera` and the `println!` calls are not modelled.
- The RNG of `choose_multiple` is replaced by a given sequence of distinct indices. Uniformity is not modelled.
- `display_clicked_cell` iterates over a batch of click events. The model covers one event's recolouring loop, with the uncover list as a parameter.
- Integer widths are not modelled. Positions are `i32` in the source and `int` here, so there is no overflow at the `i32` extremes. Grid dimensions are `u32` and the `as i32` casts are not modelled. Counts are `u8` in the source and `nat` here. `Grid.WithNeighborCountsCorrect` and `App.WithMineNeighborTagsCorrect` prove a count is at most 8 when cell positions are distinct, as `setup_grid` makes them. Boards with repeated positions, where the `u8` could overflow, are not modelled.
- Query iteration order is unspecified in Bevy. The model uses array order. The resulting components do not depend on it, but the order in which `flood_fill` pushes does.
- Bevy `Color` values are modelled as an enumeration of the named constants the modelled logic assigns (the label colours and `ANTIQUE_WHITE`). The background `DARK_GRAY` and the initial sprite `WHITE` belong to rendering, which is left out.
