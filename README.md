# CAPyLE cellular-automaton engine in Dafny

This project models the engine of CAPyLE, a Python teaching tool for
cellular automata:

- **Normalising a neighbourhood mask** (`Neighbourhood`). A Python list or a numpy array is checked. It is then cut down or padded to the 3x3 mask of a 2-D automaton, or checked as the odd-length row of a 1-D automaton.
- **The run configuration** (`CAConfig`): the defaults `fill_in_defaults` supplies, the resizing rules of `set_grid_dims`, and `set_initial_grid`.
- **The padded-grid engine** (`GridShared`, `Grid2D`, `Grid1D`). Each grid keeps a buffer one cell wider than the visible grid on each side.
  - `refresh_wrap` rewrites that border, either as a torus or with a fixed value.
  - A step builds the weighted neighbour views and the per-state neighbour counts. It hands them to the user's transition rule, which is a function parameter. It writes the result back: the whole grid in 2-D, the next row of the space-time diagram in 1-D.
  - `_runca` records a copy of the grid after every generation.
  - `randomise1d` and `randomise2d` scatter states over a grid. The random choice of cells is a parameter. Whenever the quotas fit, it must be as many distinct in-range indices as the quotas ask for, which is what `np.random.choice(..., replace=False)` delivers.
- **The sizing helpers of `capyle/utils.py`** (`Utils`): clipping, generation counts, `scale_array`, `int_to_binary`, `title_to_filename` and `extract_states`.
- **Five small rules and state machines**:
  - Wolfram's elementary 1-D rule (`Wolfram`);
  - the Conway life rule of a 2-D description (`Life`);
  - the fuel and burning state machine of a forest cell (`Cell`);
  - the frame controller of the playback bar (`Playback`);
  - the placeholder substitution that fills a new description from a template (`Template`).

How the model is built:

- Objects whose fields the source updates in place are classes: the configuration, both grids, the cell and the playback controller.
- Numpy buffers are `array2<int>` fields. Their methods are proved against specification functions on whole-buffer values (`Snapshot`).
- Pure logic is written as functions, with lemmas about them.
- Python's exceptions are the `Err` values of a `Result`.
- The engine follows the code as written, including the three defects under "## Findings". The intended behaviour of each is a separate specification with its own lemmas.

## Model

| member | source | states |
|---|---|---|
| `Neighbourhood.TypeNeighbourhood` | capyle/ca/neighbourhood.py:140-151 | lists and ndarrays pass through unchanged; any other object is rejected with the type error |
| `Neighbourhood.HasCenterMeansMiddleCell` | capyle/ca/neighbourhood.py:83-96 | `_has_center` holds exactly when the mask is of rank 1 or 2 and every axis has a middle cell, one with as many cells before it as after it; any other rank has no centre |
| `Neighbourhood.StripRows` | capyle/ca/neighbourhood.py:109-110 | `nhood[1:-1]` keeps the width, has two rows fewer, and its row i is row i+1 of the input |
| `Neighbourhood.StripCols` | capyle/ca/neighbourhood.py:111-112 | `nhood[:, 1:-1]` keeps the row count, is two columns narrower, and cell (i, j) is cell (i, j+1) of the input |
| `Neighbourhood.ReduceTo3x3` | capyle/ca/neighbourhood.py:98-113 | a success is a well-formed matrix: exactly 3x3 in full mode, at most 3 on each axis otherwise; a rank-1 input fails to unpack its shape; in full mode a matrix already at most 3x3 but not 3x3 recurses without end |
| `Neighbourhood.IncreaseTo3x3` | capyle/ca/neighbourhood.py:115-138 | every success is a well-formed 3x3 matrix |
| `Neighbourhood.CompareWith3x3` | capyle/ca/neighbourhood.py:53-56 | Python's tuple comparison of the shape with (3, 3), written out for vectors and matrices in both directions, as an if-and-only-if |
| `Neighbourhood.Prepare2D` | capyle/ca/neighbourhood.py:23-58 | other objects are rejected; a rank other than 1 or 2 is an invalid shape; an empty mask or one with a zero-length axis becomes the self-only mask; an even axis is rejected before any resizing; a 3x3 mask is returned unchanged; every success is a 3x3 matrix |
| `Neighbourhood.Prepare1D` | capyle/ca/neighbourhood.py:60-81 | an empty mask becomes [0, 1, 0]; a single weight x becomes [0, x, 0]; a 2-D mask is an invalid shape; an even length has no centre; an odd row of length 3 or more is returned unchanged; every success is an odd row of length at least 3 |
| `Neighbourhood.New` | capyle/ca/neighbourhood.py:6-16 | dims other than 1 or 2 are rejected; a 2-D success is 3x3; a 1-D success is an odd row of length at least 3 |
| `Neighbourhood.Prepare2DIdempotent` | capyle/ca/neighbourhood.py:23-58 | normalising a normalised mask gives it back: normalising twice equals normalising once |
| `Neighbourhood.ReduceCentral` | capyle/ca/neighbourhood.py:98-113 | full reduction of an odd x odd matrix with both axes at least 3 succeeds and yields exactly its central 3x3 block |
| `Neighbourhood.CentralBlock` | capyle/ca/neighbourhood.py:53-55 | the 2-D normalisation of such a matrix is its central 3x3 block |
| `Neighbourhood.ReduceRow` | capyle/ca/neighbourhood.py:98-113 | partial reduction cuts an odd 1xk row to its middle three cells |
| `Neighbourhood.RowBecomesMiddleRow` | capyle/ca/neighbourhood.py:124-130 | a length-3 vector and a 1x3 row both become the middle row of a 3x3 mask of zeros |
| `Neighbourhood.LongRowBecomesMiddleRow` | capyle/ca/neighbourhood.py:115-130 | a 1xk row with odd k greater than 3 becomes the middle row made of its middle three cells |
| `Neighbourhood.ColumnBecomesMiddleColumn` | capyle/ca/neighbourhood.py:132-135 | a 3x1 column becomes the middle column of a 3x3 mask of zeros |
| `Neighbourhood.SingleCellBecomesZeros` | capyle/ca/neighbourhood.py:137-138 | shapes (1,) and (1, 1) give the all-zero 3x3 mask: the centre is not kept |
| `Neighbourhood.TallColumnNeverEnds` | capyle/ca/neighbourhood.py:104-113 | a (k, 1) column with odd k greater than 3 ends in endless recursion, never in a mask |
| `Neighbourhood.ReduceColumnNeverEnds` | capyle/ca/neighbourhood.py:104-113 | full reduction of any odd (k, 1) column with k at least 3 never reaches 3x3 |
| `Neighbourhood.LongVectorFailsUnpacking` | capyle/ca/neighbourhood.py:53-55 | an odd vector of length 5 or more counts as larger than (3, 3) and fails when the reduction unpacks its shape |
| `CAConfig.DefaultDims` | capyle/ca/caconfig.py:35-39 | a 2-D configuration defaults to 200 x 200, any other to the size the generation count needs |
| `CAConfig.DefaultSizes` | capyle/ca/caconfig.py:28-39 | after the first three default steps the grid size and the generation count are set |
| `CAConfig.Defaults` | capyle/ca/caconfig.py:25-52 | dimensions, states and wrap are untouched; rule number, generation count and grid size are always set |
| `CAConfig.DefaultsKeepSetFields` | capyle/ca/caconfig.py:25-52 | every field that was set keeps its value; an unset rule number becomes 0, an unset generation count 100, an unset grid size the default size |
| `CAConfig.DefaultsComplete` | capyle/ca/caconfig.py:41-52 | when defaulting succeeds, an unset initial grid becomes a grid of the configured size filled with the first state (0 without states); an unset mask becomes all ones, 3x3 in 2-D and [1, 1, 1] in 1-D |
| `CAConfig.DefaultsIdempotent` | capyle/ca/caconfig.py:25-52 | filling in the defaults twice is the same as doing it once |
| `CAConfig.ClampAxis` | capyle/ca/caconfig.py:68-69 | an axis of 2 or less becomes 3, a larger one is kept; the result is at least 3 |
| `CAConfig.Config.constructor` | capyle/ca/caconfig.py:10-22 | every field unset except the dimensions; wrapping on |
| `CAConfig.Config.FillInSizes` | capyle/ca/caconfig.py:28-39 | the new fields are the size defaults applied to the old ones |
| `CAConfig.Config.FillInDefaults` | capyle/ca/caconfig.py:25-52 | the new fields are the defaults applied to the old ones; the call fails exactly when the default initial grid cannot be built |
| `CAConfig.Config.Neighbourhood` | capyle/ca/caconfig.py:58-61 | an unset mask is stored as [0, 1, 0]; the result is the mask normalised for the configuration's dimensions; no other field changes |
| `CAConfig.Config.SetGridDims` | capyle/ca/caconfig.py:66-79 | explicit dimensions are clamped axis by axis; otherwise the generation count is raised to at least 1, stored, and decides the size; an existing initial grid is rescaled so that its overlap with the old grid is kept; a missing one stays missing; no other field changes |
| `CAConfig.Config.SetInitialGrid` | capyle/ca/caconfig.py:81-85 | a grid of several rows replaces the initial grid; a one-row grid replaces only row 0, copied when the widths agree and broadcast when it is a single value; a shape mismatch or a missing grid fails and changes nothing |
| `CAConfig.FromMatrix` | capyle/ca/caconfig.py:77 | a fresh array of the given shape holding exactly the matrix |
| `GridShared.WriteVisible` | capyle/ca/grid.py:21-35 | a grid of several rows is written over the visible block, its overlap copied; a one-row grid writes only the first visible row; cells outside what is written are untouched; a grid without rows fails and changes nothing |
| `GridShared.CopyRow` | capyle/ca/grid.py:30 | one row of the source lands in the target row, and every other cell keeps its value |
| `GridShared.SetNeighbourhood` | capyle/ca/grid.py:38-48 | the mask is the configuration's mask normalised for its dimensions |
| `GridShared.Quota` | capyle/ca/grid2d.py:180-182 | a quota lies between 0 and the cell count; a proportion of 0 or less gives 0, one of 1 or more gives every cell |
| `GridShared.Assign` | capyle/ca/grid2d.py:190 | listed positions take the state and the others keep their value |
| `GridShared.Scatter` | capyle/ca/grid2d.py:186-191 | the loop with its running `used` count computes the scatter specification with the slice as written, `picks[used:quota]` |
| `GridShared.Quotas` | capyle/ca/grid2d.py:179-182 | one quota per entry, each at most the cell count |
| `GridShared.ScatterSpec` | capyle/ca/grid2d.py:185-191 | the scatter specification, as written or corrected, keeps the length of the flattened grid |
| `GridShared.QuotaBelowShare` | capyle/ca/grid2d.py:181-182 | truncation only rounds down: a quota is at most its clipped share of the cells |
| `GridShared.QuotasFit` | capyle/ca/grid2d.py:183-184 | proportions whose clipped values add up to at most 1 never ask for more cells than exist, so the random choice cannot fail |
| `GridShared.EntrySliceWithin` | capyle/ca/grid2d.py:189 | every cell an entry writes is a pick from that entry's own run of picks |
| `GridShared.ScatterLeavesOthers` | capyle/ca/grid2d.py:185-191 | a cell that no entry's picks reach keeps the background, as written and corrected |
| `GridShared.LastSliceWritten` | capyle/ca/grid2d.py:189-190 | the corrected slice of an entry is its run of picks, all set to its state |
| `GridShared.FirstStatePlaced` | capyle/ca/grid2d.py:189 | as written, the first state still lands on exactly its quota of picked cells |
| `GridShared.CorrectedPlacesEveryQuota` | capyle/ca/grid2d.py:186-191 | with the corrected slice every entry's run of picks ends in that entry's state |
| `GridShared.ScatterAsWrittenDropsState` | capyle/ca/grid2d.py:189 | a concrete input on which the slice as written leaves the second state out and the corrected slice places it |
| `GridShared.Iterate` | capyle/ca/grid.py:77-82 | a successful run of n steps has n + 1 entries and starts from the initial state |
| `GridShared.IterateSnoc` | capyle/ca/grid.py:79-82 | a successful further step appends its result to the run |
| `GridShared.IteratePrefix` | capyle/ca/grid.py:78-82 | running longer only appends: earlier entries never change |
| `GridShared.IterateFailed` | capyle/ca/grid.py:79-82 | once a step fails, every longer run fails |
| `GridShared.IterateStep` | capyle/ca/grid.py:79-82 | entry k + 1 of a run is the step applied to entry k |
| `GridShared.IterateKeeps` | capyle/ca/grid.py:79-82 | a property every step preserves holds of every entry of a run |
| `Grid2D.GenWrapIndices` | capyle/ca/grid2d.py:52-96 | eight border slices paired with eight grid slices, in the order of the source |
| `Grid2D.Resolve` | capyle/ca/grid2d.py:108-109 | a slice resolved with Python's bound rules stays within the array |
| `Grid2D.WrapBlockPairs` | capyle/ca/grid2d.py:62-94 | each border block and its grid block have one shape; the border block lies on the border; copying puts on each border cell the visible cell on the opposite side (last row above, first row below, last column left, first column right, the opposite corner on each corner) |
| `Grid2D.WrapBlocksCover` | capyle/ca/grid2d.py:62-76 | the eight border blocks together cover every border cell |
| `Grid2D.Policy2D` | capyle/ca/grid2d.py:100-115 | False means the fixed state -100, True the torus, a number that fixed state; any other wrap setting is an error |
| `Grid2D.Interior` | capyle/ca/grid2d.py:29-30 | the visible grid is the buffer without its outer ring: cell (i, j) is buffer cell (i+1, j+1) |
| `Grid2D.WithInterior` | capyle/ca/grid2d.py:167-170 | writing a grid into the interior makes the interior exactly that grid |
| `Grid2D.RefreshedKeepsInterior` | capyle/ca/grid2d.py:98-113 | refreshing the border never changes the visible grid, and refreshing twice equals refreshing once |
| `Grid2D.Refreshed` | capyle/ca/grid2d.py:98-113 | the refreshed buffer has the buffer's shape and keeps every visible cell; with a fixed value, all four border lines hold that value |
| `Grid2D.TorusCell` | capyle/ca/grid2d.py:105-109 | after a torus refresh every buffer cell shows the visible cell whose indices are its own minus one modulo the grid size |
| `Grid2D.NeighbourStates` | capyle/ca/grid2d.py:117-133 | eight views, each of the visible shape |
| `Grid2D.CentreWeightIgnored` | capyle/ca/grid2d.py:124-133 | changing the centre weight of the mask changes no view |
| `Grid2D.TorusNeighbours` | capyle/ca/grid2d.py:117-133 | on a torus, view k at a cell is the mask weight times the state of the visible neighbour at that offset, taken modulo the grid size |
| `Grid2D.FixedNeighbours` | capyle/ca/grid2d.py:117-133 | with a fixed border, a neighbour outside the grid reads as the fixed value and one inside as its own state, each times its mask weight |
| `Grid2D.CountEq` | capyle/ca/grid2d.py:147-149 | the running count never exceeds the number of views counted |
| `Grid2D.CountEqIsCardinality` | capyle/ca/grid2d.py:144-152 | the count of a state at a cell is the size of the set of views that show that state there |
| `Grid2D.Counts2D` | capyle/ca/grid2d.py:141-152 | one count grid per state |
| `Grid2D.CountNeighbours` | capyle/ca/grid2d.py:135-152 | the two nested accumulating loops compute the count specification |
| `Grid2D.CountsBounded` | capyle/ca/grid2d.py:135-152 | every count lies between 0 and the number of views |
| `Grid2D.NextBuffer` | capyle/ca/grid2d.py:154-172 | a successful step gives a buffer of the same shape |
| `Grid2D.NextBufferShowsRule` | capyle/ca/grid2d.py:154-172 | after a step the visible grid is the rule applied to the old grid, views and counts, and the border agrees with the wrap setting |
| `Grid2D.Grid.constructor` | capyle/ca/grid2d.py:18-34 | a (rows+2) x (cols+2) buffer filled with the first state, and the two slice tables |
| `Grid2D.Grid.WriteBlock` | capyle/ca/grid2d.py:107-113 | one border block takes the opposite visible cells or the fixed value, and every other cell is untouched |
| `Grid2D.Grid.WriteRange` | capyle/ca/grid2d.py:109 | one slice assignment, cell by cell |
| `Grid2D.Grid.WriteBlockRow` | capyle/ca/grid2d.py:109 | one row of a slice assignment, cell by cell |
| `Grid2D.Grid.RefreshWrap` | capyle/ca/grid2d.py:98-115 | the eight block writes leave exactly the refreshed buffer: interior kept, border as the policy says; an unusable wrap setting fails and changes nothing |
| `Grid2D.Grid.Next` | capyle/ca/grid2d.py:154-172 | a step fails whenever the wrap setting is unusable; a success has the buffer's shape |
| `Grid2D.Grid.Trajectory` | capyle/ca/grid.py:77-82 | a successful run of n steps has n + 1 buffers of the buffer's shape, starting from the initial one |
| `Grid2D.Grid.TrajectoryFollowsRule` | capyle/ca/grid.py:79-82 | entry k + 1 of a run is entry k stepped once: its visible grid is the rule applied to entry k's grid, views and counts |
| `Grid2D.Grid.TrajectoryExtends` | capyle/ca/grid.py:79-82 | a successful step appends its buffer to the run and its visible grid to the timeline |
| `Grid2D.Grid.TrajectoryStops` | capyle/ca/grid.py:79-82 | once a step fails every longer run fails |
| `Grid2D.Grid.Step` | capyle/ca/grid2d.py:154-172 | the buffer becomes the next buffer; a failing step leaves it unchanged |
| `Grid2D.Grid.RunCA` | capyle/ca/grid.py:70-85 | the timeline is the visible grid before the first step and after each of the n steps; the buffer ends as the last entry |
| `Grid2D.Grid.Run` | capyle/ca/grid.py:50-68 | the generation count is raised to at least 1; the timeline has that many entries plus one and starts with the grid as it was; a missing count fails |
| `Grid2D.Grid.SetGrid` | capyle/ca/grid.py:21-36 | the overlap of a multi-row grid is written into the visible grid; a one-row grid changes only the first visible row; then the border is consistent with the new grid |
| `Grid2D.Interiors` | capyle/ca/grid.py:78-82 | the timeline holds the visible grid of every buffer, in order |
| `Grid2D.Create` | capyle/ca/grid2d.py:8-50 | a size not above 2 both ways is rejected; missing or empty states fail; a grid takes the configuration's size, states, wrap, rule and generation count; its mask is the configuration's mask normalised to 3x3; without an initial grid the buffer is filled with the first state; an initial grid of several rows has its overlap written, a one-row grid fills row 0 alone and the other rows keep the first state, and the border is refreshed; an empty initial grid raises IndexOutOfRange |
| `Grid2D.FlatIndex` | capyle/ca/grid2d.py:185 | each cell of a rows x cols grid has a flat position below rows times cols |
| `Grid2D.Unflatten` | capyle/ca/grid2d.py:193 | reshaping reads the flat cells back row by row |
| `Grid2D.Fill` | capyle/ca/grid2d.py:178 | every cell takes the background state |
| `Grid2D.Scattered2D` | capyle/ca/grid2d.py:185-191 | the flattened result, with the slice as written, has one cell per grid cell |
| `Grid2D.Randomise2D` | capyle/ca/grid2d.py:175-193 | the input grid is reset to the background; the call fails exactly when the quotas exceed the cell count, and never when the clipped proportions add up to at most 1; a success is a fresh grid of the same shape holding the scatter as written |
| `Grid1D.Refreshed1D` | test/capyle/ca/grid1d.py:56-65 | the refreshed buffer keeps the buffer's shape |
| `Grid1D.Row` | test/capyle/ca/grid1d.py:39 | a visible row has the grid's width |
| `Grid1D.Visible` | test/capyle/ca/grid1d.py:39 | one visible row per buffer row |
| `Grid1D.RefreshedKeepsVisible` | test/capyle/ca/grid1d.py:56-65 | every visible cell is kept; on a wrapping grid the left hidden column shows the last visible column and the right one the first; otherwise both are 0; refreshing twice equals refreshing once |
| `Grid1D.NeighbourArrays` | test/capyle/ca/grid1d.py:67-76 | three rows of the grid's width; the middle one is the current generation's visible row |
| `Grid1D.RingNeighbours` | test/capyle/ca/grid1d.py:56-76 | on a refreshed wrapping grid with both sides switched on, a cell's left neighbour is the cell before it and its right neighbour the cell after it, modulo the width |
| `Grid1D.DeadEdges` | test/capyle/ca/grid1d.py:58-75 | without wrapping, the end cells see 0 beyond the edge |
| `Grid1D.CountRow` | test/capyle/ca/grid1d.py:83 | one count per visible cell |
| `Grid1D.Counts1D` | test/capyle/ca/grid1d.py:78-84 | one count row per state, each the neighbour count of that state |
| `Grid1D.CountsAreNeighbourTotals` | test/capyle/ca/grid1d.py:83 | a count is the number of the two neighbours in that state: 0, 1 or 2, with 2 exactly when both match and 0 exactly when neither does |
| `Grid1D.CountsAsWritten` | test/capyle/ca/grid1d.py:78-84 | the counts as written, one row per state, which the engine hands the rule |
| `Grid1D.OrRow` | test/capyle/ca/grid1d.py:83 | one entry per cell, each 0 or 1, and 1 exactly when the left or the right neighbour is in the state |
| `Grid1D.CountsAsWrittenFlags` | test/capyle/ca/grid1d.py:83 | each count as written is 0 or 1, and 1 exactly when at least one neighbour is in the state |
| `Grid1D.CountsAsWrittenCapped` | test/capyle/ca/grid1d.py:83 | as written, each count is the intended count capped at 1 |
| `Grid1D.CountsAsWrittenLosesPair` | test/capyle/ca/grid1d.py:83 | a concrete cell whose two neighbours match: the intended count is 2, the count as written 1 |
| `Grid1D.CountNeighbours` | test/capyle/ca/grid1d.py:78-84 | the loop computes the counts as written (the logical or of the two matches) |
| `Grid1D.Fit` | test/capyle/ca/grid1d.py:101 | a row of the grid's width is copied, a single value is broadcast along the row |
| `Grid1D.WithRow` | test/capyle/ca/grid1d.py:101 | writing a row keeps the buffer's row count |
| `Grid1D.NextState` | test/capyle/ca/grid1d.py:86-102 | a successful step advances the generation by exactly 1, to a row that exists; the rule is given the counts as written |
| `Grid1D.StepWritesOneRow` | test/capyle/ca/grid1d.py:86-102 | a step writes the rule's row, fitted to the width, as the next generation; every other visible row stays as it was; the border agrees with the wrap setting |
| `Grid1D.RowWritten` | test/capyle/ca/grid1d.py:101-102 | writing one row and refreshing changes that visible row and no other |
| `Grid1D.Grid.constructor` | test/capyle/ca/grid1d.py:27-45 | a rows x (width+2) buffer filled with the first state; generation 0 |
| `Grid1D.Grid.RefreshWrap` | test/capyle/ca/grid1d.py:56-65 | the buffer becomes the refreshed buffer, which is a fixed point of refreshing and keeps every visible cell |
| `Grid1D.Grid.WriteRow` | test/capyle/ca/grid1d.py:101 | the visible cells of one row are replaced and nothing else changes |
| `Grid1D.Grid.Step` | test/capyle/ca/grid1d.py:86-102 | the state becomes the next state; a failing step leaves the buffer unchanged; the generation counter advances by 1 while a row is left |
| `Grid1D.Grid.Commit` | test/capyle/ca/grid1d.py:100-102 | the row is written into the current generation and the border refreshed |
| `Grid1D.Grid.Trajectory` | capyle/ca/grid.py:77-82 | a successful run of n steps has n + 1 states, starting from the initial one, all of the buffer's shape |
| `Grid1D.Grid.TrajectoryGens` | test/capyle/ca/grid1d.py:100 | entry k of a run is at generation k past the start |
| `Grid1D.Grid.StepKeepsRows` | test/capyle/ca/grid1d.py:100-101 | a step never changes a row up to the current generation |
| `Grid1D.Grid.RowsSettle` | capyle/ca/grid.py:78-82 | a row written by generation k is the same in every later entry of the run, so the space-time diagram only grows |
| `Grid1D.Grid.RunCompletes` | capyle/ca/grid.py:79-82 | a rule that keeps the width runs as many steps as there are rows left |
| `Grid1D.Grid.TrajectoryExtends` | capyle/ca/grid.py:79-82 | a successful step appends its state to the run |
| `Grid1D.Grid.RunExtends` | capyle/ca/grid.py:79-82 | a successful step appends its state to the run and its visible grid to the timeline |
| `Grid1D.Grid.TrajectoryStops` | capyle/ca/grid.py:79-82 | once a step fails every longer run fails |
| `Grid1D.Grid.RunCA` | capyle/ca/grid.py:70-85 | the timeline is the visible grid before the first step and after each of the n steps; the state ends as the last entry |
| `Grid1D.Grid.Run` | capyle/ca/grid.py:50-68 | the generation count is raised to at least 1 and the run's timeline returned; a failure comes from running out of rows or a wrong-width row |
| `Grid1D.Grid.SetGrid` | capyle/ca/grid.py:21-36 | the overlap of a multi-row grid is written into the visible grid; a one-row grid changes only the first row; then the border is consistent |
| `Grid1D.Visibles` | capyle/ca/grid.py:78-82 | the timeline holds the visible grid of every state, in order |
| `Grid1D.Create` | test/capyle/ca/grid1d.py:8-54 | a generation count below 1 or a missing one is rejected; a grid of n generations is (n+1) x (2n+1) inside a buffer two columns wider, at generation 0, with the configuration's states, wrap, rule and normalised mask, and a consistent border; without an initial grid it holds the first state; an initial grid of several rows has its overlap written, a one-row grid fills row 0 alone and the other rows keep the first state; an empty initial grid fails |
| `Grid1D.Scattered1D` | test/capyle/ca/grid1d.py:114-123 | the row as written, with quotas taken from every cell of the grid and the slice as written, has the grid's width |
| `Grid1D.Randomise1D` | test/capyle/ca/grid1d.py:105-126 | only row 0 changes; the quotas are shares of all the grid's cells; the call fails exactly when they add up to more than the row's width, and then row 0 holds the background; a one-row grid whose clipped proportions add up to at most 1 never fails; a success returns the same grid with row 0 holding the scatter as written |
| `Grid1D.WriteFirstRow` | test/capyle/ca/grid1d.py:125 | row 0 becomes the row and the other rows are untouched |
| `Grid1D.QuotasAsWrittenOverflow` | test/capyle/ca/grid1d.py:114-116 | as written, a single proportion of 1 asks for more cells than the row holds, while the same quota over the row's width fits |
| `Grid1D.IntendedScattered1D` | test/capyle/ca/grid1d.py:114-123 | the intended row, with quotas from the row's width and the corrected slice, has the grid's width |
| `Grid1D.IntendedRandomise1DPlaces` | test/capyle/ca/grid1d.py:114-123 | with quotas from the row, clipped proportions adding up to at most 1 always fit the row, and each state lands on its whole run of picks |
| `Grid1D.QuotasAsWrittenHalf` | test/capyle/ca/grid1d.py:114 | for one generation, half of the 2 x 3 grid is 3 cells, the whole row, where half the row is 1 cell |
| `Utils.ClipNumeric` | capyle/utils.py:156-172 | above the maximum gives the maximum (tested first); otherwise below the minimum gives the minimum; for minimum at most maximum the result lies in between |
| `Utils.ClipIdempotent` | capyle/utils.py:156-172 | clipping twice equals clipping once, and a value in range is returned unchanged |
| `Utils.VerifyGens` | capyle/utils.py:80-86 | counts below 1 become 1 and others are kept |
| `Utils.GensToDims` | capyle/utils.py:105-115 | g generations need g + 1 rows and 2(g + 1) - 1 columns |
| `Utils.LightConeFits` | capyle/utils.py:105-115 | the width fits exactly the cells a centre seed can reach in g generations |
| `Utils.ScaleArray` | capyle/utils.py:219-236 | a fresh array of the new shape whose top-left overlap with the old one is copied |
| `Utils.ScaleRoundTrip` | capyle/utils.py:230-236 | scaling there and back agrees with the original on the common top-left block |
| `Utils.Copy` | capyle/ca/grid.py:78 | a fresh array with the same shape and contents |
| `Utils.BitsValueIsLowBits` | capyle/utils.py:256-261 | the padded bit string of c with n places reads back as c modulo 2 to the n |
| `Utils.ByteBits` | capyle/utils.py:256-261 | a byte reads back as itself; 0 gives eight zeros and 255 eight ones |
| `Utils.IntToBinary` | capyle/utils.py:239-262 | eight bits, each 0 or 1, most significant first, reading back as the truncated input clipped to 0..255; negatives give all zeros and values above 255 all ones |
| `Utils.IntToBinaryBit` | capyle/utils.py:256-261 | bit 7 - p is bit p of the clipped number |
| `Utils.ReplaceChar` | capyle/utils.py:270 | replacing a character by text without it removes it |
| `Utils.TitleToFilename` | capyle/utils.py:265-274 | the replacement loop computes the cleaned title: each space becomes an underscore, each disallowed character is dropped, the rest stay in order |
| `Utils.Cleaned` | capyle/utils.py:265-274 | a cleaned title is never longer than the title and holds no space |
| `Utils.CleanedIsSafe` | capyle/utils.py:265-274 | a cleaned title holds no space and no disallowed character, every character is an underscore or from the title, and it is no longer than the title |
| `Utils.CleanedKeepsOthers` | capyle/utils.py:265-274 | a title without spaces or disallowed characters passes unchanged |
| `Utils.Insert` | capyle/utils.py:203 | inserting keeps a sequence strictly increasing and adds exactly the new value |
| `Utils.Unique` | capyle/utils.py:202-203 | sorted and distinct, with exactly the values of the input |
| `Utils.Flatten` | capyle/utils.py:202 | the flattened snapshot holds exactly the values of the grid |
| `Utils.ExtractStates` | capyle/utils.py:193-204 | sorted and distinct, with exactly the values found in some snapshot of the timeline |
| `Wolfram.PatternValue` | ca_descriptions/wolframs_1d.py:44-47 | the pattern value of a cell lies in 0..7 |
| `Wolfram.ExactlyOnePattern` | ca_descriptions/wolframs_1d.py:51-60 | a cell matches line k of the rule table exactly when k is 7 minus its pattern value, where only the value 1 counts as on |
| `Wolfram.Application` | ca_descriptions/wolframs_1d.py:51-60 | each line of the table gives a row of the grid's width |
| `Wolfram.Output` | ca_descriptions/wolframs_1d.py:62-65 | the new row has the input's width and holds only 0 and 1 |
| `Wolfram.TransitionFunction` | ca_descriptions/wolframs_1d.py:43-65 | the accumulating loop computes the rule's output row |
| `Wolfram.RuleBits` | ca_descriptions/wolframs_1d.py:73 | the rule table has eight entries |
| `Wolfram.ClippedRuleNumber` | capyle/utils.py:256-257 | the truncated and clipped rule number of an integer is the integer clipped to 0..255 |
| `Wolfram.WolframNumbering` | ca_descriptions/wolframs_1d.py:73 | the new cell is bit 4l+2c+r of the clipped rule number: Wolfram's numbering of elementary automata |
| `Wolfram.Rule30Bits` | ca_descriptions/wolframs_1d.py:72 | rule 30 gives the table [0,0,0,1,1,1,1,0] |
| `Wolfram.TransitionKeepsWidth` | ca_descriptions/wolframs_1d.py:62-65 | the rule returns a row as wide as the grid |
| `Wolfram.RuleFn` | ca_descriptions/wolframs_1d.py:43-65 | on neighbour rows of equal length and a table of at least eight entries, the new row is as wide as the grid; otherwise it is empty; every cell is 0 or 1 |
| `Wolfram.Transition` | ca_descriptions/wolframs_1d.py:73-78 | the transition handed to Grid1D is the rule with an extra argument: an eight-entry table of bits |
| `Wolfram.WolframRunCompletes` | ca_descriptions/wolframs_1d.py:78-80 | a fresh grid with the Wolfram rule runs through every row without failing |
| `Life.LifeCell` | test/testdescriptions/2dinvalid.py:21-27 | every cell ends as 0 or 1 |
| `Life.ConwayRule` | test/testdescriptions/2dinvalid.py:21-27 | a dead cell is born with exactly 3 live neighbours; a live cell survives with 2 or 3 and dies otherwise; any other value becomes 0 |
| `Life.Revives` | test/testdescriptions/2dinvalid.py:21-23 | the birth-or-survival mask has the grid's shape |
| `Life.NextGeneration` | test/testdescriptions/2dinvalid.py:25-27 | the next generation has the grid's shape |
| `Life.LiveNeighbourCount` | test/testdescriptions/2dinvalid.py:17-27 | fed the 2-D engine's counts for states [0, 1], each cell follows the Conway rule on the number of its views that are live |
| `Life.TransitionFunc` | test/testdescriptions/2dinvalid.py:17-28 | anything but two count grids fails to unpack and changes nothing; otherwise the same grid is updated in place to the next generation and returned |
| `Life.SetWhere` | test/testdescriptions/2dinvalid.py:27 | cells under the mask become 1 and the others keep their value |
| `Life.SetRowWhere` | test/testdescriptions/2dinvalid.py:27 | one row of the masked assignment; other cells keep their value |
| `Cell.GetFuel` | ca_descriptions/cell.py:25-31 | canyon, chaparral and forest have positive fuel; lake and town raise a key error |
| `Cell.Updated` | ca_descriptions/cell.py:48-60 | an update leaves the cell dead exactly when it was dead or had no fuel left, and changes the fuel by at most one unit, downwards |
| `Cell.UpdateLaws` | ca_descriptions/cell.py:48-60 | dead is absorbing; fuel never goes negative; the fuel drops by exactly 1 when the cell ends burning and is kept otherwise; the cell burns exactly when it has fuel and was burning or was normal and ignited; with no fuel it dies |
| `Cell.BurnsOut` | ca_descriptions/cell.py:48-60 | a burning cell with fuel f burns for f updates, one unit each, and is dead with 0 fuel after f + 1 |
| `Cell.Cell.constructor` | ca_descriptions/cell.py:36-39 | a new cell is normal, with its type's fuel |
| `Cell.Cell.Update` | ca_descriptions/cell.py:48-60 | state and fuel become the update specification of the old ones, and fuel stays non-negative |
| `Cell.Cell.IsBurning` | ca_descriptions/cell.py:62-63 | true exactly when the cell is burning |
| `Cell.NewCell` | ca_descriptions/cell.py:36-39 | a cell of a type without fuel raises the key error; otherwise the new cell is normal with its type's fuel |
| `Playback.Rewound` | test/capyle/playbackcontrols.py:112-117 | paused at frame 0, with nothing else changed |
| `Playback.Toggled` | test/capyle/playbackcontrols.py:26-38 | playing pauses and keeps the frame; paused at the last frame restarts from frame 0; otherwise it plays from the current frame |
| `Playback.Stepped` | test/capyle/playbackcontrols.py:58-84 | forward advances the frame while it is before the last, loops to 0 at the last frame when looping, and otherwise stops playing in place; backward moves back only above frame 0 |
| `Playback.Scrubbed` | test/capyle/playbackcontrols.py:86-102 | the frame becomes the slider value; nothing else changes |
| `Playback.Refreshed` | test/capyle/playbackcontrols.py:123-139 | paused at frame 0 with the new last frame, loop and frame delay kept |
| `Playback.FloorDivIsFloor` | test/capyle/playbackcontrols.py:110 | Python's floor division rounds toward minus infinity for either sign of the divisor |
| `Playback.FpsSet` | test/capyle/playbackcontrols.py:104-110 | a rate of 0 is a division by zero; otherwise only the delay changes, to the largest whole number of milliseconds per frame, at least 1 for rates up to 1000 |
| `Playback.Tick` | test/capyle/playbackcontrols.py:49-56 | while playing, the frame steps forward and the next call waits the frame delay (an error before the rate is set); while paused, nothing changes and the next call waits 200 ms |
| `Playback.InTimelineKept` | test/capyle/playbackcontrols.py:58-139 | every operation keeps the frame between 0 and the last frame, given slider values in that range |
| `Playback.InitialInTimeline` | test/capyle/playbackcontrols.py:18-22 | the initial controller is paused at a frame within the timeline |
| `Playback.StepRoundTrip` | test/capyle/playbackcontrols.py:69-83 | a step forward and a step back cancel, in either order, away from the ends |
| `Playback.PauseThenPlay` | test/capyle/playbackcontrols.py:26-38 | pausing and playing again restores a playing controller, rewound only if it was at the last frame |
| `Playback.Forward` | test/capyle/playbackcontrols.py:49-56 | repeated ticks keep the last frame, loop flag and delay |
| `Playback.PlaysToEnd` | test/capyle/playbackcontrols.py:69-79 | without looping, playback advances one frame per tick and stops at the last frame |
| `Playback.LoopCycles` | test/capyle/playbackcontrols.py:69-75 | with looping, k ticks move the frame k places around the cycle of frames 0 to the last frame |
| `Playback.PlaybackControls.constructor` | test/capyle/playbackcontrols.py:10-22 | paused at frame 0, last frame 0, no looping, no frame delay yet |
| `Playback.PlaybackControls.PlayPause` | test/capyle/playbackcontrols.py:26-38 | the fields become the toggled state |
| `Playback.PlaybackControls.StepFrame` | test/capyle/playbackcontrols.py:58-84 | the fields become the stepped state |
| `Playback.PlaybackControls.Scrub` | test/capyle/playbackcontrols.py:86-102 | the fields become the scrubbed state |
| `Playback.PlaybackControls.SetFps` | test/capyle/playbackcontrols.py:104-110 | the fields become the state with the new delay; a rate of 0 fails and changes nothing |
| `Playback.PlaybackControls.Reset` | test/capyle/playbackcontrols.py:112-117 | the fields become the rewound state |
| `Playback.PlaybackControls.Refresh` | test/capyle/playbackcontrols.py:123-139 | the fields become the refreshed state |
| `Playback.PlaybackControls.Update` | test/capyle/playbackcontrols.py:49-56 | the fields and the returned delay are one tick of the controller |
| `Template.WellPlacedSpans` | capyle/guicomponents/newcawindow.py:94-100 | well-placed positions lie inside the text and each ends before the next begins |
| `Template.WellPlacedShorter` | capyle/guicomponents/newcawindow.py:95-99 | a prefix of well-placed positions is well placed |
| `Template.ShiftIsProduct` | capyle/guicomponents/newcawindow.py:95-98 | the accumulated shift after k replacements is k times the length difference |
| `Template.SplicedSize` | capyle/guicomponents/newcawindow.py:95-99 | after k replacements at well-placed positions the length is the old length plus k times the length difference |
| `Template.PrefixKept` | capyle/guicomponents/newcawindow.py:97 | characters before the first position are unchanged |
| `Template.ReplacementAt` | capyle/guicomponents/newcawindow.py:97-99 | the k-th replacement text sits at its shifted position |
| `Template.GapKept` | capyle/guicomponents/newcawindow.py:97-99 | the text between two consecutive occurrences is kept, at its shifted place |
| `Template.SuffixKept` | capyle/guicomponents/newcawindow.py:98-99 | the text after the last occurrence is kept at the end |
| `Template.ReplaceStep` | capyle/guicomponents/newcawindow.py:97-99 | one pass of the loop, at its shifted cut points, extends the splice by one replacement |
| `Template.Replace` | capyle/guicomponents/newcawindow.py:94-100 | an empty list returns the text unchanged; for well-placed positions the result is the text with each occurrence replaced in turn |
| `Template.FindFromSound` | capyle/guicomponents/newcawindow.py:77 | every reported position is an occurrence of the pattern at or after the scan start, and the positions are well placed |
| `Template.FindFromComplete` | capyle/guicomponents/newcawindow.py:77 | every occurrence past the scan start overlaps a reported match: none is missed |
| `Template.FindFrom` | capyle/guicomponents/newcawindow.py:77 | every reported position lies at or after the scan start, with the whole pattern inside the text |
| `Template.FindAll` | capyle/guicomponents/newcawindow.py:82-84 | the positions found over the whole template are occurrences of the placeholder, in order and without overlapping |
| `Template.Substitute` | capyle/guicomponents/newcawindow.py:77-79 | filling a placeholder replaces exactly the matches the scan reports, which are well placed |

## Left out

- The console warnings printed for an oversized mask (capyle/ca/neighbourhood.py:54) and for a generation count below 1 (capyle/utils.py:83-84) are left out. They change no state.
- Grid2D.Create and Grid1D.Create reject a mask that normalises to the other rank (InvalidShape). The source's `set_neighbourhood` only stores such a mask, and the program fails later, at the first step. For a one-generation 1-D grid given a 3x3 mask, numpy broadcasts mask rows 0 and 2 against the row of 3 and runs without error. That run is not modelled.
- Tk widgets, dialogs, the progress window, file I/O, pickling and subprocesses are left out. The interfaces around them are narrow and carry no state this model needs.
- `np.random.choice` is not modelled. The chosen cells are a parameter (`picks`).
- Floating-point numbers are modelled as Dafny `real` (proportions, clipping) or `int` (cell values, slider values). Rounding is not modelled.
- Numpy broadcasting is modelled only where the source relies on it: a single value written along a row. The Life rule's count grids must have the grid's shape.
- Grids are rectangular integer matrices. Ragged lists and arrays of rank above 2 appear only as a rank number in the mask code.
- Grid2D.Grid.Step: the source rebinds `self.grid` to the rule's result. That result stays a view of the padded buffer only when the rule mutates its input in place. The model always writes the result into the interior of the buffer, so the aliasing is not modelled.
- Grid2D.Create and Grid1D.Create copy the configuration fields they read into the grid object. The source keeps a handle on the configuration instead, so later changes to it would show through.
- An unusable wrap setting in 2-D ends the program through an unimported `sys`. Here it is a failure (`InvalidWrapPolicy`).
- A rule result of the wrong shape makes the step fail. In the source numpy would raise or broadcast.
- A transition given as a one-element tuple is not modelled. The rule is a plain function or a function with extra arguments.
- The two-parameter rule of `2dinvalid.py` is modelled on its own, as is the Conway rule. Its `main`, which uses an obsolete grid constructor, is left out.
- Grid2D.Grid.SetGrid and Grid1D.Grid.SetGrid: cells that `scale_array` leaves uninitialised (`np.empty`) are left unconstrained.
- Utils.ScaleArray: same as the line above.
- Wolfram.RuleFn returns an empty row on neighbour arrays of unequal lengths, where numpy would raise.
- Playback: the slider and button updates are left out. `set_displayed_frame` has no effect on the modelled state. The `after` timer of `update` is the returned delay.
- Playback: `MAX_FRAMERATE` is not modelled, because nothing in the controller reads it.
- Playback: an `update` before any `set_fps` call reads a missing attribute. Here that is a `MissingValue` error.
- Template.FindFrom covers a non-empty pattern only (the placeholders `NAME` and `STATES`). The regular-expression engine beyond literal matching is not modelled.
- Template.Replace states its result only for the empty list and for well-placed positions (ascending and non-overlapping). What the loop does with other lists is unspecified.
- The template file reading and writing around the substitution, and the text `str(states)` gives, are left out.

## Findings

| source | as written | input that shows it | evidently intended | confidence | as-written member | corrected member |
|---|---|---|---|---|---|---|
| capyle/ca/grid2d.py:189 | entry i writes to `randindicies[used:numcells_per_state[i]]`, which is empty once `used` reaches the quota | 4 cells, proportions (1, 0.5) and (2, 0.25), picks [0, 1, 2]: state 2 is never placed | `randindicies[used:used + numcells_per_state[i]]` | not executed | `GridShared.ScatterAsWrittenDropsState` | `GridShared.CorrectedPlacesEveryQuota` |
| test/capyle/ca/grid1d.py:83 | `(l == s) + (r == s)` adds two boolean arrays, which numpy computes as a logical or | one cell whose two neighbours are both in state 1: count 1 | the number of matching neighbours, 0 to 2 | not executed | `Grid1D.CountsAsWrittenLosesPair` | `Grid1D.CountsAreNeighbourTotals` |
| test/capyle/ca/grid1d.py:114 | quotas are scaled by `grid.size`, the size of the whole grid passed in, while the cells are chosen from row 0 only; the GUI caller (capyle/guicomponents/initialgridwindow.py:24, 101) passes a one-row grid, so this shows only when `randomise1d` is called directly on a grid of two or more rows | a 2 x 3 grid, proportion 0.5: a quota of 3 cells out of a row of 3; proportion 1 asks for 6 of 3 and the choice raises | scale by the row's width, `grid[0].size` | not executed | `Grid1D.QuotasAsWrittenOverflow` | `Grid1D.IntendedRandomise1DPlaces` |
