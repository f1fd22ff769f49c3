# crowd-control: a verified model of the two-way corridor automaton

This project models the engine of crowd-control, a cellular automaton for two-way
pedestrian flow in a corridor, and proves properties of that model.

The corridor is a `len_x` by `len_y` grid of cells. Each cell holds one of:
- no agent (0);
- a left-mover (-1), who leaves on the left and re-enters on the right;
- a right-mover (1), who goes the other way.

Each cell also has a distance to each exit and a list of its neighbouring cells.
One iteration of the automaton does the following:
1. Every agent proposes a target: an empty neighbour closer to its exit, an empty edge cell on the far side when it is about to leave, or its own cell.
2. Conflicts over a target are settled by random draws. One winner takes the target and the losers stay put.
3. The moves are applied, and a cell that an agent leaves has its exit distance lowered slightly.

The project's modules:
- `Helpers` is the clipped Moore neighbourhood.
- `Cells` is the `Cell` class.
- `Lattices` is the `Lattice` grid.
- `Simulations` holds the `Simulation` class: the iteration, conflict resolution and the run.
- `Functions` is the random population seeding.
- `Transitions` is a plain-grid specification of one step. The imperative `execute_timestep` is proved against it, and the conservation of agents (asserted at the end of `run`) and of each direction is proved from it.
- `Randomness` is the random stream that all draws come from.
- `Wrappers` is the `Option` type.

How the model handles the source's features:
- Randomness is an explicit stream `Rng` that each stochastic operation takes and returns.
  - `random.random()` is the fractional part of the next raw draw.
  - `random.randint(lo, hi)`, `numpy.random.randint(n)` and `numpy.random.choice` scale the next draw onto their range.
- Exit distances are reals. The constructor of `Lattice` takes them as two functions of the position, where the source computes them with `math.dist`.
- Mutable objects are Dafny classes.
  - A cell's position is constant, and so is a lattice's container of cells; only the cells' fields change.
  - Every mutator states the whole new state.
- Python `assert`s appear in two forms:
  - as preconditions where the modelled paths never violate them (`populate`);
  - as an explicit outcome where the source itself violates them (`add_neighbor`, see Findings).

## Model

| member | source | states |
|---|---|---|
| Helpers.NeighborCoords | helpers.py:1-17 | `get_neighbor_coords`: the comprehension over the 3 by 3 window, x outer and y inner, with its three filters; its meaning is stated by the lemmas below |
| Helpers.NeighborMembers | helpers.py:12-17 | a position is listed exactly when it is a different position, at most one step away on each axis, inside the grid: so no self, no out-of-range entry, no wrap-around |
| Helpers.NeighborsValid | helpers.py:15-17 | every listed position differs from `(x, y)`, lies in the grid and is within one step of `(x, y)` on each axis |
| Helpers.NeighborSymmetric | helpers.py:12-17 | for in-grid `a` and `b`, `b` is a neighbour of `a` exactly when `a` is a neighbour of `b` |
| Helpers.NeighborOrder | helpers.py:13-14 | the list is strictly increasing in row-major order (x outer, y inner) and so has no duplicates |
| Helpers.NeighborCount | helpers.py:12-17 | the list's length is the product of the in-grid spans of the two axes, less one when `(x, y)` is itself in the grid |
| Helpers.NeighborShape | helpers.py:12-17 | at most 8 neighbours; 8 strictly inside, 5 on a non-corner edge, 3 in a corner when both sides are at least 2 |
| Helpers.CrowdedCellIff | helpers.py:12-17 | some cell has five or more neighbours exactly when one side is at least 3 and the other at least 2 |
| Helpers.FewNeighbors | helpers.py:12-17 | in a grid with a side of 1, or in a 2 by 2 grid, every cell has fewer than five neighbours |
| Helpers.SmallProduct | helpers.py:12-17 | a product of two spans (1 to 3) is below 5 exactly when one is 1 or both are 2 |
| Helpers.InnerMembers | helpers.py:14-17 | the inner generator lists exactly the kept positions of its row from its starting column on |
| Helpers.OuterMembers | helpers.py:13-17 | the outer generator lists exactly the kept positions of the rows from its starting row on |
| Helpers.InnerOrder | helpers.py:14 | the inner generator's output is row-major ordered, in its row, from its starting column |
| Helpers.OuterOrder | helpers.py:13-14 | the outer generator's output is row-major ordered, from its starting row |
| Helpers.InnerCount | helpers.py:14-17 | one row contributes the in-grid span of the columns, less the centre itself |
| Cells.Cell.constructor | classes/cell.py:9-15 | a new cell sits at the given position, is empty, has the given distances and no neighbours |
| Cells.Cell.IsEmpty | classes/cell.py:17-21 | `is_empty`: the occupant is 0 |
| Cells.Cell.IsLeavingLeft | classes/cell.py:23-27 | `is_leaving_left`: a left-mover in the first column |
| Cells.Cell.IsLeavingRight | classes/cell.py:29-33 | `is_leaving_right`: a right-mover in the last column |
| Cells.Cell.DistanceFor | classes/cell.py:58-62 | `get_distance_value`: the right-exit distance for a positive value, the left-exit distance otherwise |
| Cells.Cell.Improving | classes/cell.py:77-92 | the candidates left after the two filters: the empty neighbours strictly closer to the occupant's exit (see `ImprovingSound`) |
| Cells.Cell.LeavingTestsExclusive | classes/cell.py:23-33 | `is_leaving_left` and `is_leaving_right` never both hold, and each implies an occupant |
| Cells.Cell.Populate | classes/cell.py:35-42 | requires a value of -1 or 1 and an empty cell; only the occupant changes, to that value |
| Cells.Cell.Clear | classes/cell.py:44-48 | the occupant becomes 0 and nothing else changes (so a second clear changes nothing) |
| Cells.Cell.AddNeighbor | classes/cell.py:50-56 | succeeds exactly when fewer than 9 neighbours are listed, then appends the cell; on failure nothing changes |
| Cells.Cell.LowerDistanceToExit | classes/cell.py:110-121 | a left-mover's left-exit distance, or a right-mover's right-exit distance, drops by 0.00001; the other distance, occupant and neighbours stay; an empty cell is untouched; the occupant's own distance never rises |
| Cells.Cell.GetBestNeighbor | classes/cell.py:71-108 | None exactly when no empty neighbour is strictly closer to the occupant's exit; otherwise an empty neighbour strictly closer; the only such neighbour is returned with no draw spent; with several, the result is `Choose` (straight-ahead acceptance 0.8, rejected straight candidate kept in the pool) |
| Cells.Cell.ImprovingSound | classes/cell.py:77-92 | every candidate left after the two filters is an empty neighbour strictly closer to the occupant's exit |
| Cells.EmptyCells | classes/cell.py:64-69 | the result holds exactly the empty cells of the list, and is no longer than it |
| Cells.DistanceArray | classes/cell.py:84 | one distance per cell: each cell's distance for the mover's direction |
| Cells.Min | classes/cell.py:88 | the least element: a member of the list, below or equal to every member |
| Cells.MinGate | classes/cell.py:88-92 | the least distance is at or above the cell's own exactly when no cell is strictly closer |
| Cells.Closer | classes/cell.py:92 | the result holds exactly the cells strictly closer than the current distance |
| Cells.StraightScan | classes/cell.py:98-105 | a result of the loop is a candidate in the same row as the cell; draws are only consumed, never rewound |
| Cells.Choose | classes/cell.py:98-108 | the choice among several candidates is always one of them |
| Cells.ChooseCandidate | classes/cell.py:98-108 | the loop with its early return computes `Choose`, draws included |
| Cells.ScanSkipsOtherRows | classes/cell.py:100 | candidates outside the cell's row cost no draw and are never taken by the loop |
| Cells.ChooseFirstStraight | classes/cell.py:100-103 | when the first same-row candidate's draw is below 0.8, that candidate is the result after one draw |
| Cells.ChooseWithoutStraight | classes/cell.py:108 | with no same-row candidate, the result is a uniform pick over all candidates, one draw |
| Cells.RejectedStraightStaysInPool | classes/cell.py:102-108 | with draws 0.9 then 0.1, a rejected straight candidate is still returned by the final pick |
| Randomness.Frac | classes/cell.py:102 | a raw draw maps into [0, 1) by removing an integer |
| Randomness.Random | classes/cell.py:102 | `random.random()`: a real in [0, 1), one draw used |
| Randomness.RandInt | classes/lattice.py:52-53 | `random.randint(lo, hi)`: an integer in [lo, hi], both ends included, one draw used |
| Randomness.Advance | classes/lattice.py:52-53 | the stream after one draw: same source, one position further |
| Randomness.FloorBelow | classes/lattice.py:52-53 | a draw in [0, 1) scaled by `n` floors to an index in [0, n) |
| Lattices.Lattice.constructor | classes/lattice.py:12-17 | the grid has the given shape, `n_cells == len_x * len_y`, every cell is fresh, empty, at its own indices with the given distances, and each neighbour list is exactly its neighbourhood |
| Lattices.Lattice.LoadFresh | classes/lattice.py:17 | `load_neighbours` on cells with no neighbours never fails and gives each cell exactly its neighbourhood; nothing else changes |
| Lattices.Lattice.InitializeGrid | classes/lattice.py:19-35 | `len_x` rows of `len_y` fresh cells, the cell at `[x][y]` has coordinates `(x, y)`, is empty, has no neighbours and has the given distances |
| Lattices.Lattice.LoadNeighbours | classes/lattice.py:37-46 | succeeds exactly when every cell can take its neighbourhood without passing 9 entries; then each list is extended by the cells at its neighbour coordinates, in order; only neighbour lists change |
| Lattices.Lattice.LoadCell | classes/lattice.py:43-46 | the innermost loop: the cell gets the cells at its neighbour coordinates appended, or fails exactly when that would pass 9 |
| Lattices.Lattice.NeighborCells | classes/lattice.py:43-45 | one cell per neighbour coordinate, each in the grid |
| Lattices.Lattice.CellsAt | classes/lattice.py:45 | `self.cells[coord]` for each coordinate, in order |
| Lattices.Lattice.LoadedIsWired | classes/lattice.py:41-46 | loaded neighbour lists point only at cells of the grid, at their own positions |
| Lattices.Lattice.GetRandomCell | classes/lattice.py:48-54 | a cell of the grid at in-bounds indices, after two draws |
| Lattices.Lattice.PopulatedCells | classes/lattice.py:56-60 | exactly the occupied cells of the grid, each once, in row-major order |
| Lattices.Lattice.PopulatedFrom | classes/lattice.py:60 | the listed cells are occupied cells of the grid at or after the starting position |
| Lattices.Lattice.PopulatedFromComplete | classes/lattice.py:60 | every occupied cell at or after the starting position is listed |
| Lattices.Lattice.PopulatedFromOrdered | classes/lattice.py:60 | the list is strictly ascending in row-major order |
| Lattices.Lattice.AscendingCons | classes/lattice.py:60 | a cell placed before cells that all lie after it keeps the list ascending |
| Lattices.Lattice.PopulatedCount | classes/lattice.py:56-60 | the positions of the listed cells are the occupied positions of the value grid, and there are as many cells as positions |
| Lattices.Lattice.DistinctCard | classes/lattice.py:60 | `n` distinct cells of the grid sit at `n` distinct positions |
| Lattices.Lattice.Values | classes/lattice.py:8 | `get_value_array`: a `len_x` by `len_y` grid holding each cell's occupant |
| Lattices.Lattice.LeftDistances | classes/lattice.py:29 | the grid of every cell's left-exit distance |
| Lattices.Lattice.RightDistances | classes/lattice.py:30 | the grid of every cell's right-exit distance |
| Lattices.Lattice.Neighbourhoods | classes/lattice.py:41-46 | the grid of every cell's neighbour list |
| Lattices.Lattice.At | classes/lattice.py:45 | `self.cells[coord]` is a cell of the grid |
| Lattices.Lattice.Members | classes/lattice.py:23-35 | a cell belongs to the grid exactly when it is at its own coordinates in it |
| Lattices.Lattice.KeepsWired | classes/lattice.py:41-46 | neighbour lists that did not change still point into the grid |
| Lattices.Lattice.Clone | classes/simulation.py:38 | `copy.deepcopy` of a grid: fresh grid and fresh cells, same shape, occupants and distances, each neighbour list mapped to the copies |
| Lattices.Lattice.CopyCells | classes/simulation.py:38 | the copied cells: fresh, at their own positions, with the originals' occupants, distances and remapped neighbours |
| Lattices.Lattice.CopyRow | classes/simulation.py:38 | one row of the copy, leaving the rows already copied as they are |
| Lattices.Lattice.CopyCell | classes/simulation.py:38 | one cell of the copy takes the original's occupant, distances and remapped neighbours |
| Lattices.Lattice.Mapped | classes/simulation.py:38 | each cell of a list replaced by the copy at its position |
| Lattices.Lattice.MappedNeighborCells | classes/simulation.py:38 | the copies of a cell's neighbours are the copy's own neighbourhood of that cell |
| Lattices.Lattice.SameViews | classes/simulation.py:38 | grids whose cells agree on occupant and distances have equal value and distance grids |
| Lattices.Lattice.Assemble | classes/simulation.py:38 | the grid object around already copied cells |
| Lattices.Lattice.GetRandomEmptyEdgeCell | classes/simulation.py:54-58 | None exactly when the cells of the requested column in rows `x-1..x+1` are all occupied; otherwise an empty cell of that column within one row of `x` |
| Simulations.Simulation.constructor | classes/simulation.py:36-41 | requires a template with no side of 0; `N` is the template's number of agents; the simulation runs on a fresh copy with the same occupants whose neighbour lists are its own neighbourhoods, and `populated_cells` lists its agents (corrected: neighbours loaded once) |
| Simulations.Simulation.Start | classes/simulation.py:36-41 | as written: fails exactly when the template has a side of 0 (`get_populated_cells` raises) or some cell has five or more neighbours (the second load trips `add_neighbor`); otherwise every neighbour list holds its neighbourhood twice, with `N` agents |
| Simulations.Simulation.ThreeByTwoRejected | classes/simulation.py:39 | a 3 by 2 corridor has a cell with five neighbours, so the double load rejects it; 2 by 2 passes |
| Simulations.Simulation.DeepCopy | classes/simulation.py:38 | the copy is fresh, loaded and wired, with the template's occupants and number of agents |
| Simulations.Simulation.CopyLoaded | classes/simulation.py:38 | a clone of a loaded grid is loaded and wired, with occupants in range |
| Simulations.Simulation.Reload | classes/simulation.py:39 | `load_neighbours` on a loaded grid succeeds exactly when no cell has five or more neighbours, then doubles every list; occupants unchanged |
| Simulations.Simulation.ReloadFits | classes/simulation.py:39 | every cell fits a second load exactly when no cell has five or more neighbours |
| Simulations.Simulation.DoubledWired | classes/simulation.py:39 | doubled neighbour lists still point into the grid |
| Simulations.Simulation.Assemble | classes/simulation.py:36-41 | the fields once the corridor is ready: `populated_cells` lists the `N` agents |
| Simulations.Simulation.FindTargetCell | classes/simulation.py:43-61 | requires an occupied cell; the result satisfies `Found`: a leaving left-mover gets an empty cell in the last column within one row (None exactly when those are full), a leaving right-mover the same in the first column, any other cell its best neighbour; a target is always an empty cell of the corridor |
| Simulations.Simulation.GatherProposals | classes/simulation.py:112-122 | the keys and lists are `Gather` of `populated_cells` with `targets`, where each target is that cell's `find_target_cell` result (`Found`); every occupied position proposes exactly once, each to an empty cell or to itself alone |
| Simulations.Simulation.GatherOne | classes/simulation.py:114-122 | the returned target is the cell's `find_target_cell` result; with a target, the cell is appended to the target's list; with none, its own position gets the list `[cell]`; a new key goes last in the key order |
| Simulations.Simulation.GatherNext | classes/simulation.py:114-122 | one turn of the loop extends the gathered proposals and the recorded targets by one cell |
| Simulations.Simulation.GatheredStep | classes/simulation.py:114-122 | one proposal on top of `Gather` of the cells before is `Gather` of one more cell |
| Simulations.Simulation.GatheredNone | classes/simulation.py:112 | the empty `defaultdict` is the gathering of no cell |
| Simulations.Simulation.GatheredAll | classes/simulation.py:114-122 | after the last cell, the proposals are the `Gather` of all occupied cells and their proposers are the occupied positions |
| Simulations.Simulation.GatherLoop | classes/simulation.py:114-122 | the loop gathers the proposals of every occupied cell |
| Simulations.Simulation.FoundStep | classes/simulation.py:116 | the recorded targets stay the `find_target_cell` results of their cells when one more is added |
| Simulations.Dest | classes/simulation.py:118-122 | where a cell proposes to go: its target, or its own position when it has none |
| Simulations.Gather | classes/simulation.py:114-122 | the first loop of `iteration` as a fold over the cells: each is appended to its destination's list, a new key going last (its meaning: `GatherMembers`) |
| Simulations.GatherStep | classes/simulation.py:118-122 | gathering one more cell appends it to its destination's list, a new key going last |
| Simulations.GatherMembers | classes/simulation.py:114-122 | after gathering, a cell is in the list of a position exactly when it is one of the cells and that position is its destination (its target, or its own position when it has none) |
| Simulations.MovesToDest | classes/simulation.py:114-125 | in a resolved assignment of gathered proposals, every assigned cell stays where it is or goes to its own destination |
| Simulations.Simulation.AllPositions | classes/simulation.py:114 | the positions of `populated_cells` are exactly the occupied positions |
| Simulations.Simulation.Positions | classes/simulation.py:114 | the positions of the first `i` cells include each of them |
| Simulations.Simulation.PositionsSet | classes/simulation.py:114 | those positions are the set of the prefix's positions |
| Simulations.Simulation.PositionFresh | classes/simulation.py:114 | in row-major order a cell's position is not among the earlier ones |
| Simulations.Simulation.PrefixPositions | classes/simulation.py:114 | a prefix one longer adds the next cell's position |
| Simulations.ProposeOverwrite | classes/simulation.py:121-122 | overwriting a missing key with `[cell]` is the same as appending to it |
| Simulations.ProposeStep | classes/simulation.py:118-122 | a new, occupied proposer targeting an empty cell or itself keeps the proposals well formed, and a self-target is never already a key |
| Simulations.ProposeEntries | classes/simulation.py:119 | after `append`, the list ends with the proposer and every other entry is unchanged |
| Simulations.ProposeTargets | classes/simulation.py:119-122 | proposers stay occupied and targets stay empty or a lone self-target |
| Simulations.ProposeDistinct | classes/simulation.py:119-122 | a new proposer keeps proposers at distinct positions |
| Simulations.ProposePositions | classes/simulation.py:119-122 | the proposer positions grow by exactly the new one |
| Simulations.ProposeCells | classes/simulation.py:119-122 | the proposers grow by exactly the new one |
| Simulations.TargetsSeparate | classes/simulation.py:114-122 | proposals that target empty cells or their own cell never target another proposer's position |
| Simulations.Settle | classes/simulation.py:78-86 | one target: a lone candidate takes it; otherwise all but one are popped at random and keyed at their own positions, and the last takes it (its meaning: `SettleSpec`) |
| Simulations.ResolveFrom | classes/simulation.py:72-87 | `resolve_conflicts` as a function of the key order from the `i`-th target on; the reference that `ResolveConflicts` computes (its meaning: `ResolveSpec`) |
| Simulations.Simulation.ResolveConflicts | classes/simulation.py:63-87 | targets are taken in insertion order and the outcome is `ResolveFrom`; for such proposals every target gets one of its candidates, each other candidate is keyed at its own position, and no cell is used twice |
| Simulations.Simulation.SettleTarget | classes/simulation.py:76-85 | one target: a single candidate takes it; otherwise all but one are popped at random and keyed at their own positions, and the last takes the target |
| Simulations.Eliminate | classes/simulation.py:81-83 | after `r` pops, `r` fewer candidates remain |
| Simulations.EliminateSpec | classes/simulation.py:81-83 | each popped loser is keyed at its own position, nothing assigned before is overwritten, remaining candidates stay spread and the moves stay injective |
| Simulations.NoneEliminated | classes/simulation.py:81 | zero pops change nothing |
| Simulations.PopSpread | classes/simulation.py:82-83 | popping a candidate and keying it at its position keeps the rest spread and the moves injective |
| Simulations.AssignFresh | classes/simulation.py:83 | a new key for a cell at an unused position keeps the moves injective |
| Simulations.PopEliminated | classes/simulation.py:82-83 | what holds after later pops carries over to the candidates before a pop |
| Simulations.SettleSpec | classes/simulation.py:78-85 | the target gets one of its candidates, every other candidate is keyed at its own position, earlier keys stay |
| Simulations.ResolveStep | classes/simulation.py:75-85 | settling the next target keeps the loop's state: earlier targets settled, later ones untouched |
| Simulations.SettledBehind | classes/simulation.py:75-85 | settling a target extends the settled prefix |
| Simulations.SettledAheadAll | classes/simulation.py:75-85 | settling a target leaves all later targets unassigned with spread candidates |
| Simulations.SettledAhead | classes/simulation.py:75-85 | settling a target leaves one later target unassigned with spread candidates |
| Simulations.NoSelfTarget | classes/simulation.py:80 | a disputed target is no candidate's own position |
| Simulations.SettledKeys | classes/simulation.py:79-85 | every assigned cell is a proposer, at its target or its own position |
| Simulations.ResolveSpec | classes/simulation.py:72-87 | from a consistent state, the rest of the loop yields a resolved assignment |
| Simulations.ResolveFromStep | classes/simulation.py:75 | the loop from target `i` is target `i` settled, then the loop from `i + 1` |
| Simulations.ResolvedAtEnd | classes/simulation.py:87 | after the last target the assignment is resolved |
| Simulations.ResolvedCount | classes/simulation.py:63-87 | the resolved map moves every proposer exactly once: its sources are the proposers' positions and its size is their number |
| Simulations.MovesCount | classes/simulation.py:87 | injective moves have as many sources as destinations |
| Simulations.ProposersMoved | classes/simulation.py:79-85 | every proposer's position is a source of the resolved moves |
| Simulations.MovedAreProposers | classes/simulation.py:79-85 | every source of the resolved moves is a proposer's position |
| Simulations.ResolvedConsistent | classes/simulation.py:63-105 | against the occupants, the resolved moves have occupied sources and empty or unchanged destinations, so `populate` never fails |
| Simulations.SplitStep | classes/simulation.py:97 | taking one more move keeps the moves split into done and remaining, both consistent |
| Simulations.SplitEnd | classes/simulation.py:97 | nothing remaining means all moves are done |
| Simulations.Simulation.ExecuteTimestep | classes/simulation.py:89-105 | in any order of the dictionary, the occupants become `StepValues` and each distance grid `StepDistances` of the moves; neighbour lists stay |
| Simulations.Simulation.MoveAll | classes/simulation.py:97-105 | the loop applies every move, one at a time, in any order |
| Simulations.Simulation.MoveNext | classes/simulation.py:97-105 | one more move joins those applied |
| Simulations.Simulation.Advance | classes/simulation.py:98-105 | applying one move on top of the others gives the step of all of them |
| Simulations.Simulation.MoveCell | classes/simulation.py:98-105 | the target takes the occupant; a source that differs from its target first lowers its own-direction distance, then is cleared |
| Simulations.Simulation.ReachedNone | classes/simulation.py:97 | before any move, the corridor is the step of no moves |
| Simulations.Simulation.ReachedAll | classes/simulation.py:97-105 | once all moves are applied, the corridor's grids are the step's |
| Simulations.Simulation.ReachedValues | classes/simulation.py:104-105 | the occupants are `StepValues` |
| Simulations.Simulation.ReachedDistances | classes/simulation.py:101-102 | the distance grids are `StepDistances` |
| Simulations.Simulation.ReachedNeighbourhoods | classes/simulation.py:97-105 | neighbour lists are untouched |
| Simulations.Simulation.Iteration | classes/simulation.py:107-131 | the moves are a consistent step from the occupants before, every agent the source of exactly one move, the corridor after is that step, `populated_cells` is refreshed and there are still `N` agents |
| Simulations.Simulation.Step | classes/simulation.py:112-128 | gather, resolve and execute: the corridor becomes the step of a consistent plan that moves every agent |
| Simulations.Simulation.Plan | classes/simulation.py:112-125 | the resolved plan is consistent with the occupants and its sources are exactly the occupied positions; `targets` are the cells' `find_target_cell` results, and every assigned cell stays where it is or goes to its own destination |
| Simulations.Simulation.Arrange | classes/simulation.py:124-125 | resolving gathered proposals gives a consistent step from every occupied position, each cell staying put or going to its own destination |
| Simulations.Simulation.Planned | classes/simulation.py:112-125 | resolved proposals are a consistent step whose sources are the occupied positions |
| Simulations.Simulation.Refresh | classes/simulation.py:131 | `populated_cells` becomes the corridor's occupied cells, `N` of them |
| Simulations.Simulation.Refreshed | classes/simulation.py:131 | after the step, occupants stay in -1..1 and there are still `N` occupied cells |
| Simulations.Simulation.StepOccupancies | classes/simulation.py:97-105 | a step keeps every occupant in -1..1 |
| Simulations.Simulation.Run | classes/simulation.py:151-169 | after `iters` iterations the corridor still holds `N` agents, as asserted, and the numbers of left-movers and of right-movers are those before |
| Transitions.StepValues | classes/simulation.py:97-105 | the occupant grid after a step has the corridor's shape |
| Transitions.StepValuesAfter | classes/simulation.py:104-105 | each destination holds its source's former occupant, each vacated source is empty, other cells are unchanged |
| Transitions.StepDistances | classes/simulation.py:101-102 | a distance grid after a step has the corridor's shape |
| Transitions.StepDistancesAfter | classes/simulation.py:101-102 | a distance falls by 0.00001 only at a real departure whose mover goes that way |
| Transitions.PopulatedAfter | classes/simulation.py:97-105 | after a step, the occupied positions are the destinations plus the occupied positions no move touched |
| Transitions.Conservation | classes/simulation.py:169 | when every agent is a source of a move, the occupied positions after are the destinations, and there are as many as before |
| Transitions.ConservedAfter | classes/simulation.py:169 | the same for any grid that equals the step cell by cell |
| Transitions.DirectionsConserved | classes/simulation.py:97-105 | no agent changes direction: the numbers of left-movers and of right-movers are each conserved |
| Transitions.HoldingAfter | classes/simulation.py:97-105 | the same for any grid that equals the step cell by cell |
| Transitions.DistancesDecay | classes/simulation.py:101-102 | distances never rise; one falls, by exactly 0.00001, exactly at the source of a real move in the mover's direction |
| Transitions.ImageCard | classes/simulation.py:169 | injective moves map `k` destinations to `k` sources |
| Transitions.ValueAfterOne | classes/simulation.py:103-105 | one move on top of the others: its source is emptied and its destination takes the source's occupant; other cells are as after the others |
| Transitions.DistanceAfterOne | classes/simulation.py:101-102 | one move on top of the others lowers at most its source's distance, and only for a real departure in that direction |
| Transitions.DropDeparture | classes/simulation.py:101 | dropping one move removes exactly its departure |
| Transitions.DropConsistent | classes/simulation.py:97-105 | dropping a move keeps the moves consistent |
| Transitions.RestrictConsistent | classes/simulation.py:97-105 | any subset of consistent moves is consistent |
| Transitions.MoveIsolated | classes/simulation.py:97-105 | neither end of a move is an end of another move |
| Functions.PopInit | functions.py:3-11 | fails at the loop test (`sum` of an integer) exactly when `len_x == 0`; otherwise a `len_x` by `len_y` array of 0s and 1s whose sum never passes `n_pop`; when it finishes the sum is exactly `n_pop` (0 for `n_pop <= 0`, then all zeros) and `n_pop <= len_x * len_y`; it fails at the second draw exactly when agents are requested, `len_x > 0` and `len_y == 0` |
| Functions.Place | functions.py:10 | `pop[x, y] = 1` sets that entry and leaves the others |
| Functions.WriteOne | functions.py:10 | on a 0/1 array, a write keeps it 0/1, raises the sum by 1 on an empty entry and leaves the array unchanged on a set one |
| Functions.SumUpdate | functions.py:7-10 | overwriting one entry changes the sum by the difference |
| Functions.RowSumUpdate | functions.py:7-10 | overwriting one entry of a row changes its sum by the difference |
| Functions.SumBound | functions.py:7 | a `len_x` by `len_y` 0/1 array sums to between 0 and `len_x * len_y` |
| Functions.RowSumBound | functions.py:7 | a 0/1 row sums to between 0 and its length |
| Functions.Sum | functions.py:7 | `sum(sum(pop))`: all entries added up, row by row (its meaning: `SumBound`, `SumUpdate`, `ZeroSum`) |
| Functions.ZeroSum | functions.py:5 | an array of zeros sums to 0 |
| Functions.ZeroRow | functions.py:5 | a row of zeros sums to 0 |

## Left out

- Plotting and animation (`animate`, `plot_snapshot`, `plot_results`, the `plt` calls and saved images in `run`): user interface and file output.
- The order parameter (`calculate_phi_0`, `phi_reduced`, `calculate_lane_formation`, `populate_corridor`): floating-point statistics over random corridors, and the last two are not defined in the files modelled.
- `Lattice.__str__` and `main.py`: printing and a driver script.
- Exit distances: `math.dist` is not modelled. The distances are reals supplied by the caller to `Lattices.Lattice.constructor`.
- Floating-point arithmetic: distances and the 0.00001 decay are exact reals, so rounding is not modelled.
- The random generators' internals: draws come from a caller-supplied stream. `randint` and `choice` are modelled as scaling one draw, which gives their range but not their distribution.
- `get_random_empty_edge_cell`, `get_distance_array`, `is_empty_vectorized` and `get_value_array` are not part of the files modelled. The last three are modelled by their evident meaning (`Cells.DistanceArray`, `Cells.EmptyCells`, `Lattices.Lattice.Values`).
- Lattices.Lattice.GetRandomEmptyEdgeCell: follows the documented behaviour of a method not shown. It takes the straight cell with probability `p` when empty; otherwise it tries rows `x-1..x+1` in random order.
- Simulations.Simulation.FindTargetCell: calls `get_best_neighbor` without the `p` that simulation.py:61 passes. A method without that parameter raises a TypeError there in Python.
- Simulations.Simulation.Run: returns neither the images nor the `phi` values, and states only the final count and the direction counts.
- Simulations.Simulation.ExecuteTimestep: requires moves consistent with the occupants, which `iteration` always supplies. On other input, `populate`'s assertion would fail.
- Cells.Cell.Populate: its two assertions are preconditions, since no modelled path violates them.
- Lattices.Lattice.GetRandomCell: requires a non-empty grid. On an empty one, `random.randint(0, -1)` raises a ValueError.
- Functions.PopInit: takes a bound `fuel` on the number of rounds, which ends the loop when a stream keeps hitting set entries. The Python loop has no bound, and it runs forever when `n_pop > len_x * len_y`. The model gives up with `OutOfFuel` instead.
- Functions.PopInit: `n_pop` is an integer. A fractional `n_pop` (allowed in Python) is not modelled, and numpy's float array is modelled as integers.
- Dictionary order: `execute_timestep` is proved for every order of the moves. `resolve_conflicts` follows the insertion order of the proposals.
- Lattices.Lattice.PopulatedCells: returns `[]` on a lattice with a side of 0, where `get_value_array` (numpy's `vectorize` on an empty array) raises a ValueError. `Simulations.Simulation.Start` models that failure. `Simulations.Simulation.constructor` requires both sides to be at least 1, and so does every simulation (`Valid`).
- Simulations.Simulation.GatherOne: treats `if target_cell:` as a test for `None`. A `Cell` defines no truth value, so every cell is true in Python.

## Findings

| source | as written | input that shows it | evidently intended | confidence | as-written member | corrected member |
|---|---|---|---|---|---|---|
| classes/simulation.py:38-39 | `__init__` deep-copies a lattice whose neighbour lists are already loaded, then calls `load_neighbours` again; `add_neighbor`'s `< 9` assertion (classes/cell.py:54) fails for any cell with five or more neighbours | `Simulation(1, Lattice(3, 2))`: the cell at `(1, 0)` already lists its five neighbours, and the fifth append of the second load finds 9 entries | the copy keeps each cell's neighbourhood once, as `deepcopy` already copies it | not executed | Simulations.Simulation.Start, Simulations.Simulation.ThreeByTwoRejected | Simulations.Simulation.constructor |
