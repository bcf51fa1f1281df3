# hm3 structured-tile core, modelled in Dafny

This project models the indexing and halo-exchange core of hm3, a C++
library for hierarchical Cartesian grids. A grid is a tree of square tiles.
Each tile holds a structured block of cells: `nic` internal cells per axis,
wrapped in `nhl` layers of halo cells. The model covers the following.

- **Tile indices.** The whole-tile and sub-tile loops, the sub-tile
  iteration offsets, and neighbours across a manifold. Also the rings of
  cells around a cell, the closest-cell query and the odometer-style
  sub-tile view.
- **Structured-grid indices.** Linear index ↔ coordinates, moving a cell
  along an axis, internal/halo tests, and the internal and halo
  iterations.
- **Cell coordinates** of a structured grid, which delegate to the tile
  coordinate.
- **Tree relations.** Counts of children, siblings, faces and nodes, and
  the relative-child-position table and its arithmetic fallback.
- **Node neighbours.** The neighbour location of a node and the node found
  there.
- **The halo exchange (`set_halos`).** Copy between tiles at the same
  level, restriction from a finer into a coarser tile, and projection from
  a coarser into a finer tile. The exchange runs as two phases over every
  tile and neighbour.
- **`bounded<T, from, to>`**, an integer tagged with a half-open range.
- **The matrix `bounds` / `max_bounds` specialisations.** Each count is
  fixed by the type or stored at run time.

Each C++ specialisation for 1, 2 and 3 dimensions is modelled by one
dimension-generic enumeration: `Box`, `Stack`, `Ring` and the `Halo*`
functions. This enumeration is the sequence of cells the callback sees, in
the order it sees them. Multiplicity lemmas then state that each cell is
visited exactly once. In-place updates are classes:
- `HaloExchange.HaloState` holds the per-tile cell values.
- `BoundedIntegers.Bounded` holds the value.
- `SubtileViews.SubtileView` holds the current coordinate and the done flag.

Each method on these classes is proved against a specification function,
and the lemmas about that function carry the source's promises.

Where the specification text and the code differ, the model follows the
code. These cases are:
- Projection runs when the tile is coarser than its neighbour (phase 2 of
  `set_halos` tests `tile.level < neighbor_tile.level`). It visits the
  tile's internal cells and calls `project` for those whose centroid lies
  in a halo cell of the neighbour. Which cells `project` writes is an
  assumption of the model (see "## Left out").
- The fully static `max_bounds(int, int)` constructor checks nothing.
- `closest_cell` stops at the first ring that holds a satisfying cell. If
  that ring holds two equally close satisfying cells, the model returns
  `Tie`. In the source this is the undefined case behind the debug
  assertion.
- `closest_cell` seeds the distance with the largest `index_type` value.
  The model tests "no cell found yet" first instead, which gives the same
  result.
- When a ring's corners reach the tile boundary, `offset_if_valid` stops
  moving them. The next ring then scans the boundary faces again, exactly
  as the source does.
- Integers in the model are unbounded. Where wrap-around matters, the
  unsigned 64-bit `uint_t` is written out explicitly
  (`MatrixBounds.ToUint`). This takes `int_t` and `uint_t` to be 64 bits
  wide; the header that defines them is not part of this model.

## Model

| member | source | states |
|---|---|---|
| TileIndices.ForEachExact | include/hm3/structured/square/tile/indices.hpp:31-71 | the whole-tile loops visit every coordinate of the tile exactly once and nothing else, Nc^Nd cells |
| TileIndices.ForEachIndexOrder | include/hm3/structured/square/tile/indices.hpp:31-71 | the n-th visited cell has linear index n, so the 1D loop's `index(i)` is the cell's own index |
| TileIndices.StackLinear | include/hm3/structured/square/tile/indices.hpp:44-71 | the induction step of the index order: the next slowest axis continues the numbering where the inner loops stopped |
| TileIndices.ForEachSubExact | include/hm3/structured/square/tile/indices.hpp:142-185 | under the from/to precondition (lines 73-82) the sub-tile loops visit each cell of [from, to] once, and every visited cell is in the tile |
| TileIndices.Offsets | include/hm3/structured/square/tile/indices.hpp:120-139 | the iteration offsets have length Nd, start with 1 and are never negative |
| TileIndices.OffsetsJump | include/hm3/structured/square/tile/indices.hpp:120-139 | stepping past the end of a row and adding os[1] lands on the next row's first index; adding os[2] after a plane lands on the next plane's first index |
| TileIndices.CountedSubTile | include/hm3/structured/square/tile/indices.hpp:103-113 | the counted loop visits the sub-tile's cells in order, and each counter is the start value plus the distance of the cell's index from the index of `from` |
| TileIndices.CountedRow | include/hm3/structured/square/tile/indices.hpp:107-109 | the innermost counted loop emits row j of plane k with counters tracking the index |
| TileIndices.CountedPlane | include/hm3/structured/square/tile/indices.hpp:106-111 | the middle counted loop emits plane k and leaves the counter at the index after the plane's last row |
| TileIndices.SubTileIsStack | include/hm3/structured/square/tile/indices.hpp:171-185 | the 3D sub-tile loop nest is a stack of planes, each a stack of rows |
| TileIndices.CountedSubTileAsDocumented | include/hm3/structured/square/tile/indices.hpp:103-113 | the documented loop (counter starts at 0) emits counter 0 for `from`, and every counter is index minus index(from) |
| TileIndices.DocumentedCounterIsOff | include/hm3/structured/square/tile/indices.hpp:103-113 | for Nc = 2 and from = to = (1,0,0) the precondition holds, the iteration visits the cell (1,0,0) first and exactly once, and its index is 1. The documented counter, whose first value `CountedSubTileAsDocumented` fixes at 0, gives it 0 |
| TileIndices.CountedSubTileIndexed | include/hm3/structured/square/tile/indices.hpp:103-113 | with the counter started at index(from), every counter equals the visited cell's linear index |
| TileIndices.ForEachNeighbor | include/hm3/structured/square/tile/indices.hpp:187-207 | the loop over the manifold scales each offset by dist, and keeps the shifted cell only when it lies in the tile |
| TileIndices.NeighborsSound | include/hm3/structured/square/tile/indices.hpp:187-207 | every reported neighbour is in the tile and is x shifted by dist times some manifold offset |
| TileIndices.NeighborsComplete | include/hm3/structured/square/tile/indices.hpp:187-207 | every manifold offset that keeps the shifted cell inside the tile is reported |
| TileRings.RingMultiplicity | include/hm3/structured/square/tile/indices.hpp:232-334 | under the ring precondition the ring loops visit each cell of [from, to] within w cells of a face exactly once, and nothing else |
| TileRings.RingMultiplicity1 | include/hm3/structured/square/tile/indices.hpp:244-255 | the 1D ring: the lower and upper w + 1 cells, each once |
| TileRings.LayersMultiplicity | include/hm3/structured/square/tile/indices.hpp:257-334 | one more axis: lower and upper slabs of the full box plus the inner ring on the middle layers visit each near-face cell once |
| TileRings.RingMembership | include/hm3/structured/square/tile/indices.hpp:232-334 | a cell is in the ring iff it has the box's dimension, lies in the box and is within w of a face |
| TileRings.RingDistinct | include/hm3/structured/square/tile/indices.hpp:232-334 | the ring loops never visit a cell twice |
| TileRings.CornersStep | include/hm3/structured/square/tile/indices.hpp:357-378 | moving min and max with offset_if_valid(-1) and (+1) gives the clamped corners of the next ring |
| TileRings.CornersRingOk | include/hm3/structured/square/tile/indices.hpp:357-378 | with at least two cells per axis every ring's clamped corners meet the ring precondition and are valid coordinates |
| TileRings.RingCellsValid | include/hm3/structured/square/tile/indices.hpp:361-363 | every scanned ring cell is a valid coordinate, so the callback's `i` test always passes |
| TileRings.CountAtAtMostOne | include/hm3/structured/square/tile/indices.hpp:362-373 | no tie at distance dd iff at most one satisfying scanned cell has that distance |
| TileRings.ScanRing | include/hm3/structured/square/tile/indices.hpp:361-373 | the callback over one ring: no best cell iff nothing satisfies p; otherwise the best is a closest satisfying cell, and the tie counter is 0 iff it is the unique closest |
| TileRings.ScanTie | include/hm3/structured/square/tile/indices.hpp:364-365 | an equally close satisfying cell increments the tie counter and keeps the scan invariant |
| TileRings.ScanCloser | include/hm3/structured/square/tile/indices.hpp:366-369 | a strictly closer satisfying cell becomes the best and resets the counter, keeping the invariant |
| TileRings.ScanSkipNone | include/hm3/structured/square/tile/indices.hpp:362-363 | before any match, a cell failing p leaves the scan invariant intact |
| TileRings.ScanSkipSome | include/hm3/structured/square/tile/indices.hpp:362-370 | after a match, a failing or farther cell leaves the scan invariant intact |
| TileRings.ScanOutcome | include/hm3/structured/square/tile/indices.hpp:372-375 | after the whole ring, the counter is 0 exactly when the closest satisfying cell is unique |
| TileRings.RingScanned | include/hm3/structured/square/tile/indices.hpp:360-379 | one ring after no earlier match: no best cell extends "no match yet" by one ring, a best cell answers the query with that ring |
| TileRings.ClosestCell | include/hm3/structured/square/tile/indices.hpp:340-382 | rings 1, 2, … up to max distance are scanned. NotFound means no ring up to that distance holds a satisfying cell. Otherwise the result is a closest satisfying cell of the first ring holding one, Found when it is unique and Tie otherwise |
| TileRings.ClosestCellInTile | include/hm3/structured/square/tile/indices.hpp:350-353 | without an explicit distance the search runs up to the tile length: NotFound means no ring of radius up to nc holds a satisfying cell. Otherwise the answer comes from the first ring that holds one, with radius at most nc |
| TileCoordinate.OffsetIfValidValid | include/hm3/structured/square/tile/indices.hpp:357-358 | offset_if_valid keeps a valid coordinate valid and moves each axis by o or not at all |
| TileCoordinate.ShiftedLinear | include/hm3/structured/square/tile/indices.hpp:201-204 | shifting by dist times an offset moves the linear index by dist times the offset's linear value |
| TileCoordinate.Dist2Zero | include/hm3/structured/square/tile/indices.hpp:363 | the squared distance vanishes exactly between equal coordinates |
| SubtileViews.SubtileView.constructor | include/hm3/structured/square/tile/indices.hpp:433-435 | a view starts at `from`, not done |
| SubtileViews.SubtileView.Next | include/hm3/structured/square/tile/indices.hpp:406-417 | the first axis below its top is incremented and all faster axes reset to `from`; when every axis is at its top the view wraps to `from` and is done |
| SubtileViews.SubtileView.Drain | include/hm3/structured/square/tile/indices.hpp:392-441 | reading and advancing a fresh view until done yields the odometer chain from `from` to `to` |
| SubtileViews.ChainIsBox | include/hm3/structured/square/tile/indices.hpp:406-423 | the odometer chain is unique and is the box enumeration, the same cells in the same order as the sub-tile for_each |
| SubtileViews.BoxChain | include/hm3/structured/square/tile/indices.hpp:406-423 | along the box enumeration each cell's successor is the next cell and the last has none |
| SubtileViews.SuccIncrements | include/hm3/structured/square/tile/indices.hpp:406-417 | the successor increments the first axis below its top and resets the faster axes |
| SubtileViews.SuccAtTop | include/hm3/structured/square/tile/indices.hpp:406-423 | at the top corner there is no successor and the view resets to `from` |
| SubtileViews.DrainStep | include/hm3/structured/square/tile/indices.hpp:406-423 | one step of the consumer: `done` is raised exactly after the chain's last cell |
| StructuredGrid.Indices.FromCoords | include/hm3/solver/utility/structured_grid.hpp:108-131 | the linear index of in-tile coordinates is i + cpl·j + cpl²·k and is below size() |
| StructuredGrid.Indices.FromIndex | include/hm3/solver/utility/structured_grid.hpp:133-158 | the coordinates of an index by / and %, with the index kept |
| StructuredGrid.Indices.CoordsRoundTrip | include/hm3/solver/utility/structured_grid.hpp:108-158 | coordinates → index → coordinates is the identity for in-tile coordinates |
| StructuredGrid.Indices.IndexRoundTrip | include/hm3/solver/utility/structured_grid.hpp:108-158 | index → coordinates → index is the identity for indices below size() |
| StructuredGrid.Indices.IsInternal | include/hm3/solver/utility/structured_grid.hpp:161-172 | a cell is internal iff every coordinate is in [internal_begin, internal_end) |
| StructuredGrid.Indices.IsHalo | include/hm3/solver/utility/structured_grid.hpp:174-176 | a cell is halo iff it is not internal |
| StructuredGrid.Indices.At | include/hm3/solver/utility/structured_grid.hpp:178-185 | moving along axis d changes that coordinate by offset and the index by offset·cpl^d |
| StructuredGrid.Indices.AtIndex | include/hm3/solver/utility/structured_grid.hpp:187-189 | the same move starting from a linear index |
| StructuredGrid.Indices.AtOffsets | include/hm3/solver/utility/structured_grid.hpp:191-205 | moving by an offset vector, one axis at a time, adds the offset's linear value to the index |
| StructuredGrid.Indices.ForEachInternalExact | include/hm3/solver/utility/structured_grid.hpp:215-234 | for_each_internal visits every internal cell exactly once, nic^Nd cells |
| StructuredGrid.Indices.RangesPartition | include/hm3/solver/utility/structured_grid.hpp:50-69 | left halos, internal range and right halos partition [0, cells_per_length) |
| StructuredGrid.Indices.ForEachHaloExact | include/hm3/solver/utility/structured_grid.hpp:236-308 | the corrected halo iteration visits each halo cell exactly once and no internal cell, in 1, 2 and 3 dimensions |
| StructuredGrid.Indices.ForEachHaloLowDim | include/hm3/solver/utility/structured_grid.hpp:236-259 | in 1D and 2D the source's for_each_halo is already the exact iteration |
| StructuredGrid.Indices.ForEachHaloAsWritten3D | include/hm3/solver/utility/structured_grid.hpp:261-308 | in 3D the source visits every halo cell once, plus the right-side halo cells a second time |
| StructuredGrid.ForEachHaloAsWrittenDuplicate | include/hm3/solver/utility/structured_grid.hpp:291-307 | with nic, nhl ≥ 1 the 3D cell (internal_end, nhl, nhl) is visited twice |
| StructuredGrid.Halo2Multiplicity | include/hm3/solver/utility/structured_grid.hpp:242-259 | the 2D bottom/sides/top blocks hold each halo cell once |
| StructuredGrid.Halo3Multiplicity | include/hm3/solver/utility/structured_grid.hpp:261-301 | front, back, bottom, top and the two side blocks hold each 3D halo cell once |
| CellCoordinates.IsInternal | include/hm3/grid/structured/cell_coordinate.hpp:36-44 | internal iff every component is in [first_internal, last_internal]; it agrees with the grid's internal test |
| CellCoordinates.IsHalo | include/hm3/grid/structured/cell_coordinate.hpp:47 | halo iff some component lies outside the internal range |
| CellCoordinates.ConstantCoordinate | include/hm3/grid/structured/cell_coordinate.hpp:50-52 | every component equals i; it is a tile cell iff i is in range, internal iff i is in the internal range |
| CellCoordinates.FromIndex | include/hm3/grid/structured/cell_coordinate.hpp:55 | the grid's own index-to-coordinate conversion |
| CellCoordinates.OffsetAxis | include/hm3/grid/structured/cell_coordinate.hpp:57-59 | only axis d moves, by o, and the linear index moves by o·cpl^d |
| CellCoordinates.OffsetVector | include/hm3/grid/structured/cell_coordinate.hpp:61-63 | every axis moves by its own component; the index moves by the offset's linear value |
| CellCoordinates.OffsetScalar | include/hm3/grid/structured/cell_coordinate.hpp:65-67 | every axis moves by o; the index moves by o times the linear value of (1, …, 1) |
| CellCoordinates.OffsetIfValidCoordinate | include/hm3/grid/structured/cell_coordinate.hpp:69-71 | the result stays a tile cell and each axis moved by o or not at all |
| CellCoordinates.OffsetAxisMatchesAt | include/hm3/grid/structured/cell_coordinate.hpp:57-59 | inside the tile the coordinate's axis move and the grid's `at` give the same cell and index |
| TreeRelations.NoChildren | include/hm3/grid/hierarchical/tree/relations/tree.hpp:35-37 | a node has 2^ad children |
| TreeRelations.ChildrenAndSiblings | include/hm3/grid/hierarchical/tree/relations/tree.hpp:47-60 | siblings = children = nodes at level 1 = nodes sharing the full face |
| TreeRelations.UniformLevelRecurrence | include/hm3/grid/hierarchical/tree/relations/tree.hpp:102-105 | level 0 has one node, each level multiplies by the number of children, level L has 2^(ad·L) |
| TreeRelations.SharingFaceAtLevel | include/hm3/grid/hierarchical/tree/relations/tree.hpp:58-78 | zero when m > ad, one at level 0, otherwise 2^(m·level); at m = ad it is the uniform-level count |
| TreeRelations.FacesOfCubeAndSquare | include/hm3/grid/hierarchical/tree/relations/tree.hpp:87-91 | a cube has 8 corners, 12 edges, 6 faces; a square 4 corners and 4 edges; no face of higher dimension |
| TreeRelations.FacesRecurrence | include/hm3/grid/hierarchical/tree/relations/tree.hpp:87-91 | the face counts obey the hypercube recurrence; corners = children; one face of full dimension |
| TreeRelations.NoNodesUntilUniformLevel | include/hm3/grid/hierarchical/tree/relations/tree.hpp:116-123 | the accumulating loop returns the sum of the level counts 0..L, which satisfies (K−1)·S = K^(L+1) − 1 |
| TreeRelations.NodesUpToLevelClosedForm | include/hm3/grid/hierarchical/tree/relations/tree.hpp:116-123 | the geometric-series closed form of the accumulated count |
| TreeRelations.NodesUpToLevelIncreasing | include/hm3/grid/hierarchical/tree/relations/tree.hpp:116-123 | refining one more level always adds nodes |
| TreeRelations.RelativeChildPosition | include/hm3/grid/hierarchical/tree/relations/tree.hpp:130-205 | the table entry of child p has +1 on axis d iff bit d of p is set, −1 otherwise |
| TreeRelations.RelativeChildPositionArithmetic | include/hm3/grid/hierarchical/tree/relations/tree.hpp:206-212 | the fallback loop builds the ±1 offset from the bits of p and equals the table for 1, 2, 3 dimensions |
| TreeRelations.TableMatchesArithmetic | include/hm3/grid/hierarchical/tree/relations/tree.hpp:135-164 | every literal table entry equals the arithmetic fallback |
| TreeRelations.PositionOfBitOffsets | include/hm3/grid/hierarchical/tree/relations/tree.hpp:206-212 | reading the offset back gives the child position (injective) |
| TreeRelations.BitOffsetsOfPosition | include/hm3/grid/hierarchical/tree/relations/tree.hpp:206-212 | every ±1 offset is the offset of exactly one child position (surjective) |
| TreeRelations.TableIsBijection | include/hm3/grid/hierarchical/tree/relations/tree.hpp:135-164 | the table lists 2^ad distinct ±1 offsets and contains every ±1 offset |
| NodeNeighbors.ShiftLocation | include/hm3/grid/hierarchical/tree/algorithm/node_neighbor.hpp:23-27 | the shifted location keeps the level and moves each anchor coordinate by the offset, and is absent exactly when it leaves the level's domain |
| NodeNeighbors.NeighborLocation | include/hm3/grid/hierarchical/tree/algorithm/node_neighbor.hpp:23-27 | the location of neighbour position p is the shift by the manifold's p-th offset |
| NodeNeighbors.NodeNeighborLocation | include/hm3/grid/hierarchical/tree/algorithm/node_neighbor.hpp:33-41 | the neighbour location of node n is the neighbour location of n's location, at n's level |
| NodeNeighbors.NodeAt | include/hm3/grid/hierarchical/tree/algorithm/node_neighbor.hpp:46-54 | node_at finds a node with exactly that location, and nothing iff no node has it |
| NodeNeighbors.NeighborAt | include/hm3/grid/hierarchical/tree/algorithm/node_neighbor.hpp:46-54 | no neighbour iff the location leaves the domain or holds no node |
| NodeNeighbors.NeighborOf | include/hm3/grid/hierarchical/tree/algorithm/node_neighbor.hpp:60-68 | the neighbour of node n is the neighbour at n's location |
| NodeNeighbors.NodeAtUnique | include/hm3/grid/hierarchical/tree/algorithm/node_neighbor.hpp:46-54 | in a tree with distinct locations, node_at of a node's location is that node |
| NodeNeighbors.ShiftBack | include/hm3/grid/hierarchical/tree/algorithm/node_neighbor.hpp:23-27 | shifting by the opposite offset returns to the start |
| NodeNeighbors.NeighborOpposite | include/hm3/grid/hierarchical/tree/algorithm/node_neighbor.hpp:60-68 | neighbours in opposite positions undo each other |
| HaloExchange.CopyHalosAt | include/hm3/solver/fv/algorithm/set_halos.hpp:49-61 | after the copy a visited halo cell whose centroid lies in a neighbour internal cell holds that cell's value; every other cell is unchanged |
| HaloExchange.CopyReadsInternals | include/hm3/solver/fv/algorithm/set_halos.hpp:49-61 | the copy reads only the neighbour's internal cells |
| HaloExchange.CopyHalosFrame | include/hm3/solver/fv/algorithm/set_halos.hpp:49-61 | the copy writes only visited halo cells |
| HaloExchange.RestrictHalosFrame | include/hm3/solver/fv/algorithm/set_halos.hpp:63-76 | restriction changes only the tile's visited halo cells, given the model's assumption that `restrict` writes only the halo cell it is handed |
| HaloExchange.RestrictOnlyLocated | include/hm3/solver/fv/algorithm/set_halos.hpp:63-76 | restrict is called on exactly the halo cells whose centroid lies in a neighbour internal cell, in visiting order |
| HaloExchange.ProjectInternalsFrame | include/hm3/solver/fv/algorithm/set_halos.hpp:78-95 | projection changes only the neighbour's halo cells; this follows from the `Setup.Valid` clause that every update `project` returns names halo cells only |
| HaloExchange.ProjectOnlyOverlapping | include/hm3/solver/fv/algorithm/set_halos.hpp:78-95 | project is called on exactly the internal cells whose centroid lies in a neighbour halo cell, in visiting order |
| HaloExchange.Step1Frame | include/hm3/solver/fv/algorithm/set_halos.hpp:104-111 | a phase-1 step changes only halo cells of the pair's tile, given that `restrict` writes only the halo cell it is handed |
| HaloExchange.Step2Frame | include/hm3/solver/fv/algorithm/set_halos.hpp:117-122 | a phase-2 step changes only halo cells of the pair's neighbour, given the `Setup.Valid` clause that `project`'s updates name halo cells only |
| HaloExchange.Phase1KeepsInternals | include/hm3/solver/fv/algorithm/set_halos.hpp:100-112 | phase 1 never changes a cell outside the halos, given that `restrict` writes only the halo cell it is handed |
| HaloExchange.Phase2KeepsInternals | include/hm3/solver/fv/algorithm/set_halos.hpp:114-123 | phase 2 never changes a cell outside the halos, given the `Setup.Valid` clause that `project`'s updates name halo cells only |
| HaloExchange.ExchangeKeepsInternals | include/hm3/solver/fv/algorithm/set_halos.hpp:97-124 | the exchange sets halo cells only and every internal cell keeps its value, given the two write-target assumptions on `restrict` and `project` |
| HaloExchange.CopiesCommute | include/hm3/solver/fv/algorithm/set_halos.hpp:104-107 | two same-level copies into different tiles commute |
| HaloExchange.Phase1Concat | include/hm3/solver/fv/algorithm/set_halos.hpp:102-112 | phase 1 over two lists of pairs is phase 1 over the first, then over the second |
| HaloExchange.Phase2Concat | include/hm3/solver/fv/algorithm/set_halos.hpp:115-123 | the same for phase 2 |
| HaloExchange.Pass1Step | include/hm3/solver/fv/algorithm/set_halos.hpp:102-112 | phase 1 over tiles 0..k is phase 1 over tiles 0..k−1, then over tile k's pairs |
| HaloExchange.Pass2Step | include/hm3/solver/fv/algorithm/set_halos.hpp:115-123 | the same for phase 2 |
| HaloExchange.HaloState.CopyInternalCells | include/hm3/solver/fv/algorithm/set_halos.hpp:49-61 | the tile's values become the copy from the neighbour; nothing else changes |
| HaloExchange.HaloState.RestrictInternalCells | include/hm3/solver/fv/algorithm/set_halos.hpp:63-76 | the values become the restriction over the tile's halo cells |
| HaloExchange.HaloState.ProjectInternalCells | include/hm3/solver/fv/algorithm/set_halos.hpp:78-95 | the values become the projection over the tile's internal cells: each overlapping cell's update is applied to the neighbour |
| HaloExchange.HaloState.CopyAndRestrictTile | include/hm3/solver/fv/algorithm/set_halos.hpp:103-111 | the inner loop of phase 1 applies phase 1 to tile t's pairs in neighbour order |
| HaloExchange.HaloState.CopyAndRestrictPass | include/hm3/solver/fv/algorithm/set_halos.hpp:100-112 | the first loop applies phase 1 to every tile's pairs in order |
| HaloExchange.HaloState.ProjectTile | include/hm3/solver/fv/algorithm/set_halos.hpp:116-122 | the inner loop of phase 2 applies phase 2 to tile t's pairs |
| HaloExchange.HaloState.ProjectPass | include/hm3/solver/fv/algorithm/set_halos.hpp:114-123 | the second loop applies phase 2 to every tile's pairs in order |
| HaloExchange.HaloState.SetHalos | include/hm3/solver/fv/algorithm/set_halos.hpp:97-124 | the new values are the exchange of the old: phase 2 after phase 1, over all pairs |
| BoundedIntegers.Bounded.constructor | include/hm3/utility/bounded.hpp:18-21 | construction stores the value, which must lie in [from, to) |
| BoundedIntegers.Bounded.Default | include/hm3/utility/bounded.hpp:18-21 | default construction stores `from` |
| BoundedIntegers.Bounded.Get | include/hm3/utility/bounded.hpp:23-32 | operator* returns the value, which lies in [from, to) |
| BoundedIntegers.Bounded.Equal | include/hm3/utility/bounded.hpp:43-46 | equal iff the values are equal |
| BoundedIntegers.Bounded.NotEqual | include/hm3/utility/bounded.hpp:47-50 | different iff the values differ |
| BoundedIntegers.Bounded.Less | include/hm3/utility/bounded.hpp:52-55 | ordered by value |
| BoundedIntegers.Bounded.Greater | include/hm3/utility/bounded.hpp:56-59 | ordered by value |
| BoundedIntegers.Bounded.LessEq | include/hm3/utility/bounded.hpp:60-63 | ordered by value |
| BoundedIntegers.Bounded.GreaterEq | include/hm3/utility/bounded.hpp:64-67 | ordered by value |
| BoundedIntegers.ComparisonsConsistent | include/hm3/utility/bounded.hpp:43-67 | exactly one of <, ==, > holds; != , <=, >= agree with them; a < b iff b > a |
| BoundedIntegers.Bounded.Increment | include/hm3/utility/bounded.hpp:69-75 | pre-increment adds one and the result must stay in range |
| BoundedIntegers.Bounded.PostIncrement | include/hm3/utility/bounded.hpp:77-84 | post-increment returns a fresh copy of the old value and adds one |
| BoundedIntegers.Bounded.AddAssign | include/hm3/utility/bounded.hpp:91-97 | += adds the other's value; the sum must stay in range |
| BoundedIntegers.Bounded.SubAssign | include/hm3/utility/bounded.hpp:99-105 | −= subtracts the other's value; the difference must stay in range |
| BoundedIntegers.Rng | include/hm3/utility/bounded.hpp:37-41 | rng() lists from, from + 1, …, to − 1 |
| BoundedIntegers.RngExact | include/hm3/utility/bounded.hpp:37-41 | rng() holds exactly the in-range values, increasing |
| MatrixBounds.ToUint | include/hm3/math/matrix/bounds.hpp:15-21 | the cast to uint_t is the value modulo 2^64 |
| MatrixBounds.Dims.Size | include/hm3/math/matrix/bounds.hpp:21 | size() is rows·cols in uint_t, exact when the counts are non-negative and the product fits |
| MatrixBounds.DefaultDims | include/hm3/math/matrix/bounds.hpp:42-54 | default construction stores 0 for every dynamic count |
| MatrixBounds.Construct | include/hm3/math/matrix/bounds.hpp:40-104 | a dynamic extent reports the stored argument cast to uint_t. A fixed extent reports the type's count cast to uint_t, except the column count of a type with dynamic rows, which is the signed template argument itself |
| MatrixBounds.BoundsRoundTrip | include/hm3/math/matrix/bounds.hpp:13-105 | bounds built from valid counts report them, with size rows·cols modulo 2^64, in every specialisation |
| MatrixBounds.MaxBoundsRoundTrip | include/hm3/math/matrix/bounds.hpp:107-202 | max_bounds of a partly dynamic type report their arguments; the fully fixed one reports the type's counts |
| MatrixBounds.FixedMaxBoundsUnchecked | include/hm3/math/matrix/bounds.hpp:126 | the fully fixed max_bounds accepts arguments that bounds would reject |
| MatrixBounds.UncastColumnCount | include/hm3/math/matrix/bounds.hpp:13-47 | `bounds<dynamic, -2>` reports −2 columns, `bounds<-2, -2>` reports 2^64−2, and both sizes use the converted count |
| MatrixBounds.NegativeCountWraps | include/hm3/math/matrix/bounds.hpp:56-61 | a negative run-time count wraps to a huge uint_t count |

## Left out

- I/O, logging, MPI and floating-point geometry are not modelled. Cell centroids, `internal_cell_containing` and `halo_cell_containing` are parameters of `HaloExchange.Setup`.
- The numerics of `restrict` and `project` are not modelled; the restriction and projection operators are not part of this model and are parameters of `HaloExchange.Setup`. The limiter argument only reaches `project` and is part of it.
- HaloExchange.RestrictCell: `restrict` receives the whole state, so the model assumes where it writes. It writes the value it returns into the halo cell it is handed (set_halos.hpp:74 passes `tile_halo_cell`). RestrictHalosFrame, Step1Frame, Phase1KeepsInternals and ExchangeKeepsInternals rest on this assumption.
- HaloExchange.ProjectCell: `project` receives the whole state and not the neighbour's halo cell (set_halos.hpp:93). The model lets it return any update of the neighbour's values. The one assumption, stated in `Setup.Valid`, is that the update names halo cells only. ProjectInternalsFrame, Step2Frame, Phase2KeepsInternals and ExchangeKeepsInternals rest on this assumption. A `project` that also wrote the tile's own cells or internal cells is not modelled.
- The tile coordinate type and its `from`, `constant`, `offset`, `offset_if_valid`, `at`, `index` and `distance_square` are not part of this model; their headers are not among the modelled files. `TileCoordinate` gives them the meaning their uses in the tile indices need: per-axis in-range moves, the linear index and the squared Euclidean distance.
- The structured grid's geometry is not modelled: cell length, centroids, bounding box and `at(point)` use floating point.
- StructuredGrid.Indices: the grid type `square_structured_grid` (structured_grid.hpp:312-463) adds geometry to the indices and requires Nic ≥ Nhl at compile time (line 314). Its indices, which `StructuredGrid.Indices` models, impose no such bound, so the model does not require Nic ≥ Nhl, and its lemmas hold for every Nic and Nhl.
- `bounded` operator+ (include/hm3/utility/bounded.hpp:86-89) is not modelled: its body never returns a value, so it has no meaning to model.
- BoundedIntegers.Bounded: the width of `T` is not modelled, and increments cannot wrap around.
- `node_neighbor`'s `shift_location`, `node_at` and `node_location` are given a simple meaning: a location is a level plus anchor coordinates in [0, 2^level), and the tree is a list of node locations. The interleaved and Morton location encodings are not modelled.
- The `static_assert` dimension checks and the `HM3_ASSERT` argument checks are preconditions (`requires`). The exception is the closest-cell tie assertion, which the result models as `Tie`.
- `node_length_at_level`, `child_centroid` and `child_geometry` (tree.hpp:126-128, 215-253) use floating point and are not modelled.
- `for_each_neighbor` over all manifolds (indices.hpp:209-223) is the single-manifold iteration repeated once per manifold. It has no separate member.
- TreeRelations.NoNodesSharingFaceAtLevel, TreeRelations.NoNodesAtUniformLevel and TreeRelations.NodesUpToLevel (`no_nodes_sharing_face_at_level`, `no_nodes_at_uniform_level`, `no_nodes_until_uniform_level`, tree.hpp:73, 100, 114) are modelled on unbounded integers. Their `nidx_t` results wrap for deep levels, and the model does not capture that wrap. The same holds for the `npidx_t`/`cpidx_t` counts (`no_children`, `no_siblings`, `no_nodes_sharing_face`, `no_faces`); the model gives them their exact values. The width of these index types is set in headers that are not part of this model.
- `sub_tile` (indices.hpp:438-441) only constructs a view, which `SubtileViews.SubtileView.constructor` models. The view assumes from ≤ to on every axis, as the sub-tile loops require.

## Findings

| source | as written | input that shows it | evidently intended | confidence | as-written member | corrected member |
|---|---|---|---|---|---|---|
| include/hm3/solver/utility/structured_grid.hpp:291-307 | the 3D `for_each_halo` runs the right-side halo block twice: once under "side left" and again as "side right" | Nd = 3, Nic = 1, Nhl = 1: cell (2, 1, 1) is passed to the callback twice | every halo cell visited exactly once, as in 1D and 2D | high (not executed) | StructuredGrid.ForEachHaloAsWrittenDuplicate | StructuredGrid.Indices.ForEachHaloExact |
| include/hm3/structured/square/tile/indices.hpp:103-113 | the documented counted loop starts the counter at 0, so `index(c)` is the offset from `from` rather than the cell index | Nc = 2, from = to = (1, 0, 0): the only cell has index 1 but receives counter 0 | the counter starts at the index of `from` | medium (not executed; documentation only) | TileIndices.DocumentedCounterIsOff | TileIndices.CountedSubTileIndexed |
