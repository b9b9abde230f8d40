# Dungeon generator — verified model

This project models, in Dafny, the core of a procedural dungeon-map
generator and of its map export.

**Rooms** (`generateRooms`, with its helper `findSplit`)
- The map is cut by binary space partitioning: a FIFO queue of rectangles is split along the longer side at a random point.
- A rectangle that admits no split point moves to a pool of small rooms.
- Every candidate is then shrunk by half the padding and sorted by area. The largest `roomCount` are kept.

**Tiles** (`generateTiles`)
- The kept rooms are marked as floor.
- The floor is labeled by a depth-first search with an explicit stack. Two floor tiles get the same id exactly when a path of 4-adjacent floor tiles joins them.
- Per-room statistics are gathered: size, centroid and last tile.
- A tree over the rooms is built with Prim's algorithm on centroid distances.
- Every statistics entry whose size is above the average gains at most one extra edge, to the nearest room it has no edge with. Entry 0 is included. It holds the tiles of no room and keeps raw coordinate sums, because only entries from 1 on are averaged. So room 0 can gain an edge and then becomes a hallway target.
- For each room, a first-in first-out search from its last tile gives every cell a path value. A walk back from the least-valued tile of each target room carves a hallway.

**Walls** (the `exportMap` wall pass)
- The scan is meant to emit a unit wall on every edge between a tile that is on and one that is off. As written, its loops stop one short in both directions (Map.js:36-37). So the right edges of the tiles in the last row and the lower edges of the tiles in the last column are never checked (see "## Findings"). The model proves what the scan as written emits, and builds the export on the corrected scan.
- Vertical and horizontal walls are filtered apart, each stably sorted by the larger endpoint, and greedily merged when they share a line and an endpoint.

**Modules**
- `StableSort`: the stable sort that `Array.prototype.sort` performs with a `key(b) - key(a)` comparator. It is specified as an insertion sort on sequences, and an in-place array sort is proved equal to it.
- `Partition`: `generateRooms`. The random source is injected as `rand`.
- `Tiles`: the grid and the marking of the rooms.
- `Labeling`: the component labeling.
- `RoomStats`: the statistics and the distance table.
- `RoomGraph`: Prim's tree and the extra edges.
- `Hallways`: the search and the walk back for one room.
- `HallwayPass`: the loop over all rooms.
- `Generate`: `generateTiles` from end to end.
- `Walls`: the wall export.

**How state is modelled**
- Grids are `array2`s, and the methods change them in place.
- Their contracts are stated over value snapshots of the grid (`Tiles.Snap`, `Hallways.DSnap`).

**Behaviour of the code worth noting**
- Prim's loop (generationUtils.js:244) runs while fewer than `roomStats.length - 1` rooms are visited. `roomStats` has one entry per room plus entry 0, so this is "fewer than R": the loop visits all R rooms, as `RoomGraph.Prim` proves.
- The path search takes cells from the back of its array with `pop` (generationUtils.js:332) and adds new ones at the front with `unshift` (generationUtils.js:350), so it is first-in first-out.
- In the corridor pass, an edge is handled by the pass of its smaller end that is a room id (≥ 1). Room 0 can be a "large room" and so an edge end.

## Model

| member | source | states |
|---|---|---|
| Partition.HalfPadding | client/src/features/map/generationUtils.js:27 | `2 * h` is `padding` or `padding + 1`: the ceiling of half the padding |
| Partition.FindSplit | client/src/features/map/generationUtils.js:30-42 | no split exactly when `range - 2*hp - 2*md <= 0`; otherwise the split leaves at least `hp + md` cells on both sides |
| Partition.FindSplitReachesEvery | client/src/features/map/generationUtils.js:30-42 | every admissible split point is produced by some random draw |
| Partition.SplitX | client/src/features/map/generationUtils.js:77-80 | the two halves of a column cut are adjacent, keep the row bounds, cover the rectangle and do not overlap |
| Partition.SplitY | client/src/features/map/generationUtils.js:69-72 | the same for a row cut |
| Partition.SplitOnce | client/src/features/map/generationUtils.js:62-84 | one queue step splits along the longer side exactly when `findSplit` succeeds; the halves are non-empty and partition the rectangle |
| Partition.InitialSplit | client/src/features/map/generationUtils.js:44-53 | the first cut is along x only when the map is wider than tall; it fails exactly when that dimension leaves no split point; the halves partition the map |
| Partition.SplitWeight | client/src/features/map/generationUtils.js:61-85 | a split lowers the weight of the queue by one (the loop terminates) |
| Partition.SplitKeepsTiling | client/src/features/map/generationUtils.js:68-84 | replacing the front rectangle by its two halves keeps queue plus small rooms a tiling of the map |
| Partition.MoveKeepsTiling | client/src/features/map/generationUtils.js:73-83 | moving the front rectangle to the small rooms keeps the tiling |
| Partition.QueueLighter | client/src/features/map/generationUtils.js:59-85 | taking the front rectangle off the queue, and pushing its two halves when it splits, lowers the queue's weight, so the loop terminates |
| Partition.SplitQueue | client/src/features/map/generationUtils.js:55-85 | the queue and small rooms left are those `Partition.Queue` computes from the start queue, the k-th successful split using the draw `rand(next0 + k)`; they tile the map; every small room is unsplittable; the queue is empty or has reached `roomCount * sparsity` |
| Partition.ShrinkSortTake | client/src/features/map/generationUtils.js:87-110 | the result is exactly the first `roomCount` of the shrunk candidates, stably sorted by area, largest first |
| Partition.GenerateRooms | client/src/features/map/generationUtils.js:15-111 | fails exactly when the initial split fails; otherwise the first cut uses the draw `rand(0)`, the queue loop the draws `rand(1), rand(2), …` as `Partition.Queue` says, and the returned rooms are the largest shrunk rectangles of the resulting tiling of the map |
| Partition.CountAtSorted | client/src/features/map/generationUtils.js:99-102 | sorting does not change how many candidates cover a cell |
| Partition.CountAtShrunk | client/src/features/map/generationUtils.js:91-96 | shrinking never makes a candidate cover a cell it did not cover |
| Partition.LargestShape | client/src/features/map/generationUtils.js:98-108 | the kept rooms are sorted by area and none is smaller than a dropped one; kept plus dropped are a permutation of the shrunk candidates |
| Partition.SortedSplit | client/src/features/map/generationUtils.js:104-108 | cutting a sorted list leaves a sorted head whose areas are all at least those of the tail, and the parts are a permutation of the whole |
| Partition.LargestDisjointInside | client/src/features/map/generationUtils.js:87-110 | the returned rooms lie inside the map and no two share a cell |
| StableSort.SortDescSorted | client/src/components/map/Map.js:76-80 | the sort's result is ordered non-increasingly by key |
| StableSort.SortDescPerm | client/src/components/map/Map.js:76-80 | the sort's result is a permutation of its input |
| StableSort.SortDescStable | client/src/components/map/Map.js:76-80 | elements with equal keys keep their input order |
| StableSort.InsertWithKey | client/src/components/map/Map.js:76-80 | inserting into a sorted list keeps the order of elements with each key |
| StableSort.InsertLast | client/src/components/map/Map.js:76-80 | one insertion step in place: the prefix becomes the insertion of the next element, the rest is unchanged |
| StableSort.SortInPlace | client/src/components/map/Map.js:76-89 | the array ends as the specification sort of its old contents |
| Tiles.NewGrid | client/src/features/map/generationUtils.js:136-145 | a `height` by `width` grid of blank tiles |
| Tiles.MarkRooms | client/src/features/map/generationUtils.js:147-160 | exactly the cells of some room become floor tiles of room 0; the others keep their tiles |
| Tiles.CoveredIff | client/src/features/map/generationUtils.js:148-159 | a cell is covered exactly when some room contains it |
| Labeling.Neighbours | client/src/features/map/generationUtils.js:178-182 | the four neighbours in the order +x, -y, -x, +y, each adjacent |
| Labeling.UnlabeledOf | client/src/features/map/generationUtils.js:184-196 | exactly the neighbours that are unlabeled floor, in order |
| Labeling.PushUnlabeled | client/src/features/map/generationUtils.js:184-196 | the stack gains exactly the unlabeled floor neighbours, in order |
| Labeling.PopKeepsSearchInv | client/src/features/map/generationUtils.js:171-197 | one pop-label-push round keeps the search invariant (stack entries are floor, lower ids stay closed regions, labeled tiles have their floor neighbours labeled or pending) |
| Labeling.SearchRound | client/src/features/map/generationUtils.js:171-197 | one round labels the popped cell and keeps the invariant; a cell popped again pushes nothing |
| Labeling.ReachBack | client/src/features/map/generationUtils.js:171-197 | a path of adjacent floor tiles read backwards is one too |
| Labeling.ReachJoin | client/src/features/map/generationUtils.js:171-197 | two floor paths that meet at a tile join into one |
| Labeling.WalkOneRoom | client/src/features/map/generationUtils.js:171-197 | when labels are closed under floor adjacency, every tile of a floor path has the id of its first tile |
| Labeling.FloodFill | client/src/features/map/generationUtils.js:166-197 | the search gives id `k` to the start tile, changes only unlabeled floor tiles to `k`, leaves the region of `k` closed under floor adjacency, and every tile it gives `k` is joined to the start tile by a floor path |
| Labeling.ScanComplete | client/src/features/map/generationUtils.js:163-200 | after the last column every floor tile is labeled |
| Labeling.LabelColumn | client/src/features/map/generationUtils.js:165-199 | one column of the scan keeps the scan invariant, whose parts include that every tile of id `r` is joined by a floor path to the seed of `r`, and changes only room ids |
| Labeling.LabelRooms | client/src/features/map/generationUtils.js:162-200 | the result labels exactly the floor tiles with ids `1..count`; adjacent floor tiles share ids; every tile of id `r` is joined by a floor path to its seed, the first tile of `r` in column-major order; the seeds, and so the ids, come in column-major scan order |
| Labeling.SameRoomIffReach | client/src/features/map/generationUtils.js:162-200 | after labeling, two floor tiles have the same id exactly when a path of adjacent floor tiles joins them |
| RoomStats.TallyNode | client/src/features/map/generationUtils.js:207-216 | a room's size is positive exactly when a scanned tile carries it, and then its node is the last such tile |
| RoomStats.SizesSum | client/src/features/map/generationUtils.js:207-216 | the room sizes add up to the number of scanned tiles |
| RoomStats.CollectStats | client/src/features/map/generationUtils.js:203-216 | one entry per id `0..count`, each the tally of its room over the whole grid |
| RoomStats.TallyColumn | client/src/features/map/generationUtils.js:208-215 | one column adds each tile to its room's entry |
| RoomStats.Average | client/src/features/map/generationUtils.js:218-221 | entries `1..` become their `Mean`, the sums divided by the size; entry 0 keeps its sums |
| RoomStats.Dist2 | client/src/features/map/generationUtils.js:231-234 | the squared distance is non-negative and zero between equal centroids |
| RoomStats.Dist2Symmetric | client/src/features/map/generationUtils.js:229-238 | the distance is symmetric |
| RoomStats.Distances | client/src/features/map/generationUtils.js:225-239 | every cell `[i, j]` of the table holds the distance between rooms `j` and `i` |
| RoomGraph.NearestPair | client/src/features/map/generationUtils.js:245-262 | the first pair, in loop order, of a visited and an unvisited room at the least distance; `(0, 0)` when there is none |
| RoomGraph.Unvisited | client/src/features/map/generationUtils.js:244 | with fewer than `n - 1` distinct visited rooms, some room of `1..n-1` is unvisited |
| RoomGraph.Prim | client/src/features/map/generationUtils.js:241-265 | starts at room 1, visits every room `1..R` exactly once, and each edge is the choice of its round joining a visited room to the next |
| RoomGraph.WalkTo | client/src/features/map/generationUtils.js:241-265 | each visited room is reached from room 1 by a walk along the edges |
| RoomGraph.PrimSpans | client/src/features/map/generationUtils.js:241-265 | `R - 1` edges, and every visited room is reachable from room 1 along them: a spanning tree |
| RoomGraph.LargeRooms | client/src/features/map/generationUtils.js:267-279 | exactly the entries (0 included) whose size exceeds the average, in increasing order |
| RoomGraph.AboveAverage | client/src/features/map/generationUtils.js:268-276 | `size > total / n` exactly when `size * n > total` |
| RoomGraph.EdgeExists | client/src/features/map/generationUtils.js:286-291 | true exactly when some edge contains both rooms |
| RoomGraph.NearestFreeRoom | client/src/features/map/generationUtils.js:282-299 | the first room at the least distance that has no edge with the large room, or 0 when there is none |
| RoomGraph.ExtraEdges | client/src/features/map/generationUtils.js:281-303 | every large room adds at most one edge, to its nearest free room given the edges added before it |
| RoomGraph.AddedBelow | client/src/features/map/generationUtils.js:300-302 | every added edge joins a table entry to a room `>= 1` |
| HallwayPass.Taken | client/src/features/map/generationUtils.js:310-315 | the positions, in order, of exactly the edges naming the room |
| HallwayPass.ClearFor | client/src/features/map/generationUtils.js:310-315 | exactly the edges naming the room are emptied |
| HallwayPass.CollectTargets | client/src/features/map/generationUtils.js:307-315 | targets are the other ends of the edges naming the room, in edge order, and exactly those edges are emptied |
| HallwayPass.PassRoom | client/src/features/map/generationUtils.js:306-315 | the room whose pass handles an edge is one of its ends: the smaller end that is at least 1, or 0 only when both ends are 0 |
| HallwayPass.NamesIffPass | client/src/features/map/generationUtils.js:306-315 | when a room's pass starts, the edges naming it are exactly the edges it handles |
| HallwayPass.SlotsNext | client/src/features/map/generationUtils.js:306-315 | a pass empties exactly the edges it handles |
| HallwayPass.LinkedNext | client/src/features/map/generationUtils.js:306-408 | a connected pass links every edge it handles with a hallway and keeps earlier links |
| HallwayPass.ConnectPass | client/src/features/map/generationUtils.js:306-406 | the pass is `PassMade` on the grid as it begins: its targets are `TargetsOf` its edges, then one search and the walks back in target order; the carving grows by exactly its walks' cells past the first; it empties exactly its edges; when it connects, its edges are linked and recorded in `via` |
| HallwayPass.ConnectAll | client/src/features/map/generationUtils.js:305-408 | `PassesMade`: the passes of rooms 1, 2, … in order, each made on the grid the earlier passes left, all connected but possibly the last, whose outcome is the result; the grid is the old grid carved at exactly the passes' walk cells past the first, in pass order; when every room connects, each edge has in `via` the walk back, reaching 0, from the entry of its other end into the room of its pass |
| HallwayPass.TakenTargets | client/src/features/map/generationUtils.js:310-315 | the slot scan of room `i`'s pass picks, in edge order, the other ends of exactly the edges the pass handles (`TargetsOf`) |
| HallwayPass.TargetsBelow | client/src/features/map/generationUtils.js:310-315 | the targets a pass collects are `TargetsOf` its edges and are room ids |
| HallwayPass.ViaNext | client/src/features/map/generationUtils.js:306-406 | a connected pass records, for each edge it handles, its walk back from the target's entry, reaching 0; the records of earlier passes stay |
| HallwayPass.PassesNext | client/src/features/map/generationUtils.js:305-406 | a connected pass made on the grid the earlier passes left is logged after them, and the carving grows by its walks' cells past the first |
| HallwayPass.PassesFail | client/src/features/map/generationUtils.js:305-406 | a pass that does not connect ends the run with its outcome, its carving included |
| HallwayPass.PassesAll | client/src/features/map/generationUtils.js:305-408 | connected passes for all rooms `1..n-1` make the whole run, connected |
| Hallways.Lower | client/src/features/map/generationUtils.js:353-359 | a neighbour's value becomes finite and only that cell changes |
| Hallways.Note | client/src/features/map/generationUtils.js:362-370 | only the neighbour's room entry may change, to the neighbour when its value is smaller |
| Hallways.Visit | client/src/features/map/generationUtils.js:345-371 | one neighbour: queue, value and target entry updated as `Enqueue`, `Lower`, `Note` |
| Hallways.VisitLeast | client/src/features/map/generationUtils.js:362-370 | after one visit, every set target entry still has the least value among the valued tiles of its room |
| Hallways.VisitKeeps | client/src/features/map/generationUtils.js:345-371 | one visit keeps the search invariant |
| Hallways.VisitAll | client/src/features/map/generationUtils.js:344-372 | after the four visits, every neighbour of the popped cell has a value |
| Hallways.SearchRound | client/src/features/map/generationUtils.js:331-373 | one pop keeps the invariant and shrinks the unvalued cells or the queue |
| Hallways.StartSearch | client/src/features/map/generationUtils.js:326-330 | all values infinite but the source tile's 0; the source is queued |
| Hallways.Spread | client/src/features/map/generationUtils.js:331-373 | a closed set of valued cells holding one cell holds the whole grid |
| Hallways.Search | client/src/features/map/generationUtils.js:325-373 | every cell ends with a finite value, 0 exactly on the tiles of the room; every set target entry names a tile of its room whose value is the entry's, and no tile of that room has a smaller value; every room with a tile other than the source gets its entry set |
| Hallways.Explore | client/src/features/map/generationUtils.js:317-373 | fresh unset target entries, then every cell valued, 0 exactly on the room's tiles, every set entry a least-valued tile of its room, and every room with a tile other than the source noted |
| Hallways.NextStep | client/src/features/map/generationUtils.js:382-401 | the neighbour found is `FirstDown`: the first in +x, -y, -x, +y order that lies in the grid and has the value one less than the current one; none found exactly when no neighbour has that value |
| Hallways.Carve | client/src/features/map/generationUtils.js:395-397 | a carved tile is floor and keeps its room |
| Hallways.CarveAt | client/src/features/map/generationUtils.js:381-405 | exactly the listed cells are carved |
| Hallways.CarveStep | client/src/features/map/generationUtils.js:395-397 | carving one more cell extends the carved list |
| Hallways.WalkStep | client/src/features/map/generationUtils.js:382-404 | a step goes to the neighbour `FirstDown` picks, extends the walk under way and carves the new cell; when there is none the grid is unchanged |
| Hallways.WalkTurn | client/src/features/map/generationUtils.js:381-404 | one turn of the `while (distance > 0)` loop: the value drops and the walk grows by the carved cell, or the value stays and no neighbour is one step down |
| Hallways.WalkingStep | client/src/features/map/generationUtils.js:389-400 | a step to the cell `FirstDown` picks extends a greedy descending walk under way, and the carved cells grow by that cell |
| Hallways.DescendsStep | client/src/features/map/generationUtils.js:389-400 | a step to the cell `FirstDown` picks keeps a walk descending by one per step and greedy |
| Hallways.WalkingDone | client/src/features/map/generationUtils.js:381-404 | a walk under way that is at value 0, or has no neighbour one step down, is a whole walk back, and it ends at 0 exactly when its value is 0 |
| Hallways.StopsAtEnd | client/src/features/map/generationUtils.js:381-404 | a walk back stops (value 0, or no neighbour one step down) only at its last cell |
| Hallways.WalkPrefix | client/src/features/map/generationUtils.js:381-404 | two walks back from the same cell agree on every position both have |
| Hallways.WalkNotShorter | client/src/features/map/generationUtils.js:381-404 | a walk back is no shorter than another walk back from the same cell, since neither can stop where the other goes on |
| Hallways.WalkUnique | client/src/features/map/generationUtils.js:376-405 | the walk back is determined by its first cell: two walks back from the same cell are equal |
| Hallways.WalkBack | client/src/features/map/generationUtils.js:376-405 | the path is the walk back from the start cell: each step goes to the first neighbour, in +x, -y, -x, +y order, whose value is one less, and it stops at value 0 or where no neighbour is one step down (where the source spins); `reached` exactly when it ends at 0; the grid is carved at exactly the path's cells past the first |
| Hallways.CarveAtConcat | client/src/features/map/generationUtils.js:376-406 | carving in two rounds is carving the concatenation |
| Hallways.CarvedFloor | client/src/features/map/generationUtils.js:395-397 | a carved cell is floor |
| Hallways.WalkCorridor | client/src/features/map/generationUtils.js:379-405 | a descending walk that reaches 0 joins its start room to the source room |
| Hallways.HallwaysExtend | client/src/features/map/generationUtils.js:376-406 | a hallway for the next target extends the hallways made so far |
| Hallways.Hallway | client/src/features/map/generationUtils.js:377-405 | the path is the walk back from the tile of the target's entry; `reached` exactly when it ends at 0; the grid is the earlier carving followed by exactly the path's cells past the first; when reached, the path is a hallway from the target's room into room `i` |
| Hallways.MakeHallways | client/src/features/map/generationUtils.js:376-406 | the walks are the walks back from the targets' entries in target order, each reaching 0, up to the first unset entry (`MissingTarget`) or the first walk that does not reach 0 (`Stuck`, the last walk); the grid is carved at exactly the walks' cells past the first, walk after walk; every walk but a stuck last one is a hallway into room `i` |
| Hallways.NextHallway | client/src/features/map/generationUtils.js:376-405 | one target: an unset entry ends in `MissingTarget` with nothing carved; a walk back that does not reach 0 ends in `Stuck` with its cells carved; otherwise one more hallway is made; the grid is the carving of all walks so far |
| Hallways.WalksFromNext | client/src/features/map/generationUtils.js:377-405 | the walk back from the next target's entry extends the list of walks |
| Hallways.MadeNext | client/src/features/map/generationUtils.js:376-405 | a walk back to the next target that reaches 0 and is a hallway extends the walks made, and the carving by its cells past the first |
| Hallways.MadeStuck | client/src/features/map/generationUtils.js:381-404 | a walk back that does not reach 0 ends the room's hallways as `Stuck` on that target: it is carved, but is not a hallway |
| Hallways.MadeMissing | client/src/features/map/generationUtils.js:377-379 | an unset entry for the next target ends the room's hallways as `MissingTarget`, with nothing more carved |
| Hallways.MadeAll | client/src/features/map/generationUtils.js:376-406 | with every target walked to 0, the room is connected |
| Hallways.WalkedUnique | client/src/features/map/generationUtils.js:376-406 | given the values and entries of the search, the outcome and the walks of a room are determined |
| Hallways.WalkedNotShorter | client/src/features/map/generationUtils.js:376-406 | of two lists of walks for the same targets that agree where both have a walk, neither ends before the other (stated one way, used both ways) |
| Hallways.ConnectRoom | client/src/features/map/generationUtils.js:306-406 | no targets: connected, nothing searched, walked or carved; otherwise one search from the room's last tile (`Searched`), then the walks of `MakeHallways`; the grid is carved at exactly the walks' cells past the first, in order; a missing target has no tile other than the source tile |
| Generate.Layout | client/src/features/map/generationUtils.js:135-160 | a fresh grid equal to the marked grid |
| Generate.StatsOfLabels | client/src/features/map/generationUtils.js:202-216 | every labeled room has a positive size and its last tile lies in it |
| Generate.Statistics | client/src/features/map/generationUtils.js:202-221 | the table is `RoomStats.StatsOf` of the labeled grid: entry 0 the tally of the tiles of no room, entry `r` the size, centroid and last tile of room `r`, every room having tiles; last tiles lie in their rooms |
| Generate.RoomEdges | client/src/features/map/generationUtils.js:225-303 | `Generate.GraphOf`: the distance table is that of the statistics, the tree is Prim's choice round by round on it, and the edges are the tree followed by the edge `RoomGraph.NearestFree` picks for each large room in increasing order; every edge joins table entries; the tree reaches every room from room 1 |
| Generate.Prepare | client/src/features/map/generationUtils.js:162-303 | the labeling is of the marked grid, the statistics table is `StatsOf` the labeling with every last tile in its room, and the room graph is `GraphOf` the table, each edge joining table entries; the tree reaches every room from room 1 |
| Generate.Populate | client/src/features/map/generationUtils.js:162-408 | the labeling is of the marked grid, the statistics are `StatsOf` the labeling, the room graph is `GraphOf` the statistics, the hallway passes are `PassesMade` on the labeled grid and the grid is the labeled grid carved by them; every room reachable in the tree; hallways for all edges when every room connects |
| Generate.GenerateTiles | client/src/features/map/generationUtils.js:131-410 | fails exactly when the first split fails; otherwise the candidates are the queue and small rooms `Partition.Queue` leaves after the first cut by the draw `rand(0)` and the splits by `rand(1), rand(2), …`; they tile the map, and the rooms are the largest shrunk candidates; the labeling is of the grid marked with them, the statistics are `StatsOf` the labeling, the room graph is `GraphOf` the statistics, the hallway passes are `PassesMade` on the labeled grid, the grid is the labeled grid carved by them, and when every room connects every edge has its hallway |
| Walls.ScanWalls | client/src/components/map/Map.js:35-70 | as written: the walls emitted are exactly the boundary edges of the tiles before the last row and column, without repeats, in scan order (column by column, top to bottom, right edge before lower edge) |
| Walls.LastRowMissed | client/src/components/map/Map.js:36-37 | on a 1×2 grid with a boundary between its tiles, the scan as written emits no wall |
| Walls.ScanAllWalls | client/src/components/map/Map.js:35-70 | corrected: every edge between two tiles gets a wall exactly when it is a boundary, without repeats, in scan order |
| Walls.ScanDone | client/src/components/map/Map.js:35-70 | the finished scan emits exactly the boundary edges it looks at |
| Walls.ScanStep | client/src/components/map/Map.js:39-68 | one tile's two checks keep the scan invariant |
| Walls.UnitsIn | client/src/components/map/Map.js:91-151 | a unit step is covered exactly when some wall covers it |
| Walls.Present | client/src/components/map/Map.js:93 | exactly the walls not yet nulled |
| Walls.Join | client/src/components/map/Map.js:105-112 | the merged wall stays on the same line |
| Walls.JoinUnits | client/src/components/map/Map.js:98-114 | merging two touching walls covers exactly what they covered |
| Walls.PresentDrop | client/src/components/map/Map.js:113 | the units covered before nulling a wall are those covered after it together with the nulled wall's units |
| Walls.Absorb | client/src/components/map/Map.js:96-115 | one absorption: the wall grows to the join and the second wall is nulled |
| Walls.GrowingJoin | client/src/components/map/Map.js:105-113 | absorbing a touching wall into the growing one and nulling it keeps the covered units |
| Walls.Grow | client/src/components/map/Map.js:95-117 | the inner loop keeps the covered units; entries up to `i` are unchanged, and each later entry is either unchanged or nulled |
| Walls.Merge | client/src/components/map/Map.js:92-120 | the merged walls cover exactly the units the input covered, with no more walls than before |
| Walls.Verticals | client/src/components/map/Map.js:75 | the filter keeps at most as many walls as it is given |
| Walls.VerticalsIn | client/src/components/map/Map.js:75 | exactly the vertical walls pass the filter |
| Walls.HorizontalsIn | client/src/components/map/Map.js:82-84 | exactly the horizontal walls pass the filter |
| Walls.FiltersCount | client/src/components/map/Map.js:75-84 | for non-degenerate walls the two filters together keep at most the input |
| Walls.SortedEntries | client/src/components/map/Map.js:76-89 | sorting keeps the covered units |
| Walls.Reduce | client/src/components/map/Map.js:76-120 | one direction: the sort and merge cover exactly the input's units with no more walls |
| Walls.RebuildUnits | client/src/components/map/Map.js:118-149 | the output's vertical and horizontal units are those of the two merged lists |
| Walls.ReduceWalls | client/src/components/map/Map.js:72-151 | the reduced walls cover exactly the vertical and horizontal units of the input, are no more, and stay well-formed |
| Walls.VUnitsWalls | client/src/components/map/Map.js:43-52 | a vertical unit is covered exactly when its unit wall was emitted |
| Walls.HUnitsWalls | client/src/components/map/Map.js:58-67 | a horizontal unit is covered exactly when its unit wall was emitted |
| Walls.ScanUnits | client/src/components/map/Map.js:35-70 | a unit edge is covered exactly when it lies between an on tile and an off tile |
| Walls.ExportWalls | client/src/components/map/Map.js:35-153 | built on the corrected scan `Walls.ScanAllWalls` (see "## Findings"): the line-of-sight walls cover exactly the boundary edges between two tiles |

## Left out

- User interface, rendering, Redux state, the file download and every map-export field other than the line-of-sight walls: they are presentation and I/O.
- `Math.random()` is a parameter `rand` (the k-th successful split point uses `rand(k)`), so generation is deterministic given the draws.
- Floating point: `sparsity`, averages and distances are exact reals. Distances are squared, because `Math.sqrt` is monotone and every comparison between distances is the same between their squares. Floating-point rounding is not modelled.
- Tile colours and patterns are enumerations instead of strings.
- Partition.GenerateRooms: when the initial split fails, the source goes on with `null` split points. The model reports `Failure(NoInitialSplit)` instead of modelling JavaScript's arithmetic on `null`.
- Partition.GenerateRooms: the map's width and height must be at least 1. The source accepts a zero-sized map; the model does not cover that degenerate case.
- Partition.GenerateRooms: `minDimension` must be at least 1. `generateTiles` always uses the default 2.
- RoomGraph.Prim: the round body holds a stray `n_y;` (an undeclared name) at generationUtils.js:257. In JavaScript, reading it throws as soon as a candidate is found. The model treats it as absent.
- RoomGraph.Prim: each round is proved to be the greedy choice. Global minimality of the tree is not proved.
- Hallways.ConnectRoom: the model does not prove that the failure outcomes never happen. They are `MissingTarget` (the source would index `shortest_paths[-1]` and throw) and `Stuck` (the source's walk back would loop forever). The model reports them instead. That a walk back always finds a next cell would need the search's values to be shortest distances, which the model does not prove.
- Generate.GenerateTiles: the map's width and height must be at least 1, as for `Partition.GenerateRooms`. The source accepts a zero-sized map; the model does not cover it.
- Hallways.Search: the values left are proved finite, 0 exactly on the room, and least at every set entry. They are not proved to be the exact values the source's queue order produces, so the walks back are fixed only given those values (`Hallways.WalkedUnique`).
- Generate.GenerateTiles: whole-grid floor connectivity after carving is not proved. Only per-edge hallways into the passing room are proved.
- Walls.Merge: the merged walls cover the same units as the input. It is not proved that the greedy merge leaves no two mergeable walls.
- Walls.ReduceWalls: the merge works on values in an array of optional segments. The source mutates wall objects shared with the unfiltered list; that aliasing is not modelled, and neither is the order of the output walls.
- Walls.ExportWalls: the tile grid is an abstract `on` flag per tile. How `on` is derived from the tiles is not part of this model.

## Findings

| source | as written | input that shows it | evidently intended | confidence | as-written member | corrected member |
|---|---|---|---|---|---|---|
| client/src/components/map/Map.js:36-37 | the scan loops run `i < width - 1` and `j < height - 1`, so the last row's right edges and the last column's lower edges are never checked | a 1×2 grid whose left tile is on and right tile is off: the boundary between them gets no wall | a wall on every edge between two tiles of which exactly one is on | not executed | Walls.ScanWalls, Walls.LastRowMissed | Walls.ScanAllWalls |
