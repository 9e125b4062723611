# Maze segment: a verified model

This project models the tile-grid maze engine of the ProtoGauntlet maze
segment actor (`AMazeSegment` in `MazeSegment.cpp`). It covers four parts:

- the generator, a randomized depth-first backtracker;
- the tile classifier;
- the four self-avoiding random walkers that trace paths over a finished maze;
- corner extraction.

A segment is an N by N grid of tile designations (`Cell`, `Wall`, `Path`,
`Visited`, `OutOfBounds`), stored row by row. A coordinate pair `Pair(x, y)`
names column `x` of row `y`.

Modules:

- `Tiles` (`tiles.dfy`) has the data model. It defines the grid queries
  (`At`, `Set`, `Step`), adjacency, routes and reachability. It also holds the
  two reference definitions behind the classifier: "at least three open
  neighbours" and "open on an axis".
- `Counting` (`counting.dfy`) counts the tiles of one designation. This count
  is the termination measure of the search loop and of every walker loop, and
  it gives the number of `Path` tiles in a finished maze.
- `Carving` (`carving.dfy`) describes the generator's grid.
  - Cells sit at even-even positions and pillars at odd-odd ones.
  - A carved wall joins the two cells beside it.
  - It holds the blank starting grid and the depth-first search's invariant.
  - Its lemmas show that the invariant is kept by a push and by a pop, and
    that an empty stack means every cell is carved.
  - Further lemmas show that every carve keeps all `Path` tiles reachable
    from (0,0).
- `Walking` (`walking.dfy`) is shared by the walkers.
  - It lists the open neighbours and defines the three variants of the
    entry-direction bounds test.
  - It marks the three non-entry neighbours of the start.
  - It holds the walk invariant, the closure argument that turns an
    exhausted walk into unreachability or completeness, and the push and pop
    lemmas of each walker's loop.
  - It defines the fence: an entered walk never steps onto one of the three
    marked neighbours, so it leaves the start through the entry tile.
- `Corners` (`corners.dfy`) specifies corner extraction, and proves that the
  corners are an order-preserving subsequence of the input.
- `MazeSegments` (`maze_segment.dfy`) is the `MazeSegment` class.
  - It has the fields the engine updates (`isCenterPiece`, `mazeLength`,
    `rows`).
  - Generation and the walkers are methods with loops.
  - The classifier functions read the canonical grid.
  - The walkers carry no `modifies` clause, so the canonical grid is
    unchanged by construction. All marking happens in a local scratch copy.

Random choices (`FMath::RandRange`) are modelled as nondeterministic choice,
`var k :| 0 <= k < |neighbours|`. Every contract holds for every sequence of
choices.

Three facts about the code shape the contracts:

- `CreateMazeLayout` does not call `CalculateValues` itself; only the
  engine hooks do. So the side length N it sees may be even. The generator
  is correct for any N >= 1, odd or even. Only the cell count `CellCount(N)`
  depends on N.
- `FindPathBetweenPoints` does not check that the start is not a `Wall`.
  That check is commented out in the source.
- `CreateRandomPathFromStartPoint` can return empty even when the start's
  section has enough tiles. Its depth-first walk can back up to the start and
  pop it.

## Model

| member | source | states |
|---|---|---|
| MazeSegments.MazeSegment.constructor | ProtoGauntlet/Source/ProtoGauntlet/MazeSegment.cpp:13-16 | a new segment is not a center piece, is 41 tiles a side and has no grid yet |
| MazeSegments.MazeSegment.CalculateValues | ProtoGauntlet/Source/ProtoGauntlet/MazeSegment.cpp:30-36 | the side length becomes odd, by adding one exactly when it was even |
| MazeSegments.MazeSegment.CreateMazeLayout | ProtoGauntlet/Source/ProtoGauntlet/MazeSegment.cpp:82-178 | the grid is N by N and stores no `OutOfBounds`; a center piece is all `Path`; otherwise the result is a carved maze: (0,0) is `Path`, every tile is `Path` or `Wall`, pillars are `Wall`, every carved wall joins two carved cells, every `Path` tile is reachable from (0,0) over `Path` tiles, and there are exactly 2·(number of cells)−1 `Path` tiles, so the carved walls are one fewer than the cells they connect |
| MazeSegments.MazeSegment.BlankGrid | ProtoGauntlet/Source/ProtoGauntlet/MazeSegment.cpp:84-105 | the starting grid is square, holds `Cell` exactly at even-even positions and `Wall` elsewhere, has ⌈N/2⌉² cells and no `Path` |
| MazeSegments.MazeSegment.CellRow | ProtoGauntlet/Source/ProtoGauntlet/MazeSegment.cpp:88-96 | the cell row alternates `Cell` and `Wall` starting with a cell, and holds ⌈N/2⌉ cells |
| MazeSegments.MazeSegment.CarvePassages | ProtoGauntlet/Source/ProtoGauntlet/MazeSegment.cpp:107-168 | the depth-first search over a blank grid terminates; it leaves no `Cell`, keeps pillars as `Wall`, joins every carved wall, leaves every `Path` tile reachable from (0,0), and has 2·(cells)−1 `Path` tiles |
| MazeSegments.MazeSegment.CarveStep | ProtoGauntlet/Source/ProtoGauntlet/MazeSegment.cpp:114-167 | a push happens exactly when the top has an unvisited cell two tiles away; it carves exactly that cell and the wall tile halfway to the top, and pushes it; otherwise the grid is unchanged and the top is popped |
| MazeSegments.MazeSegment.OpenGrid | ProtoGauntlet/Source/ProtoGauntlet/MazeSegment.cpp:169-176 | the center piece grid is square and all `Path` |
| MazeSegments.MazeSegment.ExtractCorners | ProtoGauntlet/Source/ProtoGauntlet/MazeSegment.cpp:180-191 | the result is the prior contents followed by the first point, the interior points where the path turns in order, and the last point |
| MazeSegments.MazeSegment.GetTileDesignationAt | ProtoGauntlet/Source/ProtoGauntlet/MazeSegment.cpp:201-207 | the result is `OutOfBounds` exactly when the location is off the grid; otherwise it is the stored tile |
| MazeSegments.MazeSegment.FindPathBetweenPoints | ProtoGauntlet/Source/ProtoGauntlet/MazeSegment.cpp:209-308 | empty for a start off the grid, or for an entry direction whose tile is not open; a non-empty result runs from start to end over orthogonal `Path` steps without repeating a tile; with an entry direction it never touches the three other neighbours of the start, and its second tile is the entry tile; with no entry direction it is non-empty whenever the end is reachable at all |
| MazeSegments.MazeSegment.GetAllTilesInSection | ProtoGauntlet/Source/ProtoGauntlet/MazeSegment.cpp:310-409 | non-empty exactly for an on-grid, non-`Wall` start with a direction whose tile is open; the result starts at the start, has no duplicates, and each later tile is a `Path` tile next to an earlier one; no listed tile is one of the three neighbours of the start marked up front, so the second tile is the entry tile; every `Path` neighbour of a listed tile is listed, unless it is one of those marked neighbours |
| MazeSegments.MazeSegment.CreateRandomPathFromStartPoint | ProtoGauntlet/Source/ProtoGauntlet/MazeSegment.cpp:429-479 | empty for a start off the grid or on a `Wall`; `[start]` when the length is at most 1; otherwise it is empty or has exactly the requested length, starts at the start, and is a self-avoiding orthogonal `Path` route |
| MazeSegments.MazeSegment.IsCorner | ProtoGauntlet/Source/ProtoGauntlet/MazeSegment.cpp:481-501 | true exactly when the location is on the grid and has a `Path` neighbour above or below and one to the left or right; the tile itself is not read |
| MazeSegments.MazeSegment.IsIntersection | ProtoGauntlet/Source/ProtoGauntlet/MazeSegment.cpp:503-534 | true exactly when the location is on the grid and at least three of its four neighbours are `Path` |
| MazeSegments.MazeSegment.IsValidTileLocation | ProtoGauntlet/Source/ProtoGauntlet/MazeSegment.cpp:536-538 | true exactly when the row and column index into the grid |
| MazeSegments.MazeSegment.NextIntersection | ProtoGauntlet/Source/ProtoGauntlet/MazeSegment.cpp:540-650 | for a start off the grid or on a `Wall`, the input is returned unchanged; for a start that is an intersection, the start; without an open strict entry direction, (-1,-1); otherwise (-1,-1) or the first intersection on a self-avoiding route from the start through the entry tile that keeps off the three other neighbours of the start, of at most `maxDistance` + 2 tiles, on which no earlier tile is an intersection; from a `Path` start, (-1,-1) means that no self-avoiding route through the entry tile that keeps off the three other neighbours of the start and has at most `maxDistance` + 2 tiles ends at an intersection |
| MazeSegments.MazeSegment.EnterWalk | ProtoGauntlet/Source/ProtoGauntlet/MazeSegment.cpp:544-597 | the walk is entered exactly when the (strict or lenient) bounds test passes and the entry tile is `Path`; the copy marks the start, and when entered the three other neighbours, and is otherwise the grid |
| MazeSegments.MazeSegment.FindStep | ProtoGauntlet/Source/ProtoGauntlet/MazeSegment.cpp:273-305 | one round of the point-to-point walk keeps its invariant, fence included, and lowers the measure (the copy's `Path` count, or the stack length with the copy unchanged) |
| MazeSegments.MazeSegment.SectionStep | ProtoGauntlet/Source/ProtoGauntlet/MazeSegment.cpp:372-406 | one round of the section walk keeps its invariant and the fence on the result, leaves the result non-empty, and lowers the measure |
| MazeSegments.MazeSegment.IntersectionStep | ProtoGauntlet/Source/ProtoGauntlet/MazeSegment.cpp:601-636 | one round of the next-intersection walk, entered only when the loop test lets the top through, keeps the walk invariant and the fence, keeps every tile below the top clear of an intersection within range, still follows every entry route that reaches an intersection within range, and lowers the measure |
| MazeSegments.MazeSegment.WalkStep | ProtoGauntlet/Source/ProtoGauntlet/MazeSegment.cpp:272-305 | a push happens exactly when the head has an open neighbour in the copy; it moves to one, marks it and pushes it; otherwise it pops and the head becomes the new top |
| Carving.CellNeighbours | ProtoGauntlet/Source/ProtoGauntlet/MazeSegment.cpp:115-135 | every listed tile is an unvisited cell two tiles from the top, and the list is empty exactly when no such cell exists |
| Carving.CellNeighboursComplete | ProtoGauntlet/Source/ProtoGauntlet/MazeSegment.cpp:115-135 | every unvisited cell two tiles from the top is listed |
| Walking.OpenNeighbours | ProtoGauntlet/Source/ProtoGauntlet/MazeSegment.cpp:273-293 | the list holds exactly the on-grid orthogonal neighbours that are `Path` in the copy |
| Walking.Suppress | ProtoGauntlet/Source/ProtoGauntlet/MazeSegment.cpp:221-263 | marks exactly the on-grid neighbours of the start other than the entry tile, and nothing else |
| Walking.AsWrittenGuardAdmitsOffGrid | ProtoGauntlet/Source/ProtoGauntlet/MazeSegment.cpp:232 | the east and south bounds tests as written pass for a start on the last column or row, whose entry tile is off the grid |
| Walking.EntryGuardReadsOnGrid | ProtoGauntlet/Source/ProtoGauntlet/MazeSegment.cpp:561-572 | the corrected test passes exactly when the tile it reads is on the grid, i.e. the as-written test restricted to on-grid reads |
| Walking.StrictGuardDiffers | ProtoGauntlet/Source/ProtoGauntlet/MazeSegment.cpp:550-583 | the next-intersection bounds test implies the lenient one, and differs only north from row 1 and west from column 1 |
| Walking.WalkIsRoute | ProtoGauntlet/Source/ProtoGauntlet/MazeSegment.cpp:270-307 | a stack that kept the walk invariant is a self-avoiding route from the start |
| Walking.StartKeeps | ProtoGauntlet/Source/ProtoGauntlet/MazeSegment.cpp:216-218 | marking the start in a fresh copy establishes the walk invariant for the stack `[start]` and for the empty stack |
| Walking.SuppressKeeps | ProtoGauntlet/Source/ProtoGauntlet/MazeSegment.cpp:220-264 | marking the non-entry neighbours keeps the walk invariant |
| Walking.PushKeeps | ProtoGauntlet/Source/ProtoGauntlet/MazeSegment.cpp:295-299 | pushing an open neighbour keeps the walk invariant and strictly lowers the copy's `Path` count, the termination measure |
| Walking.PopKeeps | ProtoGauntlet/Source/ProtoGauntlet/MazeSegment.cpp:300-305 | popping keeps the walk invariant |
| Walking.RouteStaysInside | ProtoGauntlet/Source/ProtoGauntlet/MazeSegment.cpp:272-306 | once no explored tile has an open neighbour and every change to the copy is an explored tile, no route from an explored tile can leave them |
| Walking.ExhaustedUnreachable | ProtoGauntlet/Source/ProtoGauntlet/MazeSegment.cpp:272-306 | a walk without an entry direction that empties its stack without meeting the end proves the end unreachable from the start |
| Walking.ExhaustedClosed | ProtoGauntlet/Source/ProtoGauntlet/MazeSegment.cpp:371-407 | after the section walk empties its stack, every `Path` neighbour of an explored tile was explored or marked up front |
| Walking.ClosedPush | ProtoGauntlet/Source/ProtoGauntlet/MazeSegment.cpp:394-400 | marking and pushing a tile keeps closure and coverage of every change |
| Walking.ClosedPop | ProtoGauntlet/Source/ProtoGauntlet/MazeSegment.cpp:401-406 | popping a tile without open neighbours keeps closure |
| Walking.TrailPush | ProtoGauntlet/Source/ProtoGauntlet/MazeSegment.cpp:396-399 | appending an open neighbour of a listed tile keeps the result distinct, marked, and linked back to an earlier tile |
| Walking.FindPush | ProtoGauntlet/Source/ProtoGauntlet/MazeSegment.cpp:295-299 | a push of the point-to-point walk keeps its invariant, fence included, and lowers the measure |
| Walking.FindPop | ProtoGauntlet/Source/ProtoGauntlet/MazeSegment.cpp:300-305 | a pop of the point-to-point walk keeps its invariant |
| Walking.FencedPush | ProtoGauntlet/Source/ProtoGauntlet/MazeSegment.cpp:295-299 | moving onto a `Path` tile of the copy keeps the walk off the fence, whose tiles are all marked `Visited` |
| Walking.FencedPop | ProtoGauntlet/Source/ProtoGauntlet/MazeSegment.cpp:300-305 | popping the top keeps the walk off the fence |
| Walking.TrackStart | ProtoGauntlet/Source/ProtoGauntlet/MazeSegment.cpp:544-600 | a walk that has marked only the start and its three other neighbours follows every entry route that reaches an intersection within range |
| Walking.TrackOpen | ProtoGauntlet/Source/ProtoGauntlet/MazeSegment.cpp:601-628 | while the walk follows such a route and the loop test lets the top through, the route's next tile is an open neighbour of the top |
| Walking.TrackForced | ProtoGauntlet/Source/ProtoGauntlet/MazeSegment.cpp:624-628 | it is the only open neighbour: a top that the loop test lets through is no intersection within range, so the tile pushed is the route's next tile |
| Walking.TrackExtend | ProtoGauntlet/Source/ProtoGauntlet/MazeSegment.cpp:624-628 | pushing the route's next tile keeps the walk on that route |
| Walking.TrackPush | ProtoGauntlet/Source/ProtoGauntlet/MazeSegment.cpp:601-628 | a push past a top the loop test let through keeps every tile below the top clear of an intersection within range and keeps the walk on every such route |
| Walking.TrackPop | ProtoGauntlet/Source/ProtoGauntlet/MazeSegment.cpp:601-636 | a pop keeps the tiles below the top clear of an intersection within range, and the walk never backs out of such a route |
| Walking.EndsOnEntryRoute | ProtoGauntlet/Source/ProtoGauntlet/MazeSegment.cpp:601-642 | a walk that stops on an intersection within range after at least one step has a stack that is an entry route: self-avoiding, through the entry tile, off the three other neighbours of the start, and with no earlier tile an intersection within range |
| Walking.TrackEmpty | ProtoGauntlet/Source/ProtoGauntlet/MazeSegment.cpp:638-640 | a walk that ran out of tiles while following every such route shows that none exists |
| Tiles.ThreeNeighboursOpen | ProtoGauntlet/Source/ProtoGauntlet/MazeSegment.cpp:503-534 | three different `Path` neighbours make the tile an intersection |
| Walking.LeavesThroughEntry | ProtoGauntlet/Source/ProtoGauntlet/MazeSegment.cpp:219-263 | the only neighbour of the start that is not marked up front is the entry tile |
| Walking.SectionPush | ProtoGauntlet/Source/ProtoGauntlet/MazeSegment.cpp:394-400 | a push of the section walk keeps its invariant, with the tile appended to the result, and lowers the measure |
| Walking.SectionPop | ProtoGauntlet/Source/ProtoGauntlet/MazeSegment.cpp:401-406 | a pop of the section walk keeps its invariant |
| Carving.StackedPush | ProtoGauntlet/Source/ProtoGauntlet/MazeSegment.cpp:98-105 | appending the next cell or wall row keeps the rows alternating and the running cell count at ⌈index/2⌉·⌈N/2⌉ |
| Carving.StackedDone | ProtoGauntlet/Source/ProtoGauntlet/MazeSegment.cpp:98-105 | the finished stack of rows is the blank grid with ⌈N/2⌉² cells |
| Carving.DfsStart | ProtoGauntlet/Source/ProtoGauntlet/MazeSegment.cpp:111-112 | carving (0,0) of a blank grid establishes the search invariant, with one more `Path` and one fewer `Cell` |
| Carving.DfsPush | ProtoGauntlet/Source/ProtoGauntlet/MazeSegment.cpp:137-159 | carving a chosen cell and the wall halfway to the top keeps the search invariant, adds two `Path` tiles and removes one `Cell` |
| Carving.ConnectedStart | ProtoGauntlet/Source/ProtoGauntlet/MazeSegment.cpp:111-112 | after carving (0,0) of a blank grid, every `Path` tile is reachable from (0,0) |
| Carving.ConnectedCarve | ProtoGauntlet/Source/ProtoGauntlet/MazeSegment.cpp:137-159 | carving a cell and the wall halfway to a carved top keeps every `Path` tile reachable from (0,0): the new tiles continue the route to the top |
| Carving.DfsPop | ProtoGauntlet/Source/ProtoGauntlet/MazeSegment.cpp:161-165 | popping a finished cell keeps the search invariant |
| Carving.DfsDone | ProtoGauntlet/Source/ProtoGauntlet/MazeSegment.cpp:114-168 | when the stack is empty, no `Cell` remains and every tile is `Path` or `Wall` |
| Carving.CarveKeepsShape | ProtoGauntlet/Source/ProtoGauntlet/MazeSegment.cpp:141-158 | carving a cell and the wall between it and a carved cell keeps pillars `Wall` and every carved wall joined |
| Carving.CarveCounts | ProtoGauntlet/Source/ProtoGauntlet/MazeSegment.cpp:141-158 | the same carving adds exactly two `Path` tiles and removes exactly one `Cell` |
| Carving.PushKeepsJoined | ProtoGauntlet/Source/ProtoGauntlet/MazeSegment.cpp:141-159 | consecutive stack entries stay cells two apart joined by a carved tile |
| Carving.PushKeepsFinished | ProtoGauntlet/Source/ProtoGauntlet/MazeSegment.cpp:141-159 | a carved cell off the stack stays finished after a carve |
| Carving.AllCellsCarved | ProtoGauntlet/Source/ProtoGauntlet/MazeSegment.cpp:114-168 | when (0,0) is carved and every carved cell is finished, every tile is `Path` or `Wall` |
| Carving.ColumnCarved | ProtoGauntlet/Source/ProtoGauntlet/MazeSegment.cpp:118-135 | under the same conditions every cell is carved, by induction down each column from the top row |
| Carving.TopRowCarved | ProtoGauntlet/Source/ProtoGauntlet/MazeSegment.cpp:128-135 | under the same conditions every cell of the top row is carved, by induction along the row |
| Carving.BetweenCases | ProtoGauntlet/Source/ProtoGauntlet/MazeSegment.cpp:141-156 | each branch of the wall selection opens the tile halfway between the two cells |
| Carving.BetweenIsWall | ProtoGauntlet/Source/ProtoGauntlet/MazeSegment.cpp:141-156 | the tile halfway between a carved cell and an unvisited one is still `Wall` |
| Corners.CornersOf | ProtoGauntlet/Source/ProtoGauntlet/MazeSegment.cpp:180-191 | the corners start with the first point and end with the last point |
| Corners.CornersAreSubsequence | ProtoGauntlet/Source/ProtoGauntlet/MazeSegment.cpp:180-191 | for a path of two or more points, the corners are an order-preserving subsequence no longer than the path |
| Corners.TurnsBeforeMembers | ProtoGauntlet/Source/ProtoGauntlet/MazeSegment.cpp:182-189 | the kept interior points are exactly the interior points that turn |
| Corners.KeepsTurnIffAxisChanges | ProtoGauntlet/Source/ProtoGauntlet/MazeSegment.cpp:183-188 | on an orthogonal path, a point is kept exactly when the movement switches between horizontal and vertical there |
| Tiles.ThreeOpenByCount | ProtoGauntlet/Source/ProtoGauntlet/MazeSegment.cpp:506-528 | counting open neighbours to three agrees with "of any two directions one is open" |
| Tiles.OpenOnAxisByCases | ProtoGauntlet/Source/ProtoGauntlet/MazeSegment.cpp:484-491 | an axis is open exactly when one of its two neighbours is `Path` |

## Left out

- Actor lifecycle, spawning and rendering (`BeginPlay`, `Tick`, `PostInitProperties`, `PostEditChangeProperty`, the `Spawn*` methods) are left out: these are engine calls with no grid logic.
- The float fields (tile size, heights, `HalfTileSize` in `CalculateValues`), `ChangeMazeParameters`, and the float coordinate conversions (`GetLocationOfTile`, `GetTileIndexAtLocation`, `IntPairArraytoVectorArray`, `GetDirectionsFromVectorArray`) are left out: floating point.
- `GetPathfindingActive` is a plain getter and is not modelled.
- `MazeSegment.h` is not part of this model. The tile and direction enumerations and the default pair are declared here directly; the default `FIntPair` is taken to be (0,0).
- Seeding of the random generator is not modelled. Each random pick is a nondeterministic choice among the listed neighbours.
- Integers are unbounded throughout. `CalculateValues` cannot overflow an `int32`: it adds one only to an even side length, and the largest `int32` is odd.
- CreateMazeLayout: requires an empty grid and a side length of at least 1 (0 or more for a center piece). The source appends to `Row` and writes `Row[0].Column[0]`, so a second call or an empty grid would break the square shape or read out of range.
- FindPathBetweenPoints: returns a fresh sequence where the source appends to the caller's `Path`; a caller's array is taken to be empty. The same holds for `GetAllTilesInSection` and `CreateRandomPathFromStartPoint` with `Result`. `ExtractCorners` keeps the append through its `prior` argument.
- FindPathBetweenPoints: the promise that a reachable end yields a non-empty path is stated only without an entry direction. With a direction, the three marked neighbours change what is reachable.
- CreateRandomPathFromStartPoint: does not state when the result is non-empty. A depth-first walk that backs up to its start returns empty even in a large section.
- NextIntersection: the by-reference `Intersection` becomes the input `intersection` and the result `r`. The meaning of (-1,-1) is stated only for a `Path` start. When the start is neither `Path` nor `Wall` (a `Cell` or `Visited` tile), `IsIntersection` does not count it as an open neighbour of the entry tile. The entry tile can then offer the walk two ways on without being an intersection. After a dead end the walk backs up and tries the other way, so it misses an intersection only when the first way loops round through a cycle and marks `Visited` a tile that the other way's route needs. For such a start the contract allows (-1,-1) whenever it returns no intersection.
- CreateMazeLayout: does not state that the carved walls form no cycle. The contract gives connectivity and the tile count. A connected graph on C cells with C − 1 edges is a tree, but that graph fact is not proved here. The same holds for `CarvePassages`.
- The out-of-range reads of the east and south entry tests (see Findings) are modelled with the corrected test. The walkers then treat an entry tile off the grid as not `Path`.

## Findings

| source | as written | input that shows it | evidently intended | confidence | as-written member | corrected member |
|---|---|---|---|---|---|---|
| ProtoGauntlet/Source/ProtoGauntlet/MazeSegment.cpp:232 | the east entry test checks `StartPoint.x < MazeLengthInTiles` and then reads column `x + 1`. The south test at 243 reads row `y + 1` after checking `y < MazeLengthInTiles`, and lines 334 and 344 repeat both | a start in the last column (x = N − 1) with direction East, or in the last row with direction South: the test passes and the read is one past the end of the row or grid | test the tile actually read, `x + 1 < N` and `y + 1 < N`, as the next-intersection search does at 561 and 572 | not executed | Walking.AsWrittenGuardAdmitsOffGrid | Walking.EntryGuardReadsOnGrid |
