/**
  A maze segment: its size, whether it is an open "center piece", and its
  grid of tiles, with the generator, the tile classifier and the four
  random walkers that trace paths over the finished grid.
 */
module MazeSegments {
  import opened Tiles
  import opened Counting
  import opened Carving
  import opened Walking
  import opened Corners

  class MazeSegment {
    var isCenterPiece: bool
    /** The side of the square grid, in tiles. */
    var mazeLength: int
    /** The grid, row by row. */
    var rows: Grid

    /** The grid has been generated: it is `mazeLength` by `mazeLength` and
        stores no `OutOfBounds`. A new segment has no grid yet; it gets one
        from `CreateMazeLayout`, and the classifier and the walkers read it. */
    ghost predicate Generated()
      reads this
    {
      && IsSquare(rows, mazeLength)
      && forall p :: InBounds(mazeLength, p) ==> At(rows, mazeLength, p) != OutOfBounds
    }

    /** The default segment: 41 tiles a side, not a center piece, no grid yet. */
    constructor ()
      ensures !isCenterPiece && mazeLength == 41 && rows == []
    {
      isCenterPiece := false;
      mazeLength := 41;
      rows := [];
    }

    /** Forces the side length odd, so that cells sit at both ends of every row. */
    method CalculateValues()
      modifies this`mazeLength
      ensures mazeLength == if old(mazeLength) % 2 == 0 then old(mazeLength) + 1 else old(mazeLength)
      ensures mazeLength % 2 == 1 && old(mazeLength) <= mazeLength <= old(mazeLength) + 1
    {
      if mazeLength % 2 == 0 {
        mazeLength := mazeLength + 1;
      }
    }

    /** Builds the grid. A center piece is all `Path`. Otherwise a randomized
        depth-first search carves a perfect maze: every cell becomes `Path`,
        pillars stay `Wall`, each carved wall joins two cells, every `Path`
        tile can be reached from the origin, and there are exactly
        2 * (number of cells) - 1 `Path` tiles, so the carved walls are one
        fewer than the cells they connect. */
    method CreateMazeLayout()
      requires rows == []
      requires if isCenterPiece then mazeLength >= 0 else mazeLength >= 1
      modifies this`rows
      ensures Generated()
      ensures isCenterPiece ==> forall p :: InBounds(mazeLength, p) ==> At(rows, mazeLength, p) == Path
      ensures !isCenterPiece ==>
        && WellCarved(rows, mazeLength)
        && At(rows, mazeLength, Pair(0, 0)) == Path
        && (forall p :: InBounds(mazeLength, p) ==> At(rows, mazeLength, p) == Path || At(rows, mazeLength, p) == Wall)
        && Connected(rows, mazeLength)
        && Count(rows, Path) == 2 * CellCount(mazeLength) - 1
    {
      if !isCenterPiece {
        var blank := BlankGrid(mazeLength);
        rows := CarvePassages(blank, mazeLength);
      } else {
        rows := OpenGrid(mazeLength);
      }
    }

    /** The starting grid of generation: rows alternate between a row of
        cells and walls and a row of walls only. */
    static method BlankGrid(n: int) returns (g: Grid)
      requires n >= 1
      ensures IsSquare(g, n) && IsBlank(g, n)
      ensures Count(g, Cell) == CellCount(n) && Count(g, Path) == 0
    {
      var wallRow := seq(n, _ => Wall);
      WallRowFacts(n);
      var cellRow := CellRow(n);
      g := [];
      var index := 0;
      while index < n
        invariant Stacked(g, n, index, wallRow, cellRow)
      {
        StackedPush(g, n, index, wallRow, cellRow);
        if index % 2 == 1 {
          g := g + [wallRow];
        } else {
          g := g + [cellRow];
        }
        index := index + 1;
      }
      StackedDone(g, n, wallRow, cellRow);
    }

    /** A row of `n` tiles alternating `Cell` and `Wall`, starting with a cell. */
    static method CellRow(n: int) returns (row: seq<Tile>)
      requires n >= 0
      ensures IsCellRow(row, n)
    {
      row := [];
      var index := 0;
      while index < n
        invariant 0 <= index <= n && |row| == index
        invariant forall j :: 0 <= j < index ==> row[j] == if j % 2 == 1 then Wall else Cell
        invariant CountRow(row, Cell) == Half(index) && CountRow(row, Path) == 0
      {
        HalfStep(index, 1);
        if index % 2 == 1 {
          CountRowAppend(row, Wall, Cell);
          CountRowAppend(row, Wall, Path);
          row := row + [Wall];
        } else {
          CountRowAppend(row, Cell, Cell);
          CountRowAppend(row, Cell, Path);
          row := row + [Cell];
        }
        index := index + 1;
      }
    }

    /** The randomized depth-first search over the cells of a blank grid,
        starting from the cell in the top-left corner. */
    static method CarvePassages(blank: Grid, n: int) returns (g: Grid)
      requires n >= 1 && IsSquare(blank, n) && IsBlank(blank, n)
      requires Count(blank, Path) == 0
      ensures IsSquare(g, n) && WellCarved(g, n) && At(g, n, Pair(0, 0)) == Path
      ensures forall p :: InBounds(n, p) ==> At(g, n, p) == Path || At(g, n, p) == Wall
      ensures Connected(g, n)
      ensures Count(g, Path) == 2 * Count(blank, Cell) - 1
    {
      var head := Pair(0, 0);
      var stack := [head];
      DfsStart(blank, n);
      ConnectedStart(blank, n);
      g := Set(blank, n, head, Path);

      while stack != []
        invariant DfsInv(g, n, stack) && Connected(g, n)
        invariant Count(g, Path) + 2 * Count(g, Cell) == 2 * Count(blank, Cell) - 1
        invariant stack != [] ==> head == stack[|stack| - 1]
        decreases Count(g, Cell), |stack|
      {
        ghost var before, stack0 := g, stack;
        var pushed;
        pushed, g, stack, head := CarveStep(g, n, stack, head);
        if pushed {
          DfsPush(before, n, stack0, head);
          ConnectedCarve(before, n, stack0[|stack0| - 1], head);
        } else {
          DfsPop(before, n, stack0);
        }
      }
      DfsDone(g, n);
    }

    /** One round of the search: when the top of the stack has unvisited
        cells two tiles away, carve a random one and the wall tile between
        them and push it; otherwise pop the top and continue from the cell
        below it. */
    static method CarveStep(g: Grid, n: int, stack: seq<Pair>, head: Pair)
      returns (pushed: bool, g': Grid, stack': seq<Pair>, head': Pair)
      requires IsSquare(g, n) && InBounds(n, head) && stack != [] && head == stack[|stack| - 1]
      ensures pushed <==> CellNeighbours(g, n, head) != []
      ensures pushed ==>
        && head' in CellNeighbours(g, n, head) && InBounds(n, Between(head, head'))
        && g' == Set(Set(g, n, Between(head, head'), Path), n, head', Path)
        && stack' == stack + [head']
      ensures !pushed ==>
        && g' == g && stack' == stack[..|stack| - 1]
        && (stack' != [] ==> head' == stack'[|stack'| - 1])
    {
      var neighbours := CellNeighbours(g, n, head);
      if neighbours != [] {
        var k :| 0 <= k < |neighbours|;
        var top := stack[|stack| - 1];
        head' := neighbours[k];
        BetweenCases(top, head');
        // Open the wall between the new head and the previous top of the stack.
        var wall;
        if head'.y + 2 == top.y {
          wall := Pair(head'.x, head'.y + 1);
        } else if head'.y - 2 == top.y {
          wall := Pair(head'.x, head'.y - 1);
        } else if head'.x + 2 == top.x {
          wall := Pair(head'.x + 1, head'.y);
        } else {
          wall := Pair(head'.x - 1, head'.y);
        }
        assert wall == Between(top, head');
        g' := Set(g, n, wall, Path);
        g' := Set(g', n, head', Path);
        stack' := stack + [head'];
        pushed := true;
      } else {
        g', stack', head' := g, stack[..|stack| - 1], head;
        if stack' != [] {
          head' := stack'[|stack'| - 1];
        }
        pushed := false;
      }
    }

    /** The center piece's grid: `Path` everywhere. */
    static method OpenGrid(n: int) returns (g: Grid)
      requires n >= 0
      ensures IsSquare(g, n)
      ensures forall p :: InBounds(n, p) ==> At(g, n, p) == Path
    {
      var pathRow := seq(n, _ => Path);
      g := [];
      var index := 0;
      while index < n
        invariant 0 <= index <= n && |g| == index
        invariant forall i :: 0 <= i < index ==> g[i] == pathRow
      {
        g := g + [pathRow];
        index := index + 1;
      }
    }

    /** Whether a (row, column) location lies on the grid: exactly when the
        grid can be read there. */
    function IsValidTileLocation(row: int, col: int): (r: bool)
      reads this
      ensures Generated() ==> (r <==> 0 <= row < |rows| && 0 <= col < |rows[row]|)
    {
      col >= 0 && row >= 0 && col < mazeLength && row < mazeLength
    }

    /** The stored tile, or `OutOfBounds` exactly when the location is off the grid. */
    function GetTileDesignationAt(row: int, col: int): (t: Tile)
      reads this
      requires Generated()
      ensures t == OutOfBounds <==> !InBounds(mazeLength, Pair(col, row))
      ensures InBounds(mazeLength, Pair(col, row)) ==> t == At(rows, mazeLength, Pair(col, row))
    {
      if row >= 0 && row < mazeLength && col >= 0 && col < mazeLength then rows[row][col]
      else OutOfBounds
    }

    /** A corner: on the grid, with a `Path` neighbour above or below and one
        to the left or right. The tile itself is not looked at. */
    function IsCorner(row: int, col: int): (r: bool)
      reads this
      requires Generated()
      ensures r <==> && InBounds(mazeLength, Pair(col, row))
                     && OpenOnAxis(rows, mazeLength, Pair(col, row), true)
                     && OpenOnAxis(rows, mazeLength, Pair(col, row), false)
    {
      OpenOnAxisByCases(rows, mazeLength, Pair(col, row));
      && IsValidTileLocation(row, col)
      && ((IsValidTileLocation(row - 1, col) && rows[row - 1][col] == Path)
          || (IsValidTileLocation(row + 1, col) && rows[row + 1][col] == Path))
      && ((IsValidTileLocation(row, col - 1) && rows[row][col - 1] == Path)
          || (IsValidTileLocation(row, col + 1) && rows[row][col + 1] == Path))
    }

    /** An intersection: on the grid, with at least three of its four
        neighbours `Path`. The tile itself is not looked at. */
    function IsIntersection(row: int, col: int): (r: bool)
      reads this
      requires Generated()
      ensures r <==> InBounds(mazeLength, Pair(col, row)) && AtLeastThreeOpen(rows, mazeLength, Pair(col, row))
    {
      ThreeOpenByCount(rows, mazeLength, Pair(col, row));
      if IsValidTileLocation(row, col) then
        var up := if IsValidTileLocation(row - 1, col) && rows[row - 1][col] == Path then 1 else 0;
        var down := if IsValidTileLocation(row + 1, col) && rows[row + 1][col] == Path then 1 else 0;
        var left := if IsValidTileLocation(row, col - 1) && rows[row][col - 1] == Path then 1 else 0;
        var right := if IsValidTileLocation(row, col + 1) && rows[row][col + 1] == Path then 1 else 0;
        var p := Pair(col, row);
        assert up == if PathAt(rows, mazeLength, Step(p, North)) then 1 else 0;
        assert down == if PathAt(rows, mazeLength, Step(p, South)) then 1 else 0;
        assert left == if PathAt(rows, mazeLength, Step(p, West)) then 1 else 0;
        assert right == if PathAt(rows, mazeLength, Step(p, East)) then 1 else 0;
        up + down + left + right >= 3
      else
        false
    }

    /** A self-avoiding random walk from `start` that stops on reaching `end`.
        A non-empty result runs from `start` to `end` over `Path` tiles
        without repeating a tile; with an entry direction it leaves `start`
        through the entry tile and never touches the three other neighbours;
        without one it is empty only when `end` cannot be reached from
        `start` at all. The start tile itself is not required to be `Path`. */
    method FindPathBetweenPoints(start: Pair, end: Pair, dir: Direction) returns (path: seq<Pair>)
      requires Generated()
      ensures !InBounds(mazeLength, start) ==> path == []
      ensures InBounds(mazeLength, start) && dir != None && !EntryOpen(rows, mazeLength, start, dir) ==> path == []
      ensures path != [] ==>
        path[0] == start && path[|path| - 1] == end && IsRoute(rows, mazeLength, path) && Distinct(path)
      ensures InBounds(mazeLength, start) && dir == None && Reachable(rows, mazeLength, start, end) ==> path != []
      ensures dir != None ==> forall p :: p in path ==> p !in Suppressed(start, dir)
      ensures dir != None && |path| >= 2 ==> path[1] == Step(start, dir)
    {
      path := [];
      var g, n := rows, mazeLength;
      if IsValidTileLocation(start.y, start.x) {
        var copy, entered := EnterWalk(g, n, start, dir, false);
        path := if dir == None || entered then [start] else [];
        ghost var seen: set<Pair> := if path == [] then {} else {start};
        ghost var refused := dir != None && !entered;
        ghost var fence := if entered then Suppressed(start, dir) else {};

        var head := start;
        while path != [] && path[|path| - 1] != end
          invariant FindInv(g, copy, n, start, end, seen, path, dir == None, fence)
          invariant path != [] ==> head == path[|path| - 1]
          invariant refused ==> path == []
          decreases Count(copy, Path), |path|
        {
          copy, path, head, seen := FindStep(g, copy, n, start, end, seen, path, dir == None, fence, head);
        }
        if dir != None && |path| >= 2 {
          LeavesThroughEntry(start, dir, path[1]);
        }

        if path != [] {
          WalkIsRoute(g, copy, n, start, path);
        } else if dir == None {
          ExhaustedUnreachable(g, copy, n, seen, start, end);
        }
      }
    }

    /** One round of the point-to-point walk: a round of the walk that
        keeps the walk's invariant and lowers its measure. */
    static method FindStep(ghost g: Grid, copy: Grid, n: int, ghost start: Pair, end: Pair, ghost seen: set<Pair>,
                           path: seq<Pair>, ghost covering: bool, ghost fence: set<Pair>, head: Pair)
      returns (copy': Grid, path': seq<Pair>, head': Pair, ghost seen': set<Pair>)
      requires FindInv(g, copy, n, start, end, seen, path, covering, fence)
      requires path != [] && path[|path| - 1] != end && head == path[|path| - 1]
      ensures FindInv(g, copy', n, start, end, seen', path', covering, fence)
      ensures path' != [] ==> head' == path'[|path'| - 1]
      ensures Count(copy', Path) < Count(copy, Path) || (copy' == copy && |path'| < |path|)
    {
      var pushed;
      pushed, copy', path', head' := WalkStep(copy, n, path, head);
      if pushed {
        FindPush(g, copy, n, start, end, seen, path, covering, fence, head');
        seen' := seen + {head'};
      } else {
        FindPop(g, copy, n, start, end, seen, path, covering, fence);
        seen' := seen;
      }
    }

    /** Every tile of the section reachable from `start` when leaving it in
        direction `dir`: the walk first marks the three other neighbours of
        `start`, then explores depth first. The result starts at `start`,
        holds no tile twice, each later tile is a `Path` tile next to an
        earlier one, no marked neighbour is listed, and no `Path` neighbour
        of a listed tile is missing except the marked ones. Without a usable
        direction it is empty. */
    method GetAllTilesInSection(start: Pair, dir: Direction) returns (result: seq<Pair>)
      requires Generated()
      ensures result != [] <==>
        && InBounds(mazeLength, start) && At(rows, mazeLength, start) != Wall
        && dir != None && EntryOpen(rows, mazeLength, start, dir)
      ensures result != [] ==> result[0] == start && Distinct(result)
      ensures forall i :: 0 < i < |result| ==>
        InBounds(mazeLength, result[i]) && At(rows, mazeLength, result[i]) == Path && LinksBack(result, i)
      ensures forall p, q :: p in result && InBounds(mazeLength, q) && Adjacent(p, q) && At(rows, mazeLength, q) == Path ==>
        q in result || q in Suppressed(start, dir)
      ensures forall p :: p in result ==> p !in Suppressed(start, dir)
      ensures |result| >= 2 ==> result[1] == Step(start, dir)
    {
      result := [];
      var g, n := rows, mazeLength;
      if IsValidTileLocation(start.y, start.x) && g[start.y][start.x] != Wall {
        var copy, entered := EnterWalk(g, n, start, dir, false);
        var stack := if entered then [start] else [];
        result := stack;
        ghost var seen: set<Pair> := if entered then {start} else {};
        ghost var extra := Suppressed(start, dir);
        ghost var accepted := entered;

        var head := start;
        while stack != []
          invariant SectionInv(g, copy, n, start, extra, seen, stack, result)
          invariant stack != [] ==> head == stack[|stack| - 1]
          invariant result != [] <==> accepted
          invariant accepted ==> Fenced(copy, n, extra, result)
          decreases Count(copy, Path), |stack|
        {
          copy, stack, head, result, seen := SectionStep(g, copy, n, start, extra, seen, stack, result, head);
        }
        if result != [] {
          ExhaustedClosed(g, copy, n, seen, extra);
        }
        if |result| >= 2 {
          assert LinksBack(result, 1);
          LeavesThroughEntry(start, dir, result[1]);
        }
      }
    }

    /** One round of the section walk: a round of the walk whose pushes
        are also listed, keeping the section invariant and lowering the
        walk's measure. */
    static method SectionStep(ghost g: Grid, copy: Grid, n: int, ghost start: Pair, ghost extra: set<Pair>,
                              ghost seen: set<Pair>, stack: seq<Pair>, result: seq<Pair>, head: Pair)
      returns (copy': Grid, stack': seq<Pair>, head': Pair, result': seq<Pair>, ghost seen': set<Pair>)
      requires SectionInv(g, copy, n, start, extra, seen, stack, result) && Fenced(copy, n, extra, result)
      requires stack != [] && head == stack[|stack| - 1]
      ensures SectionInv(g, copy', n, start, extra, seen', stack', result') && Fenced(copy', n, extra, result')
      ensures stack' != [] ==> head' == stack'[|stack'| - 1]
      ensures result' != []
      ensures Count(copy', Path) < Count(copy, Path) || (copy' == copy && |stack'| < |stack|)
    {
      var pushed;
      pushed, copy', stack', head' := WalkStep(copy, n, stack, head);
      if pushed {
        SectionPush(g, copy, n, start, extra, seen, stack, result, head');
        FencedPush(copy, n, extra, result, head');
        result' := result + [head'];
        seen' := seen + {head'};
      } else {
        SectionPop(g, copy, n, start, extra, seen, stack, result);
        result', seen' := result, seen;
      }
    }

    /** A random self-avoiding walk of `pathLength` tiles from `start`,
        backing up from dead ends; empty when every branch dead-ends first. */
    method CreateRandomPathFromStartPoint(start: Pair, pathLength: int) returns (result: seq<Pair>)
      requires Generated()
      ensures !InBounds(mazeLength, start) || At(rows, mazeLength, start) == Wall ==> result == []
      ensures InBounds(mazeLength, start) && At(rows, mazeLength, start) != Wall && pathLength <= 1 ==> result == [start]
      ensures result != [] ==>
        && |result| == (if pathLength <= 1 then 1 else pathLength)
        && result[0] == start && IsRoute(rows, mazeLength, result) && Distinct(result)
    {
      result := [];
      var g, n := rows, mazeLength;
      if IsValidTileLocation(start.y, start.x) && g[start.y][start.x] != Wall {
        var copy := Set(g, n, start, Visited);
        StartKeeps(g, n, start);
        result := [start];

        var head := start;
        while |result| < pathLength && result != []
          invariant WalkInv(g, copy, n, start, result)
          invariant result != [] ==> head == result[|result| - 1]
          invariant |result| <= if pathLength <= 1 then 1 else pathLength
          invariant pathLength <= 1 ==> result == [start]
          decreases Count(copy, Path), |result|
        {
          ghost var before, stack := copy, result;
          var pushed;
          pushed, copy, result, head := WalkStep(copy, n, result, head);
          if pushed {
            PushKeeps(g, before, n, start, stack, head);
          } else {
            PopKeeps(g, before, n, start, stack);
          }
        }
        if result != [] {
          WalkIsRoute(g, copy, n, start, result);
        }
      }
    }

    /** The first intersection the walk meets going from `start` in
        direction `dir` within `maxDistance` steps: `start` itself when it
        is an intersection, the `Sentinel` when the walk finds none (always
        so without a usable direction), and `intersection` unchanged when
        `start` is off the grid or a `Wall`. The ghost `route` is the walk's
        final stack, a self-avoiding route from `start` through the entry
        tile to the result that keeps off the three other neighbours of
        `start` and passes no other intersection. From a `Path`
        start the `Sentinel` means that no self-avoiding route through the
        entry tile, clear of the three marked neighbours, reaches an
        intersection within range. */
    method NextIntersection(start: Pair, intersection: Pair, dir: Direction, maxDistance: int)
      returns (r: Pair, ghost route: seq<Pair>)
      requires Generated()
      ensures !InBounds(mazeLength, start) || At(rows, mazeLength, start) == Wall ==> r == intersection
      ensures InBounds(mazeLength, start) && At(rows, mazeLength, start) != Wall ==>
        if IsIntersection(start.y, start.x) then r == start
        else if !EntryOpenStrict(rows, mazeLength, start, dir) then r == Sentinel
        else (r == Sentinel || (
          && IsIntersection(r.y, r.x) && At(rows, mazeLength, r) == Path
          && |route| >= 2 && route[0] == start && route[1] == Step(start, dir) && route[|route| - 1] == r
          && IsRoute(rows, mazeLength, route) && Distinct(route) && |route| - 2 <= maxDistance
          && (forall i :: 0 <= i < |route| ==> route[i] !in Suppressed(start, dir))
          && forall i :: 0 <= i < |route| - 1 ==> !IsIntersection(route[i].y, route[i].x)))
      ensures (&& InBounds(mazeLength, start) && At(rows, mazeLength, start) == Path
               && !IsIntersection(start.y, start.x) && EntryOpenStrict(rows, mazeLength, start, dir)
               && r == Sentinel) ==>
        forall w: seq<Pair> :: EntryRoute(rows, mazeLength, start, dir, w) && |w| - 2 <= maxDistance ==>
          !IsIntersection(w[|w| - 1].y, w[|w| - 1].x)
    {
      r := intersection;
      route := [];
      var g, n := rows, mazeLength;
      if IsValidTileLocation(start.y, start.x) && g[start.y][start.x] != Wall {
        if !IsIntersection(start.y, start.x) {
          var copy, entered := EnterWalk(g, n, start, dir, true);
          var stack := if entered then [start] else [];
          if entered {
            TrackStart(g, copy, n, start, dir, maxDistance);
          }

          var head := start;
          while stack != [] && (|stack| - 2 > maxDistance || !IsIntersection(head.y, head.x))
            invariant WalkInv(g, copy, n, start, stack)
            invariant stack != [] ==> head == stack[|stack| - 1]
            invariant !entered ==> stack == []
            invariant entered ==> Fenced(copy, n, Suppressed(start, dir), stack)
            invariant PassedNoIntersection(g, n, maxDistance, stack)
            invariant entered ==> Tracks(g, copy, n, start, dir, maxDistance, stack)
            decreases Count(copy, Path), |stack|
          {
            copy, stack, head := IntersectionStep(g, copy, n, start, dir, maxDistance, stack, head);
          }

          if stack == [] {
            r := Sentinel;
            if entered && PathAt(g, n, start) {
              TrackEmpty(g, copy, n, start, dir, maxDistance);
            }
          } else {
            r := stack[|stack| - 1];
            route := stack;
            EndsOnEntryRoute(g, copy, n, start, dir, maxDistance, stack);
          }
        } else {
          r := start;
        }
      }
    }

    /** One round of the next-intersection walk: it keeps the walk
        invariant and the fence, goes on past a tile only as the loop test
        allows, keeps following every entry route that reaches an
        intersection in range, and lowers the walk's measure. */
    static method IntersectionStep(ghost g: Grid, copy: Grid, n: int, ghost start: Pair, ghost dir: Direction,
                                   ghost maxDistance: int, stack: seq<Pair>, head: Pair)
      returns (copy': Grid, stack': seq<Pair>, head': Pair)
      requires WalkInv(g, copy, n, start, stack) && Fenced(copy, n, Suppressed(start, dir), stack)
      requires stack != [] && head == stack[|stack| - 1]
      requires |stack| - 2 > maxDistance || !(InBounds(n, head) && AtLeastThreeOpen(g, n, head))
      requires PassedNoIntersection(g, n, maxDistance, stack) && Tracks(g, copy, n, start, dir, maxDistance, stack)
      ensures WalkInv(g, copy', n, start, stack') && Fenced(copy', n, Suppressed(start, dir), stack')
      ensures stack' != [] ==> head' == stack'[|stack'| - 1]
      ensures PassedNoIntersection(g, n, maxDistance, stack') && Tracks(g, copy', n, start, dir, maxDistance, stack')
      ensures Count(copy', Path) < Count(copy, Path) || (copy' == copy && |stack'| < |stack|)
    {
      TrackPop(g, copy, n, start, dir, maxDistance, stack);
      var pushed;
      pushed, copy', stack', head' := WalkStep(copy, n, stack, head);
      if pushed {
        PushKeeps(g, copy, n, start, stack, head');
        FencedPush(copy, n, Suppressed(start, dir), stack, head');
        TrackPush(g, copy, n, start, dir, maxDistance, stack, head');
      } else {
        PopKeeps(g, copy, n, start, stack);
        FencedPop(copy, n, Suppressed(start, dir), stack);
      }
    }

    /** The start of every walk: a scratch copy of the grid with `start`
        marked `Visited`; when the tile in direction `dir` passes the
        bounds test (the strict one if `strict`) and is `Path`, the walk is
        entered and the three other neighbours of `start` are marked too. */
    static method EnterWalk(g: Grid, n: int, start: Pair, dir: Direction, strict: bool) returns (copy: Grid, entered: bool)
      requires IsSquare(g, n) && InBounds(n, start)
      ensures entered == if strict then EntryOpenStrict(g, n, start, dir) else EntryOpen(g, n, start, dir)
      ensures entered ==> dir != None
      ensures WalkInv(g, copy, n, start, [start]) && WalkInv(g, copy, n, start, [])
      ensures At(copy, n, start) == Visited
      ensures entered ==> forall q :: q in Suppressed(start, dir) && InBounds(n, q) ==> At(copy, n, q) == Visited
      ensures entered ==> Fenced(copy, n, Suppressed(start, dir), [start])
      ensures Covers(g, copy, n, {start} + if entered then Suppressed(start, dir) else {})
    {
      copy := Set(g, n, start, Visited);
      StartKeeps(g, n, start);
      entered := if strict then EntryOpenStrict(copy, n, start, dir) else EntryOpen(copy, n, start, dir);
      if entered {
        SuppressKeeps(g, copy, n, start, [start], dir);
        SuppressKeeps(g, copy, n, start, [], dir);
        copy := Suppress(copy, n, start, dir);
      }
    }

    /** One round of every walker: when the stack head has open neighbours
        in the scratch copy, move to a random one, mark it `Visited` and push
        it; otherwise pop the head and continue from the tile below it. */
    static method WalkStep(copy: Grid, n: int, stack: seq<Pair>, head: Pair)
      returns (pushed: bool, copy': Grid, stack': seq<Pair>, head': Pair)
      requires IsSquare(copy, n) && InBounds(n, head) && stack != []
      ensures pushed <==> OpenNeighbours(copy, n, head) != []
      ensures pushed ==>
        && head' in OpenNeighbours(copy, n, head)
        && copy' == Set(copy, n, head', Visited) && stack' == stack + [head']
      ensures !pushed ==>
        && copy' == copy && stack' == stack[..|stack| - 1]
        && (stack' != [] ==> head' == stack'[|stack'| - 1])
    {
      var neighbours := OpenNeighbours(copy, n, head);
      if neighbours != [] {
        var k :| 0 <= k < |neighbours|;
        head' := neighbours[k];
        copy' := Set(copy, n, head', Visited);
        stack' := stack + [head'];
        pushed := true;
      } else {
        stack' := stack[..|stack| - 1];
        copy', head' := copy, head;
        if stack' != [] {
          head' := stack'[|stack'| - 1];
        }
        pushed := false;
      }
    }

    /** The corners of a path of tiles: its first tile, every tile where it
        turns, and its last tile, appended to `prior`. */
    static method ExtractCorners(input: seq<Pair>, prior: seq<Pair>) returns (result: seq<Pair>)
      requires |input| >= 1
      ensures result == prior + CornersOf(input)
    {
      result := prior + [input[0]];
      ghost var turns: seq<Pair> := [];
      var i := 1;
      while i < |input| - 1
        invariant 1 <= i && (|input| >= 2 ==> i <= |input| - 1)
        invariant result == prior + [input[0]] + turns
        invariant turns == if |input| >= 2 then TurnsBefore(input, i) else []
      {
        assert TurnsBefore(input, i + 1) == TurnsBefore(input, i) + if KeepsTurn(input, i) then [input[i]] else [];
        if input[i].x == input[i - 1].x && input[i].x != input[i + 1].x {
          result := result + [input[i]];
          turns := turns + [input[i]];
        } else if input[i].y == input[i - 1].y && input[i].y != input[i + 1].y {
          result := result + [input[i]];
          turns := turns + [input[i]];
        }
        i := i + 1;
      }
      assert prior + [input[0]] + turns + [input[|input| - 1]] == prior + ([input[0]] + turns + [input[|input| - 1]]);
      result := result + [input[|input| - 1]];
    }
  }
}
