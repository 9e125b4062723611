/**
  The shape of a grid during and after maze generation. Cells sit at
  even-even coordinates, pillars at odd-odd ones, and the remaining tiles
  are the walls between two cells, which generation may carve into `Path`.
 */
module Carving {
  import opened Tiles
  import opened Counting

  /** An even-even coordinate: a maze cell. */
  predicate IsCellPos(p: Pair) {
    p.x % 2 == 0 && p.y % 2 == 0
  }

  /** An odd-odd coordinate: a pillar that is never carved. */
  predicate IsPillarPos(p: Pair) {
    p.x % 2 == 1 && p.y % 2 == 1
  }

  /** `q` is the cell two tiles from `p` in one of the four directions. */
  predicate IsCellStep(p: Pair, q: Pair) {
    || (p.x == q.x && (q.y == p.y - 2 || q.y == p.y + 2))
    || (p.y == q.y && (q.x == p.x - 2 || q.x == p.x + 2))
  }

  /** The tile halfway between two cells that are two apart. */
  function Between(a: Pair, b: Pair): Pair {
    Pair((a.x + b.x) / 2, (a.y + b.y) / 2)
  }

  /** No cell two tiles from `p` is still an unvisited `Cell`. */
  ghost predicate Finished(g: Grid, n: int, p: Pair)
    requires IsSquare(g, n)
  {
    forall q :: InBounds(n, q) && IsCellStep(p, q) ==> At(g, n, q) != Cell
  }

  /** The unvisited cells two tiles from `p`, in the order the generator
      lists them: above, below, left, right. */
  function CellNeighbours(g: Grid, n: int, p: Pair): (r: seq<Pair>)
    requires IsSquare(g, n) && InBounds(n, p)
    ensures forall q :: q in r ==> InBounds(n, q) && IsCellStep(p, q) && At(g, n, q) == Cell
    ensures r == [] <==> Finished(g, n, p)
  {
    var up, down, left, right := Pair(p.x, p.y - 2), Pair(p.x, p.y + 2), Pair(p.x - 2, p.y), Pair(p.x + 2, p.y);
    (if p.y - 2 >= 0 && At(g, n, up) == Cell then [up] else [])
    + (if p.y + 2 < n && At(g, n, down) == Cell then [down] else [])
    + (if p.x - 2 >= 0 && At(g, n, left) == Cell then [left] else [])
    + (if p.x + 2 < n && At(g, n, right) == Cell then [right] else [])
  }

  /** Every unvisited cell two tiles from `p` is listed. */
  lemma CellNeighboursComplete(g: Grid, n: int, p: Pair, q: Pair)
    requires IsSquare(g, n) && InBounds(n, p)
    requires InBounds(n, q) && IsCellStep(p, q) && At(g, n, q) == Cell
    ensures q in CellNeighbours(g, n, p)
  {
  }

  /** A wall tile between two cells is `Path` only together with both of
      the cells it joins. */
  ghost predicate Joined(g: Grid, n: int, p: Pair)
    requires IsSquare(g, n)
  {
    if p.x % 2 == 1 then PathAt(g, n, Pair(p.x - 1, p.y)) && PathAt(g, n, Pair(p.x + 1, p.y))
    else PathAt(g, n, Pair(p.x, p.y - 1)) && PathAt(g, n, Pair(p.x, p.y + 1))
  }

  /** The generator's shape invariant: cells are `Cell` or `Path`, pillars
      are `Wall`, and a wall between two cells is either still `Wall` or a
      carved `Path` joining two carved cells. */
  ghost predicate WellCarved(g: Grid, n: int)
    requires IsSquare(g, n)
  {
    forall p :: InBounds(n, p) ==>
      && (IsCellPos(p) ==> At(g, n, p) == Cell || At(g, n, p) == Path)
      && (IsPillarPos(p) ==> At(g, n, p) == Wall)
      && (!IsCellPos(p) && !IsPillarPos(p) ==>
            At(g, n, p) == Wall || (At(g, n, p) == Path && Joined(g, n, p)))
  }

  /** The number of even indices in [0, n): cells per row and column. */
  function Half(n: int): int {
    (n + 1) / 2
  }

  /** The number of cells in an `n` by `n` grid. */
  function CellCount(n: int): int {
    Half(n) * Half(n)
  }

  /** A row of walls only. */
  ghost predicate IsWallRow(r: seq<Tile>, n: int) {
    && |r| == n && (forall j :: 0 <= j < n ==> r[j] == Wall)
    && CountRow(r, Cell) == 0 && CountRow(r, Path) == 0
  }

  /** A row alternating `Cell` and `Wall`, starting with a cell. */
  ghost predicate IsCellRow(r: seq<Tile>, n: int) {
    && |r| == n && (forall j :: 0 <= j < n ==> r[j] == if j % 2 == 1 then Wall else Cell)
    && CountRow(r, Cell) == Half(n) && CountRow(r, Path) == 0
  }

  lemma WallRowFacts(n: int)
    requires n >= 0
    ensures IsWallRow(seq(n, _ => Wall), n)
  {
    CountRowUniform(n, Wall, Cell);
    CountRowUniform(n, Wall, Path);
  }

  /** The first `index` rows of the blank grid, alternating cell rows and
      wall rows, hold `Half(index)` rows' worth of cells and no `Path`. */
  ghost predicate Stacked(g: Grid, n: int, index: int, wallRow: seq<Tile>, cellRow: seq<Tile>) {
    && 0 <= index <= n && |g| == index
    && (forall i :: 0 <= i < index ==> g[i] == if i % 2 == 1 then wallRow else cellRow)
    && Count(g, Cell) == Half(index) * Half(n) && Count(g, Path) == 0
  }

  lemma StackedPush(g: Grid, n: int, index: int, wallRow: seq<Tile>, cellRow: seq<Tile>)
    requires Stacked(g, n, index, wallRow, cellRow) && index < n
    requires IsWallRow(wallRow, n) && IsCellRow(cellRow, n)
    ensures Stacked(g + [if index % 2 == 1 then wallRow else cellRow], n, index + 1, wallRow, cellRow)
  {
    var row := if index % 2 == 1 then wallRow else cellRow;
    HalfStep(index, Half(n));
    CountAppend(g, row, Cell);
    CountAppend(g, row, Path);
  }

  lemma StackedDone(g: Grid, n: int, wallRow: seq<Tile>, cellRow: seq<Tile>)
    requires Stacked(g, n, n, wallRow, cellRow) && IsWallRow(wallRow, n) && IsCellRow(cellRow, n)
    ensures IsSquare(g, n) && IsBlank(g, n)
    ensures Count(g, Cell) == CellCount(n) && Count(g, Path) == 0
  {
    forall p | InBounds(n, p)
      ensures At(g, n, p) == if IsCellPos(p) then Cell else Wall
    {
      assert g[p.y] == if p.y % 2 == 1 then wallRow else cellRow;
    }
  }

  /** One more row adds `h` cells when its index is even and none when odd. */
  lemma HalfStep(i: int, h: int)
    requires i >= 0
    ensures Half(i + 1) * h == Half(i) * h + (if i % 2 == 0 then h else 0)
  {
    if i % 2 == 0 {
      assert Half(i + 1) == Half(i) + 1;
    } else {
      assert Half(i + 1) == Half(i);
    }
  }

  /** The tile between two cells two apart is a wall position whose two
      flanking cells are exactly those two cells. */
  lemma BetweenFlanks(top: Pair, c: Pair)
    requires IsCellPos(top) && IsCellStep(top, c)
    ensures var m := Between(top, c);
      && !IsCellPos(m) && !IsPillarPos(m)
      && Adjacent(top, m) && Adjacent(m, c)
      && (if m.x % 2 == 1 then {Pair(m.x - 1, m.y), Pair(m.x + 1, m.y)} == {top, c}
          else {Pair(m.x, m.y - 1), Pair(m.x, m.y + 1)} == {top, c})
  {
  }

  /** The tile between two cells two apart, case by case on the direction
      from the second cell back to the first. */
  lemma BetweenCases(top: Pair, c: Pair)
    requires IsCellStep(top, c)
    ensures c.y + 2 == top.y ==> Between(top, c) == Pair(c.x, c.y + 1)
    ensures c.y - 2 == top.y ==> Between(top, c) == Pair(c.x, c.y - 1)
    ensures c.x + 2 == top.x ==> Between(top, c) == Pair(c.x + 1, c.y)
    ensures c.x - 2 == top.x ==> Between(top, c) == Pair(c.x - 1, c.y)
  {
  }

  /** The wall between a carved cell and an unvisited one is still `Wall`. */
  lemma BetweenIsWall(g: Grid, n: int, top: Pair, c: Pair)
    requires IsSquare(g, n) && WellCarved(g, n)
    requires InBounds(n, top) && IsCellPos(top)
    requires InBounds(n, c) && IsCellStep(top, c) && At(g, n, c) == Cell
    ensures InBounds(n, Between(top, c)) && At(g, n, Between(top, c)) == Wall
  {
    var m := Between(top, c);
    BetweenFlanks(top, c);
    assert InBounds(n, m);
    assert !PathAt(g, n, c);
    assert !Joined(g, n, m);
  }

  /** Carving from the carved cell `top` to the unvisited cell `c` turns
      exactly the wall between them and `c` itself into `Path`, which keeps
      the shape invariant. */
  lemma CarveKeepsShape(g: Grid, n: int, top: Pair, c: Pair)
    requires IsSquare(g, n) && WellCarved(g, n)
    requires InBounds(n, top) && IsCellPos(top) && At(g, n, top) == Path
    requires InBounds(n, c) && IsCellStep(top, c) && At(g, n, c) == Cell
    ensures InBounds(n, Between(top, c))
    ensures WellCarved(Set(Set(g, n, Between(top, c), Path), n, c, Path), n)
  {
    var m := Between(top, c);
    BetweenFlanks(top, c);
    BetweenIsWall(g, n, top, c);
    var g' := Set(Set(g, n, m, Path), n, c, Path);
    assert Joined(g', n, m);
    assert forall q :: PathAt(g, n, q) ==> PathAt(g', n, q);
    forall p | InBounds(n, p)
      ensures && (IsCellPos(p) ==> At(g', n, p) == Cell || At(g', n, p) == Path)
              && (IsPillarPos(p) ==> At(g', n, p) == Wall)
              && (!IsCellPos(p) && !IsPillarPos(p) ==>
                    At(g', n, p) == Wall || (At(g', n, p) == Path && Joined(g', n, p)))
    {
      if p != m && p != c && !IsCellPos(p) && !IsPillarPos(p) && At(g, n, p) == Path {
        assert Joined(g, n, p);
        JoinedStays(g, g', n, p);
      }
    }
  }

  /** Turning tiles into `Path` keeps a joined wall joined. */
  lemma JoinedStays(g: Grid, g': Grid, n: int, p: Pair)
    requires IsSquare(g, n) && IsSquare(g', n) && Joined(g, n, p)
    requires forall q :: PathAt(g, n, q) ==> PathAt(g', n, q)
    ensures Joined(g', n, p)
  {
  }

  /** The same carving step adds two `Path` tiles and removes one `Cell`. */
  lemma CarveCounts(g: Grid, n: int, top: Pair, c: Pair)
    requires IsSquare(g, n) && WellCarved(g, n)
    requires InBounds(n, top) && IsCellPos(top)
    requires InBounds(n, c) && IsCellStep(top, c) && At(g, n, c) == Cell
    ensures InBounds(n, Between(top, c))
    ensures var g' := Set(Set(g, n, Between(top, c), Path), n, c, Path);
      && Count(g', Path) == Count(g, Path) + 2
      && Count(g', Cell) == Count(g, Cell) - 1
  {
    var m := Between(top, c);
    BetweenFlanks(top, c);
    BetweenIsWall(g, n, top, c);
    var g1 := Set(g, n, m, Path);
    CountSet(g, n, m, Path, Path);
    CountSet(g, n, m, Path, Cell);
    CountSet(g1, n, c, Path, Path);
    CountSet(g1, n, c, Path, Cell);
  }

  /** The first row's cells are all carved once every carved cell is finished. */
  lemma {:induction false} TopRowCarved(g: Grid, n: int, x: int)
    requires IsSquare(g, n) && CellsOpenOrCarved(g, n)
    requires InBounds(n, Pair(0, 0)) && At(g, n, Pair(0, 0)) == Path
    requires forall p :: InBounds(n, p) && IsCellPos(p) && At(g, n, p) == Path ==> Finished(g, n, p)
    requires 0 <= x < n && x % 2 == 0
    ensures At(g, n, Pair(x, 0)) == Path
    decreases x
  {
    if x > 0 {
      var prev := Pair(x - 2, 0);
      TopRowCarved(g, n, x - 2);
      assert Finished(g, n, prev);
      assert IsCellStep(prev, Pair(x, 0));
    }
  }

  /** Every cell is carved once every carved cell is finished. */
  lemma {:induction false} ColumnCarved(g: Grid, n: int, x: int, y: int)
    requires IsSquare(g, n) && CellsOpenOrCarved(g, n)
    requires InBounds(n, Pair(0, 0)) && At(g, n, Pair(0, 0)) == Path
    requires forall p :: InBounds(n, p) && IsCellPos(p) && At(g, n, p) == Path ==> Finished(g, n, p)
    requires InBounds(n, Pair(x, y)) && IsCellPos(Pair(x, y))
    ensures At(g, n, Pair(x, y)) == Path
    decreases y
  {
    if y == 0 {
      TopRowCarved(g, n, x);
    } else {
      var prev := Pair(x, y - 2);
      ColumnCarved(g, n, x, y - 2);
      assert Finished(g, n, prev);
      assert IsCellStep(prev, Pair(x, y));
    }
  }

  /** Every cell is still `Cell` or already carved. */
  ghost predicate CellsOpenOrCarved(g: Grid, n: int)
    requires IsSquare(g, n)
  {
    forall p :: InBounds(n, p) && IsCellPos(p) ==> At(g, n, p) == Cell || At(g, n, p) == Path
  }

  /** When the origin is carved and no carved cell has an unvisited cell
      two tiles away, no `Cell` remains anywhere: the search has reached
      the whole lattice of cells. */
  lemma AllCellsCarved(g: Grid, n: int)
    requires IsSquare(g, n) && WellCarved(g, n)
    requires InBounds(n, Pair(0, 0)) && At(g, n, Pair(0, 0)) == Path
    requires forall p :: InBounds(n, p) && IsCellPos(p) && At(g, n, p) == Path ==> Finished(g, n, p)
    ensures forall p :: InBounds(n, p) ==> At(g, n, p) == Path || At(g, n, p) == Wall
  {
    assert CellsOpenOrCarved(g, n);
    forall p | InBounds(n, p) && IsCellPos(p)
      ensures At(g, n, p) == Path
    {
      ColumnCarved(g, n, p.x, p.y);
    }
  }

  /** A finished cell stays finished when no new `Cell` appears. */
  lemma FinishedStays(g: Grid, g': Grid, n: int, p: Pair)
    requires IsSquare(g, n) && IsSquare(g', n) && Finished(g, n, p)
    requires forall q :: InBounds(n, q) && At(g', n, q) == Cell ==> At(g, n, q) == Cell
    ensures Finished(g', n, p)
  {
  }

  /** The grid generation starts from: a `Cell` at every even-even
      coordinate and a `Wall` everywhere else. */
  ghost predicate IsBlank(g: Grid, n: int)
    requires IsSquare(g, n)
  {
    forall p :: InBounds(n, p) ==> At(g, n, p) == if IsCellPos(p) then Cell else Wall
  }

  /** The invariant of the depth-first carving: the shape invariant holds,
      the origin is carved, the stack holds carved cells, and every carved
      cell that has left the stack is finished. */
  ghost predicate DfsInv(g: Grid, n: int, stack: seq<Pair>) {
    && IsSquare(g, n) && WellCarved(g, n)
    && InBounds(n, Pair(0, 0)) && At(g, n, Pair(0, 0)) == Path
    && (forall i :: 0 <= i < |stack| ==> InBounds(n, stack[i]) && IsCellPos(stack[i]) && At(g, n, stack[i]) == Path)
    && (forall p :: InBounds(n, p) && IsCellPos(p) && At(g, n, p) == Path && p !in stack ==> Finished(g, n, p))
    && StackJoined(g, n, stack)
  }

  /** Consecutive stack entries are cells two apart joined by a carved tile. */
  ghost predicate StackJoined(g: Grid, n: int, stack: seq<Pair>)
    requires IsSquare(g, n)
  {
    forall i, j :: 0 <= i && j == i + 1 && j < |stack| ==>
      IsCellStep(stack[i], stack[j]) && PathAt(g, n, Between(stack[i], stack[j]))
  }

  /** Carving the origin of a blank grid starts the search. */
  lemma DfsStart(g: Grid, n: int)
    requires IsSquare(g, n) && IsBlank(g, n) && n >= 1
    ensures DfsInv(Set(g, n, Pair(0, 0), Path), n, [Pair(0, 0)])
    ensures Count(Set(g, n, Pair(0, 0), Path), Path) == Count(g, Path) + 1
    ensures Count(Set(g, n, Pair(0, 0), Path), Cell) == Count(g, Cell) - 1
  {
    CountSet(g, n, Pair(0, 0), Path, Path);
    CountSet(g, n, Pair(0, 0), Path, Cell);
  }

  /** Every `Path` tile can be reached from the origin over `Path` tiles. */
  ghost predicate Connected(g: Grid, n: int)
    requires IsSquare(g, n)
  {
    forall p :: PathAt(g, n, p) ==> Reachable(g, n, Pair(0, 0), p)
  }

  /** A route stays a route when no `Path` tile is lost. */
  lemma RouteGrows(g: Grid, g': Grid, n: int, w: seq<Pair>)
    requires IsRoute(g, n, w) && IsSquare(g', n)
    requires forall q :: PathAt(g, n, q) ==> PathAt(g', n, q)
    ensures IsRoute(g', n, w)
  {
    forall i | 0 < i < |w|
      ensures At(g', n, w[i]) == Path
    {
      assert PathAt(g, n, w[i]);
    }
  }

  /** A route continues onto an adjacent `Path` tile. */
  lemma RouteExtend(g: Grid, n: int, w: seq<Pair>, q: Pair)
    requires IsRoute(g, n, w) && PathAt(g, n, q) && Adjacent(w[|w| - 1], q)
    ensures IsRoute(g, n, w + [q]) && (w + [q])[0] == w[0] && (w + [q])[|w|] == q
  {
    var w' := w + [q];
    forall i | 0 < i < |w'|
      ensures Adjacent(w'[i - 1], w'[i]) && At(g, n, w'[i]) == Path
    {
      if i < |w| {
        assert w'[i - 1] == w[i - 1] && w'[i] == w[i];
      }
    }
  }

  /** Carving the origin of a blank grid gives a connected grid: the origin
      is its only `Path` tile. */
  lemma ConnectedStart(g: Grid, n: int)
    requires IsSquare(g, n) && IsBlank(g, n) && n >= 1
    ensures Connected(Set(g, n, Pair(0, 0), Path), n)
  {
    var g' := Set(g, n, Pair(0, 0), Path);
    forall p | PathAt(g', n, p)
      ensures Reachable(g', n, Pair(0, 0), p)
    {
      assert p == Pair(0, 0);
      assert IsRoute(g', n, [p]);
    }
  }

  /** Carving from a `Path` tile `top` to the cell `c` keeps the grid
      connected: the carved wall and `c` continue a route to `top`. */
  lemma ConnectedCarve(g: Grid, n: int, top: Pair, c: Pair)
    requires IsSquare(g, n) && Connected(g, n)
    requires IsCellPos(top) && PathAt(g, n, top)
    requires InBounds(n, c) && IsCellStep(top, c)
    ensures InBounds(n, Between(top, c))
    ensures Connected(Set(Set(g, n, Between(top, c), Path), n, c, Path), n)
  {
    var m := Between(top, c);
    BetweenFlanks(top, c);
    assert InBounds(n, m);
    var g' := Set(Set(g, n, m, Path), n, c, Path);
    assert forall q :: PathAt(g, n, q) ==> PathAt(g', n, q);
    assert Reachable(g, n, Pair(0, 0), top);
    var w :| IsRoute(g, n, w) && w[0] == Pair(0, 0) && w[|w| - 1] == top;
    RouteGrows(g, g', n, w);
    RouteExtend(g', n, w, m);
    RouteExtend(g', n, w + [m], c);
    forall p | PathAt(g', n, p)
      ensures Reachable(g', n, Pair(0, 0), p)
    {
      if p == m {
        assert (w + [m])[|w + [m]| - 1] == m;
      } else if p == c {
        assert (w + [m] + [c])[|w + [m] + [c]| - 1] == c;
      } else {
        assert PathAt(g, n, p);
        var v :| IsRoute(g, n, v) && v[0] == Pair(0, 0) && v[|v| - 1] == p;
        RouteGrows(g, g', n, v);
      }
    }
  }

  /** Carving from the top of the stack to one of its unvisited cells and
      pushing that cell keeps the invariant. */
  lemma DfsPush(g: Grid, n: int, stack: seq<Pair>, c: Pair)
    requires DfsInv(g, n, stack) && stack != []
    requires c in CellNeighbours(g, n, stack[|stack| - 1])
    ensures InBounds(n, Between(stack[|stack| - 1], c))
    ensures DfsInv(Set(Set(g, n, Between(stack[|stack| - 1], c), Path), n, c, Path), n, stack + [c])
    ensures var g' := Set(Set(g, n, Between(stack[|stack| - 1], c), Path), n, c, Path);
      && Count(g', Path) == Count(g, Path) + 2
      && Count(g', Cell) == Count(g, Cell) - 1
  {
    var top := stack[|stack| - 1];
    CarveKeepsShape(g, n, top, c);
    CarveCounts(g, n, top, c);
    PushKeepsFinished(g, n, stack, c);
    var g' := Set(Set(g, n, Between(top, c), Path), n, c, Path);
    PushedCellsCarved(g, g', n, stack, c);
    PushKeepsJoined(g, g', n, stack, c);
  }

  /** Pushing a cell two tiles from the top, with the tile between carved,
      keeps consecutive entries joined when no `Path` tile is lost. */
  lemma PushKeepsJoined(g: Grid, g': Grid, n: int, stack: seq<Pair>, c: Pair)
    requires IsSquare(g, n) && IsSquare(g', n) && StackJoined(g, n, stack) && stack != []
    requires IsCellStep(stack[|stack| - 1], c) && PathAt(g', n, Between(stack[|stack| - 1], c))
    requires forall q :: PathAt(g, n, q) ==> PathAt(g', n, q)
    ensures StackJoined(g', n, stack + [c])
  {
    var s' := stack + [c];
    forall i, j | 0 <= i && j == i + 1 && j < |s'|
      ensures IsCellStep(s'[i], s'[j]) && PathAt(g', n, Between(s'[i], s'[j]))
    {
      if j < |stack| {
        assert s'[i] == stack[i] && s'[j] == stack[j];
      }
    }
  }

  /** After carving, every carved cell off the stack is still finished. */
  lemma PushKeepsFinished(g: Grid, n: int, stack: seq<Pair>, c: Pair)
    requires DfsInv(g, n, stack) && stack != []
    requires InBounds(n, c) && IsCellStep(stack[|stack| - 1], c) && At(g, n, c) == Cell
    ensures InBounds(n, Between(stack[|stack| - 1], c))
    ensures var g' := Set(Set(g, n, Between(stack[|stack| - 1], c), Path), n, c, Path);
      forall p :: InBounds(n, p) && IsCellPos(p) && At(g', n, p) == Path && p !in stack + [c] ==> Finished(g', n, p)
  {
    var top := stack[|stack| - 1];
    BetweenFlanks(top, c);
    var m := Between(top, c);
    var g' := Set(Set(g, n, m, Path), n, c, Path);
    forall p | InBounds(n, p) && IsCellPos(p) && At(g', n, p) == Path && p !in stack + [c]
      ensures Finished(g', n, p)
    {
      assert p != m && p != c;
      assert At(g, n, p) == Path;
      FinishedStays(g, g', n, p);
    }
  }

  /** The stack, with the new cell pushed, still holds carved cells. */
  lemma PushedCellsCarved(g: Grid, g': Grid, n: int, stack: seq<Pair>, c: Pair)
    requires IsSquare(g, n) && IsSquare(g', n) && InBounds(n, c) && IsCellPos(c) && At(g', n, c) == Path
    requires forall i :: 0 <= i < |stack| ==> InBounds(n, stack[i]) && IsCellPos(stack[i]) && At(g, n, stack[i]) == Path
    requires forall q :: InBounds(n, q) && At(g, n, q) == Path ==> At(g', n, q) == Path
    ensures forall i :: 0 <= i < |stack + [c]| ==>
      InBounds(n, (stack + [c])[i]) && IsCellPos((stack + [c])[i]) && At(g', n, (stack + [c])[i]) == Path
  {
  }

  /** Popping a finished cell keeps the invariant. */
  lemma DfsPop(g: Grid, n: int, stack: seq<Pair>)
    requires DfsInv(g, n, stack) && stack != [] && Finished(g, n, stack[|stack| - 1])
    ensures DfsInv(g, n, stack[..|stack| - 1])
  {
    assert stack == stack[..|stack| - 1] + [stack[|stack| - 1]];
    PopKeepsJoined(g, n, stack);
  }

  lemma PopKeepsJoined(g: Grid, n: int, stack: seq<Pair>)
    requires IsSquare(g, n) && StackJoined(g, n, stack) && stack != []
    ensures StackJoined(g, n, stack[..|stack| - 1])
  {
    var s' := stack[..|stack| - 1];
    forall i, j | 0 <= i && j == i + 1 && j < |s'|
      ensures IsCellStep(s'[i], s'[j]) && PathAt(g, n, Between(s'[i], s'[j]))
    {
      assert s'[i] == stack[i] && s'[j] == stack[j];
    }
  }

  /** When the stack is empty no `Cell` is left: every tile is `Path` or `Wall`. */
  lemma DfsDone(g: Grid, n: int)
    requires DfsInv(g, n, [])
    ensures forall p :: InBounds(n, p) ==> At(g, n, p) == Path || At(g, n, p) == Wall
    ensures Count(g, Cell) == 0
  {
    AllCellsCarved(g, n);
    forall i, j | 0 <= i < |g| && 0 <= j < |g[i]|
      ensures g[i][j] != Cell
    {
      assert At(g, n, Pair(j, i)) == g[i][j];
    }
    CountAbsent(g, Cell);
  }
}
