/**
  The data model of a maze segment: tile designations, directions, tile
  coordinates and the square tile grid, with the grid queries every other
  module builds on.
 */
module Tiles {

  /** What a tile is. `Cell` and `Wall` are what generation starts from;
      `Visited` only ever appears in a walker's scratch copy; `OutOfBounds`
      is returned by a lookup, never stored. */
  datatype Tile = Cell | Wall | Path | Visited | OutOfBounds

  /** A direction of travel; `None` means "no entry direction given". */
  datatype Direction = None | North | East | South | West

  /** A tile coordinate: `x` is the column, `y` is the row. */
  datatype Pair = Pair(x: int, y: int)

  /** The coordinate the next-intersection search reports when it finds nothing. */
  const Sentinel := Pair(-1, -1)

  /** A grid is stored row by row: `g[y][x]` is the tile in row y, column x. */
  type Grid = seq<seq<Tile>>

  /** `g` has `n` rows of `n` tiles each. */
  ghost predicate IsSquare(g: Grid, n: int) {
    |g| == n && forall i :: 0 <= i < |g| ==> |g[i]| == n
  }

  /** Both coordinates of `p` lie in [0, n). */
  predicate InBounds(n: int, p: Pair) {
    0 <= p.x < n && 0 <= p.y < n
  }

  function At(g: Grid, n: int, p: Pair): Tile
    requires IsSquare(g, n) && InBounds(n, p)
  {
    g[p.y][p.x]
  }

  /** The grid `g` with the one tile at `p` replaced by `t`. */
  function Set(g: Grid, n: int, p: Pair, t: Tile): (r: Grid)
    requires IsSquare(g, n) && InBounds(n, p)
    ensures IsSquare(r, n)
    ensures At(r, n, p) == t
    ensures forall q :: InBounds(n, q) && q != p ==> At(r, n, q) == At(g, n, q)
  {
    g[p.y := g[p.y][p.x := t]]
  }

  /** The tile one step from `p` in direction `d` (north is the row above). */
  function Step(p: Pair, d: Direction): Pair {
    match d
    case None => p
    case North => Pair(p.x, p.y - 1)
    case South => Pair(p.x, p.y + 1)
    case West => Pair(p.x - 1, p.y)
    case East => Pair(p.x + 1, p.y)
  }

  predicate IsVertical(d: Direction) {
    d == North || d == South
  }

  /** `p` and `q` are orthogonal neighbours. */
  predicate Adjacent(p: Pair, q: Pair) {
    || (p.x == q.x && (q.y == p.y - 1 || q.y == p.y + 1))
    || (p.y == q.y && (q.x == p.x - 1 || q.x == p.x + 1))
  }

  /** `p` is on the grid and holds a `Path` tile. */
  predicate PathAt(g: Grid, n: int, p: Pair)
    requires IsSquare(g, n)
  {
    InBounds(n, p) && At(g, n, p) == Path
  }

  predicate Distinct(s: seq<Pair>) {
    forall i, j :: 0 <= i < j < |s| ==> s[i] != s[j]
  }

  /** `w` is a walk over the grid: every step goes to an orthogonal
      neighbour, and every tile after the first is `Path`. */
  ghost predicate IsRoute(g: Grid, n: int, w: seq<Pair>) {
    && IsSquare(g, n)
    && |w| >= 1
    && (forall i :: 0 <= i < |w| ==> InBounds(n, w[i]))
    && (forall i :: 0 < i < |w| ==> Adjacent(w[i - 1], w[i]) && At(g, n, w[i]) == Path)
  }

  /** Some walk over `Path` tiles leads from `a` to `b`. */
  ghost predicate Reachable(g: Grid, n: int, a: Pair, b: Pair) {
    exists w :: IsRoute(g, n, w) && w[0] == a && w[|w| - 1] == b
  }

  /** At least three of the four orthogonal neighbours of `p` are `Path`,
      said as: of any two different directions, one leads to a `Path`. */
  ghost predicate AtLeastThreeOpen(g: Grid, n: int, p: Pair)
    requires IsSquare(g, n)
  {
    forall d, e :: d != None && e != None && d != e ==>
      PathAt(g, n, Step(p, d)) || PathAt(g, n, Step(p, e))
  }

  /** Three different `Path` neighbours make at least three open ones. */
  lemma ThreeNeighboursOpen(g: Grid, n: int, p: Pair, a: Pair, b: Pair, c: Pair)
    requires IsSquare(g, n) && PathAt(g, n, a) && PathAt(g, n, b) && PathAt(g, n, c)
    requires Adjacent(p, a) && Adjacent(p, b) && Adjacent(p, c) && a != b && b != c && a != c
    ensures AtLeastThreeOpen(g, n, p)
  {
  }

  /** Some neighbour of `p` on the given axis is `Path`. */
  ghost predicate OpenOnAxis(g: Grid, n: int, p: Pair, vertical: bool)
    requires IsSquare(g, n)
  {
    exists d :: d != None && IsVertical(d) == vertical && PathAt(g, n, Step(p, d))
  }

  /** "At least three open neighbours", counted direction by direction. */
  lemma ThreeOpenByCount(g: Grid, n: int, p: Pair)
    requires IsSquare(g, n)
    ensures AtLeastThreeOpen(g, n, p) <==>
      (if PathAt(g, n, Step(p, North)) then 1 else 0) + (if PathAt(g, n, Step(p, South)) then 1 else 0)
      + (if PathAt(g, n, Step(p, West)) then 1 else 0) + (if PathAt(g, n, Step(p, East)) then 1 else 0) >= 3
  {
  }

  /** An axis is open exactly when one of its two neighbours is `Path`. */
  lemma OpenOnAxisByCases(g: Grid, n: int, p: Pair)
    requires IsSquare(g, n)
    ensures OpenOnAxis(g, n, p, true) <==> PathAt(g, n, Step(p, North)) || PathAt(g, n, Step(p, South))
    ensures OpenOnAxis(g, n, p, false) <==> PathAt(g, n, Step(p, West)) || PathAt(g, n, Step(p, East))
  {
  }
}
