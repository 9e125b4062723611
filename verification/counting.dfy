/**
  Counting the tiles of one designation in a row and in a grid, and how a
  single-tile update changes the count. The generator's tree-size argument
  and every walker's termination measure rest on these.
 */
module Counting {
  import opened Tiles

  function CountRow(r: seq<Tile>, t: Tile): (k: nat)
    ensures k <= |r|
  {
    if r == [] then 0 else CountRow(r[..|r| - 1], t) + (if r[|r| - 1] == t then 1 else 0)
  }

  function Count(g: Grid, t: Tile): nat {
    if g == [] then 0 else Count(g[..|g| - 1], t) + CountRow(g[|g| - 1], t)
  }

  /** Replacing one entry of a row changes its count by at most one. */
  lemma {:induction false} CountRowUpdate(r: seq<Tile>, i: int, v: Tile, t: Tile)
    requires 0 <= i < |r|
    ensures CountRow(r[i := v], t)
         == CountRow(r, t) - (if r[i] == t then 1 else 0) + (if v == t then 1 else 0)
  {
    var last := |r| - 1;
    if i == last {
      assert r[i := v][..last] == r[..last];
    } else {
      assert r[i := v][..last] == r[..last][i := v];
      CountRowUpdate(r[..last], i, v, t);
    }
  }

  /** Replacing one row of a grid changes its count by the difference of the rows' counts. */
  lemma {:induction false} CountUpdate(g: Grid, i: int, row: seq<Tile>, t: Tile)
    requires 0 <= i < |g|
    ensures Count(g[i := row], t) == Count(g, t) - CountRow(g[i], t) + CountRow(row, t)
  {
    var last := |g| - 1;
    if i == last {
      assert g[i := row][..last] == g[..last];
    } else {
      assert g[i := row][..last] == g[..last][i := row];
      CountUpdate(g[..last], i, row, t);
    }
  }

  /** Setting one tile of a grid changes the count of `t` by at most one. */
  lemma CountSet(g: Grid, n: int, p: Pair, v: Tile, t: Tile)
    requires IsSquare(g, n) && InBounds(n, p)
    ensures Count(Set(g, n, p, v), t)
         == Count(g, t) - (if At(g, n, p) == t then 1 else 0) + (if v == t then 1 else 0)
  {
    CountRowUpdate(g[p.y], p.x, v, t);
    CountUpdate(g, p.y, g[p.y][p.x := v], t);
  }

  /** Appending a row adds its count. */
  lemma CountAppend(g: Grid, row: seq<Tile>, t: Tile)
    ensures Count(g + [row], t) == Count(g, t) + CountRow(row, t)
  {
    assert (g + [row])[..|g|] == g;
  }

  lemma CountRowAppend(r: seq<Tile>, v: Tile, t: Tile)
    ensures CountRow(r + [v], t) == CountRow(r, t) + (if v == t then 1 else 0)
  {
    assert (r + [v])[..|r|] == r;
  }

  /** A row of `k` copies of `v` counts `k` of `v` and none of anything else. */
  lemma {:induction false} CountRowUniform(k: nat, v: Tile, t: Tile)
    ensures CountRow(seq(k, _ => v), t) == if v == t then k else 0
  {
    if k > 0 {
      assert seq(k, _ => v)[..k - 1] == seq(k - 1, _ => v);
      CountRowUniform(k - 1, v, t);
    }
  }

  /** A grid without any `t` counts zero of it. */
  lemma {:induction false} CountAbsent(g: Grid, t: Tile)
    requires forall i, j :: 0 <= i < |g| && 0 <= j < |g[i]| ==> g[i][j] != t
    ensures Count(g, t) == 0
  {
    if g != [] {
      var last := |g| - 1;
      CountAbsent(g[..last], t);
      CountRowAbsent(g[last], t);
    }
  }

  lemma {:induction false} CountRowAbsent(r: seq<Tile>, t: Tile)
    requires forall j :: 0 <= j < |r| ==> r[j] != t
    ensures CountRow(r, t) == 0
  {
    if r != [] {
      CountRowAbsent(r[..|r| - 1], t);
    }
  }
}
