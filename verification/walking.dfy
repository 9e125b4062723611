/**
  The machinery the four random walkers share: the open neighbours of the
  stack head in the scratch copy, the entry-direction test and the
  suppression of the three other neighbours, and the invariant every walk
  keeps while it pushes and pops its stack.
 */
module Walking {
  import opened Tiles
  import opened Counting

  /** The orthogonal neighbours of `p` that are still `Path` in the scratch
      copy `c`, in the order the walkers list them: above, below, left, right. */
  function OpenNeighbours(c: Grid, n: int, p: Pair): (r: seq<Pair>)
    requires IsSquare(c, n) && InBounds(n, p)
    ensures forall q :: q in r ==> InBounds(n, q) && Adjacent(p, q) && At(c, n, q) == Path
    ensures forall q :: InBounds(n, q) && Adjacent(p, q) && At(c, n, q) == Path ==> q in r
  {
    var up, down, left, right := Pair(p.x, p.y - 1), Pair(p.x, p.y + 1), Pair(p.x - 1, p.y), Pair(p.x + 1, p.y);
    (if p.y - 1 >= 0 && At(c, n, up) == Path then [up] else [])
    + (if p.y + 1 < n && At(c, n, down) == Path then [down] else [])
    + (if p.x - 1 >= 0 && At(c, n, left) == Path then [left] else [])
    + (if p.x + 1 < n && At(c, n, right) == Path then [right] else [])
  }

  /** No orthogonal neighbour of `p` is still `Path` in `c`. */
  ghost predicate NoOpenNeighbour(c: Grid, n: int, p: Pair)
    requires IsSquare(c, n)
  {
    forall q :: InBounds(n, q) && Adjacent(p, q) ==> At(c, n, q) != Path
  }

  /** The bounds test that the point-to-point and section walkers make
      before reading the tile in the entry direction, as it is written:
      east and south only check that the start itself is inside the grid. */
  predicate EntryGuardAsWritten(n: int, s: Pair, d: Direction) {
    match d
    case North => s.y > 0
    case East => s.x < n
    case South => s.y < n
    case West => s.x > 0
    case None => false
  }

  /** The same bounds test with east and south checking the tile actually
      read, as the next-intersection search writes them. */
  predicate EntryGuard(n: int, s: Pair, d: Direction) {
    match d
    case North => s.y > 0
    case East => s.x + 1 < n
    case South => s.y + 1 < n
    case West => s.x > 0
    case None => false
  }

  /** The next-intersection search's bounds test: north and west also
      refuse the tile in row or column 0. */
  predicate EntryGuardStrict(n: int, s: Pair, d: Direction) {
    match d
    case North => s.y - 1 > 0
    case East => s.x + 1 < n
    case South => s.y + 1 < n
    case West => s.x - 1 > 0
    case None => false
  }

  /** The as-written test admits an entry tile that lies off the grid: east
      from the last column, south from the last row. */
  lemma AsWrittenGuardAdmitsOffGrid(n: int)
    requires n >= 1
    ensures InBounds(n, Pair(n - 1, 0)) && EntryGuardAsWritten(n, Pair(n - 1, 0), East)
    ensures !InBounds(n, Step(Pair(n - 1, 0), East))
    ensures InBounds(n, Pair(0, n - 1)) && EntryGuardAsWritten(n, Pair(0, n - 1), South)
    ensures !InBounds(n, Step(Pair(0, n - 1), South))
  {
  }

  /** The corrected test admits a direction exactly when the tile it reads
      is on the grid, and admits nothing the as-written test refuses. */
  lemma EntryGuardReadsOnGrid(n: int, s: Pair, d: Direction)
    requires InBounds(n, s) && d != None
    ensures EntryGuard(n, s, d) <==> InBounds(n, Step(s, d))
    ensures EntryGuard(n, s, d) <==> EntryGuardAsWritten(n, s, d) && InBounds(n, Step(s, d))
  {
  }

  /** The strict test refuses north and west exactly one row or column
      earlier than the lenient one. */
  lemma StrictGuardDiffers(n: int, s: Pair, d: Direction)
    requires InBounds(n, s)
    ensures EntryGuardStrict(n, s, d) ==> EntryGuard(n, s, d)
    ensures EntryGuard(n, s, d) && !EntryGuardStrict(n, s, d) <==>
              (d == North && s.y == 1) || (d == West && s.x == 1)
  {
  }

  /** The walk may start in direction `d`: the tile that way is on the grid
      and still `Path`. */
  predicate EntryOpen(c: Grid, n: int, s: Pair, d: Direction)
    requires IsSquare(c, n) && InBounds(n, s)
  {
    EntryGuard(n, s, d) && At(c, n, Step(s, d)) == Path
  }

  predicate EntryOpenStrict(c: Grid, n: int, s: Pair, d: Direction)
    requires IsSquare(c, n) && InBounds(n, s)
  {
    EntryGuardStrict(n, s, d) && At(c, n, Step(s, d)) == Path
  }

  /** The three neighbours of `s` other than the one in direction `d`. */
  function Suppressed(s: Pair, d: Direction): set<Pair> {
    if d == None then {}
    else {Step(s, North), Step(s, East), Step(s, South), Step(s, West)} - {Step(s, d)}
  }

  function MarkVisited(c: Grid, n: int, p: Pair): (r: Grid)
    requires IsSquare(c, n)
    ensures IsSquare(r, n)
    ensures forall q :: InBounds(n, q) ==> At(r, n, q) == if q == p then Visited else At(c, n, q)
  {
    if InBounds(n, p) then Set(c, n, p, Visited) else c
  }

  /** Entry-direction suppression: the neighbours of `s` other than the
      entry tile are marked `Visited`, in the order each branch writes them. */
  function Suppress(c: Grid, n: int, s: Pair, d: Direction): (r: Grid)
    requires IsSquare(c, n) && d != None
    ensures IsSquare(r, n)
    ensures forall q :: InBounds(n, q) ==>
      At(r, n, q) == if q in Suppressed(s, d) then Visited else At(c, n, q)
  {
    match d
    case North => MarkVisited(MarkVisited(MarkVisited(c, n, Step(s, West)), n, Step(s, East)), n, Step(s, South))
    case East => MarkVisited(MarkVisited(MarkVisited(c, n, Step(s, West)), n, Step(s, North)), n, Step(s, South))
    case South => MarkVisited(MarkVisited(MarkVisited(c, n, Step(s, West)), n, Step(s, East)), n, Step(s, North))
    case West => MarkVisited(MarkVisited(MarkVisited(c, n, Step(s, East)), n, Step(s, North)), n, Step(s, South))
  }

  /** The tiles of `t` avoid the fence, and every fence tile on the grid is
      already `Visited` in the copy `c`, so no walk can step onto one. */
  ghost predicate Fenced(c: Grid, n: int, fence: set<Pair>, t: seq<Pair>)
    requires IsSquare(c, n)
  {
    && (forall q :: q in fence && InBounds(n, q) ==> At(c, n, q) == Visited)
    && (forall i :: 0 <= i < |t| ==> t[i] !in fence)
  }

  /** Moving onto an open tile keeps the walk outside the fence. */
  lemma FencedPush(c: Grid, n: int, fence: set<Pair>, t: seq<Pair>, q: Pair)
    requires IsSquare(c, n) && Fenced(c, n, fence, t) && InBounds(n, q) && At(c, n, q) == Path
    ensures Fenced(Set(c, n, q, Visited), n, fence, t + [q])
  {
    var t' := t + [q];
    forall i | 0 <= i < |t'|
      ensures t'[i] !in fence
    {
      if i < |t| {
        assert t'[i] == t[i];
      }
    }
  }

  /** Backing up keeps the walk outside the fence. */
  lemma FencedPop(c: Grid, n: int, fence: set<Pair>, t: seq<Pair>)
    requires IsSquare(c, n) && Fenced(c, n, fence, t) && t != []
    ensures Fenced(c, n, fence, t[..|t| - 1])
  {
  }

  /** The only neighbour of `s` outside the tiles suppressed for direction
      `d` is the entry tile in direction `d`. */
  lemma LeavesThroughEntry(s: Pair, d: Direction, q: Pair)
    requires d != None && Adjacent(s, q) && q !in Suppressed(s, d)
    ensures q == Step(s, d)
  {
  }

  /** A route the next-intersection walk may take: from `start` through
      the entry tile, never onto a fenced neighbour, no tile twice. */
  ghost predicate EntryRoute(g: Grid, n: int, start: Pair, dir: Direction, w: seq<Pair>) {
    && IsRoute(g, n, w) && |w| >= 2 && w[0] == start && w[1] == Step(start, dir) && Distinct(w)
    && forall t :: 0 <= t < |w| ==> w[t] !in Suppressed(start, dir)
  }

  /** An entry route of at most `maxDistance` + 2 tiles that ends at an
      intersection. */
  ghost predicate ReachesIntersection(g: Grid, n: int, start: Pair, dir: Direction, maxDistance: int, w: seq<Pair>) {
    && EntryRoute(g, n, start, dir, w) && |w| - 2 <= maxDistance
    && AtLeastThreeOpen(g, n, w[|w| - 1])
  }

  /** No stack entry below the top is an intersection within range: the
      walk goes on past a tile only when it is no intersection or lies
      more than `maxDistance` + 1 steps out. */
  ghost predicate PassedNoIntersection(g: Grid, n: int, maxDistance: int, stack: seq<Pair>)
    requires IsSquare(g, n)
  {
    forall i :: 0 <= i < |stack| - 1 ==> i - 1 > maxDistance || !(InBounds(n, stack[i]) && AtLeastThreeOpen(g, n, stack[i]))
  }

  /** The walk follows `w`: the stack is a non-empty prefix of `w`, and a
      tile marked in the copy is marked in `g`, on the stack or fenced. */
  ghost predicate OnTrack(g: Grid, c: Grid, n: int, start: Pair, dir: Direction, stack: seq<Pair>, w: seq<Pair>)
    requires IsSquare(g, n) && IsSquare(c, n)
  {
    && 1 <= |stack| <= |w| && stack == w[..|stack|]
    && forall q :: InBounds(n, q) && At(c, n, q) == Visited ==>
         At(g, n, q) == Visited || q in stack || q in Suppressed(start, dir)
  }

  /** From a `Path` start, the walk follows every entry route that reaches
      an intersection in range. */
  ghost predicate Tracks(g: Grid, c: Grid, n: int, start: Pair, dir: Direction, maxDistance: int, stack: seq<Pair>)
    requires IsSquare(g, n) && IsSquare(c, n)
  {
    PathAt(g, n, start) ==>
      forall w :: ReachesIntersection(g, n, start, dir, maxDistance, w) ==> OnTrack(g, c, n, start, dir, stack, w)
  }

  /** A walk that stopped on an intersection within range, after at least
      one step, stands at the end of an entry route that passes no other
      intersection. */
  lemma EndsOnEntryRoute(g: Grid, c: Grid, n: int, start: Pair, dir: Direction, maxDistance: int, stack: seq<Pair>)
    requires WalkInv(g, c, n, start, stack) && Fenced(c, n, Suppressed(start, dir), stack)
    requires dir != None && |stack| >= 2 && |stack| - 2 <= maxDistance
    requires PassedNoIntersection(g, n, maxDistance, stack)
    ensures EntryRoute(g, n, start, dir, stack)
    ensures forall i :: 0 <= i < |stack| - 1 ==> !(InBounds(n, stack[i]) && AtLeastThreeOpen(g, n, stack[i]))
  {
    WalkIsRoute(g, c, n, start, stack);
    LeavesThroughEntry(start, dir, stack[1]);
  }

  /** A walk whose stack ran empty followed no such route, so none exists. */
  lemma TrackEmpty(g: Grid, c: Grid, n: int, start: Pair, dir: Direction, maxDistance: int)
    requires IsSquare(g, n) && IsSquare(c, n) && PathAt(g, n, start)
    requires Tracks(g, c, n, start, dir, maxDistance, [])
    ensures forall w :: EntryRoute(g, n, start, dir, w) && |w| - 2 <= maxDistance ==>
      !(InBounds(n, w[|w| - 1]) && AtLeastThreeOpen(g, n, w[|w| - 1]))
  {
    forall w | EntryRoute(g, n, start, dir, w) && |w| - 2 <= maxDistance
      ensures !(InBounds(n, w[|w| - 1]) && AtLeastThreeOpen(g, n, w[|w| - 1]))
    {
      if InBounds(n, w[|w| - 1]) && AtLeastThreeOpen(g, n, w[|w| - 1]) {
        assert ReachesIntersection(g, n, start, dir, maxDistance, w);
        assert false;
      }
    }
  }

  /** A walk that has marked only the start and the fence follows every
      such route. */
  lemma TrackStart(g: Grid, c: Grid, n: int, start: Pair, dir: Direction, maxDistance: int)
    requires IsSquare(g, n) && IsSquare(c, n) && Covers(g, c, n, {start} + Suppressed(start, dir))
    ensures Tracks(g, c, n, start, dir, maxDistance, [start])
  {
    forall w | PathAt(g, n, start) && ReachesIntersection(g, n, start, dir, maxDistance, w)
      ensures OnTrack(g, c, n, start, dir, [start], w)
    {
      assert w[..1] == [start];
    }
  }

  /** While it follows such a route and has not stopped, the next tile of
      the route is open, so the walk does not back up. */
  lemma TrackOpen(g: Grid, c: Grid, n: int, start: Pair, dir: Direction, maxDistance: int, stack: seq<Pair>, w: seq<Pair>)
    requires WalkInv(g, c, n, start, stack) && stack != []
    requires ReachesIntersection(g, n, start, dir, maxDistance, w) && OnTrack(g, c, n, start, dir, stack, w)
    requires |stack| - 2 > maxDistance
      || !(InBounds(n, stack[|stack| - 1]) && AtLeastThreeOpen(g, n, stack[|stack| - 1]))
    ensures |stack| < |w| && w[|stack|] in OpenNeighbours(c, n, stack[|stack| - 1])
  {
    var j := |stack| - 1;
    assert stack[j] == w[j];
    var q := w[j + 1];
    assert Adjacent(w[j], q) && At(g, n, q) == Path;
    forall k | 0 <= k < |stack|
      ensures stack[k] != q
    {
      assert stack[k] == w[k];
    }
  }

  /** ... and it is the only open tile: the walk's next push is the next
      tile of the route. */
  lemma TrackForced(g: Grid, c: Grid, n: int, start: Pair, dir: Direction, maxDistance: int,
                    stack: seq<Pair>, w: seq<Pair>, q: Pair)
    requires WalkInv(g, c, n, start, stack) && Fenced(c, n, Suppressed(start, dir), stack) && stack != []
    requires PathAt(g, n, start)
    requires ReachesIntersection(g, n, start, dir, maxDistance, w) && OnTrack(g, c, n, start, dir, stack, w)
    requires |stack| - 2 > maxDistance
      || !(InBounds(n, stack[|stack| - 1]) && AtLeastThreeOpen(g, n, stack[|stack| - 1]))
    requires q in OpenNeighbours(c, n, stack[|stack| - 1])
    ensures |stack| < |w| && q == w[|stack|]
  {
    TrackOpen(g, c, n, start, dir, maxDistance, stack, w);
    var j := |stack| - 1;
    var top := stack[j];
    assert top == w[j];
    assert At(g, n, q) == Path;
    if j == 0 {
      assert q !in Suppressed(start, dir);
      LeavesThroughEntry(start, dir, q);
    } else {
      var a, b := w[j - 1], w[j + 1];
      assert stack[j - 1] == a;
      assert Adjacent(a, top) && Adjacent(top, b) && PathAt(g, n, a) && PathAt(g, n, b);
      assert q == b by {
        if q != b {
          ThreeNeighboursOpen(g, n, top, a, b, q);
        }
      }
    }
  }

  /** Pushing the next tile of a route the walk follows keeps it on that route. */
  lemma TrackExtend(g: Grid, c: Grid, n: int, start: Pair, dir: Direction, stack: seq<Pair>, w: seq<Pair>, q: Pair)
    requires IsSquare(g, n) && IsSquare(c, n) && InBounds(n, q)
    requires OnTrack(g, c, n, start, dir, stack, w) && |stack| < |w| && q == w[|stack|]
    ensures OnTrack(g, Set(c, n, q, Visited), n, start, dir, stack + [q], w)
  {
    assert w[..|stack| + 1] == stack + [q];
  }

  /** A push past a tile the loop test let through keeps the walk clear of
      passed intersections and on every route it follows. */
  lemma TrackPush(g: Grid, c: Grid, n: int, start: Pair, dir: Direction, maxDistance: int, stack: seq<Pair>, q: Pair)
    requires WalkInv(g, c, n, start, stack) && Fenced(c, n, Suppressed(start, dir), stack) && stack != []
    requires |stack| - 2 > maxDistance
      || !(InBounds(n, stack[|stack| - 1]) && AtLeastThreeOpen(g, n, stack[|stack| - 1]))
    requires PassedNoIntersection(g, n, maxDistance, stack) && Tracks(g, c, n, start, dir, maxDistance, stack)
    requires q in OpenNeighbours(c, n, stack[|stack| - 1])
    ensures PassedNoIntersection(g, n, maxDistance, stack + [q])
    ensures Tracks(g, Set(c, n, q, Visited), n, start, dir, maxDistance, stack + [q])
  {
    if PathAt(g, n, start) {
      forall w | ReachesIntersection(g, n, start, dir, maxDistance, w)
        ensures OnTrack(g, Set(c, n, q, Visited), n, start, dir, stack + [q], w)
      {
        TrackForced(g, c, n, start, dir, maxDistance, stack, w, q);
        TrackExtend(g, c, n, start, dir, stack, w, q);
      }
    }
    var s' := stack + [q];
    forall i | 0 <= i < |s'| - 1
      ensures i - 1 > maxDistance || !(InBounds(n, s'[i]) && AtLeastThreeOpen(g, n, s'[i]))
    {
      assert s'[i] == stack[i];
    }
  }

  /** A tile the loop test let through leaves the walk no dead end on a
      route it follows: a pop keeps the walk clear of passed intersections,
      and after a pop no route it followed remains. */
  lemma TrackPop(g: Grid, c: Grid, n: int, start: Pair, dir: Direction, maxDistance: int, stack: seq<Pair>)
    requires WalkInv(g, c, n, start, stack) && stack != []
    requires |stack| - 2 > maxDistance
      || !(InBounds(n, stack[|stack| - 1]) && AtLeastThreeOpen(g, n, stack[|stack| - 1]))
    requires PassedNoIntersection(g, n, maxDistance, stack) && Tracks(g, c, n, start, dir, maxDistance, stack)
    ensures PassedNoIntersection(g, n, maxDistance, stack[..|stack| - 1])
    ensures OpenNeighbours(c, n, stack[|stack| - 1]) == [] ==>
      Tracks(g, c, n, start, dir, maxDistance, stack[..|stack| - 1])
  {
    if PathAt(g, n, start) {
      forall w | ReachesIntersection(g, n, start, dir, maxDistance, w)
        ensures |stack| < |w| && w[|stack|] in OpenNeighbours(c, n, stack[|stack| - 1])
      {
        TrackOpen(g, c, n, start, dir, maxDistance, stack, w);
      }
    }
  }

  /** The invariant of every walk: `c` is the scratch copy of `g`, differing
      only by `Visited` marks; `stack` starts at `start`, each entry is marked
      `Visited`, moves to an orthogonal neighbour that is `Path` in `g`, and
      no tile occurs twice. */
  ghost predicate WalkInv(g: Grid, c: Grid, n: int, start: Pair, stack: seq<Pair>) {
    && IsSquare(g, n) && IsSquare(c, n) && InBounds(n, start)
    && At(c, n, start) == Visited
    && (forall p :: InBounds(n, p) ==> At(c, n, p) == At(g, n, p) || At(c, n, p) == Visited)
    && (stack != [] ==> stack[0] == start)
    && (forall i :: 0 <= i < |stack| ==> InBounds(n, stack[i]) && At(c, n, stack[i]) == Visited)
    && (forall i :: 0 < i < |stack| ==> Adjacent(stack[i - 1], stack[i]) && At(g, n, stack[i]) == Path)
    && Distinct(stack)
  }

  /** A walk that has kept the invariant is a self-avoiding route from `start`. */
  lemma WalkIsRoute(g: Grid, c: Grid, n: int, start: Pair, stack: seq<Pair>)
    requires WalkInv(g, c, n, start, stack) && stack != []
    ensures IsRoute(g, n, stack) && Distinct(stack) && stack[0] == start
  {
  }

  /** Starting a walk: the start marked `Visited` in a fresh copy, alone on the stack. */
  lemma StartKeeps(g: Grid, n: int, start: Pair)
    requires IsSquare(g, n) && InBounds(n, start)
    ensures WalkInv(g, Set(g, n, start, Visited), n, start, [start])
    ensures WalkInv(g, Set(g, n, start, Visited), n, start, [])
  {
  }

  /** Entry suppression only adds `Visited` marks. */
  lemma SuppressKeeps(g: Grid, c: Grid, n: int, start: Pair, stack: seq<Pair>, d: Direction)
    requires WalkInv(g, c, n, start, stack) && d != None
    ensures WalkInv(g, Suppress(c, n, start, d), n, start, stack)
  {
  }

  /** Pushing an open neighbour of the stack head keeps the invariant and
      uses up one `Path` tile of the scratch copy. */
  lemma PushKeeps(g: Grid, c: Grid, n: int, start: Pair, stack: seq<Pair>, q: Pair)
    requires WalkInv(g, c, n, start, stack) && stack != []
    requires InBounds(n, q) && Adjacent(stack[|stack| - 1], q) && At(c, n, q) == Path
    ensures WalkInv(g, Set(c, n, q, Visited), n, start, stack + [q])
    ensures Count(Set(c, n, q, Visited), Path) < Count(c, Path)
  {
    CountSet(c, n, q, Visited, Path);
    var c' := Set(c, n, q, Visited);
    var s' := stack + [q];
    forall i, j | 0 <= i < j < |s'| ensures s'[i] != s'[j] {
      if j == |stack| {
        assert At(c, n, stack[i]) == Visited;
      }
    }
  }

  /** Popping the stack keeps the invariant. */
  lemma PopKeeps(g: Grid, c: Grid, n: int, start: Pair, stack: seq<Pair>)
    requires WalkInv(g, c, n, start, stack) && stack != []
    ensures WalkInv(g, c, n, start, stack[..|stack| - 1])
  {
  }

  /** Once the scratch copy has no open neighbour left around any tile of
      `seen`, and every tile the walk changed is in `seen`, a route from a
      tile of `seen` never leaves it. */
  lemma {:induction false} RouteStaysInside(g: Grid, c: Grid, n: int, seen: set<Pair>, w: seq<Pair>)
    requires IsSquare(g, n) && IsSquare(c, n) && IsRoute(g, n, w) && w[0] in seen
    requires forall p :: p in seen ==> InBounds(n, p) && NoOpenNeighbour(c, n, p)
    requires forall p :: InBounds(n, p) && At(c, n, p) != At(g, n, p) ==> p in seen
    ensures w[|w| - 1] in seen
  {
    var k := |w| - 1;
    if k > 0 {
      RouteStaysInside(g, c, n, seen, w[..k]);
      assert w[..k][k - 1] == w[k - 1];
      assert NoOpenNeighbour(c, n, w[k - 1]);
      assert Adjacent(w[k - 1], w[k]) && At(g, n, w[k]) == Path;
    }
  }

  /** A tile with no open neighbour keeps none when the scratch copy only
      loses `Path` tiles. */
  lemma NoOpenStays(c: Grid, c': Grid, n: int, p: Pair)
    requires IsSquare(c, n) && IsSquare(c', n) && NoOpenNeighbour(c, n, p)
    requires forall q :: InBounds(n, q) && At(c', n, q) == Path ==> At(c, n, q) == Path
    ensures NoOpenNeighbour(c', n, p)
  {
  }

  /** Every tile of `seen` is on the grid, and those no longer on the stack
      have no open neighbour left in the scratch copy. */
  ghost predicate Closed(c: Grid, n: int, seen: set<Pair>, stack: seq<Pair>)
    requires IsSquare(c, n)
  {
    && (forall p :: p in seen ==> InBounds(n, p))
    && (forall p :: p in seen && p !in stack ==> NoOpenNeighbour(c, n, p))
  }

  /** Every tile where the scratch copy differs from the grid is in `s`. */
  ghost predicate Covers(g: Grid, c: Grid, n: int, s: set<Pair>)
    requires IsSquare(g, n) && IsSquare(c, n)
  {
    forall p :: InBounds(n, p) && At(c, n, p) != At(g, n, p) ==> p in s
  }

  /** Marking and pushing a tile keeps both closure and coverage. */
  lemma ClosedPush(g: Grid, c: Grid, n: int, seen: set<Pair>, extra: set<Pair>, stack: seq<Pair>, q: Pair)
    requires IsSquare(g, n) && IsSquare(c, n) && InBounds(n, q) && Closed(c, n, seen, stack)
    ensures Closed(Set(c, n, q, Visited), n, seen + {q}, stack + [q])
    ensures Covers(g, c, n, seen + extra) ==> Covers(g, Set(c, n, q, Visited), n, seen + {q} + extra)
  {
    var c' := Set(c, n, q, Visited);
    forall p | p in seen + {q} && p !in stack + [q]
      ensures NoOpenNeighbour(c', n, p)
    {
      NoOpenStays(c, c', n, p);
    }
  }

  /** Popping a tile with no open neighbour keeps closure. */
  lemma ClosedPop(c: Grid, n: int, seen: set<Pair>, stack: seq<Pair>)
    requires IsSquare(c, n) && Closed(c, n, seen, stack) && stack != []
    requires NoOpenNeighbour(c, n, stack[|stack| - 1])
    ensures Closed(c, n, seen, stack[..|stack| - 1])
  {
    assert stack == stack[..|stack| - 1] + [stack[|stack| - 1]];
  }

  /** A walk that emptied its stack without meeting `end`, where nothing
      but the walk changed the copy, proves `end` unreachable from `start`. */
  lemma ExhaustedUnreachable(g: Grid, c: Grid, n: int, seen: set<Pair>, start: Pair, end: Pair)
    requires IsSquare(g, n) && IsSquare(c, n) && Closed(c, n, seen, []) && Covers(g, c, n, seen)
    requires start in seen && end !in seen
    ensures !Reachable(g, n, start, end)
  {
    forall w | IsRoute(g, n, w) && w[0] == start
      ensures w[|w| - 1] in seen
    {
      RouteStaysInside(g, c, n, seen, w);
    }
  }

  /** Once the stack is empty, every `Path` neighbour of an explored tile
      was explored too, or was marked up front (the tiles in `extra`). */
  lemma ExhaustedClosed(g: Grid, c: Grid, n: int, seen: set<Pair>, extra: set<Pair>)
    requires IsSquare(g, n) && IsSquare(c, n) && Closed(c, n, seen, []) && Covers(g, c, n, seen + extra)
    ensures forall p, q :: p in seen && InBounds(n, q) && Adjacent(p, q) && At(g, n, q) == Path ==>
      q in seen + extra
  {
  }

  /** The tile `t[i]` is next to some tile listed before it. */
  ghost predicate LinksBack(t: seq<Pair>, i: int)
    requires 0 <= i < |t|
  {
    exists j :: 0 <= j < i && Adjacent(t[j], t[i])
  }

  /** The invariant of the list of every tile a walk has pushed: it starts at
      `start`, holds no tile twice, every entry is marked in the copy, and
      each later entry is a `Path` tile next to an earlier one. */
  ghost predicate TrailInv(g: Grid, c: Grid, n: int, start: Pair, trail: seq<Pair>) {
    && IsSquare(g, n) && IsSquare(c, n)
    && (trail != [] ==> trail[0] == start)
    && (forall i :: 0 <= i < |trail| ==> InBounds(n, trail[i]) && At(c, n, trail[i]) == Visited)
    && (forall i :: 0 < i < |trail| ==> At(g, n, trail[i]) == Path && LinksBack(trail, i))
    && Distinct(trail)
  }

  /** Appending an open neighbour of a listed tile keeps the trail invariant. */
  lemma TrailPush(g: Grid, c: Grid, n: int, start: Pair, trail: seq<Pair>, p: Pair, q: Pair)
    requires TrailInv(g, c, n, start, trail) && p in trail && trail != []
    requires InBounds(n, q) && Adjacent(p, q) && At(c, n, q) == Path && At(g, n, q) == Path
    ensures TrailInv(g, Set(c, n, q, Visited), n, start, trail + [q])
  {
    TrailPushMarks(c, n, trail, q);
    TrailPushLinks(g, n, trail, p, q);
    TrailPushDistinct(c, n, trail, q);
  }

  lemma TrailPushMarks(c: Grid, n: int, trail: seq<Pair>, q: Pair)
    requires IsSquare(c, n) && InBounds(n, q)
    requires forall i :: 0 <= i < |trail| ==> InBounds(n, trail[i]) && At(c, n, trail[i]) == Visited
    ensures forall i :: 0 <= i < |trail + [q]| ==>
      InBounds(n, (trail + [q])[i]) && At(Set(c, n, q, Visited), n, (trail + [q])[i]) == Visited
  {
    var c', t := Set(c, n, q, Visited), trail + [q];
    forall i | 0 <= i < |t| ensures InBounds(n, t[i]) && At(c', n, t[i]) == Visited {
      if i < |trail| {
        assert t[i] == trail[i];
      }
    }
  }

  lemma TrailPushLinks(g: Grid, n: int, trail: seq<Pair>, p: Pair, q: Pair)
    requires IsSquare(g, n) && p in trail && InBounds(n, q) && Adjacent(p, q) && At(g, n, q) == Path
    requires forall i :: 0 < i < |trail| ==> InBounds(n, trail[i]) && At(g, n, trail[i]) == Path && LinksBack(trail, i)
    ensures forall i :: 0 < i < |trail + [q]| ==>
      InBounds(n, (trail + [q])[i]) && At(g, n, (trail + [q])[i]) == Path && LinksBack(trail + [q], i)
  {
    var t := trail + [q];
    var j :| 0 <= j < |trail| && trail[j] == p;
    forall i | 0 < i < |t|
      ensures InBounds(n, t[i]) && At(g, n, t[i]) == Path && LinksBack(t, i)
    {
      if i < |trail| {
        assert t[i] == trail[i];
        var j' :| 0 <= j' < i && Adjacent(trail[j'], trail[i]);
        assert t[j'] == trail[j'];
      } else {
        assert t[i] == q && t[j] == p;
        assert Adjacent(t[j], t[i]);
      }
    }
  }

  lemma TrailPushDistinct(c: Grid, n: int, trail: seq<Pair>, q: Pair)
    requires IsSquare(c, n) && InBounds(n, q) && At(c, n, q) == Path && Distinct(trail)
    requires forall i :: 0 <= i < |trail| ==> InBounds(n, trail[i]) && At(c, n, trail[i]) == Visited
    ensures Distinct(trail + [q])
  {
    var t := trail + [q];
    forall i, k | 0 <= i < k < |t| ensures t[i] != t[k] {
      if k == |trail| {
        assert At(c, n, trail[i]) == Visited;
      } else {
        assert t[i] == trail[i] && t[k] == trail[k];
      }
    }
  }

  /** The invariant of the point-to-point walk: the walk invariant, closure
      of the explored tiles, coverage of every change when no entry
      direction was given, the walk stops as soon as `end` is explored, and
      the path keeps out of the `fence` set up on entry. */
  ghost predicate FindInv(g: Grid, c: Grid, n: int, start: Pair, end: Pair, seen: set<Pair>, path: seq<Pair>,
                          covering: bool, fence: set<Pair>) {
    && WalkInv(g, c, n, start, path) && Fenced(c, n, fence, path)
    && Closed(c, n, seen, path)
    && (covering ==> start in seen && Covers(g, c, n, seen))
    && (end in seen ==> path != [] && path[|path| - 1] == end)
  }

  lemma FindPush(g: Grid, c: Grid, n: int, start: Pair, end: Pair, seen: set<Pair>, path: seq<Pair>,
                 covering: bool, fence: set<Pair>, q: Pair)
    requires FindInv(g, c, n, start, end, seen, path, covering, fence) && path != [] && path[|path| - 1] != end
    requires q in OpenNeighbours(c, n, path[|path| - 1])
    ensures FindInv(g, Set(c, n, q, Visited), n, start, end, seen + {q}, path + [q], covering, fence)
    ensures Count(Set(c, n, q, Visited), Path) < Count(c, Path)
  {
    PushKeeps(g, c, n, start, path, q);
    FencedPush(c, n, fence, path, q);
    ClosedPush(g, c, n, seen, {}, path, q);
    assert seen + {q} + {} == seen + {q};
  }

  lemma FindPop(g: Grid, c: Grid, n: int, start: Pair, end: Pair, seen: set<Pair>, path: seq<Pair>,
                covering: bool, fence: set<Pair>)
    requires FindInv(g, c, n, start, end, seen, path, covering, fence) && path != [] && path[|path| - 1] != end
    requires OpenNeighbours(c, n, path[|path| - 1]) == []
    ensures FindInv(g, c, n, start, end, seen, path[..|path| - 1], covering, fence)
  {
    PopKeeps(g, c, n, start, path);
    FencedPop(c, n, fence, path);
    ClosedPop(c, n, seen, path);
  }

  /** The invariant of the section walk: the walk invariant on the stack,
      the trail invariant on the result, every stack entry listed, `seen`
      holding exactly the listed tiles, closure, and coverage of every
      change by the listed tiles and the tiles marked up front (`extra`). */
  ghost predicate SectionInv(g: Grid, c: Grid, n: int, start: Pair, extra: set<Pair>, seen: set<Pair>,
                             stack: seq<Pair>, result: seq<Pair>) {
    && WalkInv(g, c, n, start, stack) && TrailInv(g, c, n, start, result)
    && (forall i :: 0 <= i < |stack| ==> stack[i] in result)
    && (result == [] ==> stack == [])
    && (forall p :: p in seen <==> p in result)
    && Closed(c, n, seen, stack)
    && (result != [] ==> Covers(g, c, n, seen + extra))
  }

  lemma SectionPush(g: Grid, c: Grid, n: int, start: Pair, extra: set<Pair>, seen: set<Pair>,
                    stack: seq<Pair>, result: seq<Pair>, q: Pair)
    requires SectionInv(g, c, n, start, extra, seen, stack, result) && stack != []
    requires q in OpenNeighbours(c, n, stack[|stack| - 1])
    ensures SectionInv(g, Set(c, n, q, Visited), n, start, extra, seen + {q}, stack + [q], result + [q])
    ensures Count(Set(c, n, q, Visited), Path) < Count(c, Path)
  {
    var top := stack[|stack| - 1];
    PushKeeps(g, c, n, start, stack, q);
    TrailPush(g, c, n, start, result, top, q);
    ClosedPush(g, c, n, seen, extra, stack, q);
    var s', r' := stack + [q], result + [q];
    forall i | 0 <= i < |s'| ensures s'[i] in r' {
      if i < |stack| {
        assert s'[i] == stack[i];
      }
    }
  }

  lemma SectionPop(g: Grid, c: Grid, n: int, start: Pair, extra: set<Pair>, seen: set<Pair>,
                   stack: seq<Pair>, result: seq<Pair>)
    requires SectionInv(g, c, n, start, extra, seen, stack, result) && stack != []
    requires OpenNeighbours(c, n, stack[|stack| - 1]) == []
    ensures SectionInv(g, c, n, start, extra, seen, stack[..|stack| - 1], result)
  {
    PopKeeps(g, c, n, start, stack);
    ClosedPop(c, n, seen, stack);
  }
}
