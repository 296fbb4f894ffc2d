/** The maze: a grid sized from the screen, carved into a perfect maze by a
    randomized recursive backtracker. The shuffle of each cell's candidate
    list is a parameter, so every property here holds for every shuffle. */
module Generator {
  import opened Cells
  import opened Grid

  /** Python's floor division `a // b`, which rounds toward negative infinity
      (Dafny's `/` is Euclidean and differs when `b` is negative). */
  function FloorDiv(a: int, b: int): (q: int)
    requires b != 0
    ensures b > 0 ==> q * b <= a < q * b + b
    ensures b < 0 ==> q * b + b < a <= q * b
  {
    if b > 0 || a % b == 0 then a / b else a / b - 1
  }

  /** A grid dimension as a count of rows or columns: `range(n)` is empty
      when `n` is negative. */
  function Nat(n: int): nat
  {
    if n < 0 then 0 else n
  }

  /** A shuffle: for each cell, some permutation of its candidate list. Each
      cell is entered once, so a function of the cell stands for every
      sequence of `random.shuffle` outcomes. */
  ghost predicate IsShuffle(shuffle: (Pos, seq<Pos>) -> seq<Pos>)
  {
    forall p, s :: multiset(shuffle(p, s)) == multiset(s)
  }

  /** The wall flags `_remove_walls(cell1, cell2)` clears. */
  function FacingWalls(p: Pos, q: Pos): (flags: set<(Pos, Direction)>)
    ensures forall x, d :: (x, d) in flags ==> x == p || x == q
    ensures p.row != q.row && p.column != q.column ==> flags == {}
  {
    if p.row == q.row then
      if p.column < q.column then {(p, Right), (q, Left)} else {(p, Left), (q, Right)}
    else if p.column == q.column then
      if p.row < q.row then {(p, Bottom), (q, Top)} else {(p, Top), (q, Bottom)}
    else
      {}
  }

  /** On two neighbouring cells `_remove_walls` clears exactly the facing
      pair: the wall of `p` toward `q` and the wall of `q` back toward `p`. */
  lemma FacingWallsOfNeighbours(p: Pos, d: Direction)
    ensures FacingWalls(p, Step(p, d)) == {(p, d), (Step(p, d), Opposite(d))}
  {
    match d
    case Top =>
    case Bottom =>
    case Left =>
    case Right =>
  }

  /** `cell.walls[d] = False` on the cell at `p`. */
  function WithoutWall(g: Grid, p: Pos, d: Direction): (g': Grid)
    requires Inside(g, p)
    ensures |g'| == |g| && forall r :: 0 <= r < |g| ==> |g'[r]| == |g[r]|
    ensures forall q :: At(g', q) == if q == p then At(g, p).(walls := At(g, p).walls.Clear(d)) else At(g, q)
  {
    g[p.row := g[p.row][p.column := At(g, p).(walls := At(g, p).walls.Clear(d))]]
  }

  /** `cell.is_visited = True` on the cell at `p`. */
  function WithVisited(g: Grid, p: Pos): (g': Grid)
    requires Inside(g, p)
    ensures |g'| == |g| && forall r :: 0 <= r < |g| ==> |g'[r]| == |g[r]|
    ensures forall q :: At(g', q) == if q == p then At(g, p).(isVisited := true) else At(g, q)
  {
    g[p.row := g[p.row][p.column := At(g, p).(isVisited := true)]]
  }

  /** Clearing flag `d1` of `p` and then flag `d2` of `q` clears exactly
      those two flags. */
  lemma ClearPair(g: Grid, rows: nat, columns: nat, p: Pos, d1: Direction, q: Pos, d2: Direction)
    requires Shaped(g, rows, columns) && InBounds(p, rows, columns) && InBounds(q, rows, columns)
    ensures Inside(WithoutWall(g, p, d1), q)
    ensures WallsCleared(g, WithoutWall(WithoutWall(g, p, d1), q, d2), rows, columns, {(p, d1), (q, d2)})
  {
    var g1 := WithoutWall(g, p, d1);
    var g2 := WithoutWall(g1, q, d2);
    assert Shaped(g1, rows, columns);
    assert Shaped(g2, rows, columns);
    forall x, e | InBounds(x, rows, columns)
      ensures WallAt(g2, x, e) == (WallAt(g, x, e) && (x, e) !in {(p, d1), (q, d2)})
    {
    }
  }

  /** Marking a cell visited keeps every wall: the wall invariant and the
      cleared pairs are unchanged and the visited set gains exactly `p`. */
  lemma MarkVisited(g: Grid, rows: nat, columns: nat, p: Pos)
    requires Sound(g, rows, columns) && InBounds(p, rows, columns)
    requires UnvisitedClosedBut(g, rows, columns, p)
    ensures Sound(WithVisited(g, p), rows, columns)
    ensures UnvisitedClosed(WithVisited(g, p), rows, columns)
    ensures VisitedSet(WithVisited(g, p), rows, columns) == VisitedSet(g, rows, columns) + {p}
    ensures ClearedEdges(WithVisited(g, p), rows, columns) == ClearedEdges(g, rows, columns)
    ensures Opened(g, WithVisited(g, p), rows, columns)
  {
    var g' := WithVisited(g, p);
    assert forall q, d :: InBounds(q, rows, columns) ==> WallAt(g', q, d) == WallAt(g, q, d);
    assert Shaped(g', rows, columns);
    assert Symmetric(g', rows, columns) by {
      forall q, d | InBounds(q, rows, columns) && InBounds(Step(q, d), rows, columns)
        ensures Facing(g', q, d)
      {
        assert Facing(g, q, d);
      }
    }
  }

  /** Clearing the facing pair between `p` and its neighbour across `d`
      keeps wall symmetry and the intact border. */
  lemma RemoveWallsKeepsSound(before: Grid, after: Grid, rows: nat, columns: nat, p: Pos, d: Direction)
    requires Sound(before, rows, columns)
    requires InBounds(p, rows, columns) && InBounds(Step(p, d), rows, columns)
    requires WallsCleared(before, after, rows, columns, FacingWalls(p, Step(p, d)))
    ensures Sound(after, rows, columns)
  {
    var q := Step(p, d);
    FacingWallsOfNeighbours(p, d);
    StepInverse(p, d);
    forall x, e | InBounds(x, rows, columns) && InBounds(Step(x, e), rows, columns)
      ensures Facing(after, x, e)
    {
      StepInverse(x, e);
      assert Facing(before, x, e);
      assert (x, e) in {(p, d), (q, Opposite(d))} <==> (Step(x, e), Opposite(e)) in {(p, d), (q, Opposite(d))};
    }
    forall x, e | InBounds(x, rows, columns) && !InBounds(Step(x, e), rows, columns)
      ensures WallAt(after, x, e)
    {
      assert (x, e) != (p, d) && (x, e) != (q, Opposite(d));
    }
  }

  /** A wall pair inside the grid is one of the two flags `_remove_walls`
      clears between `p` and its neighbour exactly when it is their pair. */
  lemma FacingPairCanonical(p: Pos, d: Direction, e: Edge, rows: nat, columns: nat)
    requires IsEdge(e, rows, columns)
    ensures (e.from, e.dir) in FacingWalls(p, Step(p, d)) <==> e == EdgeOf(p, d)
  {
    FacingWallsOfNeighbours(p, d);
    StepInverse(p, d);
  }

  /** Clearing the facing pair between a cell and a neighbour that still has
      all four walls clears one new wall pair. */
  lemma RemoveWallsAddsOneEdge(before: Grid, after: Grid, rows: nat, columns: nat, p: Pos, d: Direction)
    requires Sound(before, rows, columns)
    requires InBounds(p, rows, columns) && InBounds(Step(p, d), rows, columns)
    requires At(before, Step(p, d)).walls.Closed()
    requires WallsCleared(before, after, rows, columns, FacingWalls(p, Step(p, d)))
    ensures EdgeOf(p, d) !in ClearedEdges(before, rows, columns)
    ensures ClearedEdges(after, rows, columns) == ClearedEdges(before, rows, columns) + {EdgeOf(p, d)}
  {
    var e0 := EdgeOf(p, d);
    StepInverse(p, d);
    assert WallAt(before, e0.from, e0.dir) by {
      assert Facing(before, p, d);
    }
    assert IsEdge(e0, rows, columns);
    forall e | IsEdge(e, rows, columns)
      ensures !WallAt(after, e.from, e.dir) <==> !WallAt(before, e.from, e.dir) || e == e0
    {
      FacingPairCanonical(p, d, e, rows, columns);
    }
  }

  /** One carving step of `_dfs`: clearing the wall pair between a visited
      cell and an unvisited neighbour keeps the wall invariant and the
      visited set, clears exactly one new wall pair, and leaves every
      unvisited cell closed except the neighbour the search moves into. The
      walls cleared before stay cleared, and the passage from `p` into the
      neighbour is open. */
  lemma CarveStep(before: Grid, after: Grid, rows: nat, columns: nat, p: Pos, d: Direction)
    requires Sound(before, rows, columns) && UnvisitedClosed(before, rows, columns)
    requires InBounds(p, rows, columns) && InBounds(Step(p, d), rows, columns)
    requires At(before, p).isVisited && !At(before, Step(p, d)).isVisited
    requires WallsCleared(before, after, rows, columns, FacingWalls(p, Step(p, d)))
    ensures Sound(after, rows, columns) && UnvisitedClosedBut(after, rows, columns, Step(p, d))
    ensures VisitedSet(after, rows, columns) == VisitedSet(before, rows, columns)
    ensures EdgeOf(p, d) !in ClearedEdges(before, rows, columns)
    ensures ClearedEdges(after, rows, columns) == ClearedEdges(before, rows, columns) + {EdgeOf(p, d)}
    ensures Opened(before, after, rows, columns) && !WallAt(after, p, d)
  {
    FacingWallsOfNeighbours(p, d);
    RemoveWallsKeepsSound(before, after, rows, columns, p, d);
    RemoveWallsAddsOneEdge(before, after, rows, columns, p, d);
    ClearingKeepsOthers(before, after, rows, columns, p, d);
  }

  /** Clearing the facing pair leaves the visited flags alone, and every
      unvisited cell other than the two cells of the pair keeps its walls. */
  lemma ClearingKeepsOthers(before: Grid, after: Grid, rows: nat, columns: nat, p: Pos, d: Direction)
    requires UnvisitedClosed(before, rows, columns)
    requires At(before, p).isVisited
    requires WallsCleared(before, after, rows, columns, FacingWalls(p, Step(p, d)))
    ensures UnvisitedClosedBut(after, rows, columns, Step(p, d))
    ensures VisitedSet(after, rows, columns) == VisitedSet(before, rows, columns)
  {
    FacingWallsOfNeighbours(p, d);
    forall x | InBounds(x, rows, columns) && x != Step(p, d) && !At(after, x).isVisited
      ensures At(after, x).walls.Closed()
    {
      assert x != p && At(before, x).walls.Closed();
      assert WallAt(after, x, Top) && WallAt(after, x, Right) && WallAt(after, x, Bottom) && WallAt(after, x, Left);
    }
  }

  /** Every cell of `visited` outside `base` has all its in-bounds
      neighbours in `visited`. */
  ghost predicate ClosedBeyond(visited: set<Pos>, base: set<Pos>, rows: nat, columns: nat)
  {
    forall p {:trigger NeighboursIn(p, visited, rows, columns)} ::
      p in visited && p !in base ==> NeighboursIn(p, visited, rows, columns)
  }

  lemma ClosedBeyondTrans(v2: set<Pos>, v1: set<Pos>, base: set<Pos>, rows: nat, columns: nat)
    requires v1 <= v2
    requires ClosedBeyond(v1, base, rows, columns) && ClosedBeyond(v2, v1, rows, columns)
    ensures ClosedBeyond(v2, base, rows, columns)
  {
    forall p | p in v2 && p !in base ensures NeighboursIn(p, v2, rows, columns) {
      if p in v1 {
        assert NeighboursIn(p, v1, rows, columns);
      }
    }
  }

  /** The bookkeeping of a run of `_dfs` that started from `visited1` and
      `cleared1`: it only added visited cells and cleared wall pairs, every
      cell it visited has all its neighbours visited, and it cleared exactly
      one wall pair per cell it visited. */
  ghost predicate Progress(visited: set<Pos>, cleared: set<Edge>, visited1: set<Pos>, cleared1: set<Edge>, rows: nat, columns: nat)
  {
    && visited1 <= visited
    && ClosedBeyond(visited, visited1, rows, columns)
    && cleared1 <= cleared
    && |cleared| == |cleared1| + |visited| - |visited1|
  }

  lemma ProgressStart(visited: set<Pos>, cleared: set<Edge>, rows: nat, columns: nat)
    ensures Progress(visited, cleared, visited, cleared, rows, columns)
  {
  }

  lemma ProgressTrans(v3: set<Pos>, c3: set<Edge>, v2: set<Pos>, c2: set<Edge>, v1: set<Pos>, c1: set<Edge>, rows: nat, columns: nat)
    requires Progress(v2, c2, v1, c1, rows, columns) && Progress(v3, c3, v2, c2, rows, columns)
    ensures Progress(v3, c3, v1, c1, rows, columns)
  {
    ClosedBeyondTrans(v3, v2, v1, rows, columns);
  }

  /** Carving into an unvisited neighbour `n`, one new wall pair `e` and then
      a run of `_dfs` from `n`, is progress from the state before the carve. */
  lemma ProgressCarve(v: set<Pos>, c: set<Edge>, e: Edge, n: Pos, v2: set<Pos>, c2: set<Edge>, rows: nat, columns: nat)
    requires n !in v && e !in c
    requires Progress(v2, c2, v + {n}, c + {e}, rows, columns) && NeighboursIn(n, v2, rows, columns)
    ensures Progress(v2, c2, v, c, rows, columns)
  {
    forall p | p in v2 && p !in v ensures NeighboursIn(p, v2, rows, columns) {
      if p != n {
        assert p !in v + {n};
      }
    }
    assert |v + {n}| == |v| + 1 && |c + {e}| == |c| + 1;
  }

  /** A run of `_dfs` in two parts, each only clearing walls and joining the
      cells it visits to `a`, joins every cell visited by the whole run to
      `a`. */
  lemma JoinedGrows(g0: Grid, g1: Grid, g2: Grid, rows: nat, columns: nat, a: Pos,
                    v0: set<Pos>, v1: set<Pos>, v2: set<Pos>)
    requires Opened(g0, g1, rows, columns) && Opened(g1, g2, rows, columns)
    requires v0 <= v1 <= v2 && Joined(g1, a, v1 - v0) && Joined(g2, a, v2 - v1)
    ensures Opened(g0, g2, rows, columns) && Joined(g2, a, v2 - v0)
  {
    JoinedKept(g1, g2, rows, columns, a, v1 - v0);
  }

  /** Carving from `p` into its neighbour across `d` and then a run of
      `_dfs` from that neighbour: every cell the run visited is reachable
      from `p` through the wall pair just cleared. */
  lemma CarveJoins(before: Grid, g1: Grid, g2: Grid, rows: nat, columns: nat, p: Pos, d: Direction, s: set<Pos>)
    requires Opened(before, g1, rows, columns) && Opened(g1, g2, rows, columns)
    requires InBounds(p, rows, columns) && InBounds(Step(p, d), rows, columns) && !WallAt(g1, p, d)
    requires Joined(g2, Step(p, d), s)
    ensures Opened(before, g2, rows, columns) && Joined(g2, p, s)
  {
    JoinedThrough(g2, rows, columns, p, d, s);
  }

  /** Every neighbour of `current` is visited once those outside `visited1`
      are in the list and every listed cell is visited. */
  lemma NeighboursCovered(current: Pos, neighbors: seq<Pos>, visited1: set<Pos>, visited: set<Pos>, rows: nat, columns: nat)
    requires visited1 <= visited
    requires forall d :: InBounds(Step(current, d), rows, columns) && Step(current, d) !in visited1 ==> Step(current, d) in neighbors
    requires forall k :: 0 <= k < |neighbors| ==> neighbors[k] in visited
    ensures NeighboursIn(current, visited, rows, columns)
  {
  }

  /** One more listed neighbour is visited. */
  lemma ListedGrows(neighbors: seq<Pos>, i: nat, done: set<Pos>, v: set<Pos>, visited: set<Pos>)
    requires i < |neighbors|
    requires forall k :: 0 <= k < i ==> neighbors[k] in done
    requires done <= v <= visited && neighbors[i] in visited
    ensures forall k :: 0 <= k < i + 1 ==> neighbors[k] in done + {neighbors[i]}
    ensures done + {neighbors[i]} <= visited
  {
  }

  /** The measure of the carving recursion does not grow while the visited
      set grows. */
  lemma MeasureKept(all: set<Pos>, v0: set<Pos>, v: set<Pos>)
    requires v0 <= v
    ensures all - v < all - v0 || all - v == all - v0
  {
  }

  /** Every entry of a permutation of the neighbour list is a neighbour. */
  lemma ShuffledNeighbour(g: Grid, rows: nat, columns: nat, cell: Pos, shuffled: seq<Pos>, k: nat)
    requires multiset(shuffled) == multiset(UnvisitedNeighbourList(g, rows, columns, cell))
    requires k < |shuffled|
    ensures InBounds(shuffled[k], rows, columns) && Adjacent(cell, shuffled[k])
  {
    var listed := UnvisitedNeighbourList(g, rows, columns, cell);
    UnvisitedNeighbourListSpec(g, rows, columns, cell);
    assert shuffled[k] in multiset(listed);
    var j :| 0 <= j < |listed| && listed[j] == shuffled[k];
  }

  /** A permutation of the neighbour list still lists every unvisited
      neighbour. */
  lemma ShuffledComplete(g: Grid, rows: nat, columns: nat, cell: Pos, shuffled: seq<Pos>)
    requires multiset(shuffled) == multiset(UnvisitedNeighbourList(g, rows, columns, cell))
    ensures forall d :: InBounds(Step(cell, d), rows, columns) && Step(cell, d) !in VisitedSet(g, rows, columns) ==> Step(cell, d) in shuffled
  {
    UnvisitedNeighbourListSpec(g, rows, columns, cell);
    forall d | InBounds(Step(cell, d), rows, columns) && Step(cell, d) !in VisitedSet(g, rows, columns)
      ensures Step(cell, d) in shuffled
    {
      assert Step(cell, d) in multiset(shuffled);
    }
  }

  /** Every cell is reachable from the top-left cell through in-bounds
      neighbour steps, so a set of cells that holds the top-left cell and
      every in-bounds neighbour of each of its cells holds every cell. */
  lemma {:induction false} ClosedRegionCoversGrid(s: set<Pos>, rows: nat, columns: nat, p: Pos)
    requires Pos(0, 0) in s
    requires forall x :: x in s ==> NeighboursIn(x, s, rows, columns)
    requires InBounds(p, rows, columns)
    ensures p in s
    decreases p.row + p.column
  {
    if p.column > 0 {
      var q := Step(p, Left);
      ClosedRegionCoversGrid(s, rows, columns, q);
      assert Step(q, Right) == p;
    } else if p.row > 0 {
      var q := Step(p, Top);
      ClosedRegionCoversGrid(s, rows, columns, q);
      assert Step(q, Bottom) == p;
    }
  }

  /** A set of cells that holds the top-left cell, and every in-bounds
      neighbour of each of its cells, is the whole grid. */
  lemma CarvedWhole(visited: set<Pos>, rows: nat, columns: nat)
    requires Pos(0, 0) in visited && visited <= AllCells(rows, columns)
    requires ClosedBeyond(visited, {Pos(0, 0)}, rows, columns)
    requires NeighboursIn(Pos(0, 0), visited, rows, columns)
    ensures visited == AllCells(rows, columns)
  {
    forall x | x in visited
      ensures NeighboursIn(x, visited, rows, columns)
    {
      if x != Pos(0, 0) {
        assert x !in {Pos(0, 0)};
      }
    }
    forall p | InBounds(p, rows, columns)
      ensures p in visited
    {
      ClosedRegionCoversGrid(visited, rows, columns, p);
    }
  }

  /** A carve from the top-left cell of a grid whose cells are all visited or
      all unvisited visits every cell; on an unvisited grid, which has no
      cleared wall pair yet, it clears one wall pair fewer than there are
      cells. */
  lemma WholeCarve(g0: Grid, visited: set<Pos>, cleared: set<Edge>, rows: nat, columns: nat)
    requires rows >= 1 && columns >= 1
    requires UnvisitedClosed(g0, rows, columns)
    requires VisitedSet(g0, rows, columns) == {} || VisitedSet(g0, rows, columns) == AllCells(rows, columns)
    requires visited <= AllCells(rows, columns)
    requires Progress(visited, cleared, VisitedSet(g0, rows, columns) + {Pos(0, 0)}, ClearedEdges(g0, rows, columns), rows, columns)
    requires NeighboursIn(Pos(0, 0), visited, rows, columns)
    ensures visited == AllCells(rows, columns)
    ensures VisitedSet(g0, rows, columns) == {} ==> |cleared| == rows * columns - 1
  {
    var visited0, cleared0 := VisitedSet(g0, rows, columns), ClearedEdges(g0, rows, columns);
    if visited0 == {} {
      CarvedWhole(visited, rows, columns);
      forall e | IsEdge(e, rows, columns)
        ensures WallAt(g0, e.from, e.dir)
      {
        assert e.from !in visited0;
      }
      assert cleared0 == {};
      AllCellsCount(rows, columns);
    }
  }

  /** After the carve from the top-left cell every cell is visited, so the
      grid is connected: on a fresh grid every cell was reached from the
      top-left cell, and an already connected grid only gained passages. */
  lemma CarvedConnected(g0: Grid, g: Grid, rows: nat, columns: nat)
    requires Sound(g, rows, columns) && Opened(g0, g, rows, columns)
    requires VisitedSet(g, rows, columns) == AllCells(rows, columns)
    requires Joined(g, Pos(0, 0), VisitedSet(g, rows, columns) - VisitedSet(g0, rows, columns))
    requires VisitedSet(g0, rows, columns) == {} || Connected(g0, rows, columns)
    ensures Connected(g, rows, columns)
  {
    if VisitedSet(g0, rows, columns) == {} {
      assert VisitedSet(g, rows, columns) - VisitedSet(g0, rows, columns) == AllCells(rows, columns);
      JoinedAll(g, rows, columns, Pos(0, 0));
    } else {
      ConnectedKept(g0, g, rows, columns);
    }
  }

  /** The order `_get_unvisited_neighbors` lists candidates in: up, down,
      left, right. */
  function DirectionRank(d: Direction): nat
  {
    match d
    case Top => 0
    case Bottom => 1
    case Left => 2
    case Right => 3
  }

  /** The rank of neighbour `q` of `cell` in that order. */
  function NeighbourRank(cell: Pos, q: Pos): nat
  {
    if q == Step(cell, Top) then 0
    else if q == Step(cell, Bottom) then 1
    else if q == Step(cell, Left) then 2
    else 3
  }

  /** Every cell of `s` is an in-bounds, unvisited neighbour of `cell`. */
  ghost predicate UnvisitedNeighbours(g: Grid, rows: nat, columns: nat, cell: Pos, s: seq<Pos>)
  {
    forall i :: 0 <= i < |s| ==>
      && InBounds(s[i], rows, columns)
      && Adjacent(cell, s[i])
      && !At(g, s[i]).isVisited
  }

  /** The one-element list holding the neighbour across `d` when it is in
      bounds and unvisited, else the empty list: one test of
      `_get_unvisited_neighbors`. */
  function Candidate(g: Grid, rows: nat, columns: nat, cell: Pos, d: Direction): seq<Pos>
  {
    if InBounds(Step(cell, d), rows, columns) && !At(g, Step(cell, d)).isVisited then [Step(cell, d)] else []
  }

  /** The list `_get_unvisited_neighbors` returns: the candidates up, down,
      left and right, in that order. */
  function UnvisitedNeighbourList(g: Grid, rows: nat, columns: nat, cell: Pos): seq<Pos>
  {
    Candidate(g, rows, columns, cell, Top) + Candidate(g, rows, columns, cell, Bottom)
      + Candidate(g, rows, columns, cell, Left) + Candidate(g, rows, columns, cell, Right)
  }

  /** `s` lists, in strictly increasing rank, exactly the in-bounds unvisited
      neighbours of `cell` whose direction ranks below `k`. */
  ghost predicate ListedBelow(g: Grid, rows: nat, columns: nat, cell: Pos, s: seq<Pos>, k: nat)
  {
    && UnvisitedNeighbours(g, rows, columns, cell, s)
    && (forall i :: 0 <= i < |s| ==> NeighbourRank(cell, s[i]) < k)
    && (forall i, j :: 0 <= i < j < |s| ==> NeighbourRank(cell, s[i]) < NeighbourRank(cell, s[j]))
    && (forall d :: DirectionRank(d) < k && InBounds(Step(cell, d), rows, columns) && !At(g, Step(cell, d)).isVisited ==>
          Step(cell, d) in s)
  }

  lemma ListNext(g: Grid, rows: nat, columns: nat, cell: Pos, s: seq<Pos>, d: Direction)
    requires ListedBelow(g, rows, columns, cell, s, DirectionRank(d))
    ensures ListedBelow(g, rows, columns, cell, s + Candidate(g, rows, columns, cell, d), DirectionRank(d) + 1)
  {
    StepInverse(cell, d);
    assert NeighbourRank(cell, Step(cell, d)) == DirectionRank(d);
  }

  function DirectionOfRank(k: nat): (d: Direction)
    requires k < 4
    ensures DirectionRank(d) == k
  {
    if k == 0 then Top else if k == 1 then Bottom else if k == 2 then Left else Right
  }

  /** The candidates of the first `n` directions in listing order. */
  function Listing(g: Grid, rows: nat, columns: nat, cell: Pos, n: nat): seq<Pos>
    requires n <= 4
  {
    if n == 0 then [] else Listing(g, rows, columns, cell, n - 1) + Candidate(g, rows, columns, cell, DirectionOfRank(n - 1))
  }

  lemma {:induction false} ListingListed(g: Grid, rows: nat, columns: nat, cell: Pos, n: nat)
    requires n <= 4
    ensures ListedBelow(g, rows, columns, cell, Listing(g, rows, columns, cell, n), n)
  {
    if n > 0 {
      ListingListed(g, rows, columns, cell, n - 1);
      ListNext(g, rows, columns, cell, Listing(g, rows, columns, cell, n - 1), DirectionOfRank(n - 1));
    }
  }

  /** The neighbour list holds in-bounds unvisited neighbours of the cell,
      every one of them, in strictly increasing rank (up, down, left,
      right). */
  lemma UnvisitedNeighbourListSpec(g: Grid, rows: nat, columns: nat, cell: Pos)
    ensures UnvisitedNeighbours(g, rows, columns, cell, UnvisitedNeighbourList(g, rows, columns, cell))
    ensures forall d :: InBounds(Step(cell, d), rows, columns) && !At(g, Step(cell, d)).isVisited ==>
      Step(cell, d) in UnvisitedNeighbourList(g, rows, columns, cell)
    ensures var s := UnvisitedNeighbourList(g, rows, columns, cell);
      forall i, j :: 0 <= i < j < |s| ==> NeighbourRank(cell, s[i]) < NeighbourRank(cell, s[j])
  {
    ListingListed(g, rows, columns, cell, 4);
    var up, down := Candidate(g, rows, columns, cell, Top), Candidate(g, rows, columns, cell, Bottom);
    var left, right := Candidate(g, rows, columns, cell, Left), Candidate(g, rows, columns, cell, Right);
    assert Listing(g, rows, columns, cell, 1) == [] + up == up;
    assert Listing(g, rows, columns, cell, 2) == up + down;
    assert Listing(g, rows, columns, cell, 3) == up + down + left;
    assert Listing(g, rows, columns, cell, 4) == up + down + left + right;
    ListedAll(g, rows, columns, cell, UnvisitedNeighbourList(g, rows, columns, cell));
  }

  /** After all four tests the listing is complete. */
  lemma ListedAll(g: Grid, rows: nat, columns: nat, cell: Pos, s: seq<Pos>)
    requires ListedBelow(g, rows, columns, cell, s, 4)
    ensures UnvisitedNeighbours(g, rows, columns, cell, s)
    ensures forall d :: InBounds(Step(cell, d), rows, columns) && !At(g, Step(cell, d)).isVisited ==> Step(cell, d) in s
    ensures forall i, j :: 0 <= i < j < |s| ==> NeighbourRank(cell, s[i]) < NeighbourRank(cell, s[j])
  {
    forall d | InBounds(Step(cell, d), rows, columns) && !At(g, Step(cell, d)).isVisited
      ensures Step(cell, d) in s
    {
      assert DirectionRank(d) < 4;
    }
  }

  class Maze {
    const width: int
    const height: int
    const cellSize: int
    const padding: int
    const rows: int
    const columns: int
    var grid: Grid

    /** The number of rows of `grid`. */
    function Rows(): nat
    {
      Nat(rows)
    }

    /** The number of cells in each row of `grid`. */
    function Columns(): nat
    {
      Nat(columns)
    }

    ghost function Visited(): set<Pos>
      reads this
    {
      VisitedSet(grid, Rows(), Columns())
    }

    ghost function Cleared(): set<Edge>
      reads this
    {
      ClearedEdges(grid, Rows(), Columns())
    }

    /** What holds of every maze before and after `generate_maze`: the wall
        invariant, unvisited cells keep all their walls, and either no cell
        is visited or every cell is, and then the cleared walls connect them
        all. */
    ghost predicate Valid()
      reads this
    {
      && Sound(grid, Rows(), Columns())
      && UnvisitedClosed(grid, Rows(), Columns())
      && (Visited() == {} || Visited() == AllCells(Rows(), Columns()))
      && (Visited() == AllCells(Rows(), Columns()) ==> Connected(grid, Rows(), Columns()))
    }

    /** `Maze(screen_size, screen, cell_size, padding)`: as many whole cells
        as fit inside the padding, each with all four walls and unvisited. */
    constructor (width: int, height: int, cellSize: int, padding: int)
      requires cellSize != 0
      ensures this.width == width && this.height == height
      ensures this.cellSize == cellSize && this.padding == padding
      ensures rows == FloorDiv(height - 2 * padding, cellSize)
      ensures columns == FloorDiv(width - 2 * padding, cellSize)
      ensures Valid()
      ensures forall p :: InBounds(p, Rows(), Columns()) ==> At(grid, p) == Cell(p.row, p.column, false, AllWalls)
      ensures Visited() == {} && Cleared() == {}
    {
      this.width := width;
      this.height := height;
      this.cellSize := cellSize;
      this.padding := padding;
      var r := FloorDiv(height - 2 * padding, cellSize);
      var c := FloorDiv(width - 2 * padding, cellSize);
      rows := r;
      columns := c;
      grid := seq(Nat(r), i => seq(Nat(c), j => Cell(i, j, false, AllWalls)));
      new;
      if Rows() > 0 && Columns() > 0 {
        assert Pos(0, 0) in AllCells(Rows(), Columns());
      }
    }

    /** `_get_unvisited_neighbors(cell)`: the in-bounds, unvisited neighbours
        of `cell`, all of them, in the order up, down, left, right. */
    method GetUnvisitedNeighbors(cell: Pos) returns (neighbors: seq<Pos>)
      requires Shaped(grid, Rows(), Columns()) && InBounds(cell, Rows(), Columns())
      ensures neighbors == UnvisitedNeighbourList(grid, Rows(), Columns(), cell)
    {
      ghost var R, C := Rows(), Columns();
      neighbors := [];
      var row, column := cell.row, cell.column;
      if row > 0 && !grid[row - 1][column].isVisited {
        assert At(grid, Step(cell, Top)) == grid[row - 1][column];
        neighbors := neighbors + [PosOf(grid[row - 1][column])];
      }
      assert neighbors == Candidate(grid, R, C, cell, Top);
      ghost var sofar := neighbors;
      if row < rows - 1 && !grid[row + 1][column].isVisited {
        assert At(grid, Step(cell, Bottom)) == grid[row + 1][column];
        neighbors := neighbors + [PosOf(grid[row + 1][column])];
      }
      assert neighbors == sofar + Candidate(grid, R, C, cell, Bottom);
      sofar := neighbors;
      if column > 0 && !grid[row][column - 1].isVisited {
        assert At(grid, Step(cell, Left)) == grid[row][column - 1];
        neighbors := neighbors + [PosOf(grid[row][column - 1])];
      }
      assert neighbors == sofar + Candidate(grid, R, C, cell, Left);
      sofar := neighbors;
      if column < columns - 1 && !grid[row][column + 1].isVisited {
        assert At(grid, Step(cell, Right)) == grid[row][column + 1];
        neighbors := neighbors + [PosOf(grid[row][column + 1])];
      }
      assert neighbors == sofar + Candidate(grid, R, C, cell, Right);
    }

    /** `_remove_walls(cell1, cell2)`: clears the facing wall pair of two
        cells in one row or one column, and nothing else. */
    method RemoveWalls(cell1: Pos, cell2: Pos)
      requires Shaped(grid, Rows(), Columns())
      requires InBounds(cell1, Rows(), Columns()) && InBounds(cell2, Rows(), Columns())
      modifies this
      ensures WallsCleared(old(grid), grid, Rows(), Columns(), FacingWalls(cell1, cell2))
    {
      ghost var R, C := Rows(), Columns();
      if cell1.row == cell2.row {
        if cell1.column < cell2.column {
          ClearPair(grid, R, C, cell1, Right, cell2, Left);
          grid := WithoutWall(grid, cell1, Right);
          grid := WithoutWall(grid, cell2, Left);
        } else {
          ClearPair(grid, R, C, cell1, Left, cell2, Right);
          grid := WithoutWall(grid, cell1, Left);
          grid := WithoutWall(grid, cell2, Right);
        }
      } else if cell1.column == cell2.column {
        if cell1.row < cell2.row {
          ClearPair(grid, R, C, cell1, Bottom, cell2, Top);
          grid := WithoutWall(grid, cell1, Bottom);
          grid := WithoutWall(grid, cell2, Top);
        } else {
          ClearPair(grid, R, C, cell1, Top, cell2, Bottom);
          grid := WithoutWall(grid, cell1, Top);
          grid := WithoutWall(grid, cell2, Bottom);
        }
      }
    }

    /** `_dfs(current_cell)`: mark the cell visited, list its unvisited
        neighbours, shuffle them, and carve into each one that is still
        unvisited when its turn comes. Afterwards the wall invariant holds,
        every cell visited by this call (`current` included) has all its
        neighbours visited, one wall pair was cleared per newly visited cell
        other than `current`, no wall was rebuilt, and every newly visited
        cell is reachable from `current`. */
    method Dfs(current: Pos, shuffle: (Pos, seq<Pos>) -> seq<Pos>)
      requires Sound(grid, Rows(), Columns()) && InBounds(current, Rows(), Columns())
      requires UnvisitedClosedBut(grid, Rows(), Columns(), current)
      requires IsShuffle(shuffle)
      modifies this
      decreases AllCells(Rows(), Columns()) - Visited() - {current}, 2
      ensures Sound(grid, Rows(), Columns()) && UnvisitedClosed(grid, Rows(), Columns())
      ensures Progress(Visited(), Cleared(), old(Visited()) + {current}, old(Cleared()), Rows(), Columns())
      ensures NeighboursIn(current, Visited(), Rows(), Columns())
      ensures Opened(old(grid), grid, Rows(), Columns()) && Joined(grid, current, Visited() - old(Visited()))
    {
      ghost var R, C := Rows(), Columns();
      ghost var visited0, g0 := Visited(), grid;
      MarkVisited(grid, R, C, current);
      grid := WithVisited(grid, current);
      var neighbors := GetUnvisitedNeighbors(current);
      neighbors := shuffle(current, neighbors);
      forall k | 0 <= k < |neighbors|
        ensures InBounds(neighbors[k], R, C) && Adjacent(current, neighbors[k])
      {
        ShuffledNeighbour(grid, R, C, current, neighbors, k);
      }
      ShuffledComplete(grid, R, C, current, neighbors);
      ghost var visited1, g1 := Visited(), grid;
      assert AllCells(R, C) - visited1 == AllCells(R, C) - visited0 - {current};
      ReachableRefl(g1, current);
      assert Joined(g1, current, visited1 - visited0) by {
        assert visited1 - visited0 <= {current};
      }
      VisitEach(current, neighbors, shuffle);
      NeighboursCovered(current, neighbors, visited1, Visited(), R, C);
      JoinedGrows(g0, g1, grid, R, C, current, visited0, visited1, Visited());
    }

    /** The `for neighbor in neighbors` loop of `_dfs(current_cell)` over the
        shuffled list. Afterwards the wall invariant holds, every listed
        neighbour is visited, the loop's carving is progress from the state
        before it, and every cell it visits is reachable from `current`. */
    method VisitEach(current: Pos, neighbors: seq<Pos>, shuffle: (Pos, seq<Pos>) -> seq<Pos>)
      requires Sound(grid, Rows(), Columns()) && UnvisitedClosed(grid, Rows(), Columns())
      requires InBounds(current, Rows(), Columns()) && At(grid, current).isVisited
      requires forall k :: 0 <= k < |neighbors| ==> InBounds(neighbors[k], Rows(), Columns()) && Adjacent(current, neighbors[k])
      requires IsShuffle(shuffle)
      modifies this
      decreases AllCells(Rows(), Columns()) - Visited(), 1
      ensures Sound(grid, Rows(), Columns()) && UnvisitedClosed(grid, Rows(), Columns())
      ensures Progress(Visited(), Cleared(), old(Visited()), old(Cleared()), Rows(), Columns())
      ensures forall k :: 0 <= k < |neighbors| ==> neighbors[k] in Visited()
      ensures Opened(old(grid), grid, Rows(), Columns()) && Joined(grid, current, Visited() - old(Visited()))
    {
      ghost var R, C := Rows(), Columns();
      ghost var visited1, cleared1, grid1 := Visited(), Cleared(), grid;
      ProgressStart(visited1, cleared1, R, C);
      var i := 0;
      ghost var done: set<Pos> := {};
      while i < |neighbors|
        invariant 0 <= i <= |neighbors|
        invariant Sound(grid, R, C) && UnvisitedClosed(grid, R, C)
        invariant Progress(Visited(), Cleared(), visited1, cleared1, R, C)
        invariant forall k :: 0 <= k < i ==> neighbors[k] in done
        invariant done <= Visited()
        invariant Opened(grid1, grid, R, C) && Joined(grid, current, Visited() - visited1)
      {
        var neighbor := neighbors[i];
        ghost var v, c, gv := Visited(), Cleared(), grid;
        MeasureKept(AllCells(R, C), visited1, v);
        assert Visited() == v;
        Visit(current, neighbor, shuffle);
        ProgressTrans(Visited(), Cleared(), v, c, visited1, cleared1, R, C);
        ListedGrows(neighbors, i, done, v, Visited());
        JoinedGrows(grid1, gv, grid, R, C, current, visited1, v, Visited());
        done := done + {neighbor};
        i := i + 1;
      }
    }

    /** The body of the loop in `_dfs`: a neighbour that is still unvisited
        gets `_remove_walls(current_cell, neighbor)` and then
        `_dfs(neighbor)`; a visited one is skipped. Either way the neighbour
        ends up visited, and every cell visited meanwhile is reachable from
        `current`. */
    method Visit(current: Pos, neighbor: Pos, shuffle: (Pos, seq<Pos>) -> seq<Pos>)
      requires Sound(grid, Rows(), Columns()) && UnvisitedClosed(grid, Rows(), Columns())
      requires InBounds(current, Rows(), Columns()) && InBounds(neighbor, Rows(), Columns())
      requires Adjacent(current, neighbor)
      requires At(grid, current).isVisited
      requires IsShuffle(shuffle)
      modifies this
      decreases AllCells(Rows(), Columns()) - Visited(), 0
      ensures Sound(grid, Rows(), Columns()) && UnvisitedClosed(grid, Rows(), Columns())
      ensures neighbor in Visited()
      ensures Progress(Visited(), Cleared(), old(Visited()), old(Cleared()), Rows(), Columns())
      ensures Opened(old(grid), grid, Rows(), Columns()) && Joined(grid, current, Visited() - old(Visited()))
    {
      ghost var R, C := Rows(), Columns();
      ghost var before, v, c := grid, Visited(), Cleared();
      if !At(grid, neighbor).isVisited {
        ghost var d :| Step(current, d) == neighbor;
        RemoveWalls(current, neighbor);
        CarveStep(before, grid, R, C, current, d);
        assert Visited() == v && neighbor in AllCells(R, C) - v;
        ghost var g1 := grid;
        Dfs(neighbor, shuffle);
        ProgressCarve(v, c, EdgeOf(current, d), neighbor, Visited(), Cleared(), R, C);
        CarveJoins(before, g1, grid, R, C, current, d, Visited() - v);
      } else {
        ProgressStart(v, c, R, C);
      }
    }

    /** `generate_maze()`: carve from `grid[0][0]`. It fails (Python raises
        IndexError) when the grid has no first cell. On success every cell is
        visited, walls have only been cleared, the cleared walls connect
        every cell to every other, and a fresh maze ends with exactly
        rows * columns - 1 cleared wall pairs: a spanning tree of the grid. */
    method GenerateMaze(shuffle: (Pos, seq<Pos>) -> seq<Pos>) returns (ok: bool)
      requires Valid() && IsShuffle(shuffle)
      modifies this
      ensures Valid()
      ensures ok <==> rows >= 1 && columns >= 1
      ensures !ok ==> grid == old(grid)
      ensures ok ==> Visited() == AllCells(Rows(), Columns())
      ensures ok ==> Connected(grid, Rows(), Columns())
      ensures ok && old(Visited()) == {} ==> |Cleared()| == rows * columns - 1
      ensures old(Cleared()) <= Cleared()
    {
      if rows < 1 || columns < 1 {
        return false;
      }
      ghost var R, C := Rows(), Columns();
      ghost var g0 := grid;
      var startCell := PosOf(grid[0][0]);
      assert At(grid, Pos(0, 0)) == grid[0][0];
      assert InBounds(Pos(0, 0), R, C);
      Dfs(startCell, shuffle);
      ok := true;
      WholeCarve(g0, Visited(), Cleared(), R, C);
      CarvedConnected(g0, grid, R, C);
    }
  }
}
