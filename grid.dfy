/** The grid of cells as a value: its shape, the wall invariants a maze keeps,
    the set of visited cells, the set of cleared wall pairs, and walks through
    cleared walls. */
module Grid {
  import opened Cells

  /** `grid[r][c]`, a list of rows of cells. */
  type Grid = seq<seq<Cell>>

  /** A wall pair between two neighbouring cells, named by the upper or left
      cell of the pair and the side (Right or Bottom) it is on. */
  datatype Edge = Edge(from: Pos, dir: Direction)

  predicate InBounds(p: Pos, rows: nat, columns: nat)
  {
    0 <= p.row < rows && 0 <= p.column < columns
  }

  /** `p` indexes a cell of `g` (without Python's negative indices). */
  predicate Inside(g: Grid, p: Pos)
  {
    0 <= p.row < |g| && 0 <= p.column < |g[p.row]|
  }

  /** The cell `g[p.row][p.column]`. Off the grid it is a closed, unvisited
      cell, so that specifications can mention any position. */
  function At(g: Grid, p: Pos): Cell
  {
    if Inside(g, p) then g[p.row][p.column] else Cell(p.row, p.column, false, AllWalls)
  }

  function WallAt(g: Grid, p: Pos, d: Direction): bool
  {
    At(g, p).walls.Get(d)
  }

  /** The identity of a cell object. */
  function PosOf(c: Cell): Pos
  {
    Pos(c.row, c.column)
  }

  /** `g` has `rows` rows of `columns` cells each, and `g[r][c]` is the cell
      at row r and column c. */
  ghost predicate Shaped(g: Grid, rows: nat, columns: nat)
  {
    && |g| == rows
    && (forall r :: 0 <= r < rows ==> |g[r]| == columns)
    && (forall p :: InBounds(p, rows, columns) ==> PosOf(At(g, p)) == p)
  }

  /** Two cells are grid neighbours. */
  ghost predicate Adjacent(p: Pos, q: Pos)
  {
    exists d :: Step(p, d) == q
  }

  /** The wall on side `d` of `p` and the facing wall of its neighbour agree. */
  predicate Facing(g: Grid, p: Pos, d: Direction)
  {
    WallAt(g, p, d) == WallAt(g, Step(p, d), Opposite(d))
  }

  /** Wall symmetry: a cell's wall toward a neighbour equals that
      neighbour's wall back toward it. */
  ghost predicate Symmetric(g: Grid, rows: nat, columns: nat)
  {
    forall p, d :: InBounds(p, rows, columns) && InBounds(Step(p, d), rows, columns) ==> Facing(g, p, d)
  }

  /** Every wall facing out of the grid is present. */
  ghost predicate BorderIntact(g: Grid, rows: nat, columns: nat)
  {
    forall p, d :: InBounds(p, rows, columns) && !InBounds(Step(p, d), rows, columns) ==> WallAt(g, p, d)
  }

  /** The wall invariant of a maze: shape, symmetry and an intact border. */
  ghost predicate Sound(g: Grid, rows: nat, columns: nat)
  {
    Shaped(g, rows, columns) && Symmetric(g, rows, columns) && BorderIntact(g, rows, columns)
  }

  /** Every unvisited cell other than `except` still has all four walls. */
  ghost predicate UnvisitedClosedBut(g: Grid, rows: nat, columns: nat, except: Pos)
  {
    forall p :: InBounds(p, rows, columns) && p != except && !At(g, p).isVisited ==> At(g, p).walls.Closed()
  }

  /** Every unvisited cell still has all four walls. */
  ghost predicate UnvisitedClosed(g: Grid, rows: nat, columns: nat)
  {
    forall p :: InBounds(p, rows, columns) && !At(g, p).isVisited ==> At(g, p).walls.Closed()
  }

  /** Every in-bounds neighbour of `p` is in `s`. */
  ghost predicate NeighboursIn(p: Pos, s: set<Pos>, rows: nat, columns: nat)
  {
    forall d :: InBounds(Step(p, d), rows, columns) ==> Step(p, d) in s
  }

  /** The positions of all cells of a rows x columns grid. */
  ghost function AllCells(rows: nat, columns: nat): (s: set<Pos>)
    ensures forall p :: p in s <==> InBounds(p, rows, columns)
  {
    set r, c | 0 <= r < rows && 0 <= c < columns :: Pos(r, c)
  }

  ghost function RowCells(r: int, columns: nat): (s: set<Pos>)
    ensures forall p :: p in s <==> p.row == r && 0 <= p.column < columns
  {
    set c | 0 <= c < columns :: Pos(r, c)
  }

  lemma {:induction false} RowCellsCount(r: int, columns: nat)
    ensures |RowCells(r, columns)| == columns
  {
    if columns == 0 {
      assert RowCells(r, columns) == {};
    } else {
      RowCellsCount(r, columns - 1);
      assert RowCells(r, columns) == RowCells(r, columns - 1) + {Pos(r, columns - 1)};
    }
  }

  /** A rows x columns grid has rows * columns cells. */
  lemma {:induction false} AllCellsCount(rows: nat, columns: nat)
    ensures |AllCells(rows, columns)| == rows * columns
  {
    if rows == 0 {
      assert AllCells(rows, columns) == {};
    } else {
      AllCellsCount(rows - 1, columns);
      RowCellsCount(rows - 1, columns);
      AllCellsSplit(rows, columns);
      MulSucc(rows - 1, columns);
    }
  }

  /** The cells of a grid are those of the grid without its last row
      together with the cells of that row, which are different. */
  lemma AllCellsSplit(rows: nat, columns: nat)
    requires rows > 0
    ensures |AllCells(rows, columns)| == |AllCells(rows - 1, columns)| + |RowCells(rows - 1, columns)|
  {
    var upper, last := AllCells(rows - 1, columns), RowCells(rows - 1, columns);
    assert forall p :: p in AllCells(rows, columns) <==> p in upper + last;
    assert AllCells(rows, columns) == upper + last;
    assert forall p :: p in upper ==> p !in last;
    assert upper !! last;
  }

  lemma MulSucc(a: nat, b: nat)
    ensures a * b + b == (a + 1) * b
  {
  }

  /** The cells whose `is_visited` flag is set. */
  ghost function VisitedSet(g: Grid, rows: nat, columns: nat): (s: set<Pos>)
    ensures forall p :: p in s <==> InBounds(p, rows, columns) && At(g, p).isVisited
  {
    set p | p in AllCells(rows, columns) && At(g, p).isVisited
  }

  /** A wall pair inside the grid, named canonically. */
  ghost predicate IsEdge(e: Edge, rows: nat, columns: nat)
  {
    (e.dir == Right || e.dir == Bottom) && InBounds(e.from, rows, columns) && InBounds(Step(e.from, e.dir), rows, columns)
  }

  /** The canonical name of the wall pair on side `d` of `p`. */
  function EdgeOf(p: Pos, d: Direction): Edge
  {
    if d == Right || d == Bottom then Edge(p, d) else Edge(Step(p, d), Opposite(d))
  }

  /** The wall pairs that have been cleared, judged by the upper or left
      cell's flag. */
  ghost function ClearedEdges(g: Grid, rows: nat, columns: nat): (s: set<Edge>)
    ensures forall e :: e in s <==> IsEdge(e, rows, columns) && !WallAt(g, e.from, e.dir)
  {
    var right := set p | p in AllCells(rows, columns) && p.column + 1 < columns && !WallAt(g, p, Right) :: Edge(p, Right);
    var bottom := set p | p in AllCells(rows, columns) && p.row + 1 < rows && !WallAt(g, p, Bottom) :: Edge(p, Bottom);
    assert forall e :: IsEdge(e, rows, columns) && !WallAt(g, e.from, e.dir) ==> e in right + bottom by {
      forall e | IsEdge(e, rows, columns) && !WallAt(g, e.from, e.dir)
        ensures e in right + bottom
      {
        if e.dir == Right {
          assert e == Edge(e.from, Right);
        } else {
          assert e == Edge(e.from, Bottom);
        }
      }
    }
    right + bottom
  }

  /** `after` differs from `before` only in that the wall flags in `cleared`
      are false. */
  ghost predicate WallsCleared(before: Grid, after: Grid, rows: nat, columns: nat, cleared: set<(Pos, Direction)>)
  {
    && Shaped(before, rows, columns)
    && Shaped(after, rows, columns)
    && (forall p :: InBounds(p, rows, columns) ==> At(after, p).isVisited == At(before, p).isVisited)
    && (forall p, d :: InBounds(p, rows, columns) ==> WallAt(after, p, d) == (WallAt(before, p, d) && (p, d) !in cleared))
  }

  /** One step through a cleared wall. */
  ghost predicate Passage(g: Grid, x: Pos, y: Pos)
  {
    Inside(g, x) && exists d :: !WallAt(g, x, d) && Step(x, d) == y
  }

  /** A walk: a non-empty sequence of cells, each reached from the one before
      through a cleared wall. */
  ghost predicate IsWalk(g: Grid, w: seq<Pos>)
  {
    && |w| > 0
    && (forall i :: 0 <= i < |w| ==> Inside(g, w[i]))
    && (forall i :: 0 <= i < |w| - 1 ==> Passage(g, w[i], w[i + 1]))
  }

  /** Cell `b` can be reached from cell `a` through cleared walls. */
  ghost predicate Reachable(g: Grid, a: Pos, b: Pos)
  {
    exists w :: IsWalk(g, w) && w[0] == a && w[|w| - 1] == b
  }

  /** A cell of the grid is reachable from itself by the walk that stays
      put. */
  lemma ReachableRefl(g: Grid, a: Pos)
    requires Inside(g, a)
    ensures Reachable(g, a, a)
  {
    assert IsWalk(g, [a]);
  }

  /** Walks compose: a walk from `a` to `b` followed by one from `b` to `c`
      leads from `a` to `c`. */
  lemma ReachableTrans(g: Grid, a: Pos, b: Pos, c: Pos)
    requires Reachable(g, a, b) && Reachable(g, b, c)
    ensures Reachable(g, a, c)
  {
    var w1 :| IsWalk(g, w1) && w1[0] == a && w1[|w1| - 1] == b;
    var w2 :| IsWalk(g, w2) && w2[0] == b && w2[|w2| - 1] == c;
    var w := w1 + w2[1..];
    forall i | 0 <= i < |w| - 1
      ensures Passage(g, w[i], w[i + 1])
    {
      if i < |w1| - 1 {
        assert w[i] == w1[i] && w[i + 1] == w1[i + 1];
      } else {
        assert w[i] == w2[i - |w1| + 1] && w[i + 1] == w2[i - |w1| + 2];
      }
    }
    assert IsWalk(g, w);
  }

  /** `s` read from its last element to its first. */
  function Reversed(s: seq<Pos>): (r: seq<Pos>)
    ensures |r| == |s|
    ensures forall k :: 0 <= k < |s| ==> r[k] == s[|s| - 1 - k]
  {
    if s == [] then [] else Reversed(s[1..]) + [s[0]]
  }

  /** On a grid whose walls are symmetric every walk can be taken
      backwards, so reachability goes both ways. */
  lemma ReachableSym(g: Grid, rows: nat, columns: nat, a: Pos, b: Pos)
    requires Sound(g, rows, columns) && Reachable(g, a, b)
    ensures Reachable(g, b, a)
  {
    var w :| IsWalk(g, w) && w[0] == a && w[|w| - 1] == b;
    var r := Reversed(w);
    forall i | 0 <= i < |r| - 1
      ensures Passage(g, r[i], r[i + 1])
    {
      var x, y := w[|w| - 2 - i], w[|w| - 1 - i];
      assert r[i] == y && r[i + 1] == x;
      assert Passage(g, x, y);
      var d :| !WallAt(g, x, d) && Step(x, d) == y;
      StepInverse(x, d);
      assert Inside(g, y) && |g[y.row]| == columns;
      assert Facing(g, x, d);
    }
    assert IsWalk(g, r);
  }

  /** Every wall cleared in `before` is still cleared in `after`, a grid of
      the same shape: carving only ever opens walls. */
  ghost predicate Opened(before: Grid, after: Grid, rows: nat, columns: nat)
  {
    && Shaped(before, rows, columns)
    && Shaped(after, rows, columns)
    && (forall p, d :: InBounds(p, rows, columns) && !WallAt(before, p, d) ==> !WallAt(after, p, d))
  }

  /** Every cell of `s` is reachable from `a`. */
  ghost predicate Joined(g: Grid, a: Pos, s: set<Pos>)
  {
    forall p :: p in s ==> Reachable(g, a, p)
  }

  /** Every cell can be reached from every other: the cleared walls connect
      the whole grid. */
  ghost predicate Connected(g: Grid, rows: nat, columns: nat)
  {
    forall a, b :: InBounds(a, rows, columns) && InBounds(b, rows, columns) ==> Reachable(g, a, b)
  }

  /** A walk through cleared walls stays a walk once more walls are
      cleared. */
  lemma WalkKept(before: Grid, after: Grid, rows: nat, columns: nat, w: seq<Pos>)
    requires Opened(before, after, rows, columns) && IsWalk(before, w)
    ensures IsWalk(after, w)
  {
    forall i | 0 <= i < |w|
      ensures Inside(after, w[i])
    {
      assert Inside(before, w[i]) && |before[w[i].row]| == columns;
    }
    forall i | 0 <= i < |w| - 1
      ensures Passage(after, w[i], w[i + 1])
    {
      assert Passage(before, w[i], w[i + 1]);
      var d :| !WallAt(before, w[i], d) && Step(w[i], d) == w[i + 1];
      assert Inside(before, w[i]) && |before[w[i].row]| == columns;
    }
  }

  /** What is reachable stays reachable once more walls are cleared. */
  lemma JoinedKept(before: Grid, after: Grid, rows: nat, columns: nat, a: Pos, s: set<Pos>)
    requires Opened(before, after, rows, columns) && Joined(before, a, s)
    ensures Joined(after, a, s)
  {
    forall p | p in s
      ensures Reachable(after, a, p)
    {
      var w :| IsWalk(before, w) && w[0] == a && w[|w| - 1] == p;
      WalkKept(before, after, rows, columns, w);
    }
  }

  /** A connected grid stays connected once more walls are cleared. */
  lemma ConnectedKept(before: Grid, after: Grid, rows: nat, columns: nat)
    requires Opened(before, after, rows, columns) && Connected(before, rows, columns)
    ensures Connected(after, rows, columns)
  {
    forall a, b | InBounds(a, rows, columns) && InBounds(b, rows, columns)
      ensures Reachable(after, a, b)
    {
      var w :| IsWalk(before, w) && w[0] == a && w[|w| - 1] == b;
      WalkKept(before, after, rows, columns, w);
    }
  }

  /** Whatever is reachable from the cell behind the cleared wall on side
      `d` of `a` is reachable from `a`. */
  lemma JoinedThrough(g: Grid, rows: nat, columns: nat, a: Pos, d: Direction, s: set<Pos>)
    requires Shaped(g, rows, columns) && InBounds(a, rows, columns) && InBounds(Step(a, d), rows, columns)
    requires !WallAt(g, a, d) && Joined(g, Step(a, d), s)
    ensures Joined(g, a, s)
  {
    var b := Step(a, d);
    assert Inside(g, a) && |g[a.row]| == columns;
    assert Inside(g, b) && |g[b.row]| == columns;
    assert IsWalk(g, [a, b]);
    forall p | p in s
      ensures Reachable(g, a, p)
    {
      ReachableTrans(g, a, b, p);
    }
  }

  /** On a grid with symmetric walls, if every cell is reachable from one
      cell then every cell is reachable from every other. */
  lemma JoinedAll(g: Grid, rows: nat, columns: nat, root: Pos)
    requires Sound(g, rows, columns) && Joined(g, root, AllCells(rows, columns))
    ensures Connected(g, rows, columns)
  {
    forall a, b | InBounds(a, rows, columns) && InBounds(b, rows, columns)
      ensures Reachable(g, a, b)
    {
      assert a in AllCells(rows, columns) && b in AllCells(rows, columns);
      ReachableSym(g, rows, columns, root, a);
      ReachableTrans(g, a, root, b);
    }
  }
}
