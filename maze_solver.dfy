/** The solver of maze_solver.py: a breadth-first search of the carved maze
    from the start cell that, when it pops the goal, follows the parent links
    back to the start and colours that chain. The coloured chain, goal
    first, is the path this model returns. */
module Solver {
  import opened Cells
  import opened Grid
  import opened Util
  import opened Search
  import Generator

  /** How `_dfs` as written ends: it returns None when the frontier runs
      out, and raises AttributeError once it pops the goal, because its goal
      branch calls `self.update_screen()`, which MazeSolver does not define. */
  datatype Exit = ReturnedNone | RaisedAttributeError

  /** `path` starts at the goal and ends at `start`, and read backwards it is
      a walk through cleared walls. */
  ghost predicate LeadsBack(g: Grid, start: Pos, goal: Pos, path: seq<Pos>)
  {
    && |path| > 0
    && path[0] == goal
    && path[|path| - 1] == start
    && IsWalk(g, Reversed(path))
  }

  /** No walk from `start` to `goal` has fewer cells than `path`. */
  ghost predicate Shortest(g: Grid, start: Pos, goal: Pos, path: seq<Pos>)
  {
    forall w :: IsWalk(g, w) && w[0] == start && w[|w| - 1] == goal ==> |w| >= |path|
  }

  /** Every parent link points to an earlier popped node. */
  ghost predicate ParentsEarlier(arena: seq<Node>)
  {
    forall j :: 0 <= j < |arena| && arena[j].parent.Some? ==> arena[j].parent.value < j
  }

  lemma ArenaParentsEarlier(g: Grid, rows: nat, columns: nat, start: Pos, arena: seq<Node>)
    requires ArenaOk(g, rows, columns, start, arena)
    ensures ParentsEarlier(arena)
  {
    forall j | 0 <= j < |arena| && arena[j].parent.Some?
      ensures arena[j].parent.value < j
    {
      assert NodeOk(g, rows, columns, start, arena, arena[j], j);
    }
  }

  /** The parent chain of a popped goal leads back to the start; when no
      walk is shorter than it, it is a shortest path. */
  lemma TrailLeadsBack(g: Grid, rows: nat, columns: nat, start: Pos, goal: Pos, arena: seq<Node>)
    requires Shaped(g, rows, columns) && ArenaOk(g, rows, columns, start, arena)
    requires |arena| > 0 && arena[|arena| - 1].state == goal
    ensures LeadsBack(g, start, goal, Trail(arena, |arena| - 1))
    ensures (forall w :: IsWalk(g, w) && w[0] == start && w[|w| - 1] == goal ==> |w| >= |Trail(arena, |arena| - 1)|) ==>
      Shortest(g, start, goal, Trail(arena, |arena| - 1))
  {
    TrailWalk(g, rows, columns, start, arena, |arena| - 1);
  }

  /** One step up the parent links moves the cell of node `k` from the
      trail still to walk onto the end of the chain walked so far. */
  lemma ChainStep(arena: seq<Node>, k: nat, chain: seq<Pos>)
    requires k < |arena| && arena[k].parent.Some? && arena[k].parent.value < k
    ensures chain + Trail(arena, k) == (chain + [arena[k].state]) + Trail(arena, arena[k].parent.value)
  {
    TrailStep(arena, k);
    assert chain + ([arena[k].state] + Trail(arena, arena[k].parent.value))
      == (chain + [arena[k].state]) + Trail(arena, arena[k].parent.value);
  }

  /** The goal branch of `_bfs`: `while node.parent is not None`, colour the
      node's cell and move to its parent, then colour the root's cell. The
      cells coloured, in that order, are the trail from popped node `i` up
      to the root. */
  method FollowParents(arena: seq<Node>, i: nat) returns (chain: seq<Pos>)
    requires ParentsEarlier(arena) && i < |arena|
    ensures chain == Trail(arena, i)
  {
    var k := i;
    chain := [];
    ghost var trail := Trail(arena, k);
    while arena[k].parent.Some?
      invariant 0 <= k < |arena|
      invariant chain + Trail(arena, k) == trail
      decreases k
    {
      ChainStep(arena, k, chain);
      chain := chain + [arena[k].state];
      k := arena[k].parent.value;
    }
    TrailRoot(arena, k);
    chain := chain + [arena[k].state];
  }

  class MazeSolver {
    /** A snapshot of `self.maze.grid`; the solver never changes the maze. */
    const grid: Grid
    const rows: nat
    const columns: nat
    const start: Pos
    const goal: Pos

    /** The maze has its shape and intact border walls, and the start cell
        is on it. */
    ghost predicate Valid()
    {
      Shaped(grid, rows, columns) && BorderIntact(grid, rows, columns) && InBounds(start, rows, columns)
    }

    /** `MazeSolver(maze, start, goal)`. A solver over a maze that keeps its
        wall invariant, started on one of its cells, is valid. */
    constructor (maze: Generator.Maze, start: Pos, goal: Pos)
      ensures grid == maze.grid && rows == maze.Rows() && columns == maze.Columns()
      ensures this.start == start && this.goal == goal
      ensures maze.Valid() && InBounds(start, rows, columns) ==> Valid()
      ensures maze.Valid() && maze.Visited() == AllCells(rows, columns) ==> Connected(grid, rows, columns)
    {
      grid := maze.grid;
      rows := maze.Rows();
      columns := maze.Columns();
      this.start := start;
      this.goal := goal;
    }

    /** `solve()`: the breadth-first search from the start cell. On a
        generated maze, whose passages connect every cell, it always finds
        a path to a goal on the grid. */
    method Solve() returns (path: Option<seq<Pos>>)
      requires Valid()
      ensures path.None? <==> !Reachable(grid, start, goal)
      ensures path.Some? ==> LeadsBack(grid, start, goal, path.value) && Shortest(grid, start, goal, path.value)
      ensures Connected(grid, rows, columns) && InBounds(goal, rows, columns) ==> path.Some?
    {
      path := Bfs(start);
    }

    /** `_bfs(start_cell)`: search with a queue frontier; when the goal is
        popped, walk `node = node.parent` up to the root, collecting each
        cell. The result is None exactly when the goal cannot be reached, and
        otherwise a shortest path from the goal back to `startCell`. */
    method Bfs(startCell: Pos) returns (path: Option<seq<Pos>>)
      requires Shaped(grid, rows, columns) && BorderIntact(grid, rows, columns) && InBounds(startCell, rows, columns)
      ensures path.None? <==> !Reachable(grid, startCell, goal)
      ensures path.Some? ==> LeadsBack(grid, startCell, goal, path.value) && Shortest(grid, startCell, goal, path.value)
    {
      var found, arena := Search.Search(grid, rows, columns, startCell, goal, Queue);
      if !found {
        return None;
      }
      ArenaParentsEarlier(grid, rows, columns, startCell, arena);
      var chain := FollowParents(arena, |arena| - 1);
      TrailLeadsBack(grid, rows, columns, startCell, goal, arena);
      path := Some(chain);
    }

    /** `_dfs(start_cell)` as written: the same loop with a stack frontier,
        except that popping the goal raises AttributeError. It raises exactly
        when the goal is reachable, so it never reports a found goal. */
    method DfsAsWritten(startCell: Pos) returns (exit: Exit)
      requires Shaped(grid, rows, columns) && BorderIntact(grid, rows, columns) && InBounds(startCell, rows, columns)
      ensures exit == RaisedAttributeError <==> Reachable(grid, startCell, goal)
    {
      var found, arena := Search.Search(grid, rows, columns, startCell, goal, Stack);
      exit := if found then RaisedAttributeError else ReturnedNone;
    }
  }
}
