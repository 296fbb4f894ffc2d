/** The solver of generate.py: depth-first and breadth-first searches that
    stop as soon as they pop the goal and colour it, without following the
    parent links back. What they leave behind is whether the goal was
    coloured. */
module Generate {
  import opened Cells
  import opened Grid
  import opened Search
  import opened Util
  import Generator

  class MazeSolver {
    /** A snapshot of `self.maze.grid`; the solver never changes the maze. */
    const grid: Grid
    const rows: nat
    const columns: nat
    const start: Pos
    const goal: Pos

    /** The maze has its shape and intact border walls, and the start cell
        is on it. */
    ghost predicate Valid()
    {
      Shaped(grid, rows, columns) && BorderIntact(grid, rows, columns) && InBounds(start, rows, columns)
    }

    /** `MazeSolver(maze, start, goal)`. A solver over a maze that keeps its
        wall invariant, started on one of its cells, is valid. */
    constructor (maze: Generator.Maze, start: Pos, goal: Pos)
      ensures grid == maze.grid && rows == maze.Rows() && columns == maze.Columns()
      ensures this.start == start && this.goal == goal
      ensures maze.Valid() && InBounds(start, rows, columns) ==> Valid()
      ensures maze.Valid() && maze.Visited() == AllCells(rows, columns) ==> Connected(grid, rows, columns)
    {
      grid := maze.grid;
      rows := maze.Rows();
      columns := maze.Columns();
      this.start := start;
      this.goal := goal;
    }

    /** `solve()`: the breadth-first search from the start cell; the goal is
        coloured exactly when it is reachable, which on a generated maze
        means whenever it is on the grid. */
    method Solve() returns (found: bool)
      requires Valid()
      ensures found <==> Reachable(grid, start, goal)
      ensures Connected(grid, rows, columns) && InBounds(goal, rows, columns) ==> found
    {
      found := Bfs(start);
    }

    /** `_dfs(start_cell)`: search with a stack frontier, stopping when the
        goal is popped. `found` says whether it was popped (and coloured),
        which happens exactly when it is reachable. */
    method Dfs(startCell: Pos) returns (found: bool)
      requires Shaped(grid, rows, columns) && BorderIntact(grid, rows, columns) && InBounds(startCell, rows, columns)
      ensures found <==> Reachable(grid, startCell, goal)
    {
      var arena;
      found, arena := Search.Search(grid, rows, columns, startCell, goal, Stack);
    }

    /** `_bfs(start_cell)`: the same loop with a queue frontier. */
    method Bfs(startCell: Pos) returns (found: bool)
      requires Shaped(grid, rows, columns) && BorderIntact(grid, rows, columns) && InBounds(startCell, rows, columns)
      ensures found <==> Reachable(grid, startCell, goal)
    {
      var arena;
      found, arena := Search.Search(grid, rows, columns, startCell, goal, Queue);
    }
  }
}
