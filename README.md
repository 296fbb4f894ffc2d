# Maze generation and uninformed search, in Dafny

This project models the algorithmic core of a small maze program and proves
what it promises.

The program builds a rectangular grid of cells, each with four wall flags
(top, right, bottom, left) and an `is_visited` flag. It carves a maze with a
randomized recursive backtracker: mark the current cell visited, shuffle its
unvisited neighbours, and for each one still unvisited clear the facing wall
pair and recurse. It then searches the carved maze from a start cell to a
goal cell with the textbook frontier loop: pop a node, test for the goal,
push each neighbour that is neither explored nor pending as a child node,
and mark the popped cell explored. With a queue frontier (breadth-first)
the solver follows the parent links from the goal back to the start.

Modules, one per source file plus shared definitions:

- `Cells` (cells.dfy): directions, cell positions, wall flags, the cell record.
- `Grid` (grid.dfy): the grid as a value and the wall invariants.
  - Shape, wall symmetry, intact border.
  - The visited set and the set of cleared wall pairs.
  - Walks through cleared walls and reachability.
- `Util` (util.dfy): `Node` and the frontier of util.py.
  - One `Frontier` class with a `policy` (Stack or Queue) stands for
    `StackFrontier` and its subclass `QueueFrontier`.
- `Generator` (generator.dfy): the `Maze` class of generator.py.
  - The constructor, `GenerateMaze`, `Dfs`, `GetUnvisitedNeighbors` and
    `RemoveWalls`, with the lemmas about carving.
  - generate.py holds an earlier copy of the same generation code, line for
    line apart from drawing; the same members model it.
- `Search` (search.dfy): `Neighbours` (`_neighbors`) and `Search`.
  - `Search` is the `while True` loop shared by every solver, with a stack or
    a queue frontier.
  - Parent links are indices into `arena`, the list of popped nodes in pop
    order.
- `Solver` (maze_solver.dfy): the `MazeSolver` of maze_solver.py.
  - Its breadth-first search returns the parent chain it colours.
- `Generate` (generate.dfy): the `MazeSolver` of generate.py.
  - Its searches stop at the goal and report only whether the goal was
    coloured.

The main results:

- Generation keeps wall symmetry and the border walls.
- For every shuffle order, generation visits every cell.
- On a fresh maze, generation clears exactly rows * columns - 1 wall pairs.
- Every cell of a generated maze reaches every other through cleared walls.
  With rows * columns - 1 cleared pairs, the passages form a spanning tree.
- On a generated maze, every solver finds any goal that lies on the grid.
- No search pops the same cell twice.
- Each search finds the goal exactly when a walk through cleared walls leads
  from the start to it.
- The breadth-first chain is such a walk, read backwards, and no walk is
  shorter.

The solver functions (`solve`, `_bfs`, `_dfs`) return `None` in every case.
What they leave behind is which cells they colour, so the model returns that
instead:
- `Solver.MazeSolver.Bfs` returns the coloured chain, goal first.
- generate.py's searches return whether the goal was coloured.

Facts about the code that the model follows:
- `solve` returns `None`. When the goal is found, `_bfs` colours the chain
  of parent links from the goal back to the start.
- Neither depth-first search reconstructs a path.
  - In maze_solver.py, `_dfs` raises AttributeError when it pops the goal
    (see Findings).
  - In generate.py, `_dfs` colours the goal when it pops it and returns.
- There is no A* search. Only the unused `g_score`/`h_score` fields of a
  cell exist.

## Model

| member | source | states |
|---|---|---|
| Cells.Step | maze_solver.py:99-113 | the cell across side `d`: top and bottom keep the column, left and right keep the row, never the same cell |
| Cells.StepInverse | generator.py:97-111 | crossing a wall and then the facing wall returns to the cell; a neighbour lies in exactly one direction |
| Cells.Walls.Clear | generator.py:100-101 | `walls[d] = False` clears flag `d` and keeps the other three |
| Grid.AllCellsCount | generator.py:48-50 | a rows x columns grid has rows * columns cells |
| Grid.ReachableRefl | maze_solver.py:44-47 | every cell on the grid is reachable from itself, so the as-written `_dfs` raises whenever start and goal coincide |
| Grid.ReachableTrans | maze_solver.py:99-113 | a walk from a to b followed by a walk from b to c is a walk from a to c |
| Grid.ReachableSym | generator.py:97-111 | with symmetric walls, b is reachable from a exactly when a is reachable from b: a walk read backwards is a walk |
| Grid.WalkKept | generator.py:97-111 | carving only clears walls, so a walk through cleared walls stays one |
| Grid.JoinedKept | generator.py:97-111 | cells reachable from a cell stay reachable from it once more walls are cleared |
| Grid.ConnectedKept | generator.py:97-111 | a maze in which every cell reaches every other stays so once more walls are cleared |
| Grid.JoinedThrough | generator.py:78-82 | cells reachable from the neighbour carved into are reachable from the cell carved from |
| Grid.JoinedAll | generator.py:69-71 | with symmetric walls, if every cell is reachable from one cell then every cell reaches every other |
| Util.AppendKeepsSync | util.py:13-15 | adding a node whose state is not pending, under its own state, keeps `states` equal to the pending states, each pending once |
| Util.RemoveAtKeepsSync | util.py:27-28 | popping a node and removing its state keeps list and set in agreement, and the state was in the set |
| Util.Frontier.constructor | util.py:9-11 | a new frontier has nothing pending and is in sync |
| Util.Frontier.Add | util.py:13-15 | appends the node at the end, inserts the state, changes nothing else; keeps sync for a new state that is the node's own |
| Util.Frontier.ContainsState | util.py:17-18 | exactly membership in `states`, which for a synced frontier is "some pending node has this state"; read-only |
| Util.Frontier.Empty | util.py:20-21 | true exactly when the pending list is empty (for a synced frontier, when `states` is empty) |
| Util.Frontier.Remove | util.py:23-39 | empty: fails with "Empty Frontier", nothing changes; stack: returns the newest node and drops it; the state leaves `states`, KeyError if it was missing; a synced frontier stays synced and never raises KeyError; queue (`QueueFrontier.remove`): returns the oldest pending node and keeps the others in order |
| Generator.FloorDiv | generator.py:48-49 | Python's `//`: the quotient rounded toward minus infinity, for either sign of the divisor |
| Generator.FacingWalls | generator.py:97-111 | `_remove_walls` touches only the two cells given, and nothing when they share neither row nor column |
| Generator.FacingWallsOfNeighbours | generator.py:97-111 | on neighbours it clears exactly the facing pair (right/left or bottom/top) |
| Generator.WithoutWall | generator.py:100 | one wall flag of one cell is cleared; every other cell and flag is kept |
| Generator.WithVisited | generator.py:74 | one cell's `is_visited` is set; nothing else changes |
| Generator.ClearPair | generator.py:99-101 | clearing two flags changes those two and nothing else |
| Generator.MarkVisited | generator.py:74 | marking a cell visited keeps every wall (none is set, none cleared) and the invariants, and the visited set gains exactly that cell |
| Generator.RemoveWallsKeepsSound | generator.py:97-111 | clearing the facing pair of in-bounds neighbours keeps wall symmetry and the border walls |
| Generator.RemoveWallsAddsOneEdge | generator.py:78-79 | toward a still-closed neighbour, clearing the pair adds exactly one new cleared wall pair |
| Generator.CarveStep | generator.py:78-79 | carving from a visited cell into an unvisited neighbour keeps the invariants and the visited set, adds one new cleared pair, clears the wall between the two cells and sets none |
| Generator.ClearingKeepsOthers | generator.py:78-79 | only the neighbour carved into loses its walls among unvisited cells |
| Generator.ProgressCarve | generator.py:78-82 | one cleared pair and then a full `_dfs` from the neighbour is progress: visited only grows, one new pair per new cell |
| Generator.ShuffledNeighbour | generator.py:75-77 | any shuffle of the neighbour list still lists only in-bounds neighbours |
| Generator.ShuffledComplete | generator.py:75-77 | any shuffle of the neighbour list still lists every unvisited in-bounds neighbour |
| Generator.UnvisitedNeighbourListSpec | generator.py:84-95 | the neighbour list holds exactly the in-bounds, unvisited, adjacent cells, at most four, in the order up, down, left, right |
| Generator.ClosedRegionCoversGrid | generator.py:69-71 | a set holding the top-left cell and closed under in-bounds neighbour steps holds every cell |
| Generator.CarvedWhole | generator.py:69-82 | a carve from the top-left cell that leaves every cell it visited with all its neighbours visited has visited every cell |
| Generator.WholeCarve | generator.py:69-82 | after the carve every cell is visited and, on a fresh grid, rows * columns - 1 wall pairs are cleared |
| Generator.JoinedGrows | generator.py:77-82 | two rounds of carving in a row only clear walls, and the cells each round visits stay reachable from the current cell |
| Generator.CarveJoins | generator.py:78-82 | clearing the wall to a neighbour and carving on from it only clears walls, and every cell that carve visits is reachable from the cell carved from |
| Generator.CarvedConnected | generator.py:69-82 | a carve from the top-left cell that visits every cell and reaches each newly visited cell leaves a maze in which every cell reaches every other |
| Generator.Maze.constructor | generator.py:43-50 | rows and columns are the floor quotients; every cell at (r, c) has row r, column c, four walls, unvisited; the maze invariant holds, including that a fully visited maze is connected (also generate.py:38-45) |
| Generator.Maze.GetUnvisitedNeighbors | generator.py:84-95 | returns the neighbour list above (also generate.py:74-85) |
| Generator.Maze.RemoveWalls | generator.py:97-111 | clears exactly the facing flags of the two cells (also generate.py:87-101) |
| Generator.Maze.Dfs | generator.py:73-82 | keeps the invariants; visited only grows; each cell it visits has all neighbours visited; one cleared pair per new cell; walls are only cleared, and every newly visited cell is reachable from `current` (also generate.py:61-72) |
| Generator.Maze.VisitEach | generator.py:77-82 | the `for` loop over the shuffled list leaves every listed neighbour visited and is progress; walls are only cleared, and every cell it visits is reachable from `current` |
| Generator.Maze.Visit | generator.py:78-82 | one round: a still-unvisited neighbour is carved into and fully explored; either way it ends up visited; walls are only cleared, and every cell it visits is reachable from `current` |
| Generator.Maze.GenerateMaze | generator.py:69-71 | fails (IndexError) exactly on an empty grid; otherwise every cell is visited, walls symmetric with the border intact, every cell reaches every other through cleared walls, so with rows * columns - 1 pairs cleared on a fresh grid the passages form a spanning tree (also generate.py:57-59) |
| Search.Neighbours | maze_solver.py:99-113 | yields `(cell, d)` exactly for the sides whose wall is clear; None exactly when all four walls are set (also generate.py:196-210) |
| Search.NeighboursInBounds | maze_solver.py:101-111 | with intact border walls every neighbour is an in-bounds adjacent cell, so no negative index and no IndexError |
| Search.NeighboursSymmetric | maze_solver.py:99-113 | with symmetric walls, if q is a neighbour of p through d, p is a neighbour of q through the opposite side |
| Search.NeighboursArePassages | maze_solver.py:99-113 | the neighbours are exactly the one-step passages of a walk |
| Search.TrailWalk | maze_solver.py:77-84 | the parent chain from a popped node ends at the root, whose cell is the start, has depth + 1 cells, and read backwards is a walk through cleared walls |
| Search.ClosedUnreachable | maze_solver.py:70-71 | if every passage out of the explored set leads back into it, no cell outside it is reachable |
| Search.SearchStarts | maze_solver.py:63-67 | the root node pushed for the start cell sets up the loop invariant |
| Search.QueuePopped | maze_solver.py:73 | first in, first out: the popped node has the least depth pending, and the rest are within one level of it |
| Search.UnseenBeyond | maze_solver.py:73-94 | for a queue, a cell neither explored nor pending when a node of depth f is popped is at least f + 1 steps from the start, more than f |
| Search.Popped | maze_solver.py:73 | popping a node sets up its expansion, for either policy |
| Search.Pushed | maze_solver.py:90-92 | pushing a neighbour that is neither explored nor pending, as a child linked through its side, keeps the expansion state; that cell was never seen before |
| Search.PushedQueue | maze_solver.py:90-92 | for a queue the child is one level deeper, and no walk reaches it in fewer steps |
| Search.Expanded | maze_solver.py:94 | once all neighbours are explored or pending, adding the popped cell to `explored` restores the loop invariant |
| Search.Exhausted | maze_solver.py:70-71 | an empty frontier means the goal is unreachable from the start |
| Search.Reached | maze_solver.py:75-84 | when the goal is popped it is reachable; for a queue no walk is shorter than its parent chain |
| Search.MeasureDrops | maze_solver.py:88-94 | each round either sees a new cell or takes a node off the frontier, so the loop ends |
| Search.Search | maze_solver.py:62-97 | the goal is popped exactly when it is reachable; then the popped nodes form a tree rooted at the start with the goal last, and for a queue the goal's chain is a shortest walk; no cell is popped twice, as many distinct cells as popped nodes (the same loop is generate.py:128-194) |
| Search.PoppedGrows | maze_solver.py:73-94 | appending a node whose cell was not yet explored keeps one distinct cell per popped node |
| Search.PoppedOnce | maze_solver.py:73-94 | when the popped cells are as many as the popped nodes, no two popped nodes share a cell |
| Search.PushNeighbours | maze_solver.py:86-94 | after the `for` loop every neighbour is explored or pending; the pushed cells are exactly the new states and were never seen before |
| Search.Offer | maze_solver.py:90-92 | a neighbour is pushed only if neither explored nor pending, and ends up explored or pending either way |
| Solver.ArenaParentsEarlier | maze_solver.py:77-81 | every parent link points to a node popped earlier, so the parent walk ends |
| Solver.TrailLeadsBack | maze_solver.py:75-84 | the parent chain of a popped goal runs from the goal back to the start along cleared walls, and is a shortest path when no walk is shorter |
| Solver.ChainStep | maze_solver.py:77-81 | one step `node = node.parent` moves that node's cell from the trail still to follow onto the chain collected so far |
| Solver.FollowParents | maze_solver.py:77-82 | the `while node.parent is not None` walk collects the parent chain from the goal node up to the root |
| Solver.MazeSolver.constructor | maze_solver.py:22-25 | keeps the maze, start and goal; valid on a maze with its wall invariant and a start on the grid; the grid of a fully carved maze is connected |
| Solver.MazeSolver.Solve | maze_solver.py:27-29 | runs breadth-first search from the start cell: None exactly when the goal is unreachable, otherwise a shortest path back to the start; on a connected maze a goal on the grid is always found |
| Solver.MazeSolver.Bfs | maze_solver.py:62-97 | None exactly when the goal is unreachable; otherwise the chain runs from the goal back to the start along cleared walls and is a shortest walk |
| Solver.MazeSolver.DfsAsWritten | maze_solver.py:31-60 | raises AttributeError exactly when the goal is reachable, returns None otherwise |
| Generate.MazeSolver.constructor | generate.py:119-122 | keeps the maze, start and goal; valid on a maze with its wall invariant and a start on the grid; the grid of a fully carved maze is connected |
| Generate.MazeSolver.Solve | generate.py:124-126 | runs breadth-first search from the start cell; the goal is coloured exactly when reachable, so on a connected maze a goal on the grid is always found |
| Generate.MazeSolver.Dfs | generate.py:128-160 | stack frontier, stops at the goal; the goal is coloured exactly when reachable |
| Generate.MazeSolver.Bfs | generate.py:162-194 | queue frontier, stops at the goal; the goal is coloured exactly when reachable |

## Left out

- Drawing and pacing are not modelled. This covers `Cell.draw`, `Maze.draw`,
  `update_screen`, the pygame display calls, delays, the font, the layout
  arithmetic of `start_position`, and every RGB colour assignment.
  - Colouring of the goal and the path is modelled as what the searches
    return.
  - Colouring of explored cells is not modelled.
- main.py is not part of this model: window setup, random screen size,
  random start and goal, the event loop.
- The `random` module is not modelled. `random.shuffle` is a parameter
  `shuffle` that must return a permutation of its list. Each cell's `_dfs`
  runs once, so a function of the cell covers every sequence of shuffles.
- Cells are identified by (row, column). The pixel size fields, `color`, and
  the unused A* fields `g_score`/`h_score` are not modelled, and neither is A*.
- A search node's `parent` is an index into the list of popped nodes instead
  of an object reference.
- The solvers read a snapshot of the maze's grid, taken by the constructor.
  The maze does not change while it is solved.
- Python's set iteration order in `_neighbors` is not modelled: the loop
  takes the neighbours in an arbitrary order (`:|`). Every result holds for
  every order.
- Python's recursion-depth limit on `_dfs` is not modelled.
- Some loop bodies are split into methods of their own. The generator's
  `for` loop and its body are `Generator.Maze.VisitEach` and
  `Generator.Maze.Visit`. The solver's neighbour loop and its body are
  `Search.PushNeighbours` and `Search.Offer`. The goal branch of `_bfs` is
  `Solver.FollowParents`.
- Search.Search: requires the grid's shape and intact border walls, which
  every generated maze has. The source indexes `grid[cell.row - 1]` and so
  on. With a missing border wall it would wrap around through Python's
  negative indices or raise IndexError, which is not modelled.
- Solver.MazeSolver.Bfs: requires the same shape and border walls as
  `Search.Search`.
- Solver.MazeSolver.DfsAsWritten: requires the same shape and border walls as
  `Search.Search`.
- Generate.MazeSolver.Dfs: requires the same shape and border walls as
  `Search.Search`.
- Generate.MazeSolver.Bfs: requires the same shape and border walls as
  `Search.Search`.
- Generator.Maze.constructor: requires a non-zero cell size. Python would
  raise ZeroDivisionError there, which is not modelled.
- Generator.Maze.GenerateMaze: requires a maze fresh from the constructor or
  already generated, which is how the program uses it. The exact count of
  cleared wall pairs is stated for a fresh maze.
- Generator.Maze.Dfs: requires the invariants that hold on every call made
  from `generate_maze`; it is private to the class.

## Findings

| source | as written | input that shows it | evidently intended | confidence | as-written member | corrected member |
|---|---|---|---|---|---|---|
| maze_solver.py:44-47 | when `_dfs` pops the goal it calls `self.update_screen()`, which `MazeSolver` does not define, so it raises AttributeError instead of stopping | any maze where the goal is reachable from the start, e.g. start cell equal to the goal cell | stop at the goal, as the copy in generate.py:141-144 does | high; not executed | Solver.MazeSolver.DfsAsWritten, Grid.ReachableRefl | Generate.MazeSolver.Dfs |
