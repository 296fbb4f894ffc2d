/** The uninformed search both solvers run: `_neighbors`, which reads the
    passages out of a cell's wall flags, and the `while True` loop that pops
    a node, stops at the goal, pushes every neighbour that is neither
    explored nor pending as a child node, and marks the popped cell
    explored. Parent links are indices into `arena`, the list of popped
    nodes in the order they were popped. */
module Search {
  import opened Cells
  import opened Grid
  import opened Util

  /** `_neighbors(cell)`: the cells behind the walls of `p` that are down,
      each with the side it lies on, or None when all four walls are up. */
  function Neighbours(g: Grid, p: Pos): (r: Option<set<(Pos, Direction)>>)
    ensures r.None? <==> At(g, p).walls.Closed()
    ensures r.Some? ==> forall q, d :: (q, d) in r.value <==> !WallAt(g, p, d) && q == Step(p, d)
  {
    var w := At(g, p).walls;
    var s := (if !w.top then {(Step(p, Top), Top)} else {})
      + (if !w.right then {(Step(p, Right), Right)} else {})
      + (if !w.bottom then {(Step(p, Bottom), Bottom)} else {})
      + (if !w.left then {(Step(p, Left), Left)} else {});
    if s == {} then None else Some(s)
  }

  /** On a grid whose border is intact, every cell `_neighbors` names is on
      the grid, so the indices it computes never go out of range and never
      wrap around to the far side. */
  lemma NeighboursInBounds(g: Grid, rows: nat, columns: nat, p: Pos, q: Pos, d: Direction)
    requires BorderIntact(g, rows, columns) && InBounds(p, rows, columns)
    requires Neighbours(g, p).Some? && (q, d) in Neighbours(g, p).value
    ensures InBounds(q, rows, columns) && Adjacent(p, q)
  {
  }

  /** On a sound grid the passages go both ways: if `q` is a neighbour of
      `p` then `p` is a neighbour of `q`, through the facing side. */
  lemma NeighboursSymmetric(g: Grid, rows: nat, columns: nat, p: Pos, q: Pos, d: Direction)
    requires Sound(g, rows, columns) && InBounds(p, rows, columns)
    requires Neighbours(g, p).Some? && (q, d) in Neighbours(g, p).value
    ensures Neighbours(g, q).Some? && (p, Opposite(d)) in Neighbours(g, q).value
  {
    StepInverse(p, d);
    assert Facing(g, p, d);
  }

  /** The neighbours are exactly the passages out of a cell. */
  lemma NeighboursArePassages(g: Grid, p: Pos, q: Pos)
    requires Inside(g, p)
    ensures Passage(g, p, q) <==> Neighbours(g, p).Some? && exists d :: (q, d) in Neighbours(g, p).value
  {
    var r := Neighbours(g, p);
    if Passage(g, p, q) {
      var d :| !WallAt(g, p, d) && Step(p, d) == q;
      assert !At(g, p).walls.Closed();
      assert (q, d) in r.value;
    }
    if r.Some? && exists d :: (q, d) in r.value {
      var d :| (q, d) in r.value;
      assert !WallAt(g, p, d) && Step(p, d) == q;
    }
  }

  /** Every walk from `start` to `z` has more than `n` cells, that is, at
      least `n` steps. */
  ghost predicate FarFrom(g: Grid, start: Pos, z: Pos, n: nat)
  {
    forall w :: IsWalk(g, w) && w[0] == start && w[|w| - 1] == z ==> |w| > n
  }

  /** Node `n` is reached from the cell `from` through its recorded side. */
  ghost predicate Linked(g: Grid, from: Pos, n: Node)
  {
    n.action.Some? && !WallAt(g, from, n.action.value) && Step(from, n.action.value) == n.state
  }

  /** A root node stands for `start`; any other node's parent is an earlier
      popped node (index below `bound`) it is linked to. */
  ghost predicate NodeOk(g: Grid, rows: nat, columns: nat, start: Pos, arena: seq<Node>, n: Node, bound: nat)
  {
    && InBounds(n.state, rows, columns)
    && (if n.parent.None? then n.state == start
        else n.parent.value < bound && n.parent.value < |arena| && Linked(g, arena[n.parent.value].state, n))
  }

  /** The popped nodes form a tree rooted at `start`, each parent popped
      before its children. */
  ghost predicate ArenaOk(g: Grid, rows: nat, columns: nat, start: Pos, arena: seq<Node>)
  {
    forall i :: 0 <= i < |arena| ==> NodeOk(g, rows, columns, start, arena, arena[i], i)
  }

  /** Every pending node hangs off a popped node. */
  ghost predicate PendingOk(g: Grid, rows: nat, columns: nat, start: Pos, arena: seq<Node>, pending: seq<Node>)
  {
    forall k :: 0 <= k < |pending| ==> NodeOk(g, rows, columns, start, arena, pending[k], |arena|)
  }

  /** The number of parent links from popped node `i` to the root. */
  ghost function Depth(arena: seq<Node>, i: nat): nat
    decreases i
  {
    if i < |arena| && arena[i].parent.Some? && arena[i].parent.value < i then Depth(arena, arena[i].parent.value) + 1 else 0
  }

  /** The depth of a node through its parent. */
  ghost function ParentDepth(arena: seq<Node>, n: Node): nat
  {
    if n.parent.Some? && n.parent.value < |arena| then Depth(arena, n.parent.value) + 1 else 0
  }

  /** The cells met walking the parent links from popped node `i` up to the
      root, `i`'s own cell first. */
  ghost function Trail(arena: seq<Node>, i: nat): seq<Pos>
    decreases i
  {
    if i >= |arena| then []
    else if arena[i].parent.Some? && arena[i].parent.value < i then [arena[i].state] + Trail(arena, arena[i].parent.value)
    else [arena[i].state]
  }

  /** The trail from a node with a parent is its cell followed by its
      parent's trail. */
  lemma TrailStep(arena: seq<Node>, i: nat)
    requires i < |arena| && arena[i].parent.Some? && arena[i].parent.value < i
    ensures Trail(arena, i) == [arena[i].state] + Trail(arena, arena[i].parent.value)
  {
  }

  /** The trail from the root is its cell alone. */
  lemma TrailRoot(arena: seq<Node>, i: nat)
    requires i < |arena| && arena[i].parent.None?
    ensures Trail(arena, i) == [arena[i].state]
  {
  }

  /** Every explored cell's passages lead into `seen`. */
  ghost predicate ExploredClosed(g: Grid, explored: set<Pos>, seen: set<Pos>)
  {
    forall x, d :: x in explored && !WallAt(g, x, d) ==> Step(x, d) in seen
  }

  /** The pending depths never go down along the queue and span at most one
      level. */
  ghost predicate Layered(arena: seq<Node>, pending: seq<Node>)
  {
    forall k, l :: 0 <= k < l < |pending| ==>
      ParentDepth(arena, pending[k]) <= ParentDepth(arena, pending[l]) <= ParentDepth(arena, pending[k]) + 1
  }

  /** The pending depths never go down along the queue and are `f` or
      `f + 1`. */
  ghost predicate Bounded(arena: seq<Node>, pending: seq<Node>, f: nat)
  {
    && (forall k, l :: 0 <= k < l < |pending| ==> ParentDepth(arena, pending[k]) <= ParentDepth(arena, pending[l]))
    && (forall k :: 0 <= k < |pending| ==> f <= ParentDepth(arena, pending[k]) <= f + 1)
  }

  /** No pending node could have been reached in fewer steps than its
      depth. */
  ghost predicate Near(g: Grid, start: Pos, arena: seq<Node>, pending: seq<Node>)
  {
    forall k :: 0 <= k < |pending| ==> FarFrom(g, start, pending[k].state, ParentDepth(arena, pending[k]))
  }

  /** Every cell outside `seen` is at least `n` steps from `start`. */
  ghost predicate UnseenFar(g: Grid, start: Pos, seen: set<Pos>, n: nat)
  {
    forall z :: z !in seen ==> FarFrom(g, start, z, n)
  }

  /** The bookkeeping of the frontier and the explored set: the pending list
      and its state set agree, nothing is both explored and pending, `start`
      has been seen, the goal has not been explored, and every explored cell
      is on the grid. */
  ghost predicate Tracked(rows: nat, columns: nat, start: Pos, goal: Pos,
                          pending: seq<Node>, states: set<Pos>, explored: set<Pos>)
  {
    && InSync(pending, states)
    && explored !! states
    && (start in explored || start in states)
    && goal !in explored
    && (forall y :: y in explored ==> InBounds(y, rows, columns))
  }

  /** The popped nodes form a tree and the pending nodes hang off it. */
  ghost predicate Tree(g: Grid, rows: nat, columns: nat, start: Pos, arena: seq<Node>, pending: seq<Node>)
  {
    ArenaOk(g, rows, columns, start, arena) && PendingOk(g, rows, columns, start, arena, pending)
  }

  /** The state at the head of each round of the `while True` loop; a queue
      also keeps its nodes in layers of depth. */
  ghost predicate Searching(g: Grid, rows: nat, columns: nat, start: Pos, goal: Pos, policy: Policy,
                            pending: seq<Node>, states: set<Pos>, explored: set<Pos>, arena: seq<Node>)
  {
    && Tracked(rows, columns, start, goal, pending, states, explored)
    && Tree(g, rows, columns, start, arena, pending)
    && ExploredClosed(g, explored, explored + states)
    && (policy == Queue ==> Layered(arena, pending) && Near(g, start, arena, pending))
  }

  /** The bookkeeping while popped node `x` is expanded: as `Tracked`, with
      `x` neither explored nor pending and counted as seen, and `seen0`, what
      was seen before the pop, still seen. */
  ghost predicate ExpandTracked(rows: nat, columns: nat, start: Pos, goal: Pos, x: Node, seen0: set<Pos>,
                                pending: seq<Node>, states: set<Pos>, explored: set<Pos>)
  {
    && InSync(pending, states)
    && explored !! states
    && x.state !in explored && x.state !in states
    && (start in explored || start in states || start == x.state)
    && goal !in explored
    && (forall y :: y in explored ==> InBounds(y, rows, columns))
    && seen0 <= explored + states + {x.state}
  }

  /** The queue facts while node `x`, popped at depth `f`, is expanded: no
      walk reaches `x` in fewer than `f` steps, the pending depths are `f` or
      `f + 1` in order, and every cell not seen before the pop is more than
      `f` steps away. */
  ghost predicate QueueExpanding(g: Grid, start: Pos, x: Node, f: nat, seen0: set<Pos>, pending: seq<Node>, arena: seq<Node>)
  {
    && |arena| > 0
    && f == Depth(arena, |arena| - 1)
    && FarFrom(g, start, x.state, f)
    && Bounded(arena, pending, f)
    && Near(g, start, arena, pending)
    && UnseenFar(g, start, seen0, f + 1)
  }

  /** The state while popped node `x`, at depth `f`, has its neighbours
      pushed; `seen0` is what was explored or pending before the pop. */
  ghost predicate Expanding(g: Grid, rows: nat, columns: nat, start: Pos, goal: Pos, policy: Policy,
                            x: Node, f: nat, seen0: set<Pos>,
                            pending: seq<Node>, states: set<Pos>, explored: set<Pos>, arena: seq<Node>)
  {
    && ExpandTracked(rows, columns, start, goal, x, seen0, pending, states, explored)
    && |arena| > 0 && arena[|arena| - 1] == x
    && Tree(g, rows, columns, start, arena, pending)
    && ExploredClosed(g, explored, explored + states + {x.state})
    && (policy == Queue ==> QueueExpanding(g, start, x, f, seen0, pending, arena))
  }

  /** Appending a popped node keeps every earlier depth. */
  lemma {:induction false} DepthAppend(arena: seq<Node>, m: Node, i: nat)
    requires i < |arena|
    ensures Depth(arena + [m], i) == Depth(arena, i)
    decreases i
  {
    assert (arena + [m])[i] == arena[i];
    if arena[i].parent.Some? && arena[i].parent.value < i {
      DepthAppend(arena, m, arena[i].parent.value);
    }
  }

  /** Appending a popped node keeps the depth of every node hanging off an
      earlier one, and the appended node's own depth is its parent depth. */
  lemma ParentDepthAppend(arena: seq<Node>, m: Node, n: Node)
    requires n.parent.Some? ==> n.parent.value < |arena|
    ensures ParentDepth(arena + [m], n) == ParentDepth(arena, n)
  {
    if n.parent.Some? {
      DepthAppend(arena, m, n.parent.value);
    }
  }

  /** The node appended to the arena sits at its parent depth. */
  lemma AppendedDepth(arena: seq<Node>, m: Node)
    requires m.parent.Some? ==> m.parent.value < |arena|
    ensures Depth(arena + [m], |arena|) == ParentDepth(arena, m)
  {
    ParentDepthAppend(arena, m, m);
  }

  /** A node that hangs off the arena still does after a pop appends to it. */
  lemma NodeOkAppend(g: Grid, rows: nat, columns: nat, start: Pos, arena: seq<Node>, m: Node, n: Node, bound: nat, bound': nat)
    requires NodeOk(g, rows, columns, start, arena, n, bound) && bound <= bound'
    ensures NodeOk(g, rows, columns, start, arena + [m], n, bound')
  {
    if n.parent.Some? {
      assert (arena + [m])[n.parent.value] == arena[n.parent.value];
    }
  }

  /** Appending a popped node keeps the pending nodes hanging off the arena
      at the same depths. */
  lemma PendingAppend(g: Grid, rows: nat, columns: nat, start: Pos, arena: seq<Node>, m: Node, pending: seq<Node>)
    requires PendingOk(g, rows, columns, start, arena, pending)
    ensures PendingOk(g, rows, columns, start, arena + [m], pending)
    ensures forall k :: 0 <= k < |pending| ==> ParentDepth(arena + [m], pending[k]) == ParentDepth(arena, pending[k])
  {
    forall k | 0 <= k < |pending|
      ensures NodeOk(g, rows, columns, start, arena + [m], pending[k], |arena| + 1)
      ensures ParentDepth(arena + [m], pending[k]) == ParentDepth(arena, pending[k])
    {
      NodeOkAppend(g, rows, columns, start, arena, m, pending[k], |arena|, |arena| + 1);
      ParentDepthAppend(arena, m, pending[k]);
    }
  }

  /** Walking the parent links from a popped node and reading the cells
      backwards gives a walk from `start` to that node's cell, one step per
      level of depth. */
  lemma {:induction false} TrailWalk(g: Grid, rows: nat, columns: nat, start: Pos, arena: seq<Node>, i: nat)
    requires Shaped(g, rows, columns)
    requires ArenaOk(g, rows, columns, start, arena) && i < |arena|
    ensures |Trail(arena, i)| == Depth(arena, i) + 1
    ensures Trail(arena, i)[0] == arena[i].state
    ensures Trail(arena, i)[|Trail(arena, i)| - 1] == start
    ensures IsWalk(g, Reversed(Trail(arena, i)))
    decreases i
  {
    var n := arena[i];
    assert NodeOk(g, rows, columns, start, arena, n, i);
    if n.parent.Some? {
      var j := n.parent.value;
      TrailWalk(g, rows, columns, start, arena, j);
      var t := Trail(arena, j);
      var w := Reversed(t);
      assert Trail(arena, i) == [n.state] + t;
      assert ([n.state] + t)[1..] == t;
      assert Reversed([n.state] + t) == w + [n.state];
      assert Passage(g, w[|w| - 1], n.state);
      assert IsWalk(g, w + [n.state]);
    }
  }

  /** A walk that starts in a set closed under passages stays in it. */
  lemma {:induction false} WalkStays(g: Grid, s: set<Pos>, w: seq<Pos>, i: nat)
    requires ExploredClosed(g, s, s)
    requires IsWalk(g, w) && w[0] in s && i < |w|
    ensures w[i] in s
    decreases i
  {
    if i > 0 {
      WalkStays(g, s, w, i - 1);
      assert Passage(g, w[i - 1], w[i]);
      var d :| !WallAt(g, w[i - 1], d) && Step(w[i - 1], d) == w[i];
    }
  }

  /** No cell outside a set closed under passages is reachable from a cell
      inside it. */
  lemma ClosedUnreachable(g: Grid, s: set<Pos>, a: Pos, b: Pos)
    requires ExploredClosed(g, s, s) && a in s && b !in s
    ensures !Reachable(g, a, b)
  {
    forall w | IsWalk(g, w) && w[0] == a
      ensures w[|w| - 1] != b
    {
      WalkStays(g, s, w, |w| - 1);
    }
  }

  /** On a walk from `start`, the first cell that is neither explored nor
      pending comes after more steps than the shallowest pending depth. */
  lemma {:induction false} UnseenLate(g: Grid, start: Pos, explored: set<Pos>, states: set<Pos>,
                                      pending: seq<Node>, arena: seq<Node>, f: nat, w: seq<Pos>, i: nat)
    requires InSync(pending, states)
    requires ExploredClosed(g, explored, explored + states)
    requires start in explored + states
    requires forall k :: 0 <= k < |pending| ==> f <= ParentDepth(arena, pending[k])
    requires Near(g, start, arena, pending)
    requires IsWalk(g, w) && w[0] == start && i < |w|
    requires w[i] !in explored + states
    ensures i > f
    decreases i
  {
    assert w[0] in explored + states;
    var y := w[i - 1];
    if y !in explored + states {
      UnseenLate(g, start, explored, states, pending, arena, f, w, i - 1);
    } else {
      assert Passage(g, y, w[i]);
      var d :| !WallAt(g, y, d) && Step(y, d) == w[i];
      assert y !in explored;
      var k :| 0 <= k < |pending| && pending[k].state == y;
      var prefix := w[..i];
      assert IsWalk(g, prefix) && prefix[0] == start && prefix[|prefix| - 1] == y;
    }
  }

  /** Every cell neither explored nor pending is at least one step further
      from `start` than the shallowest pending depth. */
  lemma UnseenBeyond(g: Grid, start: Pos, explored: set<Pos>, states: set<Pos>,
                     pending: seq<Node>, arena: seq<Node>, f: nat)
    requires InSync(pending, states)
    requires ExploredClosed(g, explored, explored + states)
    requires start in explored + states
    requires forall k :: 0 <= k < |pending| ==> f <= ParentDepth(arena, pending[k])
    requires Near(g, start, arena, pending)
    ensures UnseenFar(g, start, explored + states, f + 1)
  {
    forall z, w | z !in explored + states && IsWalk(g, w) && w[0] == start && w[|w| - 1] == z
      ensures |w| > f + 1
    {
      UnseenLate(g, start, explored, states, pending, arena, f, w, |w| - 1);
    }
  }

  /** The state after `frontier.add(root_node, start_cell)`. */
  lemma SearchStarts(g: Grid, rows: nat, columns: nat, start: Pos, goal: Pos, policy: Policy)
    requires InBounds(start, rows, columns)
    ensures Searching(g, rows, columns, start, goal, policy, [Node(start, None, None)], {start}, {}, [])
  {
    var root := Node(start, None, None);
    assert StatesOf([root]) == {start} by {
      assert [root][0].state == start;
    }
    forall w | IsWalk(g, w) && w[0] == start && w[|w| - 1] == start
      ensures |w| > 0
    {
    }
  }

  /** A popped node that hangs off the arena extends the tree. */
  lemma ArenaGrows(g: Grid, rows: nat, columns: nat, start: Pos, arena: seq<Node>, x: Node)
    requires ArenaOk(g, rows, columns, start, arena)
    requires NodeOk(g, rows, columns, start, arena, x, |arena|)
    ensures ArenaOk(g, rows, columns, start, arena + [x])
  {
    var arena' := arena + [x];
    forall i | 0 <= i < |arena'|
      ensures NodeOk(g, rows, columns, start, arena', arena'[i], i)
    {
      if i < |arena| {
        NodeOkAppend(g, rows, columns, start, arena, x, arena[i], i, i);
      } else {
        NodeOkAppend(g, rows, columns, start, arena, x, x, i, i);
      }
    }
  }

  /** What is left pending after a pop still hangs off the grown arena. */
  lemma RestPending(g: Grid, rows: nat, columns: nat, start: Pos, arena: seq<Node>, x: Node,
                    pending0: seq<Node>, rest: seq<Node>, offset: nat)
    requires PendingOk(g, rows, columns, start, arena, pending0)
    requires offset <= 1 && |pending0| > 0 && rest == pending0[offset..offset + |pending0| - 1]
    ensures PendingOk(g, rows, columns, start, arena + [x], rest)
    ensures forall j :: 0 <= j < |rest| ==> ParentDepth(arena + [x], rest[j]) == ParentDepth(arena, pending0[j + offset])
  {
    PendingAppend(g, rows, columns, start, arena, x, pending0);
  }

  /** Popping the front of a layered queue leaves the rest at the popped
      depth or one more, still in order, and still no nearer to `start`
      than their depths. */
  lemma QueuePopped(g: Grid, rows: nat, columns: nat, start: Pos, arena: seq<Node>, x: Node, pending0: seq<Node>, rest: seq<Node>)
    requires |pending0| > 0 && x == pending0[0] && rest == pending0[1..]
    requires PendingOk(g, rows, columns, start, arena, pending0)
    requires Layered(arena, pending0) && Near(g, start, arena, pending0)
    ensures PendingOk(g, rows, columns, start, arena + [x], rest)
    ensures Bounded(arena + [x], rest, ParentDepth(arena, x))
    ensures Near(g, start, arena + [x], rest)
    ensures forall k :: 0 <= k < |pending0| ==> ParentDepth(arena, x) <= ParentDepth(arena, pending0[k])
  {
    RestPending(g, rows, columns, start, arena, x, pending0, rest, 1);
    assert forall j :: 0 <= j < |rest| ==> rest[j] == pending0[j + 1];
  }

  /** Popping node `x` (the newest for a stack, the oldest for a queue)
      starts its expansion: it joins the arena, and for a queue it sits at
      the shallowest pending depth, which no walk from `start` beats. */
  lemma Popped(g: Grid, rows: nat, columns: nat, start: Pos, goal: Pos, policy: Policy,
               pending0: seq<Node>, states0: set<Pos>, explored: set<Pos>, arena: seq<Node>,
               x: Node, rest: seq<Node>, states: set<Pos>)
    requires Searching(g, rows, columns, start, goal, policy, pending0, states0, explored, arena)
    requires |pending0| > 0
    requires policy == Stack ==> x == pending0[|pending0| - 1] && rest == pending0[..|pending0| - 1]
    requires policy == Queue ==> x == pending0[0] && rest == pending0[1..]
    requires states == states0 - {x.state} && InSync(rest, states)
    ensures Expanding(g, rows, columns, start, goal, policy, x, ParentDepth(arena, x), explored + states0,
                      rest, states, explored, arena + [x])
  {
    var k := if policy == Stack then |pending0| - 1 else 0;
    assert x == pending0[k];
    assert x.state in states0;
    assert NodeOk(g, rows, columns, start, arena, x, |arena|);
    ArenaGrows(g, rows, columns, start, arena, x);
    if policy == Stack {
      RestPending(g, rows, columns, start, arena, x, pending0, rest, 0);
    } else {
      var f := ParentDepth(arena, x);
      AppendedDepth(arena, x);
      QueuePopped(g, rows, columns, start, arena, x, pending0, rest);
      UnseenBeyond(g, start, explored, states0, pending0, arena, f);
      assert FarFrom(g, start, pending0[0].state, ParentDepth(arena, pending0[0]));
    }
  }

  /** Pushing a neighbour of the popped node that is neither explored nor
      pending, as a child linked through the side it lies on, keeps the
      expansion state; for a queue the child goes in one level deeper, at a
      depth no walk from `start` beats. */
  lemma Pushed(g: Grid, rows: nat, columns: nat, start: Pos, goal: Pos, policy: Policy,
               x: Node, f: nat, seen0: set<Pos>,
               pending: seq<Node>, states: set<Pos>, explored: set<Pos>, arena: seq<Node>, z: Pos, d: Direction,
               pending': seq<Node>, states': set<Pos>)
    requires BorderIntact(g, rows, columns)
    requires Expanding(g, rows, columns, start, goal, policy, x, f, seen0, pending, states, explored, arena)
    requires Neighbours(g, x.state).Some? && (z, d) in Neighbours(g, x.state).value
    requires z !in explored && z !in states
    requires pending' == pending + [Node(z, Some(|arena| - 1), Some(d))] && states' == states + {z}
    requires InSync(pending', states')
    ensures InBounds(z, rows, columns) && z !in seen0
    ensures Expanding(g, rows, columns, start, goal, policy, x, f, seen0, pending', states', explored, arena)
  {
    var child := Node(z, Some(|arena| - 1), Some(d));
    assert NodeOk(g, rows, columns, start, arena, x, |arena| - 1);
    NeighboursInBounds(g, rows, columns, x.state, z, d);
    ChildPending(g, rows, columns, start, arena, pending, child);
    ClosedGrows(g, explored, explored + states + {x.state}, explored + states' + {x.state});
    if policy == Queue {
      PushedQueue(g, start, x, f, seen0, pending, arena, z, d);
    }
  }

  /** For a queue, a child of the popped node at depth `f` that was not seen
      before the pop goes in at depth `f + 1`, which no walk from `start`
      beats. */
  lemma PushedQueue(g: Grid, start: Pos, x: Node, f: nat, seen0: set<Pos>, pending: seq<Node>, arena: seq<Node>,
                    z: Pos, d: Direction)
    requires QueueExpanding(g, start, x, f, seen0, pending, arena)
    requires |arena| > 0 && arena[|arena| - 1] == x && z !in seen0
    ensures QueueExpanding(g, start, x, f, seen0, pending + [Node(z, Some(|arena| - 1), Some(d))], arena)
  {
    var child := Node(z, Some(|arena| - 1), Some(d));
    assert ParentDepth(arena, child) == f + 1;
    assert FarFrom(g, start, z, f + 1);
    ChildQueued(g, start, arena, pending, child, f);
  }

  /** A child of the newest popped node hangs off the arena. */
  lemma ChildPending(g: Grid, rows: nat, columns: nat, start: Pos, arena: seq<Node>, pending: seq<Node>, child: Node)
    requires PendingOk(g, rows, columns, start, arena, pending)
    requires |arena| > 0 && child.parent == Some(|arena| - 1) && InBounds(child.state, rows, columns)
    requires Linked(g, arena[|arena| - 1].state, child)
    ensures PendingOk(g, rows, columns, start, arena, pending + [child])
  {
    assert NodeOk(g, rows, columns, start, arena, child, |arena|);
    assert forall k :: 0 <= k < |pending| ==> (pending + [child])[k] == pending[k];
  }

  /** A child one level below the popped depth `f`, no nearer to `start`
      than that, can join the back of the queue. */
  lemma ChildQueued(g: Grid, start: Pos, arena: seq<Node>, pending: seq<Node>, child: Node, f: nat)
    requires Bounded(arena, pending, f) && Near(g, start, arena, pending)
    requires ParentDepth(arena, child) == f + 1 && FarFrom(g, start, child.state, f + 1)
    ensures Bounded(arena, pending + [child], f) && Near(g, start, arena, pending + [child])
  {
    assert forall k :: 0 <= k < |pending| ==> (pending + [child])[k] == pending[k];
  }

  /** Passages out of explored cells that lead into `seen` lead into any
      larger set. */
  lemma ClosedGrows(g: Grid, explored: set<Pos>, seen: set<Pos>, seen': set<Pos>)
    requires ExploredClosed(g, explored, seen) && seen <= seen'
    ensures ExploredClosed(g, explored, seen')
  {
  }

  /** Once every neighbour of the popped node is explored or pending, and the
      popped node is not the goal, marking it explored restores the loop
      state. */
  lemma Expanded(g: Grid, rows: nat, columns: nat, start: Pos, goal: Pos, policy: Policy,
                 x: Node, f: nat, seen0: set<Pos>,
                 pending: seq<Node>, states: set<Pos>, explored: set<Pos>, arena: seq<Node>)
    requires Expanding(g, rows, columns, start, goal, policy, x, f, seen0, pending, states, explored, arena)
    requires x.state != goal
    requires Neighbours(g, x.state).Some? ==> forall q, d :: (q, d) in Neighbours(g, x.state).value ==> q in explored + states
    ensures Searching(g, rows, columns, start, goal, policy, pending, states, explored + {x.state}, arena)
  {
    assert NodeOk(g, rows, columns, start, arena, x, |arena| - 1);
    forall d | !WallAt(g, x.state, d)
      ensures Step(x.state, d) in explored + states
    {
      assert !At(g, x.state).walls.Closed();
      assert (Step(x.state, d), d) in Neighbours(g, x.state).value;
    }
  }

  /** When the frontier runs empty the goal is not reachable from `start`. */
  lemma Exhausted(g: Grid, rows: nat, columns: nat, start: Pos, goal: Pos, policy: Policy,
                  states: set<Pos>, explored: set<Pos>, arena: seq<Node>)
    requires Searching(g, rows, columns, start, goal, policy, [], states, explored, arena)
    ensures !Reachable(g, start, goal)
  {
    assert states == {};
    ClosedUnreachable(g, explored, start, goal);
  }

  /** When the goal is popped, the parent links lead from it back to `start`
      through cleared walls, and for a queue no walk is shorter. */
  lemma Reached(g: Grid, rows: nat, columns: nat, start: Pos, goal: Pos, policy: Policy, arena: seq<Node>)
    requires Shaped(g, rows, columns)
    requires ArenaOk(g, rows, columns, start, arena) && |arena| > 0 && arena[|arena| - 1].state == goal
    requires policy == Queue ==> FarFrom(g, start, goal, Depth(arena, |arena| - 1))
    ensures Reachable(g, start, goal)
    ensures policy == Queue ==> forall w :: IsWalk(g, w) && w[0] == start && w[|w| - 1] == goal ==> |w| >= |Trail(arena, |arena| - 1)|
  {
    var i := |arena| - 1;
    TrailWalk(g, rows, columns, start, arena, i);
    var t := Trail(arena, i);
    var w := Reversed(t);
    assert w[0] == start && w[|w| - 1] == goal;
  }

  /** A round of the loop either shrinks the set of cells never seen or, when
      it pushes nothing, leaves that set and takes one node off the
      frontier. */
  lemma MeasureDrops(all: set<Pos>, explored: set<Pos>, states0: set<Pos>, x: Pos, pushed: set<Pos>, states: set<Pos>)
    requires x in states0
    requires states == (states0 - {x}) + pushed && pushed <= all && pushed !! (explored + states0)
    ensures all - (explored + {x} + states) < all - (explored + states0)
            || (all - (explored + {x} + states) == all - (explored + states0) && pushed == {})
  {
    if pushed != {} {
      var z :| z in pushed;
      assert z in all - (explored + states0);
    }
  }

  /** The `while True` loop of `_bfs` (queue) and `_dfs` (stack) from
      `start`, stopping when the goal is popped. `found` says whether the
      goal was popped; `arena` lists the popped nodes, the goal last when
      found. The goal is found exactly when it is reachable, a queue finds
      it along a shortest walk, and no cell is popped twice. */
  method Search(g: Grid, rows: nat, columns: nat, start: Pos, goal: Pos, policy: Policy)
    returns (found: bool, arena: seq<Node>)
    requires Shaped(g, rows, columns) && BorderIntact(g, rows, columns) && InBounds(start, rows, columns)
    ensures found <==> Reachable(g, start, goal)
    ensures found ==> |arena| > 0 && arena[|arena| - 1].state == goal && ArenaOk(g, rows, columns, start, arena)
    ensures found && policy == Queue ==>
      forall w :: IsWalk(g, w) && w[0] == start && w[|w| - 1] == goal ==> |w| >= |Trail(arena, |arena| - 1)|
    ensures |PoppedCells(arena)| == |arena|
  {
    var frontier := new Frontier(policy);
    var root := Node(start, None, None);
    frontier.Add(root, start);
    var explored: set<Pos> := {};
    arena := [];
    SearchStarts(g, rows, columns, start, goal, policy);
    while true
      invariant fresh(frontier) && frontier.policy == policy
      invariant Searching(g, rows, columns, start, goal, policy, frontier.frontier, frontier.states, explored, arena)
      invariant PoppedCells(arena) == explored && |explored| == |arena|
      decreases AllCells(rows, columns) - (explored + frontier.states), |frontier.frontier|
    {
      var empty := frontier.Empty();
      if empty {
        Exhausted(g, rows, columns, start, goal, policy, frontier.states, explored, arena);
        return false, arena;
      }
      ghost var pending0, states0 := frontier.frontier, frontier.states;
      var r := frontier.Remove();
      var node := r.value;
      ghost var rest := frontier.frontier;
      ghost var f := ParentDepth(arena, node);
      Popped(g, rows, columns, start, goal, policy, pending0, states0, explored, arena, node, rest, frontier.states);
      PoppedGrows(arena, node, explored);
      arena := arena + [node];
      if node.state == goal {
        Reached(g, rows, columns, start, goal, policy, arena);
        return true, arena;
      }
      ghost var pushed := PushNeighbours(frontier, g, rows, columns, start, goal, policy, node, f,
                                         explored, arena, states0, rest);
      MeasureDrops(AllCells(rows, columns), explored, states0, node.state, pushed, frontier.states);
      explored := explored + {node.state};
    }
  }

  /** The cells of the popped nodes. */
  ghost function PoppedCells(arena: seq<Node>): set<Pos>
  {
    if arena == [] then {} else PoppedCells(arena[..|arena| - 1]) + {arena[|arena| - 1].state}
  }

  /** Popping a node whose cell is not explored yet adds one cell to the
      popped cells. */
  lemma PoppedGrows(arena: seq<Node>, x: Node, explored: set<Pos>)
    requires PoppedCells(arena) == explored && |explored| == |arena| && x.state !in explored
    ensures PoppedCells(arena + [x]) == explored + {x.state}
    ensures |PoppedCells(arena + [x])| == |arena + [x]|
  {
    assert (arena + [x])[..|arena|] == arena;
  }

  /** As many popped cells as popped nodes means no cell was popped twice:
      each cell is expanded at most once. */
  lemma {:induction false} PoppedOnce(arena: seq<Node>)
    requires |PoppedCells(arena)| == |arena|
    ensures DistinctStates(arena)
  {
    if arena != [] {
      var init, last := arena[..|arena| - 1], arena[|arena| - 1];
      PoppedWithin(init);
      assert last.state !in PoppedCells(init);
      PoppedOnce(init);
      PoppedMember(init, last.state);
    }
  }

  /** There are no more popped cells than popped nodes. */
  lemma {:induction false} PoppedWithin(arena: seq<Node>)
    ensures |PoppedCells(arena)| <= |arena|
  {
    if arena != [] {
      PoppedWithin(arena[..|arena| - 1]);
    }
  }

  /** A cell no popped node has is not among the popped cells. */
  lemma {:induction false} PoppedMember(arena: seq<Node>, z: Pos)
    requires z !in PoppedCells(arena)
    ensures forall i :: 0 <= i < |arena| ==> arena[i].state != z
  {
    if arena != [] {
      var init := arena[..|arena| - 1];
      PoppedMember(init, z);
      assert forall i :: 0 <= i < |init| ==> arena[i] == init[i];
    }
  }

  /** `neighbors = self._neighbors(node.state)` and the `for` loop over
      them: each neighbour that is neither explored nor pending is added to
      the frontier as a child of `node`, the newest popped node. Every
      neighbour ends up explored or pending; `pushed` is the set of cells
      added. */
  method PushNeighbours(frontier: Frontier, g: Grid, rows: nat, columns: nat, start: Pos, goal: Pos, policy: Policy,
                        node: Node, ghost f: nat, explored: set<Pos>, arena: seq<Node>,
                        ghost states0: set<Pos>, ghost rest: seq<Node>)
    returns (ghost pushed: set<Pos>)
    requires BorderIntact(g, rows, columns) && frontier.policy == policy
    requires Expanding(g, rows, columns, start, goal, policy, node, f, explored + states0,
                       frontier.frontier, frontier.states, explored, arena)
    requires frontier.states == states0 - {node.state} && frontier.frontier == rest
    modifies frontier
    ensures node.state != goal ==>
      Searching(g, rows, columns, start, goal, policy, frontier.frontier, frontier.states, explored + {node.state}, arena)
    ensures frontier.states == (states0 - {node.state}) + pushed
    ensures pushed <= AllCells(rows, columns) && pushed !! (explored + states0)
    ensures pushed == {} ==> frontier.frontier == rest
  {
    pushed := {};
    var neighbours := Neighbours(g, node.state);
    if neighbours.Some? {
      var todo := neighbours.value;
      ghost var seen0, base := explored + states0, states0 - {node.state};
      while todo != {}
        invariant todo <= neighbours.value
        invariant Expanding(g, rows, columns, start, goal, policy, node, f, seen0,
                            frontier.frontier, frontier.states, explored, arena)
        invariant forall q, d :: (q, d) in neighbours.value - todo ==> q in explored + frontier.states
        invariant frontier.states == base + pushed
        invariant pushed <= AllCells(rows, columns) && pushed !! seen0
        invariant pushed == {} ==> frontier.frontier == rest
        decreases todo
      {
        var neighbour :| neighbour in todo;
        ghost var states, pushed0 := frontier.states, pushed;
        var added := Offer(frontier, g, rows, columns, start, goal, policy, node, f, explored, arena,
                           seen0, neighbour.0, neighbour.1);
        if added {
          pushed := pushed + {neighbour.0};
        }
        CoveredGrows(neighbours.value, todo, neighbour, explored + states, explored + frontier.states);
        PushedGrows(rows, columns, seen0, base, pushed0, states, neighbour.0, added, pushed, frontier.states);
        todo := todo - {neighbour};
      }
    }
    if node.state != goal {
      Expanded(g, rows, columns, start, goal, policy, node, f, explored + states0,
               frontier.frontier, frontier.states, explored, arena);
    }
  }

  /** One more neighbour is explored or pending, and the others stay so. */
  lemma CoveredGrows(all: set<(Pos, Direction)>, todo: set<(Pos, Direction)>, n: (Pos, Direction),
                     seen: set<Pos>, seen': set<Pos>)
    requires forall q, d :: (q, d) in all - todo ==> q in seen
    requires seen <= seen' && n.0 in seen'
    ensures forall q, d :: (q, d) in all - (todo - {n}) ==> q in seen'
  {
  }

  /** The cells pushed by the neighbour loop so far: on the grid, not seen
      before the pop, and exactly what the frontier's state set gained. */
  lemma PushedGrows(rows: nat, columns: nat, seen0: set<Pos>, base: set<Pos>, pushed: set<Pos>, states: set<Pos>,
                    z: Pos, added: bool, pushed': set<Pos>, states': set<Pos>)
    requires states == base + pushed && pushed <= AllCells(rows, columns) && pushed !! seen0
    requires added ==> states' == states + {z} && InBounds(z, rows, columns) && z !in seen0 && pushed' == pushed + {z}
    requires !added ==> states' == states && pushed' == pushed
    ensures states' == base + pushed' && pushed' <= AllCells(rows, columns) && pushed' !! seen0
  {
  }

  /** One round of the `for` loop over the neighbours: cell `z`, on side `d`
      of the popped node `node`, is added to the frontier as its child unless
      it is already explored or pending. Either way `z` ends up explored or
      pending; `added` says whether it was pushed. */
  method Offer(frontier: Frontier, g: Grid, rows: nat, columns: nat, start: Pos, goal: Pos, policy: Policy,
               node: Node, ghost f: nat, explored: set<Pos>, arena: seq<Node>, ghost seen0: set<Pos>,
               z: Pos, d: Direction)
    returns (added: bool)
    requires BorderIntact(g, rows, columns) && frontier.policy == policy
    requires Expanding(g, rows, columns, start, goal, policy, node, f, seen0,
                       frontier.frontier, frontier.states, explored, arena)
    requires Neighbours(g, node.state).Some? && (z, d) in Neighbours(g, node.state).value
    modifies frontier
    ensures Expanding(g, rows, columns, start, goal, policy, node, f, seen0,
                      frontier.frontier, frontier.states, explored, arena)
    ensures z in explored + frontier.states
    ensures added ==> frontier.states == old(frontier.states) + {z} && InBounds(z, rows, columns) && z !in seen0
    ensures !added ==> frontier.states == old(frontier.states) && frontier.frontier == old(frontier.frontier)
  {
    added := false;
    var pending := true;
    if z !in explored {
      pending := frontier.ContainsState(z);
    }
    if !pending {
      var child := Node(z, Some(|arena| - 1), Some(d));
      ghost var pending0, states0 := frontier.frontier, frontier.states;
      frontier.Add(child, z);
      Pushed(g, rows, columns, start, goal, policy, node, f, seen0,
             pending0, states0, explored, arena, z, d, frontier.frontier, frontier.states);
      added := true;
    }
  }
}
