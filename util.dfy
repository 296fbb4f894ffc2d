/** Search nodes and the two frontiers of the uninformed searches: a stack
    (last in, first out) and a queue (first in, first out), each a list of
    pending nodes with a companion set of their states. */
module Util {
  import opened Cells

  datatype Option<T> = None | Some(value: T)

  /** A search node: the cell it stands for, the index of its parent in the
      arena of expanded nodes (None for the root), and the direction taken
      from the parent (None for the root). */
  datatype Node = Node(state: Pos, parent: Option<nat>, action: Option<Direction>)

  /** Which end `remove` takes from: StackFrontier pops the end of the list,
      QueueFrontier (its subclass) pops the front. */
  datatype Policy = Stack | Queue

  /** The two exceptions `remove` can raise: its own "Empty Frontier", and the
      KeyError of `states.remove` when the popped state is not in `states`. */
  datatype Error = EmptyFrontier | KeyError

  datatype Result<T> = Success(value: T) | Failure(error: Error)

  /** The states of a list of pending nodes. */
  ghost function StatesOf(nodes: seq<Node>): (s: set<Pos>)
    ensures forall x :: x in s <==> exists i :: 0 <= i < |nodes| && nodes[i].state == x
  {
    set i | 0 <= i < |nodes| :: nodes[i].state
  }

  /** No state is pending twice. */
  ghost predicate DistinctStates(nodes: seq<Node>)
  {
    forall i, j :: 0 <= i < j < |nodes| ==> nodes[i].state != nodes[j].state
  }

  /** The companion set is exactly the set of pending states, and no state is
      pending twice. */
  ghost predicate InSync(nodes: seq<Node>, states: set<Pos>)
  {
    states == StatesOf(nodes) && DistinctStates(nodes)
  }

  /** `add(node, node.state)` of a state not yet pending keeps the list and
      the set in sync. */
  lemma AppendKeepsSync(nodes: seq<Node>, states: set<Pos>, node: Node)
    requires InSync(nodes, states) && node.state !in states
    ensures InSync(nodes + [node], states + {node.state})
  {
    var nodes' := nodes + [node];
    forall x ensures x in StatesOf(nodes') <==> x in states + {node.state} {
      if x in states {
        var i :| 0 <= i < |nodes| && nodes[i].state == x;
        assert nodes'[i].state == x;
      }
      if x == node.state {
        assert nodes'[|nodes|].state == x;
      }
    }
  }

  /** Removing the pending node at index `k` and its state from the set keeps
      the list and the set in sync; `k` is the end for the stack and the front
      for the queue. */
  lemma {:induction false} RemoveAtKeepsSync(nodes: seq<Node>, states: set<Pos>, k: nat)
    requires InSync(nodes, states) && k < |nodes|
    ensures nodes[k].state in states
    ensures InSync(nodes[..k] + nodes[k + 1..], states - {nodes[k].state})
  {
    var rest := nodes[..k] + nodes[k + 1..];
    assert forall i :: 0 <= i < |rest| ==> rest[i] == nodes[if i < k then i else i + 1];
    forall x ensures x in StatesOf(rest) <==> x in states - {nodes[k].state} {
      if x in states - {nodes[k].state} {
        var i :| 0 <= i < |nodes| && nodes[i].state == x;
        assert rest[if i < k then i else i - 1].state == x;
      }
    }
  }

  class Frontier {
    const policy: Policy
    /** The pending nodes, oldest first. */
    var frontier: seq<Node>
    /** The states of the pending nodes, for membership tests. */
    var states: set<Pos>

    /** The pending list and the state set agree. Every frontier the searches
        build keeps this; `add` can break it when called with a state that is
        already pending or that is not the node's own. */
    ghost predicate Synced()
      reads this
    {
      InSync(frontier, states)
    }

    /** `StackFrontier()` or `QueueFrontier()`: nothing pending. */
    constructor (policy: Policy)
      ensures this.policy == policy
      ensures frontier == [] && states == {}
      ensures Synced()
    {
      this.policy := policy;
      frontier := [];
      states := {};
    }

    /** `add(node, state)`: append the node, record the state. */
    method Add(node: Node, state: Pos)
      modifies this
      ensures frontier == old(frontier) + [node]
      ensures states == old(states) + {state}
      ensures old(Synced()) && state == node.state && state !in old(states) ==> Synced()
    {
      if Synced() && state == node.state && state !in states {
        AppendKeepsSync(frontier, states, node);
      }
      frontier := frontier + [node];
      states := states + {state};
    }

    /** `contains_state(state)`: membership in the companion set, which for a
        synced frontier is "some pending node has this state". */
    method ContainsState(state: Pos) returns (b: bool)
      ensures b <==> state in states
      ensures Synced() ==> (b <==> exists i :: 0 <= i < |frontier| && frontier[i].state == state)
    {
      b := state in states;
    }

    /** `empty()`: nothing is pending. */
    method Empty() returns (b: bool)
      ensures b <==> |frontier| == 0
      ensures Synced() ==> (b <==> states == {})
    {
      b := |frontier| == 0;
      if Synced() && !b {
        assert frontier[0].state in states;
      }
    }

    /** `remove()`. On an empty frontier it fails with "Empty Frontier" and
        changes nothing. Otherwise it pops the newest node (stack) or the
        oldest (queue) and removes that node's state from the set; a state
        missing from the set raises KeyError after the pop has happened.
        A synced frontier never raises KeyError and stays synced. */
    method Remove() returns (r: Result<Node>)
      modifies this
      ensures old(|frontier|) == 0 ==> r == Failure(EmptyFrontier) && frontier == old(frontier) && states == old(states)
      ensures old(|frontier|) > 0 && policy == Stack ==>
        && frontier == old(frontier[..|frontier| - 1])
        && (r.Success? ==> r.value == old(frontier[|frontier| - 1]))
      ensures old(|frontier|) > 0 && policy == Queue ==>
        && frontier == old(frontier[1..])
        && (r.Success? ==> r.value == old(frontier[0]))
      ensures old(|frontier|) > 0 ==>
        && (r.Success? ==> states == old(states) - {r.value.state})
        && (r.Failure? ==> r.error == KeyError && states == old(states))
      ensures old(Synced()) ==> Synced() && (r.Success? <==> old(|frontier|) > 0)
    {
      if |frontier| == 0 {
        return Failure(EmptyFrontier);
      }
      var k := if policy == Stack then |frontier| - 1 else 0;
      var node := frontier[k];
      if Synced() {
        RemoveAtKeepsSync(frontier, states, k);
      }
      frontier := frontier[..k] + frontier[k + 1..];
      if node.state in states {
        states := states - {node.state};
        r := Success(node);
      } else {
        r := Failure(KeyError);
      }
    }
  }
}
