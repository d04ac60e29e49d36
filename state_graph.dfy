/** The state exploration graph: each node holds the states the checkers reported and
    the actions available at that moment, and links to the nodes that followed it. */
module StateGraph {
  import opened Wrappers
  import opened StateDifferences
  import opened Actions
  import opened Identifiers

  /** The elements of a collection, gathered into a set as the hash-set copies do. */
  function Elements<T(!new)>(xs: seq<T>): (s: set<T>)
    ensures forall x :: x in s <==> x in xs
  {
    set i | 0 <= i < |xs| :: xs[i]
  }

  /** A node of the graph. The followers are a hash set in the program; here they are
      kept in the order they were added, and the search visits them in that order. */
  class StateExplorerState {
    const states: set<State>
    const actions: set<Action>
    var followingStates: seq<StateExplorerState>

    /** A new node copies both collections into sets and has no followers yet. */
    constructor(states: seq<State>, actions: seq<Action>)
      ensures this.states == Elements(states) && this.actions == Elements(actions)
      ensures followingStates == []
    {
      this.states := Elements(states);
      this.actions := Elements(actions);
      followingStates := [];
    }

    /** `equals`: the state sets and the action sets agree; the followers play no part,
        and the same node is always equal to itself. */
    predicate Equal(other: StateExplorerState) {
      states == other.states && actions == other.actions
    }

    /** Some follower is equal to `s`. */
    predicate Follows(s: StateExplorerState)
      reads this
    {
      exists i :: 0 <= i < |followingStates| && followingStates[i].Equal(s)
    }

    /** `addFollowingState`: a hash-set add, which leaves the set alone when it already
        holds an equal node and otherwise adds the new one. */
    method AddFollowingState(newState: StateExplorerState)
      modifies this
      ensures old(Follows(newState)) ==> followingStates == old(followingStates)
      ensures !old(Follows(newState)) ==> followingStates == old(followingStates) + [newState]
      ensures Follows(newState)
    {
      if !Follows(newState) {
        followingStates := followingStates + [newState];
        assert followingStates[|followingStates| - 1] == newState;
      }
    }
  }

  /** Equality of nodes is an equivalence, decided by the two sets alone. */
  lemma EqualIsEquivalence(a: StateExplorerState, b: StateExplorerState, c: StateExplorerState)
    ensures a.Equal(a)
    ensures a.Equal(b) <==> b.Equal(a)
    ensures a.Equal(b) && b.Equal(c) ==> a.Equal(c)
    ensures a.Equal(b) <==> a.states == b.states && a.actions == b.actions
  {
  }

  /** Nodes built from the same states and actions, listed in any order, are equal. */
  lemma EqualIgnoresOrder(states1: seq<State>, actions1: seq<Action>, states2: seq<State>, actions2: seq<Action>)
    requires multiset(states1) == multiset(states2) && multiset(actions1) == multiset(actions2)
    ensures Elements(states1) == Elements(states2) && Elements(actions1) == Elements(actions2)
  {
    forall x | x in states1 ensures x in states2 {
      assert x in multiset(states1);
    }
    forall x | x in states2 ensures x in states1 {
      assert x in multiset(states2);
    }
    forall x | x in actions1 ensures x in actions2 {
      assert x in multiset(actions1);
    }
    forall x | x in actions2 ensures x in actions1 {
      assert x in multiset(actions2);
    }
  }

  /** The nodes `nodes` are closed under following, and `rank` strictly decreases along
      every link: the graph below them has no cycle. */
  ghost predicate Ranked(nodes: set<StateExplorerState>, rank: map<StateExplorerState, nat>)
    reads nodes
  {
    nodes <= rank.Keys
    && forall n :: n in nodes ==>
         forall i :: 0 <= i < |n.followingStates| ==>
           n.followingStates[i] in nodes && rank[n.followingStates[i]] < rank[n]
  }

  /** The nodes reachable from `n`, in depth-first pre-order: `n` itself, then each of
      its followers' orders in turn. */
  ghost function PreOrder(n: StateExplorerState, nodes: set<StateExplorerState>, rank: map<StateExplorerState, nat>): (r: seq<StateExplorerState>)
    requires Ranked(nodes, rank) && n in nodes
    reads nodes
    ensures |r| > 0 && r[0] == n
    decreases rank[n], |n.followingStates| + 1
  {
    [n] + FollowersOrder(n, nodes, rank, 0)
  }

  /** The pre-orders of the followers of `n` from position `k` on, one after another. */
  ghost function FollowersOrder(n: StateExplorerState, nodes: set<StateExplorerState>, rank: map<StateExplorerState, nat>, k: nat)
    : seq<StateExplorerState>
    requires Ranked(nodes, rank) && n in nodes && k <= |n.followingStates|
    reads nodes
    decreases rank[n], |n.followingStates| - k
  {
    if k == |n.followingStates| then []
    else PreOrder(n.followingStates[k], nodes, rank) + FollowersOrder(n, nodes, rank, k + 1)
  }

  /** The first node of `order` equal to `target`, if any. */
  function FirstEqual(order: seq<StateExplorerState>, target: StateExplorerState): (r: Option<StateExplorerState>)
    ensures r.None? <==> forall i :: 0 <= i < |order| ==> !order[i].Equal(target)
    ensures r.Some? ==> exists i :: 0 <= i < |order| && order[i] == r.value && r.value.Equal(target)
                                    && forall j :: 0 <= j < i ==> !order[j].Equal(target)
  {
    if order == [] then None
    else if order[0].Equal(target) then Some(order[0])
    else
      var r := FirstEqual(order[1..], target);
      assert forall i :: 1 <= i < |order| ==> order[i] == order[1..][i - 1];
      r
  }

  /** Searching a concatenation searches the first part, then the second. */
  lemma FirstEqualConcat(a: seq<StateExplorerState>, b: seq<StateExplorerState>, target: StateExplorerState)
    ensures FirstEqual(a + b, target) == if FirstEqual(a, target).Some? then FirstEqual(a, target) else FirstEqual(b, target)
  {
    if a != [] {
      assert (a + b)[1..] == a[1..] + b;
      FirstEqualConcat(a[1..], b, target);
    } else {
      assert a + b == b;
    }
  }

  /** `nodes` holds every follower of each of its nodes. */
  ghost predicate Closed(nodes: set<StateExplorerState>)
    reads nodes
  {
    forall n, f :: n in nodes && f in n.followingStates ==> f in nodes
  }

  /** `p` is a walk along following links through `nodes`. */
  ghost predicate Path(older p: seq<StateExplorerState>, nodes: set<StateExplorerState>)
    reads nodes
  {
    && |p| > 0
    && (forall i :: 0 <= i < |p| ==> p[i] in nodes)
    && (forall i :: 0 < i < |p| ==> p[i] in p[i - 1].followingStates)
  }

  /** `to` can be reached from `from` by following links inside `nodes`. */
  ghost predicate Reachable(from: StateExplorerState, to: StateExplorerState, nodes: set<StateExplorerState>)
    reads nodes
  {
    exists p :: Path(p, nodes) && p[0] == from && p[|p| - 1] == to
  }

  lemma ReachableSelf(n: StateExplorerState, nodes: set<StateExplorerState>)
    requires n in nodes
    ensures Reachable(n, n, nodes)
  {
    assert Path([n], nodes);
  }

  /** A follower of a reachable node is reachable. */
  lemma ReachableStep(root: StateExplorerState, m: StateExplorerState, f: StateExplorerState, nodes: set<StateExplorerState>)
    requires Closed(nodes) && Reachable(root, m, nodes) && m in nodes && f in m.followingStates
    ensures Reachable(root, f, nodes)
  {
    var p :| Path(p, nodes) && p[0] == root && p[|p| - 1] == m;
    var q := p + [f];
    assert q[|q| - 2] == m;
    assert Path(q, nodes);
  }

  /** A set that holds the start of a walk and every follower of its members holds the
      whole walk. */
  lemma {:induction false} PathStaysInClosedSet(p: seq<StateExplorerState>, marked: set<StateExplorerState>,
                                                nodes: set<StateExplorerState>)
    requires Path(p, nodes) && p[0] in marked
    requires forall m, f :: m in marked && f in m.followingStates ==> f in marked
    ensures p[|p| - 1] in marked
  {
    if |p| > 1 {
      var init := p[..|p| - 1];
      assert Path(init, nodes);
      PathStaysInClosedSet(init, marked, nodes);
      assert p[|p| - 1] in p[|p| - 2].followingStates;
    }
  }

  /** `findStateHelper` with its visited set consulted: a depth-first search that skips
      the nodes it has already marked, so it ends on any graph. It returns a node
      reachable from `root` that is equal to `newState`, and nothing exactly when no
      reachable node is. */
  method FindStateMarked(root: StateExplorerState, newState: StateExplorerState, ghost nodes: set<StateExplorerState>)
    returns (found: Option<StateExplorerState>)
    requires Closed(nodes) && root in nodes
    ensures found.Some? ==> found.value.Equal(newState) && Reachable(root, found.value, nodes)
    ensures found.None? <==> forall n :: Reachable(root, n, nodes) ==> !n.Equal(newState)
  {
    ReachableSelf(root, nodes);
    var markedStates: set<StateExplorerState> := {};
    var pending := [root];
    while pending != []
      invariant markedStates <= nodes
      invariant forall i :: 0 <= i < |pending| ==> pending[i] in nodes && Reachable(root, pending[i], nodes)
      invariant forall m :: m in markedStates ==> Reachable(root, m, nodes) && !m.Equal(newState)
      invariant forall m, f :: m in markedStates && f in m.followingStates ==> f in markedStates || f in pending
      invariant root in markedStates || root in pending
      decreases |nodes - markedStates|, |pending|
    {
      var current := pending[|pending| - 1];
      pending := pending[..|pending| - 1];
      if current !in markedStates {
        if current.Equal(newState) {
          return Some(current);
        }
        assert (nodes - markedStates) - {current} == nodes - (markedStates + {current});
        markedStates := markedStates + {current};
        forall i | 0 <= i < |current.followingStates|
          ensures Reachable(root, current.followingStates[i], nodes)
        {
          ReachableStep(root, current, current.followingStates[i], nodes);
        }
        pending := pending + current.followingStates;
      }
    }
    forall n | Reachable(root, n, nodes) ensures !n.Equal(newState) {
      var p :| Path(p, nodes) && p[0] == root && p[|p| - 1] == n;
      PathStaysInClosedSet(p, markedStates, nodes);
    }
    return None;
  }

  /** What `findStateHelper` does as written, with the call stack bounded by `depth`:
      `Overflow` stands for running out of stack. */
  datatype SearchOutcome = Overflow | Finished(found: Option<StateExplorerState>)

  ghost function SearchAsWritten(n: StateExplorerState, newState: StateExplorerState,
                                 nodes: set<StateExplorerState>, depth: nat): (r: SearchOutcome)
    requires Closed(nodes) && n in nodes
    reads nodes
    ensures r.Finished? && r.found.Some? ==> r.found.value.Equal(newState)
    decreases depth, 0, 0
  {
    if depth == 0 then Overflow
    else if n.Equal(newState) then Finished(Some(n))
    else SearchFollowersAsWritten(n, newState, nodes, depth - 1, 0)
  }

  ghost function SearchFollowersAsWritten(n: StateExplorerState, newState: StateExplorerState,
                                          nodes: set<StateExplorerState>, depth: nat, k: nat): (r: SearchOutcome)
    requires Closed(nodes) && n in nodes && k <= |n.followingStates|
    reads nodes
    ensures r.Finished? && r.found.Some? ==> r.found.value.Equal(newState)
    decreases depth, 1, |n.followingStates| - k
  {
    if k == |n.followingStates| then Finished(None)
    else
      match SearchAsWritten(n.followingStates[k], newState, nodes, depth)
      case Overflow => Overflow
      case Finished(Some(m)) => Finished(Some(m))
      case Finished(None) => SearchFollowersAsWritten(n, newState, nodes, depth, k + 1)
  }

  /** As written, the search never ends below a node that follows itself and differs
      from the target: whatever the stack depth, it runs out. */
  lemma {:induction false} SelfLoopOverflows(n: StateExplorerState, newState: StateExplorerState, depth: nat)
    requires n.followingStates == [n] && !n.Equal(newState)
    ensures SearchAsWritten(n, newState, {n}, depth) == Overflow
  {
    if depth > 0 {
      SelfLoopOverflows(n, newState, depth - 1);
      assert SearchFollowersAsWritten(n, newState, {n}, depth - 1, 0) == Overflow;
    }
  }

  /** The graph: its root node, once one has been found. */
  class StateExplorerStateGraph {
    var rootState: Option<StateExplorerState>

    /** A new graph has no root. */
    constructor()
      ensures rootState.None?
    {
      rootState := None;
    }

    /** `findState`: on an empty graph the node becomes the root and is returned;
        otherwise a node reachable from the root and equal to it is returned, or the
        node itself when there is none. The root never changes once set. `nodes` is any
        finite set of nodes holding the root and closed under following. */
    method FindState(newState: StateExplorerState, ghost nodes: set<StateExplorerState>)
      returns (found: StateExplorerState)
      requires rootState.Some? ==> Closed(nodes) && rootState.value in nodes
      modifies this
      ensures old(rootState).None? ==> rootState == Some(newState) && found == newState
      ensures old(rootState).Some? ==> rootState == old(rootState)
      ensures old(rootState).Some? ==>
                (Reachable(rootState.value, found, nodes) <==>
                   exists n :: Reachable(rootState.value, n, nodes) && n.Equal(newState))
      ensures old(rootState).Some? && !Reachable(rootState.value, found, nodes) ==> found == newState
      ensures found.Equal(newState)
    {
      if rootState.None? {
        rootState := Some(newState);
        return newState;
      }
      var foundState := FindStateMarked(rootState.value, newState, nodes);
      if foundState.None? {
        return newState;
      }
      return foundState.value;
    }
  }

  /** `findStateHelper`: the node itself when it is equal to the target, else the first
      hit among its followers' searches, in order. */
  method FindStateHelper(currentState: StateExplorerState, newState: StateExplorerState,
                         ghost nodes: set<StateExplorerState>, ghost rank: map<StateExplorerState, nat>)
    returns (found: Option<StateExplorerState>)
    requires Ranked(nodes, rank) && currentState in nodes
    ensures found == FirstEqual(PreOrder(currentState, nodes, rank), newState)
    decreases rank[currentState]
  {
    FirstEqualConcat([currentState], FollowersOrder(currentState, nodes, rank, 0), newState);
    if currentState.Equal(newState) {
      return Some(currentState);
    }
    var children := currentState.followingStates;
    for i := 0 to |children|
      invariant FirstEqual(FollowersOrder(currentState, nodes, rank, i), newState)
                == FirstEqual(PreOrder(currentState, nodes, rank), newState)
    {
      var childFound := FindStateHelper(children[i], newState, nodes, rank);
      FirstEqualConcat(PreOrder(children[i], nodes, rank), FollowersOrder(currentState, nodes, rank, i + 1), newState);
      if childFound.Some? {
        return childFound;
      }
    }
    return None;
  }

  /** The unit scenario: the first node found becomes the root; a node built from the
      same states and actions in another order finds the root, twice; a node with other
      states and actions finds itself, and the root stays. */
  method FindStateScenario() returns (first: StateExplorerState, second: StateExplorerState, third: StateExplorerState,
                                      found: seq<StateExplorerState>)
    ensures found == [first, first, first, third]
    ensures first.Equal(second) && second.Equal(first) && !first.Equal(third) && !third.Equal(first)
  {
    var click1 := Action(Click(IdIdentifier("id1", None)), false);
    var click2 := Action(Click(IdIdentifier("id2", None)), false);
    var click3 := Action(Click(IdIdentifier("id3", None)), false);
    first := new StateExplorerState([CountOfElementsState(1), CountOfElementsState(2)], [click1, click2]);
    second := new StateExplorerState([CountOfElementsState(2), CountOfElementsState(1)], [click2, click1]);
    third := new StateExplorerState([CountOfElementsState(1), CountOfElementsState(3)], [click1, click3]);
    assert first.states == second.states && first.actions == second.actions;
    assert CountOfElementsState(2) in first.states && CountOfElementsState(2) !in third.states;
    var graph := new StateExplorerStateGraph();
    var f1 := graph.FindState(first, {});
    var nodes := {first};
    assert Closed(nodes);
    ReachableSelf(first, nodes);
    var f2 := graph.FindState(second, nodes);
    RootFound(first, second, f2, nodes);
    var f3 := graph.FindState(second, nodes);
    RootFound(first, second, f3, nodes);
    var f4 := graph.FindState(third, nodes);
    OnlyRootReachable(first, nodes);
    found := [f1, f2, f3, f4];
  }

  /** In a graph of one node, that node is all that can be reached. */
  lemma OnlyRootReachable(root: StateExplorerState, nodes: set<StateExplorerState>)
    requires nodes == {root}
    ensures forall n :: Reachable(root, n, nodes) ==> n == root
  {
    forall n | Reachable(root, n, nodes) ensures n == root {
      var p :| Path(p, nodes) && p[0] == root && p[|p| - 1] == n;
      assert p[|p| - 1] in nodes;
    }
  }

  /** In a graph of one node equal to the target, an answer that is reachable exactly
      when an equal node is reachable is the root. */
  lemma RootFound(root: StateExplorerState, target: StateExplorerState, found: StateExplorerState,
                  nodes: set<StateExplorerState>)
    requires nodes == {root} && root.Equal(target)
    requires Reachable(root, found, nodes) <==> exists n :: Reachable(root, n, nodes) && n.Equal(target)
    ensures found == root
  {
    ReachableSelf(root, nodes);
    OnlyRootReachable(root, nodes);
  }
}
