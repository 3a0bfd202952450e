/**
  Cycle detection over the prerequisite edges (detectCycle.js): a depth-first
  search with a `visited` set and a recursion stack, started from every listed
  node in order. The editor imports the same function under the name
  `hasCycle`.

  The search is modelled as functions that thread the `visited` set through
  the recursion. The recursion stack is an argument: every call that returns
  `false` has removed its own id again, so the caller's stack is unchanged.
 */
module DetectCycle {
  import opened Graph

  /** Some listed node reaches an id that lies on a cycle. */
  ghost predicate CycleReachable(nodes: seq<Node>, edges: seq<Edge>)
  {
    exists k, x :: 0 <= k < |nodes| && ReachesOrSame(edges, nodes[k].id, x) && Reaches(edges, x, x)
  }

  /**
    What a search that has not found a cycle knows about the finished ids
    (visited but no longer on the stack): they are closed under successors
    and none of them lies on a cycle.
   */
  ghost predicate Finished(edges: seq<Edge>, visited: set<Id>, stack: set<Id>)
  {
    && ClosedForward(edges, visited - stack)
    && forall x :: x in visited - stack ==> !Reaches(edges, x, x)
  }

  /**
    The `for (const neighbor of neighbors)` loop of `dfs(u)`, from the
    `i`-th neighbour on. Returns whether a cycle was found and the visited
    set afterwards.
   */
  function Visit(edges: seq<Edge>, u: Id, i: nat, visited: set<Id>, stack: set<Id>): (r: (bool, set<Id>))
    requires i <= |Targets(u, edges)|
    requires u in stack && stack <= visited
    requires forall s :: s in stack ==> ReachesOrSame(edges, s, u)
    requires Finished(edges, visited, stack)
    requires forall j :: 0 <= j < i ==> Targets(u, edges)[j] in visited - stack
    ensures visited <= r.1
    ensures r.0 ==> exists x :: Reaches(edges, x, x) && (x in stack || Reaches(edges, u, x))
    ensures !r.0 ==> Finished(edges, r.1, stack)
    ensures !r.0 ==> forall v :: Edge(u, v) in edges ==> v in r.1 - stack
    decreases EdgeIds(edges) - visited, |Targets(u, edges)| - i
  {
    var ns := Targets(u, edges);
    if i == |ns| then
      (false, visited)
    else
      var v := ns[i];
      assert Edge(u, v) in edges;
      assert Edge(u, v).target in EdgeIds(edges);
      if v !in visited then
        ForwardStack(edges, stack, u, v);
        assert (visited + {v}) - (stack + {v}) == visited - stack;
        var (found, after) := Visit(edges, v, 0, visited + {v}, stack + {v});
        if found then
          LiftCycle(edges, stack, u, v);
          (true, after)
        else
          FinishChild(edges, after, stack, v);
          Visit(edges, u, i + 1, after, stack)
      else if v in stack then
        ReachesThenEdge(edges, v, u, v);
        (true, visited)
      else
        Visit(edges, u, i + 1, visited, stack)
  }

  /** `dfs(root)` on an unvisited root with an empty stack. */
  function Dfs(edges: seq<Edge>, root: Id, visited: set<Id>): (r: (bool, set<Id>))
    requires root !in visited
    requires Finished(edges, visited, {})
    ensures visited + {root} <= r.1
    ensures r.0 ==> exists x :: Reaches(edges, x, x) && ReachesOrSame(edges, root, x)
    ensures !r.0 ==> Finished(edges, r.1, {})
  {
    assert (visited + {root}) - {root} == visited - {};
    var (found, after) := Visit(edges, root, 0, visited + {root}, {root});
    if !found then FinishChild(edges, after, {}, root); (found, after) else (found, after)
  }

  /** The outer `for (const node of graph.nodes)` loop, from the `k`-th node on. */
  function Roots(nodes: seq<Node>, edges: seq<Edge>, k: nat, visited: set<Id>): (r: bool)
    requires k <= |nodes|
    requires Finished(edges, visited, {})
    requires forall j :: 0 <= j < k ==> nodes[j].id in visited
    ensures r <==> CycleReachable(nodes, edges)
    decreases |nodes| - k
  {
    if k == |nodes| then
      NoReachableCycle(nodes, edges, visited);
      false
    else
      var id := nodes[k].id;
      if id in visited then
        Roots(nodes, edges, k + 1, visited)
      else
        var (found, after) := Dfs(edges, id, visited);
        if found then
          true
        else
          Roots(nodes, edges, k + 1, after)
  }

  /**
    `detectCycle(graph)`: true exactly when some directed cycle is reachable
    from a listed node. Only `graph.nodes` seeds the search, so a cycle among
    ids that no listed node reaches is not reported.
   */
  function HasCycle(nodes: seq<Node>, edges: seq<Edge>): (r: bool)
    ensures r <==> CycleReachable(nodes, edges)
  {
    Roots(nodes, edges, 0, {})
  }

  // ---------------------------------------------------------------------
  // Proof steps of the search

  /** Pushing a successor keeps every stack entry a predecessor of the top. */
  lemma ForwardStack(edges: seq<Edge>, stack: set<Id>, u: Id, v: Id)
    requires Edge(u, v) in edges
    requires forall s :: s in stack ==> ReachesOrSame(edges, s, u)
    ensures forall s :: s in stack + {v} ==> ReachesOrSame(edges, s, v)
  {
    forall s | s in stack
      ensures Reaches(edges, s, v)
    {
      ReachesThenEdge(edges, s, u, v);
    }
  }

  /** A cycle found below child `v` of `u` is on the stack or reachable from `u`. */
  lemma LiftCycle(edges: seq<Edge>, stack: set<Id>, u: Id, v: Id)
    requires Edge(u, v) in edges
    requires exists x :: Reaches(edges, x, x) && (x in stack + {v} || Reaches(edges, v, x))
    ensures exists x :: Reaches(edges, x, x) && (x in stack || Reaches(edges, u, x))
  {
    var x :| Reaches(edges, x, x) && (x in stack + {v} || Reaches(edges, v, x));
    if x !in stack {
      EdgeThenReaches(edges, u, v, x);
    }
  }

  /**
    When `dfs(v)` returns false, `v` leaves the stack. All successors of `v`
    are finished, so `v` cannot reach itself: the first edge of such a path
    would lead into the finished set, which is closed and does not hold `v`.
   */
  lemma FinishChild(edges: seq<Edge>, visited: set<Id>, stack: set<Id>, v: Id)
    requires v in visited && v !in stack
    requires Finished(edges, visited, stack + {v})
    requires forall w :: Edge(v, w) in edges ==> w in visited - (stack + {v})
    ensures Finished(edges, visited, stack)
  {
    var done := visited - (stack + {v});
    assert visited - stack == done + {v};
    if Reaches(edges, v, v) {
      var w := ReachesFirstEdge(edges, v, v);
      if w != v {
        ClosedForwardReach(edges, done, w, v);
      }
      assert false;
    }
  }

  /** Once every listed node is finished, no cycle is reachable from any of them. */
  lemma NoReachableCycle(nodes: seq<Node>, edges: seq<Edge>, visited: set<Id>)
    requires Finished(edges, visited, {})
    requires forall j :: 0 <= j < |nodes| ==> nodes[j].id in visited
    ensures !CycleReachable(nodes, edges)
  {
    assert visited - {} == visited;
    if CycleReachable(nodes, edges) {
      var k, x :| 0 <= k < |nodes| && ReachesOrSame(edges, nodes[k].id, x) && Reaches(edges, x, x);
      if nodes[k].id != x {
        ClosedForwardReach(edges, visited, nodes[k].id, x);
      }
      assert false;
    }
  }

  // ---------------------------------------------------------------------
  // Properties of detectCycle

  /** With no edges there is nothing to follow, so no cycle is reported. */
  lemma NoEdgesNoCycle(nodes: seq<Node>)
    ensures !HasCycle(nodes, [])
  {
    forall x
      ensures !Reaches([], x, x)
    {
      NoEdgesNoReach(x, x);
    }
  }

  /** A self-loop on a listed node is always reported. */
  lemma SelfLoopDetected(nodes: seq<Node>, edges: seq<Edge>, k: nat)
    requires k < |nodes| && Edge(nodes[k].id, nodes[k].id) in edges
    ensures HasCycle(nodes, edges)
  {
    ReachesByEdge(edges, nodes[k].id, nodes[k].id);
  }

  /** A `true` answer always stands for a real directed cycle in the edges. */
  lemma DetectedCycleIsReal(nodes: seq<Node>, edges: seq<Edge>)
    requires HasCycle(nodes, edges)
    ensures !Acyclic(edges)
  {
    var k, x :| 0 <= k < |nodes| && ReachesOrSame(edges, nodes[k].id, x) && Reaches(edges, x, x);
  }

  /** Reordering edges or adding parallel copies never changes the answer. */
  lemma SameEdgeSetSameAnswer(nodes: seq<Node>, e1: seq<Edge>, e2: seq<Edge>)
    requires forall e :: e in e1 <==> e in e2
    ensures HasCycle(nodes, e1) == HasCycle(nodes, e2)
  {
    forall a, b
      ensures Reaches(e1, a, b) <==> Reaches(e2, a, b)
    {
      SameEdgeSetSameReach(e1, e2, a, b);
    }
  }

  /** Appending a copy of an edge that is already present changes nothing. */
  lemma ParallelEdgeIrrelevant(nodes: seq<Node>, edges: seq<Edge>, e: Edge)
    requires e in edges
    ensures HasCycle(nodes, edges + [e]) == HasCycle(nodes, edges)
  {
    SameEdgeSetSameAnswer(nodes, edges + [e], edges);
  }

  /**
    When every edge starts at a listed node, "no cycle reachable from the
    listed nodes" is the same as "no cycle at all".
   */
  lemma ListedSourcesAcyclic(nodes: seq<Node>, edges: seq<Edge>)
    requires forall e :: e in edges ==> e.source in NodeIds(nodes)
    ensures !HasCycle(nodes, edges) <==> Acyclic(edges)
  {
    if !Acyclic(edges) {
      var x :| Reaches(edges, x, x);
      var w := ReachesFirstEdge(edges, x, x);
      assert Edge(x, w).source in NodeIds(nodes);
      var k :| 0 <= k < |nodes| && nodes[k].id == x;
    }
  }
}
