/**
  The graph-editing handlers of the skill builder (SkillBuilder.jsx), each a
  pure transition from the editor state to the next state plus the signal
  the handler would toast.

  The editor state holds the in-memory node and edge lists, the copies last
  written to local storage, and the search term. React state setters,
  toasts, focus handling and the particle effect are not part of it.
 */
module SkillBuilder {
  import opened Graph
  import opened DetectCycle

  /** The toast a handler raises, or `Silent` when it raises none. */
  datatype Signal = Silent | SkillUnlocked | SkillLocked | BlockedPrerequisites | BlockedCycle | ResetComplete

  datatype Editor = Editor(
    nodes: seq<Node>,
    edges: seq<Edge>,
    storedNodes: seq<Node>,
    storedEdges: seq<Edge>,
    searchTerm: string)

  datatype Transition = Transition(next: Editor, signal: Signal)

  // ---------------------------------------------------------------------
  // Invariants of the editor

  /** Every edge starts at a listed node (connections are drawn between nodes on the canvas). */
  ghost predicate SourcesListed(s: Editor)
  {
    forall e :: e in s.edges ==> e.source in NodeIds(s.nodes)
  }

  /** The structural invariant: listed sources and no directed cycle. */
  ghost predicate WellFormed(s: Editor)
  {
    SourcesListed(s) && Acyclic(s.edges)
  }

  /** `nodes.find(n => n.id === id)?.data.completed`: a missing node counts as not completed. */
  function IsCompleted(nodes: seq<Node>, id: Id): (r: bool)
    ensures r <==> exists k :: 0 <= k < |nodes| && nodes[k].id == id && nodes[k].completed
                             && forall j :: 0 <= j < k ==> nodes[j].id != id
  {
    match FindNode(nodes, id)
    case None => false
    case Some(n) => n.completed
  }

  /** No completed node has a prerequisite that is not completed. */
  ghost predicate PrerequisitesHonoured(nodes: seq<Node>, edges: seq<Edge>)
  {
    forall a, b :: Edge(a, b) in edges && IsCompleted(nodes, b) ==> IsCompleted(nodes, a)
  }

  // ---------------------------------------------------------------------
  // handleConnect

  /**
    `handleConnect`: append the edge (`addEdge`), and keep the result only
    when the candidate graph has no cycle; then it is also written to
    storage. A self-connection is rejected by the same cycle test.
   */
  function Connect(s: Editor, source: Id, target: Id): (r: Transition)
    ensures r.signal == BlockedCycle || r.signal == Silent
    ensures r.signal == BlockedCycle <==> CycleReachable(s.nodes, s.edges + [Edge(source, target)])
    ensures r.signal == BlockedCycle ==> r.next == s
    ensures r.signal == Silent ==>
              && r.next.edges == s.edges + [Edge(source, target)]
              && r.next.storedEdges == r.next.edges
              && r.next == s.(edges := r.next.edges, storedEdges := r.next.edges)
  {
    var candidate := s.edges + [Edge(source, target)];
    if HasCycle(s.nodes, candidate) then
      Transition(s, BlockedCycle)
    else
      Transition(s.(edges := candidate, storedEdges := candidate), Silent)
  }

  /** Connecting a listed node to itself is always rejected. */
  lemma ConnectRejectsSelfLoop(s: Editor, k: nat)
    requires k < |s.nodes|
    ensures Connect(s, s.nodes[k].id, s.nodes[k].id) == Transition(s, BlockedCycle)
  {
    var id := s.nodes[k].id;
    assert Edge(id, id) in s.edges + [Edge(id, id)];
    SelfLoopDetected(s.nodes, s.edges + [Edge(id, id)], k);
  }

  /** Paths in `edges + [a -> b]` either avoid the new edge or pass through it. */
  lemma {:induction false} SplitPath(edges: seq<Edge>, a: Id, b: Id, p: seq<Id>)
    requires IsPath(edges + [Edge(a, b)], p)
    ensures || Reaches(edges, p[0], p[|p| - 1])
            || (ReachesOrSame(edges, p[0], a) && ReachesOrSame(edges, b, p[|p| - 1]))
    decreases |p|
  {
    var n := |p|;
    var y, z := p[n - 2], p[n - 1];
    assert Edge(p[n - 2], p[n - 1]) in edges + [Edge(a, b)];
    if n == 2 {
      if Edge(y, z) in edges {
        ReachesByEdge(edges, y, z);
      }
    } else {
      var q := p[..n - 1];
      assert IsPath(edges + [Edge(a, b)], q);
      SplitPath(edges, a, b, q);
      if Edge(y, z) in edges {
        if Reaches(edges, p[0], y) {
          ReachesThenEdge(edges, p[0], y, z);
        } else {
          ReachesThenEdge(edges, b, y, z);
        }
      }
    }
  }

  /**
    On a well-formed editor, connecting `source -> target` from a listed
    source is rejected exactly when `target` already reaches `source` (or
    is `source`): the new edge would close that path into a cycle.
   */
  lemma ConnectRejectsIffBackPath(s: Editor, source: Id, target: Id)
    requires WellFormed(s) && source in NodeIds(s.nodes)
    ensures Connect(s, source, target).signal == BlockedCycle <==> ReachesOrSame(s.edges, target, source)
  {
    var candidate := s.edges + [Edge(source, target)];
    forall e | e in candidate
      ensures e.source in NodeIds(s.nodes)
    {
    }
    ListedSourcesAcyclic(s.nodes, candidate);
    if ReachesOrSame(s.edges, target, source) {
      assert Edge(source, target) in candidate;
      if target != source {
        var p :| IsPath(s.edges, p) && p[0] == target && p[|p| - 1] == source;
        assert IsPath(candidate, p);
      }
      EdgeThenReaches(candidate, source, target, source);
    }
    if !Acyclic(candidate) {
      var x :| Reaches(candidate, x, x);
      var p :| IsPath(candidate, p) && p[0] == x && p[|p| - 1] == x;
      SplitPath(s.edges, source, target, p);
      assert !Reaches(s.edges, x, x);
      if x != target && x != source {
        ReachesTrans(s.edges, target, x, source);
      } else if x == target && x != source {
        assert Reaches(s.edges, target, source);
      }
    }
  }

  /** An accepted or rejected connection from a listed source keeps the editor well-formed. */
  lemma ConnectKeepsWellFormed(s: Editor, source: Id, target: Id)
    requires WellFormed(s) && source in NodeIds(s.nodes)
    ensures WellFormed(Connect(s, source, target).next)
  {
    var candidate := s.edges + [Edge(source, target)];
    forall e | e in candidate
      ensures e.source in NodeIds(s.nodes)
    {
    }
    ListedSourcesAcyclic(s.nodes, candidate);
  }

  /**
    Connecting ignores completion: a completed node can gain a prerequisite
    that is not completed, so the prerequisite rule only guards unlocking.
   */
  lemma ConnectIgnoresCompletion()
    ensures var s := Editor([Node("a", "A", "", 0, false), Node("b", "B", "", 0, true)], [], [], [], "");
            && PrerequisitesHonoured(s.nodes, s.edges)
            && Connect(s, "a", "b").signal == Silent
            && !PrerequisitesHonoured(Connect(s, "a", "b").next.nodes, Connect(s, "a", "b").next.edges)
  {
    var s := Editor([Node("a", "A", "", 0, false), Node("b", "B", "", 0, true)], [], [], [], "");
    var r := Connect(s, "a", "b");
    forall x
      ensures !Reaches(s.edges, x, x)
    {
      NoEdgesNoReach(x, x);
    }
    NoEdgesNoReach("b", "a");
    ConnectRejectsIffBackPath(s, "a", "b");
    assert FindNode(s.nodes, "a") == Some(s.nodes[0]);
    assert FindNode(s.nodes, "b") == Some(s.nodes[1]);
    assert Edge("a", "b") in r.next.edges;
  }

  // ---------------------------------------------------------------------
  // handleNodeToggle

  /** Every node carrying `id` gets `completed := done`; the rest are unchanged. */
  function SetCompleted(nodes: seq<Node>, id: Id, done: bool): (r: seq<Node>)
    ensures SameIds(nodes, r)
    ensures forall k :: 0 <= k < |nodes| ==>
              r[k].completed == (if nodes[k].id == id then done else nodes[k].completed)
    ensures forall k :: 0 <= k < |nodes| ==> r[k] == nodes[k].(completed := r[k].completed)
  {
    seq(|nodes|, k requires 0 <= k < |nodes| =>
      if nodes[k].id == id then nodes[k].(completed := done) else nodes[k])
  }

  /**
    After setting the flag of `id`, a lookup of `id` sees the new flag when
    `id` is listed; every other id keeps the completion state it had.
   */
  lemma {:induction false} IsCompletedAfterSet(nodes: seq<Node>, id: Id, done: bool, y: Id)
    ensures IsCompleted(SetCompleted(nodes, id, done), y) ==
              if y == id then done && id in NodeIds(nodes) else IsCompleted(nodes, y)
  {
    var r := SetCompleted(nodes, id, done);
    FirstIndexSameIds(r, nodes, y);
  }

  /** No id reachable from `id` (nor `id` itself) lies on a cycle. */
  ghost predicate NoCycleBelow(edges: seq<Edge>, id: Id)
  {
    forall x :: ReachesOrSame(edges, id, x) ==> !Reaches(edges, x, x)
  }

  /** Ids reachable from `id`; the lock cascade shrinks it on every level. */
  ghost function Descendants(edges: seq<Edge>, id: Id): set<Id>
  {
    set y | y in EdgeIds(edges) && Reaches(edges, id, y)
  }

  /** Some id of `ds` reaches `y` or is `y`. */
  ghost predicate AnyReaches(edges: seq<Edge>, ds: seq<Id>, y: Id)
    decreases |ds|
  {
    |ds| > 0 && (ReachesOrSame(edges, ds[0], y) || AnyReaches(edges, ds[1..], y))
  }

  /**
    The recursive `toggleNode(id, nodesToUpdate)`: lock `id`, then lock each
    dependent in turn. It has no visited set, so it is only defined when
    no cycle is reachable from `id`; a cycle elsewhere does not matter. Result: exactly the nodes reachable from `id` (and `id`
    itself) are locked; every other node is unchanged.
   */
  function ToggleNode(edges: seq<Edge>, id: Id, nodes: seq<Node>): (r: seq<Node>)
    requires NoCycleBelow(edges, id)
    ensures |r| == |nodes|
    ensures forall k :: 0 <= k < |nodes| ==>
              r[k] == if ReachesOrSame(edges, id, nodes[k].id) then nodes[k].(completed := false) else nodes[k]
    decreases Descendants(edges, id), 1
  {
    var locked := SetCompleted(nodes, id, false);
    var r := LockDependents(edges, id, 0, locked);
    DependentsCoverDescendants(edges, id);
    r
  }

  /** The `for (const depId of dependents)` loop of `toggleNode`, from the `i`-th dependent on. */
  function LockDependents(edges: seq<Edge>, id: Id, i: nat, nodes: seq<Node>): (r: seq<Node>)
    requires NoCycleBelow(edges, id)
    requires i <= |Targets(id, edges)|
    ensures |r| == |nodes|
    ensures forall k :: 0 <= k < |nodes| ==>
              r[k] == if AnyReaches(edges, Targets(id, edges)[i..], nodes[k].id)
                      then nodes[k].(completed := false) else nodes[k]
    decreases Descendants(edges, id), 0, |Targets(id, edges)| - i
  {
    var ds := Targets(id, edges);
    if i == |ds| then
      nodes
    else
      DescendantsShrink(edges, id, ds[i]);
      NoCycleBelowDependent(edges, id, ds[i]);
      var once := ToggleNode(edges, ds[i], nodes);
      var r := LockDependents(edges, id, i + 1, once);
      assert ds[i..][0] == ds[i] && ds[i..][1..] == ds[i + 1..];
      r
  }

  /** Without a cycle below `id`, a dependent of `id` has strictly fewer descendants. */
  lemma DescendantsShrink(edges: seq<Edge>, id: Id, d: Id)
    requires NoCycleBelow(edges, id) && Edge(id, d) in edges
    ensures Descendants(edges, d) < Descendants(edges, id)
  {
    ReachesByEdge(edges, id, d);
    assert Edge(id, d).target in EdgeIds(edges);
    forall y | y in Descendants(edges, d)
      ensures y in Descendants(edges, id)
    {
      ReachesTrans(edges, id, d, y);
    }
    assert d in Descendants(edges, id);
    assert d !in Descendants(edges, d);
  }

  /** No cycle below `id` means no cycle below any of its dependents. */
  lemma NoCycleBelowDependent(edges: seq<Edge>, id: Id, d: Id)
    requires NoCycleBelow(edges, id) && Edge(id, d) in edges
    ensures NoCycleBelow(edges, d)
  {
    forall x | ReachesOrSame(edges, d, x)
      ensures ReachesOrSame(edges, id, x)
    {
      EdgeThenReaches(edges, id, d, x);
    }
  }

  /** `AnyReaches` over a list is reachability from one of its members. */
  lemma {:induction false} AnyReachesMember(edges: seq<Edge>, ds: seq<Id>, y: Id)
    ensures AnyReaches(edges, ds, y) <==> exists d :: d in ds && ReachesOrSame(edges, d, y)
    decreases |ds|
  {
    if ds != [] {
      AnyReachesMember(edges, ds[1..], y);
      assert ds == [ds[0]] + ds[1..];
    }
  }

  /** Reaching `y` from `id` means reaching it from (or being) one of the dependents of `id`. */
  lemma DependentsCoverDescendants(edges: seq<Edge>, id: Id)
    ensures forall y :: Reaches(edges, id, y) <==> AnyReaches(edges, Targets(id, edges), y)
  {
    var ds := Targets(id, edges);
    forall y
      ensures Reaches(edges, id, y) <==> AnyReaches(edges, ds, y)
    {
      AnyReachesMember(edges, ds, y);
      if Reaches(edges, id, y) {
        var d := ReachesFirstEdge(edges, id, y);
        assert d in ds;
      }
      if AnyReaches(edges, ds, y) {
        var d :| d in ds && ReachesOrSame(edges, d, y);
        EdgeThenReaches(edges, id, d, y);
      }
    }
  }

  /** `allPrerequisitesComplete`: every source of an edge into `id` is a completed node. */
  function PrerequisitesComplete(nodes: seq<Node>, edges: seq<Edge>, id: Id): (r: bool)
    ensures r <==> forall y :: Edge(y, id) in edges ==> IsCompleted(nodes, y)
  {
    forall p | p in Sources(id, edges) :: IsCompleted(nodes, p)
  }

  /**
    `handleNodeToggle(event, node)`. A completed node is locked together
    with everything reachable from it. A locked node is unlocked only when
    all its prerequisites are completed; otherwise nothing changes. The
    edges, the stored lists and the search term are never touched.
   */
  function Toggle(s: Editor, node: Node): (r: Transition)
    requires node.completed ==> NoCycleBelow(s.edges, node.id)
    ensures r.next == s.(nodes := r.next.nodes)
    ensures |r.next.nodes| == |s.nodes|
    ensures node.completed ==>
              && r.signal == SkillLocked
              && forall k :: 0 <= k < |s.nodes| ==>
                   r.next.nodes[k] == if ReachesOrSame(s.edges, node.id, s.nodes[k].id)
                                      then s.nodes[k].(completed := false) else s.nodes[k]
    ensures !node.completed ==>
              (r.signal == SkillUnlocked <==> forall y :: Edge(y, node.id) in s.edges ==> IsCompleted(s.nodes, y))
    ensures !node.completed && r.signal == SkillUnlocked ==>
              forall k :: 0 <= k < |s.nodes| ==>
                r.next.nodes[k] == if s.nodes[k].id == node.id then s.nodes[k].(completed := true) else s.nodes[k]
    ensures !node.completed && r.signal != SkillUnlocked ==> r == Transition(s, BlockedPrerequisites)
  {
    if node.completed then
      Transition(s.(nodes := ToggleNode(s.edges, node.id, s.nodes)), SkillLocked)
    else if PrerequisitesComplete(s.nodes, s.edges, node.id) then
      Transition(s.(nodes := SetCompleted(s.nodes, node.id, true)), SkillUnlocked)
    else
      Transition(s, BlockedPrerequisites)
  }

  /** A locked node with no incoming edge can always be unlocked. */
  lemma UnlockWithoutPrerequisites(s: Editor, node: Node)
    requires !node.completed
    requires forall e :: e in s.edges ==> e.target != node.id
    ensures Toggle(s, node).signal == SkillUnlocked
  {
    forall y
      ensures Edge(y, node.id) !in s.edges
    {
      assert Edge(y, node.id).target == node.id;
    }
  }

  /** A prerequisite that names no listed node blocks the unlock. */
  lemma MissingPrerequisiteBlocks(s: Editor, node: Node, y: Id)
    requires !node.completed
    requires Edge(y, node.id) in s.edges && y !in NodeIds(s.nodes)
    ensures Toggle(s, node) == Transition(s, BlockedPrerequisites)
  {
    forall k | 0 <= k < |s.nodes|
      ensures s.nodes[k].id != y
    {
      assert s.nodes[k] in s.nodes;
    }
  }

  /** Id-preserving updates leave the set of listed ids alone. */
  lemma SameIdsSameNodeIds(a: seq<Node>, b: seq<Node>)
    requires SameIds(a, b)
    ensures NodeIds(a) == NodeIds(b)
  {
    forall id | id in NodeIds(a)
      ensures id in NodeIds(b)
    {
      var n :| n in a && n.id == id;
      var k :| 0 <= k < |a| && a[k] == n;
      assert b[k] in b;
    }
    forall id | id in NodeIds(b)
      ensures id in NodeIds(a)
    {
      var n :| n in b && n.id == id;
      var k :| 0 <= k < |b| && b[k] == n;
      assert a[k] in a;
    }
  }

  /** Toggling keeps the editor well-formed: it only rewrites completion flags. */
  lemma ToggleKeepsWellFormed(s: Editor, node: Node)
    requires WellFormed(s)
    ensures WellFormed(Toggle(s, node).next)
  {
    var r := Toggle(s, node);
    assert SameIds(s.nodes, r.next.nodes);
    SameIdsSameNodeIds(s.nodes, r.next.nodes);
  }

  /**
    Unlocking behind completed prerequisites and locking with the full
    cascade both keep every completed node's prerequisites completed.
   */
  lemma ToggleHonoursPrerequisites(s: Editor, node: Node)
    requires node.completed ==> NoCycleBelow(s.edges, node.id)
    requires PrerequisitesHonoured(s.nodes, s.edges)
    ensures PrerequisitesHonoured(Toggle(s, node).next.nodes, s.edges)
  {
    var r := Toggle(s, node);
    var ns, ns' := s.nodes, r.next.nodes;
    assert SameIds(ns, ns');
    forall y
      ensures FirstIndex(ns', y) == FirstIndex(ns, y)
    {
      FirstIndexSameIds(ns', ns, y);
    }
    if node.completed {
      forall a, b | Edge(a, b) in s.edges && IsCompleted(ns', b)
        ensures IsCompleted(ns', a)
      {
        assert IsCompleted(ns, b) && !ReachesOrSame(s.edges, node.id, b);
        if ReachesOrSame(s.edges, node.id, a) {
          ReachesThenEdge(s.edges, node.id, a, b);
        }
      }
    } else if r.signal == SkillUnlocked {
      forall a, b | Edge(a, b) in s.edges && IsCompleted(ns', b)
        ensures IsCompleted(ns', a)
      {
        if a != node.id {
          assert IsCompleted(ns, a);
        }
      }
    }
  }

  // ---------------------------------------------------------------------
  // handleNodeKeyDown, handleAddNode, handleReset

  /** `handleNodeKeyDown`: Enter and Space toggle the node; every other key is ignored. */
  function KeyDown(s: Editor, key: string, node: Node): (r: Transition)
    requires (key == "Enter" || key == " ") && node.completed ==> NoCycleBelow(s.edges, node.id)
    ensures key != "Enter" && key != " " ==> r == Transition(s, Silent)
    ensures key == "Enter" || key == " " ==> r == Toggle(s, node)
  {
    if key == "Enter" || key == " " then Toggle(s, node) else Transition(s, Silent)
  }

  /**
    `handleAddNode`: append a node with the given id (the caller supplies a
    fresh one) that starts locked. Only the in-memory list changes.
   */
  function AddNode(s: Editor, id: Id, name: string, description: string, cost: int): (r: Transition)
    ensures r.signal == Silent
    ensures |r.next.nodes| == |s.nodes| + 1 && r.next.nodes[..|s.nodes|] == s.nodes
    ensures r.next.nodes[|s.nodes|] == Node(id, name, description, cost, false)
    ensures r.next == s.(nodes := r.next.nodes)
  {
    Transition(s.(nodes := s.nodes + [Node(id, name, description, cost, false)]), Silent)
  }

  /** Adding a node keeps the editor well-formed. */
  lemma AddNodeKeepsWellFormed(s: Editor, id: Id, name: string, description: string, cost: int)
    requires WellFormed(s)
    ensures WellFormed(AddNode(s, id, name, description, cost).next)
  {
    var ns := AddNode(s, id, name, description, cost).next.nodes;
    forall n | n in s.nodes
      ensures n in ns
    {
      var k :| 0 <= k < |s.nodes| && s.nodes[k] == n;
      assert ns[k] == n;
    }
  }

  /** Lookup in a list with one node appended: earlier nodes win. */
  lemma {:induction false} FirstIndexAppend(nodes: seq<Node>, n: Node, id: Id)
    ensures FirstIndex(nodes + [n], id) ==
              if FirstIndex(nodes, id).Some? then FirstIndex(nodes, id)
              else if n.id == id then Some(|nodes|) else None
  {
    if nodes != [] {
      assert (nodes + [n])[1..] == nodes[1..] + [n];
      FirstIndexAppend(nodes[1..], n, id);
    }
  }

  /**
    Adding a locked node keeps every completed node's prerequisites
    completed, whether or not the new id is fresh.
   */
  lemma AddNodeHonoursPrerequisites(s: Editor, id: Id, name: string, description: string, cost: int)
    requires PrerequisitesHonoured(s.nodes, s.edges)
    ensures PrerequisitesHonoured(AddNode(s, id, name, description, cost).next.nodes, s.edges)
  {
    var n := Node(id, name, description, cost, false);
    var ns := AddNode(s, id, name, description, cost).next.nodes;
    assert ns == s.nodes + [n];
    forall y
      ensures IsCompleted(ns, y) == IsCompleted(s.nodes, y)
    {
      FirstIndexAppend(s.nodes, n, y);
    }
  }

  /** `handleReset`: empty both lists, in memory and in storage, and clear the search term. */
  function Reset(s: Editor): (r: Transition)
    ensures r.signal == ResetComplete
    ensures r.next.nodes == [] && r.next.edges == []
    ensures r.next.storedNodes == [] && r.next.storedEdges == []
    ensures r.next.searchTerm == ""
  {
    Transition(Editor([], [], [], [], ""), ResetComplete)
  }

  /** The reset editor is well-formed and trivially honours prerequisites. */
  lemma ResetWellFormed(s: Editor)
    ensures WellFormed(Reset(s).next)
    ensures PrerequisitesHonoured(Reset(s).next.nodes, Reset(s).next.edges)
  {
    forall x
      ensures !Reaches([], x, x)
    {
      NoEdgesNoReach(x, x);
    }
  }
}
