/**
  The data model shared by the dependency-graph engine of the skill-tree
  editor: skill nodes, prerequisite edges `source -> target`, neighbour
  lookups in edge order, and reachability along directed paths.
 */
module Graph {

  /** Node ids are strings in the editor (a timestamp rendered as text). */
  type Id = string

  /** A skill node; `completed` is the lock state (false = locked). */
  datatype Node = Node(id: Id, name: string, description: string, cost: int, completed: bool)

  /** A prerequisite edge: `source` must be completed before `target`. */
  datatype Edge = Edge(source: Id, target: Id)

  datatype Option<T> = None | Some(value: T)

  /** Targets of the edges leaving `u`, in edge order, one entry per edge. */
  function Targets(u: Id, edges: seq<Edge>): (r: seq<Id>)
    ensures forall v :: v in r <==> Edge(u, v) in edges
    ensures |r| <= |edges|
  {
    if edges == [] then []
    else
      var rest := Targets(u, edges[1..]);
      assert edges == [edges[0]] + edges[1..];
      if edges[0].source == u then [edges[0].target] + rest else rest
  }

  /** Sources of the edges entering `v`, in edge order, one entry per edge. */
  function Sources(v: Id, edges: seq<Edge>): (r: seq<Id>)
    ensures forall u :: u in r <==> Edge(u, v) in edges
    ensures |r| <= |edges|
  {
    if edges == [] then []
    else
      var rest := Sources(v, edges[1..]);
      assert edges == [edges[0]] + edges[1..];
      if edges[0].target == v then [edges[0].source] + rest else rest
  }

  /** Every id that occurs as an endpoint of some edge. */
  function EdgeIds(edges: seq<Edge>): set<Id>
  {
    (set e | e in edges :: e.source) + (set e | e in edges :: e.target)
  }

  /** Index of the first node carrying `id`, as `Array.prototype.find` sees it. */
  function FirstIndex(nodes: seq<Node>, id: Id): (r: Option<nat>)
    ensures r.None? <==> forall k :: 0 <= k < |nodes| ==> nodes[k].id != id
    ensures r.Some? ==> r.value < |nodes| && nodes[r.value].id == id
    ensures r.Some? ==> forall k :: 0 <= k < r.value ==> nodes[k].id != id
  {
    if nodes == [] then None
    else if nodes[0].id == id then Some(0)
    else match FirstIndex(nodes[1..], id)
      case None => None
      case Some(k) => Some(k + 1)
  }

  /** The first node carrying `id`, if any. */
  function FindNode(nodes: seq<Node>, id: Id): (r: Option<Node>)
    ensures r.None? <==> id !in NodeIds(nodes)
    ensures r.Some? ==> exists k :: 0 <= k < |nodes| && nodes[k] == r.value && r.value.id == id
                                  && forall j :: 0 <= j < k ==> nodes[j].id != id
  {
    match FirstIndex(nodes, id)
    case None => None
    case Some(k) => Some(nodes[k])
  }

  /** The ids of the listed nodes. */
  function NodeIds(nodes: seq<Node>): set<Id>
  {
    set n | n in nodes :: n.id
  }

  /** Two node lists that agree on the id at every position. */
  ghost predicate SameIds(a: seq<Node>, b: seq<Node>)
  {
    |a| == |b| && forall k :: 0 <= k < |a| ==> a[k].id == b[k].id
  }

  /** Lookup by id only looks at ids, so it commutes with id-preserving updates. */
  lemma {:induction false} FirstIndexSameIds(a: seq<Node>, b: seq<Node>, id: Id)
    requires SameIds(a, b)
    ensures FirstIndex(a, id) == FirstIndex(b, id)
  {
    if a != [] && a[0].id != id {
      assert SameIds(a[1..], b[1..]);
      FirstIndexSameIds(a[1..], b[1..], id);
    }
  }

  // ---------------------------------------------------------------------
  // Reachability

  /** A directed path of at least one edge. */
  ghost predicate IsPath(edges: seq<Edge>, p: seq<Id>)
  {
    |p| >= 2 && forall k :: 0 <= k < |p| - 1 ==> Edge(p[k], p[k + 1]) in edges
  }

  /** `b` can be reached from `a` along at least one edge. */
  ghost predicate Reaches(edges: seq<Edge>, a: Id, b: Id)
  {
    exists p :: IsPath(edges, p) && p[0] == a && p[|p| - 1] == b
  }

  /** Reflexive-transitive reachability. */
  ghost predicate ReachesOrSame(edges: seq<Edge>, a: Id, b: Id)
  {
    a == b || Reaches(edges, a, b)
  }

  /** No id reaches itself. */
  ghost predicate Acyclic(edges: seq<Edge>)
  {
    forall x :: !Reaches(edges, x, x)
  }

  /** `b` is closed under successors: every edge leaving `b` lands in `b`. */
  ghost predicate ClosedForward(edges: seq<Edge>, b: set<Id>)
  {
    forall x, y :: x in b && Edge(x, y) in edges ==> y in b
  }

  /** `b` is closed under predecessors: every edge entering `b` starts in `b`. */
  ghost predicate ClosedBackward(edges: seq<Edge>, b: set<Id>)
  {
    forall x, y :: y in b && Edge(x, y) in edges ==> x in b
  }

  lemma ReachesByEdge(edges: seq<Edge>, a: Id, b: Id)
    requires Edge(a, b) in edges
    ensures Reaches(edges, a, b)
  {
    assert IsPath(edges, [a, b]);
  }

  lemma {:induction false} ReachesTrans(edges: seq<Edge>, a: Id, b: Id, c: Id)
    requires Reaches(edges, a, b) && Reaches(edges, b, c)
    ensures Reaches(edges, a, c)
  {
    var p :| IsPath(edges, p) && p[0] == a && p[|p| - 1] == b;
    var q :| IsPath(edges, q) && q[0] == b && q[|q| - 1] == c;
    var pq := p + q[1..];
    forall k | 0 <= k < |pq| - 1
      ensures Edge(pq[k], pq[k + 1]) in edges
    {
      if k < |p| - 1 {
        assert pq[k] == p[k] && pq[k + 1] == p[k + 1];
      } else {
        assert pq[k] == q[k - |p| + 1] && pq[k + 1] == q[k - |p| + 2];
      }
    }
    assert IsPath(edges, pq);
  }

  lemma ReachesThenEdge(edges: seq<Edge>, a: Id, b: Id, c: Id)
    requires ReachesOrSame(edges, a, b) && Edge(b, c) in edges
    ensures Reaches(edges, a, c)
  {
    ReachesByEdge(edges, b, c);
    if a != b {
      ReachesTrans(edges, a, b, c);
    }
  }

  lemma EdgeThenReaches(edges: seq<Edge>, a: Id, b: Id, c: Id)
    requires Edge(a, b) in edges && ReachesOrSame(edges, b, c)
    ensures Reaches(edges, a, c)
  {
    ReachesByEdge(edges, a, b);
    if b != c {
      ReachesTrans(edges, a, b, c);
    }
  }

  /** Every path starts with an edge out of its first id. */
  lemma {:induction false} ReachesFirstEdge(edges: seq<Edge>, a: Id, c: Id) returns (b: Id)
    requires Reaches(edges, a, c)
    ensures Edge(a, b) in edges && ReachesOrSame(edges, b, c)
  {
    var p :| IsPath(edges, p) && p[0] == a && p[|p| - 1] == c;
    b := p[1];
    assert Edge(p[0], p[1]) in edges;
    if |p| > 2 {
      assert IsPath(edges, p[1..]);
    }
  }

  /** Every path ends with an edge into its last id. */
  lemma {:induction false} ReachesLastEdge(edges: seq<Edge>, a: Id, c: Id) returns (b: Id)
    requires Reaches(edges, a, c)
    ensures ReachesOrSame(edges, a, b) && Edge(b, c) in edges
  {
    var p :| IsPath(edges, p) && p[0] == a && p[|p| - 1] == c;
    b := p[|p| - 2];
    assert Edge(p[|p| - 2], p[|p| - 1]) in edges;
    if |p| > 2 {
      assert IsPath(edges, p[..|p| - 1]);
    }
  }

  /** Without edges nothing is reachable. */
  lemma NoEdgesNoReach(a: Id, b: Id)
    ensures !Reaches([], a, b)
  {
    forall p | |p| >= 2
      ensures !IsPath([], p)
    {
      assert Edge(p[0], p[1]) !in [];
    }
  }

  /** A set closed under successors keeps everything reachable from its members. */
  lemma {:induction false} ClosedForwardReach(edges: seq<Edge>, b: set<Id>, x: Id, y: Id)
    requires ClosedForward(edges, b) && x in b && Reaches(edges, x, y)
    ensures y in b
  {
    var p :| IsPath(edges, p) && p[0] == x && p[|p| - 1] == y;
    var k := 0;
    while k < |p| - 1
      invariant 0 <= k <= |p| - 1
      invariant p[k] in b
    {
      assert Edge(p[k], p[k + 1]) in edges;
      k := k + 1;
    }
  }

  /** A set closed under predecessors keeps everything that reaches its members. */
  lemma {:induction false} ClosedBackwardReach(edges: seq<Edge>, b: set<Id>, x: Id, y: Id)
    requires ClosedBackward(edges, b) && y in b && Reaches(edges, x, y)
    ensures x in b
  {
    var p :| IsPath(edges, p) && p[0] == x && p[|p| - 1] == y;
    var k := |p| - 1;
    while k > 0
      invariant 0 <= k <= |p| - 1
      invariant p[k] in b
    {
      assert Edge(p[k - 1], p[k]) in edges;
      k := k - 1;
    }
  }

  /** Reachability depends only on which edges occur, not on order or multiplicity. */
  lemma SameEdgeSetSameReach(e1: seq<Edge>, e2: seq<Edge>, a: Id, b: Id)
    requires forall e :: e in e1 <==> e in e2
    ensures Reaches(e1, a, b) <==> Reaches(e2, a, b)
  {
    if Reaches(e1, a, b) {
      var p :| IsPath(e1, p) && p[0] == a && p[|p| - 1] == b;
      assert IsPath(e2, p);
    }
    if Reaches(e2, a, b) {
      var p :| IsPath(e2, p) && p[0] == a && p[|p| - 1] == b;
      assert IsPath(e1, p);
    }
  }
}
