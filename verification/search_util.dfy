/**
  Search support (searchUtil.js): the transitive prerequisite set of a node
  and the highlighting view computed for a search term.

  The highlighting result is a view over the canonical lists: every node is
  paired with a mark and every edge with a stroke, and the node and edge
  records themselves are carried through untouched. Class-name strings and
  the concrete style objects are replaced by the `Mark` and `Stroke` enums.
 */
module SearchUtil {
  import opened Graph
  import opened Text

  // ---------------------------------------------------------------------
  // findAllPrerequisites

  /**
    The `for (const prereqId of prereqs)` loop of
    `findAllPrerequisites(n, edges, pathSet)` from the `i`-th direct
    prerequisite on, with `acc` the shared `pathSet`. An id already in
    `acc` is never expanded again, which is what makes the recursion stop
    on cyclic edge lists.
   */
  function Scan(n: Id, edges: seq<Edge>, i: nat, acc: set<Id>): (r: set<Id>)
    requires i <= |Sources(n, edges)|
    ensures acc <= r
    ensures forall x :: x in r && x !in acc ==> Reaches(edges, x, n)
    ensures forall j :: i <= j < |Sources(n, edges)| ==> Sources(n, edges)[j] in r
    ensures forall x, y :: x in r && x !in acc && Edge(y, x) in edges ==> y in r
    decreases EdgeIds(edges) - acc, |Sources(n, edges)| - i
  {
    var ps := Sources(n, edges);
    if i == |ps| then
      acc
    else
      var p := ps[i];
      assert Edge(p, n) in edges;
      assert Edge(p, n).source in EdgeIds(edges);
      if p in acc then
        Scan(n, edges, i + 1, acc)
      else
        var inner := Scan(p, edges, 0, acc + {p});
        var r := Scan(n, edges, i + 1, inner);
        ScanStep(edges, n, p, acc, inner, r);
        r
  }

  /** Combines the facts about the nested expansion of `p` with the rest of the loop. */
  lemma ScanStep(edges: seq<Edge>, n: Id, p: Id, acc: set<Id>, inner: set<Id>, r: set<Id>)
    requires Edge(p, n) in edges
    requires acc + {p} <= inner && inner <= r
    requires forall x :: x in inner && x !in acc + {p} ==> Reaches(edges, x, p)
    requires forall j :: 0 <= j < |Sources(p, edges)| ==> Sources(p, edges)[j] in inner
    requires forall x, y :: x in inner && x !in acc + {p} && Edge(y, x) in edges ==> y in inner
    requires forall x :: x in r && x !in inner ==> Reaches(edges, x, n)
    requires forall x, y :: x in r && x !in inner && Edge(y, x) in edges ==> y in r
    ensures forall x :: x in r && x !in acc ==> Reaches(edges, x, n)
    ensures forall x, y :: x in r && x !in acc && Edge(y, x) in edges ==> y in r
  {
    ReachesByEdge(edges, p, n);
    forall x | x in r && x !in acc
      ensures Reaches(edges, x, n)
    {
      if x in inner && x != p {
        ReachesTrans(edges, x, p, n);
      }
    }
    forall x, y | x in r && x !in acc && Edge(y, x) in edges
      ensures y in r
    {
      if x == p {
        var ps := Sources(p, edges);
        assert y in ps;
        var j :| 0 <= j < |ps| && ps[j] == y;
      }
    }
  }

  /**
    `findAllPrerequisites(n, edges)`: exactly the ids from which `n` can be
    reached along at least one edge. `n` itself belongs to the result only
    when it lies on a cycle.
   */
  function FindAllPrerequisites(n: Id, edges: seq<Edge>): (r: set<Id>)
    ensures forall x :: x in r <==> Reaches(edges, x, n)
  {
    var r := Scan(n, edges, 0, {});
    assert ClosedBackward(edges, r);
    forall x | Reaches(edges, x, n)
      ensures x in r
    {
      var z := ReachesLastEdge(edges, x, n);
      var ps := Sources(n, edges);
      assert z in ps;
      var j :| 0 <= j < |ps| && ps[j] == z;
      if x != z {
        ClosedBackwardReach(edges, r, x, z);
      }
    }
    r
  }

  /** With no edge into `n` there are no prerequisites. */
  lemma NoIncomingNoPrerequisites(n: Id, edges: seq<Edge>)
    requires forall e :: e in edges ==> e.target != n
    ensures FindAllPrerequisites(n, edges) == {}
  {
    forall x | Reaches(edges, x, n)
      ensures false
    {
      var z := ReachesLastEdge(edges, x, n);
    }
  }

  /** `n` is its own prerequisite exactly when it lies on a cycle. */
  lemma SelfPrerequisiteIffCycle(n: Id, edges: seq<Edge>)
    ensures n in FindAllPrerequisites(n, edges) <==> Reaches(edges, n, n)
  {
  }

  /** The chain A -> B -> C -> D queried at D gives {A, B, C}. */
  lemma ChainExample()
    ensures FindAllPrerequisites("D", [Edge("A", "B"), Edge("B", "C"), Edge("C", "D")]) == {"A", "B", "C"}
  {
    var edges := [Edge("A", "B"), Edge("B", "C"), Edge("C", "D")];
    var r := FindAllPrerequisites("D", edges);
    ReachesByEdge(edges, "C", "D");
    ReachesByEdge(edges, "B", "C");
    ReachesByEdge(edges, "A", "B");
    ReachesTrans(edges, "B", "C", "D");
    ReachesTrans(edges, "A", "B", "D");
    forall x | x in r
      ensures x == "A" || x == "B" || x == "C"
    {
      var w := ReachesFirstEdge(edges, x, "D");
      ChainSources(edges, x, w);
    }
  }

  /** The sources of the chain's edges. */
  lemma ChainSources(edges: seq<Edge>, x: Id, w: Id)
    requires edges == [Edge("A", "B"), Edge("B", "C"), Edge("C", "D")]
    requires Edge(x, w) in edges
    ensures x == "A" || x == "B" || x == "C"
  {
    var k :| 0 <= k < 3 && edges[k] == Edge(x, w);
  }

  /** A two-node cycle A <-> B: the expansion from A terminates and finds B. */
  lemma CycleExample()
    ensures "B" in FindAllPrerequisites("A", [Edge("A", "B"), Edge("B", "A"), Edge("B", "C")])
  {
    ReachesByEdge([Edge("A", "B"), Edge("B", "A"), Edge("B", "C")], "B", "A");
  }

  // ---------------------------------------------------------------------
  // applySearchHighlighting

  /** The class a node view carries: the direct-match and path-highlight classes. */
  datatype Mark = Unmarked | DirectMatch | PathHighlight

  /** The edge stroke: the default cyan one or the yellow on-path one. */
  datatype Stroke = DefaultStroke | PathStroke {
    function Colour(): string
    {
      match this
      case DefaultStroke => "#00bcd4"
      case PathStroke => "#ffeb3b"
    }

    function Width(): nat
    {
      match this
      case DefaultStroke => 2
      case PathStroke => 3
    }
  }

  datatype NodeView = NodeView(node: Node, mark: Mark)
  datatype EdgeView = EdgeView(edge: Edge, stroke: Stroke)
  datatype Highlighted = Highlighted(nodes: seq<NodeView>, edges: seq<EdgeView>)

  /**
    The normalised search term: `searchTerm.toLowerCase().trim()`. It is
    the lower-cased term with only white space cut off at either end, and it
    holds no upper-case ASCII letter.
   */
  function Query(term: string): (r: string)
    ensures exists i :: TrimmedAt(Lower(term), r, i)
    ensures forall c :: c in r ==> !('A' <= c <= 'Z')
    ensures r != [] ==> !IsWhite(r[0]) && !IsWhite(r[|r| - 1])
  {
    Trim(Lower(term))
  }

  /** The lower-cased node name contains the query. */
  function IsDirectMatch(n: Node, q: string): (r: bool)
    ensures r <==> NameMatches(n, q)
  {
    Includes(Lower(n.name), q)
  }

  /** The direct-match nodes, in list order. */
  function DirectMatches(nodes: seq<Node>, q: string): (r: seq<Node>)
    ensures forall m :: m in r <==> m in nodes && IsDirectMatch(m, q)
  {
    if nodes == [] then []
    else
      var rest := DirectMatches(nodes[1..], q);
      assert nodes == [nodes[0]] + nodes[1..];
      if IsDirectMatch(nodes[0], q) then [nodes[0]] + rest else rest
  }

  /**
    The inner loop over `directMatchNodes` with its `break`: whether `id` is
    in the prerequisite set of some match.
   */
  function OnSomePath(id: Id, matches: seq<Node>, edges: seq<Edge>): (r: bool)
    ensures r <==> exists m :: m in matches && Reaches(edges, id, m.id)
  {
    if matches == [] then false
    else if id in FindAllPrerequisites(matches[0].id, edges) then true
    else
      assert matches == [matches[0]] + matches[1..];
      OnSomePath(id, matches[1..], edges)
  }

  /** `isNodeInPath`: the first view with this id carries a highlight class. */
  function InPath(nodes: seq<Node>, views: seq<NodeView>, id: Id): (r: bool)
    requires |views| == |nodes|
    ensures r <==> exists k :: 0 <= k < |nodes| && nodes[k].id == id && views[k].mark != Unmarked
                             && forall j :: 0 <= j < k ==> nodes[j].id != id
  {
    match FirstIndex(nodes, id)
    case None => false
    case Some(k) => views[k].mark != Unmarked
  }

  /** The view `find` returns for `id` (the first with that id) is highlighted. */
  ghost predicate Tagged(views: seq<NodeView>, id: Id)
  {
    exists k :: 0 <= k < |views| && views[k].node.id == id && views[k].mark != Unmarked
             && forall j :: 0 <= j < k ==> views[j].node.id != id
  }

  /** The lower-cased name of `n` contains `q`. */
  ghost predicate NameMatches(n: Node, q: string)
  {
    IsInfix(q, Lower(n.name))
  }

  /** Some listed node whose name matches `q` can be reached from `id`. */
  ghost predicate LeadsToMatch(nodes: seq<Node>, edges: seq<Edge>, q: string, id: Id)
  {
    exists j :: 0 <= j < |nodes| && NameMatches(nodes[j], q) && Reaches(edges, id, nodes[j].id)
  }

  /** The marking pass over the nodes for a non-empty query. */
  function MarkNodes(nodes: seq<Node>, edges: seq<Edge>, q: string): (views: seq<NodeView>)
    ensures |views| == |nodes| && forall k :: 0 <= k < |nodes| ==> views[k].node == nodes[k]
    ensures forall k :: 0 <= k < |nodes| ==>
              (views[k].mark == DirectMatch <==> NameMatches(nodes[k], q))
    ensures forall k :: 0 <= k < |nodes| ==>
              (views[k].mark == PathHighlight <==>
                 !NameMatches(nodes[k], q) && LeadsToMatch(nodes, edges, q, nodes[k].id))
  {
    var matches := DirectMatches(nodes, q);
    PathHighlightSpec(nodes, edges, q, matches);
    seq(|nodes|, k requires 0 <= k < |nodes| =>
      NodeView(nodes[k],
        if IsDirectMatch(nodes[k], q) then DirectMatch
        else if OnSomePath(nodes[k].id, matches, edges) then PathHighlight
        else Unmarked))
  }

  /** The styling pass over the edges, looking endpoints up in the marked views. */
  function StrokeEdges(nodes: seq<Node>, views: seq<NodeView>, edges: seq<Edge>): (r: seq<EdgeView>)
    requires |views| == |nodes| && forall k :: 0 <= k < |nodes| ==> views[k].node == nodes[k]
    ensures |r| == |edges| && forall k :: 0 <= k < |edges| ==> r[k].edge == edges[k]
    ensures forall k :: 0 <= k < |edges| ==>
              (r[k].stroke == PathStroke <==> Tagged(views, edges[k].source) && Tagged(views, edges[k].target))
  {
    InPathIsTagged(nodes, views);
    seq(|edges|, k requires 0 <= k < |edges| =>
      EdgeView(edges[k],
        if InPath(nodes, views, edges[k].source) && InPath(nodes, views, edges[k].target)
        then PathStroke else DefaultStroke))
  }

  /**
    `applySearchHighlighting(nodes, edges, searchTerm)`. With an empty
    normalised term every node is unmarked and every edge gets the default
    stroke. Otherwise a node is a direct match when its lower-cased name
    contains the term, a path highlight when it is not but some direct
    match can be reached from it, and an edge is on the path when both
    endpoints are highlighted.
   */
  function ApplySearchHighlighting(nodes: seq<Node>, edges: seq<Edge>, term: string): (r: Highlighted)
    ensures |r.nodes| == |nodes| && forall k :: 0 <= k < |nodes| ==> r.nodes[k].node == nodes[k]
    ensures |r.edges| == |edges| && forall k :: 0 <= k < |edges| ==> r.edges[k].edge == edges[k]
    ensures forall k :: 0 <= k < |nodes| ==>
              (r.nodes[k].mark == DirectMatch <==> Query(term) != [] && NameMatches(nodes[k], Query(term)))
    ensures forall k :: 0 <= k < |nodes| ==>
              (r.nodes[k].mark == PathHighlight <==>
                 && Query(term) != []
                 && !NameMatches(nodes[k], Query(term))
                 && LeadsToMatch(nodes, edges, Query(term), nodes[k].id))
    ensures forall k :: 0 <= k < |edges| ==>
              (r.edges[k].stroke == PathStroke <==>
                 Tagged(r.nodes, edges[k].source) && Tagged(r.nodes, edges[k].target))
  {
    var q := Query(term);
    if q == [] then
      var views := seq(|nodes|, k requires 0 <= k < |nodes| => NodeView(nodes[k], Unmarked));
      assert forall id :: !Tagged(views, id);
      Highlighted(views, seq(|edges|, k requires 0 <= k < |edges| => EdgeView(edges[k], DefaultStroke)))
    else
      var views := MarkNodes(nodes, edges, q);
      Highlighted(views, StrokeEdges(nodes, views, edges))
  }

  /** The lookup through `nodes` finds the same view as a lookup through the views. */
  lemma InPathIsTagged(nodes: seq<Node>, views: seq<NodeView>)
    requires |views| == |nodes| && forall k :: 0 <= k < |nodes| ==> views[k].node == nodes[k]
    ensures forall id :: InPath(nodes, views, id) <==> Tagged(views, id)
  {
    forall id
      ensures InPath(nodes, views, id) <==> Tagged(views, id)
    {
      match FirstIndex(nodes, id)
      case None =>
      case Some(k) =>
        if Tagged(views, id) {
          var k' :| 0 <= k' < |views| && views[k'].node.id == id && views[k'].mark != Unmarked
                 && forall j :: 0 <= j < k' ==> views[j].node.id != id;
          assert k' == k;
        }
    }
  }

  /** Restates the path-highlight test of the loop in terms of reachability. */
  lemma PathHighlightSpec(nodes: seq<Node>, edges: seq<Edge>, q: string, matches: seq<Node>)
    requires forall m :: m in matches <==> m in nodes && IsDirectMatch(m, q)
    ensures forall k :: 0 <= k < |nodes| ==>
              (OnSomePath(nodes[k].id, matches, edges) <==>
                 LeadsToMatch(nodes, edges, q, nodes[k].id))
  {
    forall k | 0 <= k < |nodes| && OnSomePath(nodes[k].id, matches, edges)
      ensures LeadsToMatch(nodes, edges, q, nodes[k].id)
    {
      var m :| m in matches && Reaches(edges, nodes[k].id, m.id);
      var j :| 0 <= j < |nodes| && nodes[j] == m;
      assert NameMatches(nodes[j], q);
    }
    forall k, j | 0 <= k < |nodes| && 0 <= j < |nodes| && NameMatches(nodes[j], q)
                  && Reaches(edges, nodes[k].id, nodes[j].id)
      ensures OnSomePath(nodes[k].id, matches, edges)
    {
      assert nodes[j] in matches;
    }
  }

  /** A term that is only white space normalises to the empty query. */
  lemma BlankQuery(term: string)
    requires AllWhite(term)
    ensures Query(term) == []
  {
    assert AllWhite(Lower(term));
    TrimStartAllWhite(Lower(term));
  }

  /** An empty query clears all highlighting: nothing is marked, every edge is default. */
  lemma EmptyQueryClears(nodes: seq<Node>, edges: seq<Edge>, term: string)
    requires Query(term) == []
    ensures var r := ApplySearchHighlighting(nodes, edges, term);
            && (forall k :: 0 <= k < |r.nodes| ==> r.nodes[k].mark == Unmarked)
            && (forall k :: 0 <= k < |r.edges| ==> r.edges[k].stroke == DefaultStroke)
  {
    var r := ApplySearchHighlighting(nodes, edges, term);
    assert forall k :: 0 <= k < |r.nodes| ==> r.nodes[k].mark == Unmarked;
    forall id
      ensures !Tagged(r.nodes, id)
    {
    }
  }

  /** An edge with an endpoint that names no listed node keeps the default stroke. */
  lemma DanglingEdgeDefault(nodes: seq<Node>, edges: seq<Edge>, term: string, k: nat)
    requires k < |edges|
    requires edges[k].source !in NodeIds(nodes) || edges[k].target !in NodeIds(nodes)
    ensures ApplySearchHighlighting(nodes, edges, term).edges[k].stroke == DefaultStroke
  {
    var r := ApplySearchHighlighting(nodes, edges, term);
    var id := if edges[k].source !in NodeIds(nodes) then edges[k].source else edges[k].target;
    forall j | 0 <= j < |r.nodes|
      ensures r.nodes[j].node.id != id
    {
      assert nodes[j] in nodes;
    }
  }
}
