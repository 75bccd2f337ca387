/** The topology service: loading the fixture's nodes and edges, the traversal graph of one relation and
    direction, and the neighbour query on top of the graph library's distances. */
module TopologyGraph {
  import opened AnalysisEngine
  import opened Common
  import opened RcaContracts
  import opened Sorting
  import opened TypedGraph

  datatype LoadError = MissingFields | InvalidId | DuplicateNode | NoNodes | UnknownEndpoint | SelfEdge | UnsupportedRelation | DuplicateEdge

  /** A node record of the fixture: whether it has all required fields, and the ones the model reads. */
  datatype NodeRecord = NodeRecord(complete: bool, id: Node, kind: string)

  /** An edge record of the fixture; its relation may be outside the supported ones. */
  datatype EdgeRecord = EdgeRecord(complete: bool, source: Node, target: Node, relation: Option<Relation>)

  function NodeOf(r: NodeRecord): TopologyNode {
    TopologyNode(r.id, r.kind)
  }

  function EdgeOf(r: EdgeRecord): Edge
    requires r.relation.Some?
  {
    Edge(r.source, r.target, r.relation.value)
  }

  /** What is wrong with a node record after the `n` before it. */
  ghost function NodeFault(records: seq<NodeRecord>, n: nat): Option<LoadError>
    requires n < |records|
  {
    var r := records[n];
    if !r.complete then Some(MissingFields)
    else if r.id == "" then Some(InvalidId)
    else if exists k :: 0 <= k < n && records[k].id == r.id then Some(DuplicateNode)
    else None
  }

  /** What is wrong with an edge record after the `n` before it. */
  ghost function EdgeFault(nodes: seq<TopologyNode>, records: seq<EdgeRecord>, n: nat): Option<LoadError>
    requires n < |records|
  {
    var r := records[n];
    if !r.complete then Some(MissingFields)
    else if !NodeIn(nodes, r.source) || !NodeIn(nodes, r.target) then Some(UnknownEndpoint)
    else if r.source == r.target then Some(SelfEdge)
    else if r.relation.None? then Some(UnsupportedRelation)
    else if exists k :: 0 <= k < n && SameEdge(records[k], r) then Some(DuplicateEdge)
    else None
  }

  predicate SameEdge(a: EdgeRecord, b: EdgeRecord) {
    a.source == b.source && a.target == b.target && a.relation == b.relation
  }

  /** The nodes of the records when none is at fault and there is one; else the first fault. */
  method LoadNodes(records: seq<NodeRecord>) returns (r: Outcome<seq<TopologyNode>, LoadError>)
    ensures r.Ok? <==> records != [] && forall n :: 0 <= n < |records| ==> NodeFault(records, n).None?
    ensures r.Ok? ==> r.value == Mapped(records, NodeOf)
    ensures r.Raised? && records == [] ==> r.error == NoNodes
    ensures r.Raised? && records != [] ==>
              exists n :: 0 <= n < |records| && NodeFault(records, n) == Some(r.error) && forall k :: 0 <= k < n ==> NodeFault(records, k).None?
  {
    var seen: set<Node> := {};
    var nodes: seq<TopologyNode> := [];
    for i := 0 to |records|
      invariant forall x :: x in seen <==> exists k :: 0 <= k < i && records[k].id == x
      invariant |nodes| == i && forall k :: 0 <= k < i ==> NodeFault(records, k).None? && nodes[k] == NodeOf(records[k])
    {
      var record := records[i];
      ghost var fault := NodeFault(records, i);
      if !record.complete {
        return Raised(MissingFields);
      }
      if record.id == "" {
        return Raised(InvalidId);
      }
      if record.id in seen {
        return Raised(DuplicateNode);
      }
      seen := seen + {record.id};
      nodes := nodes + [NodeOf(record)];
    }
    if nodes == [] {
      return Raised(NoNodes);
    }
    assert nodes == Mapped(records, NodeOf);
    r := Ok(nodes);
  }

  /** The edges of the records when none is at fault; else the first fault. */
  method LoadEdges(nodes: seq<TopologyNode>, records: seq<EdgeRecord>) returns (r: Outcome<seq<Edge>, LoadError>)
    ensures r.Ok? <==> forall n :: 0 <= n < |records| ==> EdgeFault(nodes, records, n).None?
    ensures r.Ok? ==> EdgesOf(nodes, records, r.value)
    ensures r.Raised? ==>
              exists n :: 0 <= n < |records| && EdgeFault(nodes, records, n) == Some(r.error) && forall k :: 0 <= k < n ==> EdgeFault(nodes, records, k).None?
  {
    var identities: set<Edge> := {};
    var edges: seq<Edge> := [];
    for i := 0 to |records|
      invariant |edges| == i && forall n :: 0 <= n < i ==> EdgeFault(nodes, records, n).None? && edges[n] == EdgeOf(records[n])
      invariant forall x :: x in identities <==> exists k :: 0 <= k < i && edges[k] == x
    {
      var record := records[i];
      ghost var fault := EdgeFault(nodes, records, i);
      if !record.complete {
        return Raised(MissingFields);
      }
      if !NodeIn(nodes, record.source) || !NodeIn(nodes, record.target) {
        return Raised(UnknownEndpoint);
      }
      if record.source == record.target {
        return Raised(SelfEdge);
      }
      if record.relation.None? {
        return Raised(UnsupportedRelation);
      }
      assert forall k :: 0 <= k < i ==> (SameEdge(records[k], record) <==> edges[k] == EdgeOf(record));
      if EdgeOf(record) in identities {
        return Raised(DuplicateEdge);
      }
      identities := identities + {EdgeOf(record)};
      edges := edges + [EdgeOf(record)];
    }
    r := Ok(edges);
  }

  /** The edges of records none of which is at fault. */
  ghost predicate EdgesOf(nodes: seq<TopologyNode>, records: seq<EdgeRecord>, edges: seq<Edge>) {
    |edges| == |records| && forall n :: 0 <= n < |records| ==> EdgeFault(nodes, records, n).None? && edges[n] == EdgeOf(records[n])
  }

  /** A loaded topology is a valid bundle topology, and it repeats no typed edge: over it, every
      publication the adapter makes from the engine's result is accepted. */
  lemma LoadedTopologyIsAccepted(b: Bundle, nodes: seq<NodeRecord>, records: seq<EdgeRecord>, root: Node)
    requires nodes != [] && b.nodes == Mapped(nodes, NodeOf) && forall n :: 0 <= n < |nodes| ==> NodeFault(nodes, n).None?
    requires EdgesOf(b.nodes, records, b.edges)
    ensures ValidTopology(b.nodes, b.edges) && NoRepeatedBlastEdge(b, root)
  {
    forall i, j | 0 <= i < j < |b.nodes| ensures b.nodes[i].id != b.nodes[j].id {
      assert NodeFault(nodes, j).None?;
    }
    forall i, j | 0 <= i < j < |b.edges| ensures b.edges[i] != b.edges[j] {
      assert EdgeFault(b.nodes, records, i).None? && EdgeFault(b.nodes, records, j).None?;
      assert !SameEdge(records[i], records[j]);
    }
    forall i | 0 <= i < |b.edges|
      ensures b.edges[i].source != b.edges[i].target && NodeIn(b.nodes, b.edges[i].source) && NodeIn(b.nodes, b.edges[i].target)
    {
      assert EdgeFault(b.nodes, records, i).None?;
    }
  }

  /** The traversal graph of a relation in a direction has exactly the policy's hops. */
  method RelationGraph(edges: seq<Edge>, p: Policy) returns (arcs: set<(Node, Node)>)
    ensures forall a, b :: (a, b) in arcs <==> Hop(edges, p, a, b)
  {
    arcs := {};
    for i := 0 to |edges|
      invariant forall a, b :: (a, b) in arcs <==> exists k :: 0 <= k < i && Carries(edges[k], p, a, b)
    {
      var e := edges[i];
      if e.relation != p.relation {
        continue;
      }
      if p.direction.Forward? {
        arcs := arcs + {(e.source, e.target)};
      } else {
        arcs := arcs + {(e.target, e.source)};
      }
    }
  }

  /** What the graph library documents of `single_source_shortest_path_length` with a cutoff. */
  ghost predicate LibraryDistances(edges: seq<Edge>, p: Policy, s: Node, distances: map<Node, nat>) {
    forall x ::
      && (x in distances <==> Within(edges, p, s, x, p.maxHops))
      && (x in distances ==> IsDistance(edges, p, s, x, distances[x]))
  }

  predicate CloserNode(a: (Node, nat, int), b: (Node, nat, int)) {
    a.1 < b.1 || (a.1 == b.1 && a.2 < b.2)
  }

  function NodesOf(items: seq<(Node, nat, int)>): seq<Node> {
    Mapped(items, (item: (Node, nat, int)) => item.0)
  }

  /** Ordered by distance, and by place in the fixture among equals. */
  ghost predicate NearestThenFirst(position: Node -> int, distances: map<Node, nat>, r: seq<Node>) {
    && (forall x :: x in r ==> x in distances)
    && forall i, j :: 0 <= i < j < |r| ==>
         distances[r[i]] < distances[r[j]] || (distances[r[i]] == distances[r[j]] && position(r[i]) < position(r[j]))
  }

  /** The neighbour query, with the position of each node in the fixture to break ties. */
  method GetNeighbors(edges: seq<Edge>, p: Policy, s: Node, position: Node -> int, distances: map<Node, nat>) returns (r: seq<Node>)
    requires LibraryDistances(edges, p, s, distances)
    requires forall x, y :: x in distances && y in distances && position(x) == position(y) ==> x == y
    ensures NeighborsAnswer(edges, p, s, r) && NearestThenFirst(position, distances, r)
  {
    var items: seq<(Node, nat, int)> := [];
    var pending := distances.Keys;
    while pending != {}
      invariant pending <= distances.Keys && Distinct(items)
      invariant forall item :: item in items <==>
                  item.0 in distances.Keys - pending && distances[item.0] > 0 && item == (item.0, distances[item.0], position(item.0))
      decreases pending
    {
      var x :| x in pending;
      pending := pending - {x};
      if distances[x] > 0 {
        DistinctAppends(items, (x, distances[x], position(x)));
        items := items + [(x, distances[x], position(x))];
      }
    }
    var sorted := SortBy(items, CloserNode);
    r := NodesOf(sorted);
    SortedNeighbors(edges, p, s, position, distances, items);
  }

  lemma SortedNeighbors(edges: seq<Edge>, p: Policy, s: Node, position: Node -> int, distances: map<Node, nat>, items: seq<(Node, nat, int)>)
    requires LibraryDistances(edges, p, s, distances) && Distinct(items)
    requires forall x, y :: x in distances && y in distances && position(x) == position(y) ==> x == y
    requires forall item :: item in items <==>
               item.0 in distances && distances[item.0] > 0 && item == (item.0, distances[item.0], position(item.0))
    ensures NeighborsAnswer(edges, p, s, NodesOf(SortBy(items, CloserNode)))
    ensures NearestThenFirst(position, distances, NodesOf(SortBy(items, CloserNode)))
  {
    var sorted := SortBy(items, CloserNode);
    forall k | 0 <= k < |sorted| ensures sorted[k] in items {
      SortKeepsMembers(items, CloserNode, sorted[k]);
    }
    forall i, j | 0 <= i < j < |sorted| ensures sorted[i].0 != sorted[j].0 && CloserNode(sorted[i], sorted[j]) {
      SortedApart(items, i, j);
    }
    forall x ensures x in NodesOf(sorted) <==> x != s && Within(edges, p, s, x, p.maxHops) {
      NeighborListed(edges, p, s, position, distances, items, x);
    }
    forall i, j, di, dj | 0 <= i < j < |sorted| && IsDistance(edges, p, s, sorted[i].0, di) && IsDistance(edges, p, s, sorted[j].0, dj)
      ensures di <= dj
    {
      assert di == sorted[i].1 && dj == sorted[j].1;
    }
  }

  lemma SortedApart(items: seq<(Node, nat, int)>, i: nat, j: nat)
    requires Distinct(items) && i < j < |SortBy(items, CloserNode)|
    requires forall a, b :: a in items && b in items && (a.0 == b.0 || a.2 == b.2) ==> a == b
    ensures var r := SortBy(items, CloserNode); r[i].0 != r[j].0 && CloserNode(r[i], r[j])
  {
    var r := SortBy(items, CloserNode);
    SortKeepsDistinct(items, CloserNode);
    SortKeepsMembers(items, CloserNode, r[i]);
    SortKeepsMembers(items, CloserNode, r[j]);
    assert TotalOn(items, CloserNode);
    SortByOrders(items, CloserNode);
    OrderedPairs(r, CloserNode, i, j);
  }

  lemma NeighborListed(edges: seq<Edge>, p: Policy, s: Node, position: Node -> int, distances: map<Node, nat>, items: seq<(Node, nat, int)>, x: Node)
    requires LibraryDistances(edges, p, s, distances)
    requires forall item :: item in items <==>
               item.0 in distances && distances[item.0] > 0 && item == (item.0, distances[item.0], position(item.0))
    ensures x in NodesOf(SortBy(items, CloserNode)) <==> x != s && Within(edges, p, s, x, p.maxHops)
  {
    var sorted := SortBy(items, CloserNode);
    assert Joins(edges, p, [s], s, s);
    assert Within(edges, p, s, s, 0);
    if x in NodesOf(sorted) {
      var k :| 0 <= k < |sorted| && NodesOf(sorted)[k] == x;
      SortKeepsMembers(items, CloserNode, sorted[k]);
    }
    if x != s && Within(edges, p, s, x, p.maxHops) {
      ZeroOnlySelf(edges, p, s, x);
      var item := (x, distances[x], position(x));
      SortKeepsMembers(items, CloserNode, item);
      var k :| 0 <= k < |sorted| && sorted[k] == item;
      assert NodesOf(sorted)[k] == x;
    }
  }

  lemma ZeroOnlySelf(edges: seq<Edge>, p: Policy, s: Node, x: Node)
    ensures Within(edges, p, s, x, 0) ==> x == s
  {
  }
}
