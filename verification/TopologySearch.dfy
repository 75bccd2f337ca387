/** The breadth-first loops of the ranker, the candidate generator and the cascade detector's
    topology view. They share one queue discipline, so they share one invariant, `Searching`. */
module TopologySearch {
  import opened Common
  import opened TypedGraph

  // ---------------------------------------------------------------- adjacency

  /** The neighbours of `x` along the first `n` edges, in edge order, one entry per matching edge. */
  function TargetsUpTo(edges: seq<Edge>, p: Policy, x: Node, n: nat): seq<Node>
    requires n <= |edges|
  {
    if n == 0 then []
    else
      var init := TargetsUpTo(edges, p, x, n - 1);
      var e := edges[n - 1];
      var from := if p.direction.Forward? then e.source else e.target;
      var to := if p.direction.Forward? then e.target else e.source;
      if e.relation == p.relation && from == x then init + [to] else init
  }

  function Targets(edges: seq<Edge>, p: Policy, x: Node): seq<Node> {
    TargetsUpTo(edges, p, x, |edges|)
  }

  lemma {:induction false} TargetsUpToAreHops(edges: seq<Edge>, p: Policy, x: Node, y: Node, n: nat)
    requires n <= |edges|
    ensures y in TargetsUpTo(edges, p, x, n) <==> exists i :: 0 <= i < n && Carries(edges[i], p, x, y)
  {
    if n > 0 {
      TargetsUpToAreHops(edges, p, x, y, n - 1);
      if Carries(edges[n - 1], p, x, y) {
        assert y in TargetsUpTo(edges, p, x, n);
      }
    }
  }

  lemma TargetsAreHops(edges: seq<Edge>, p: Policy, x: Node, y: Node)
    ensures y in Targets(edges, p, x) <==> Hop(edges, p, x, y)
  {
    TargetsUpToAreHops(edges, p, x, y, |edges|);
  }

  function Lookup(adj: map<Node, seq<Node>>, x: Node): seq<Node> {
    if x in adj then adj[x] else []
  }

  method Adjacency(edges: seq<Edge>, p: Policy) returns (adj: map<Node, seq<Node>>)
    ensures forall x :: Lookup(adj, x) == Targets(edges, p, x)
  {
    adj := map[];
    for i := 0 to |edges|
      invariant forall x :: Lookup(adj, x) == TargetsUpTo(edges, p, x, i)
    {
      var edge := edges[i];
      if edge.relation == p.relation {
        var source, target := edge.source, edge.target;
        if p.direction.Reverse? {
          source, target := edge.target, edge.source;
        }
        adj := adj[source := Lookup(adj, source) + [target]];
      }
    }
  }

  // ---------------------------------------------------------------- the shared invariant

  ghost predicate Reaches(edges: seq<Edge>, p: Policy, s: Node, t: Node, n: nat) {
    exists w :: Joins(edges, p, w, s, t) && |w| - 1 == n
  }

  /** Every visited node has a walk of its recorded length, within the hop bound. */
  ghost predicate Found(edges: seq<Edge>, p: Policy, source: Node, dist: map<Node, nat>) {
    && source in dist && dist[source] == 0
    && forall x :: x in dist ==> dist[x] <= p.maxHops && Reaches(edges, p, source, x, dist[x])
  }

  /** The neighbours of an expanded node have been visited, at most one hop further out. */
  ghost predicate Closed(edges: seq<Edge>, p: Policy, dist: map<Node, nat>, done: set<Node>) {
    forall x, y :: x in done && x in dist && Hop(edges, p, x, y) && dist[x] < p.maxHops ==> y in dist && dist[y] <= dist[x] + 1
  }

  ghost predicate Ascending(dist: map<Node, nat>, queue: seq<Node>)
    requires forall x :: x in queue ==> x in dist
  {
    queue == [] || ((forall x :: x in queue ==> dist[queue[0]] <= dist[x]) && Ascending(dist, queue[1..]))
  }

  /** The queue runs outward over at most two levels, and nothing expanded lies beyond its front. */
  ghost predicate Layered(dist: map<Node, nat>, done: set<Node>, queue: seq<Node>) {
    && dist.Keys == done + ToSet(queue)
    && Ascending(dist, queue)
    && (queue != [] ==> forall x :: x in queue ==> dist[x] <= dist[queue[0]] + 1)
    && (queue != [] ==> forall x :: x in done ==> dist[x] <= dist[queue[0]])
  }

  /** `dist` holds a hop count for every visited node, `done` the expanded ones, `queue` the rest
      in the order they will be expanded. */
  ghost predicate Searching(edges: seq<Edge>, p: Policy, source: Node,
                            dist: map<Node, nat>, done: set<Node>, queue: seq<Node>) {
    Found(edges, p, source, dist) && Closed(edges, p, dist, done) && Layered(dist, done, queue)
  }

  lemma TrivialWalk(edges: seq<Edge>, p: Policy, s: Node)
    ensures PathAnswer(edges, p, s, s, Some([s])) && DistanceAnswer(edges, p, s, s, Some(0))
  {
    assert Joins(edges, p, [s], s, s);
  }

  lemma SearchStarts(edges: seq<Edge>, p: Policy, source: Node)
    ensures Searching(edges, p, source, map[source := 0], {}, [source])
  {
    assert Joins(edges, p, [source], source, source);
  }

  /** Every node on a walk no longer than the front of the queue has been found already, at a hop
      count no larger than the walk. This is what makes the first path found a shortest one. */
  lemma {:induction false} Settled(edges: seq<Edge>, p: Policy, source: Node, dist: map<Node, nat>,
                                   done: set<Node>, queue: seq<Node>, w: seq<Node>, x: Node)
    requires Searching(edges, p, source, dist, done, queue)
    requires Joins(edges, p, w, source, x) && |w| - 1 <= p.maxHops
    requires queue == [] || |w| - 1 <= dist[queue[0]]
    ensures x in dist && dist[x] <= |w| - 1
    decreases |w|
  {
    if |w| > 1 {
      var n := |w| - 1;
      var before := w[n - 1];
      WalkPrefix(edges, p, w, source, x, n);
      Settled(edges, p, source, dist, done, queue, w[..n], before);
      assert Hop(edges, p, before, w[n - 1 + 1]);
      assert before in done;
    }
  }

  /** The unseen ones among the first `n` neighbours, in order and without repetition. */
  function UnseenUpTo(neighbors: seq<Node>, visited: set<Node>, n: nat): seq<Node>
    requires n <= |neighbors|
  {
    if n == 0 then []
    else
      var init := UnseenUpTo(neighbors, visited, n - 1);
      var y := neighbors[n - 1];
      if y in visited || y in init then init else init + [y]
  }

  function Unseen(neighbors: seq<Node>, visited: set<Node>): seq<Node> {
    UnseenUpTo(neighbors, visited, |neighbors|)
  }

  lemma {:induction false} UnseenUpToMembers(neighbors: seq<Node>, visited: set<Node>, n: nat)
    requires n <= |neighbors|
    ensures forall y :: y in UnseenUpTo(neighbors, visited, n) <==> y in neighbors[..n] && y !in visited
    ensures Distinct(UnseenUpTo(neighbors, visited, n))
  {
    if n > 0 {
      UnseenUpToMembers(neighbors, visited, n - 1);
      assert neighbors[..n] == neighbors[..n - 1] + [neighbors[n - 1]];
    }
  }

  lemma UnseenMembers(neighbors: seq<Node>, visited: set<Node>)
    ensures forall y :: y in Unseen(neighbors, visited) <==> y in neighbors && y !in visited
    ensures Distinct(Unseen(neighbors, visited))
  {
    UnseenUpToMembers(neighbors, visited, |neighbors|);
    assert neighbors[..|neighbors|] == neighbors;
  }

  function Extend(dist: map<Node, nat>, newly: seq<Node>, d: nat): (r: map<Node, nat>)
    ensures r.Keys == dist.Keys + ToSet(newly)
    ensures forall x :: x in r ==> r[x] == if x in dist then dist[x] else d
  {
    dist + (map x | x in newly && x !in dist :: d)
  }

  /** A node at the hop bound leaves the queue without being expanded. */
  lemma PopAtBound(edges: seq<Edge>, p: Policy, source: Node, dist: map<Node, nat>, done: set<Node>, queue: seq<Node>)
    requires Searching(edges, p, source, dist, done, queue)
    requires queue != [] && dist[queue[0]] >= p.maxHops
    ensures Searching(edges, p, source, dist, done + {queue[0]}, queue[1..])
  {
    assert queue == [queue[0]] + queue[1..];
  }

  lemma ExpandFound(edges: seq<Edge>, p: Policy, source: Node, dist: map<Node, nat>, current: Node, newly: seq<Node>)
    requires Found(edges, p, source, dist) && current in dist && dist[current] < p.maxHops
    requires newly == Unseen(Targets(edges, p, current), dist.Keys)
    ensures Found(edges, p, source, Extend(dist, newly, dist[current] + 1))
  {
    UnseenMembers(Targets(edges, p, current), dist.Keys);
    var d := dist[current];
    var dist' := Extend(dist, newly, d + 1);
    assert Reaches(edges, p, source, current, d);
    var w :| Joins(edges, p, w, source, current) && |w| - 1 == d;
    forall x | x in dist' ensures dist'[x] <= p.maxHops && Reaches(edges, p, source, x, dist'[x]) {
      if x !in dist {
        TargetsAreHops(edges, p, current, x);
        WalkExtends(edges, p, w, source, current, x);
        assert Joins(edges, p, w + [x], source, x) && |w + [x]| - 1 == d + 1;
      }
    }
  }

  lemma ExpandClosed(edges: seq<Edge>, p: Policy, dist: map<Node, nat>, done: set<Node>, queue: seq<Node>, newly: seq<Node>)
    requires Closed(edges, p, dist, done) && Layered(dist, done, queue) && queue != []
    requires newly == Unseen(Targets(edges, p, queue[0]), dist.Keys)
    ensures Closed(edges, p, Extend(dist, newly, dist[queue[0]] + 1), done + {queue[0]})
  {
    UnseenMembers(Targets(edges, p, queue[0]), dist.Keys);
    var current := queue[0];
    var dist' := Extend(dist, newly, dist[current] + 1);
    forall x, y | x in done + {current} && x in dist' && Hop(edges, p, x, y) && dist'[x] < p.maxHops
      ensures y in dist' && dist'[y] <= dist'[x] + 1
    {
      if x == current {
        TargetsAreHops(edges, p, current, y);
        if y in dist {
          assert y in done || y in queue;
        }
      }
    }
  }

  /** Appending nodes at the largest recorded hop count keeps the queue in order. */
  lemma {:induction false} AscendingAppends(dist: map<Node, nat>, dist': map<Node, nat>, queue: seq<Node>, newly: seq<Node>, top: nat)
    requires forall x :: x in queue ==> x in dist && x in dist' && dist'[x] == dist[x] <= top
    requires forall x :: x in newly ==> x in dist' && dist'[x] == top
    requires Ascending(dist, queue)
    ensures forall x :: x in queue + newly ==> x in dist'
    ensures Ascending(dist', queue + newly)
  {
    if queue != [] {
      assert queue == [queue[0]] + queue[1..];
      AscendingAppends(dist, dist', queue[1..], newly, top);
      assert (queue + newly)[1..] == queue[1..] + newly;
    } else if newly != [] {
      assert newly == [newly[0]] + newly[1..];
      AscendingAppends(dist, dist', queue, newly[1..], top);
      assert queue + newly == newly && queue + newly[1..] == newly[1..];
    }
  }

  /** The queue after an expansion, and the levels on it. */
  lemma ExpandQueue(dist: map<Node, nat>, done: set<Node>, queue: seq<Node>, newly: seq<Node>, dist': map<Node, nat>)
    requires Layered(dist, done, queue) && queue != []
    requires forall y :: y in newly ==> y !in dist
    requires dist' == Extend(dist, newly, dist[queue[0]] + 1)
    ensures dist'.Keys == done + {queue[0]} + ToSet(queue[1..] + newly)
    ensures forall x :: x in queue[1..] + newly ==> dist[queue[0]] <= dist'[x] <= dist[queue[0]] + 1
    ensures forall x :: x in done + {queue[0]} ==> dist'[x] <= dist[queue[0]]
  {
    ToSetConcat(queue[1..], newly);
    ToSetSplits(queue);
    forall x | x in queue[1..] + newly ensures dist[queue[0]] <= dist'[x] <= dist[queue[0]] + 1 {
      assert x in queue || x in newly;
    }
  }

  lemma ExpandLayered(dist: map<Node, nat>, done: set<Node>, queue: seq<Node>, newly: seq<Node>)
    requires Layered(dist, done, queue) && queue != []
    requires forall y :: y in newly ==> y !in dist
    ensures Layered(Extend(dist, newly, dist[queue[0]] + 1), done + {queue[0]}, queue[1..] + newly)
  {
    var dist' := Extend(dist, newly, dist[queue[0]] + 1);
    ExpandQueue(dist, done, queue, newly, dist');
    AscendingAppends(dist, dist', queue[1..], newly, dist[queue[0]] + 1);
    var queue' := queue[1..] + newly;
    if queue' != [] {
      assert queue'[0] in queue';
    }
  }

  /** Expanding the front node keeps the invariant. */
  lemma PopAndExpand(edges: seq<Edge>, p: Policy, source: Node, dist: map<Node, nat>, done: set<Node>,
                     queue: seq<Node>, newly: seq<Node>)
    requires Searching(edges, p, source, dist, done, queue)
    requires queue != [] && dist[queue[0]] < p.maxHops
    requires newly == Unseen(Targets(edges, p, queue[0]), dist.Keys)
    ensures Searching(edges, p, source, Extend(dist, newly, dist[queue[0]] + 1), done + {queue[0]}, queue[1..] + newly)
  {
    UnseenMembers(Targets(edges, p, queue[0]), dist.Keys);
    ExpandFound(edges, p, source, dist, queue[0], newly);
    ExpandClosed(edges, p, dist, done, queue, newly);
    ExpandLayered(dist, done, queue, newly);
  }

  /** An exhausted search has found exactly the nodes within the hop bound. */
  lemma Exhausted(edges: seq<Edge>, p: Policy, source: Node, dist: map<Node, nat>, done: set<Node>, x: Node)
    requires Searching(edges, p, source, dist, done, [])
    ensures x in dist <==> Within(edges, p, source, x, p.maxHops)
    ensures x in dist ==> IsDistance(edges, p, source, x, dist[x])
  {
    if x in dist {
      assert Reaches(edges, p, source, x, dist[x]);
      var w :| Joins(edges, p, w, source, x) && |w| - 1 == dist[x];
      assert Joins(edges, p, w, source, x) && |w| - 1 <= p.maxHops;
      forall j: nat | Within(edges, p, source, x, j) ensures dist[x] <= j {
        var v :| Joins(edges, p, v, source, x) && |v| - 1 <= j;
        if j <= p.maxHops {
          Settled(edges, p, source, dist, done, [], v, x);
        }
      }
    }
    if Within(edges, p, source, x, p.maxHops) {
      var w :| Joins(edges, p, w, source, x) && |w| - 1 <= p.maxHops;
      Settled(edges, p, source, dist, done, [], w, x);
    }
  }

  /** A target first seen as a neighbour of the front node lies one hop beyond it, and no closer. */
  lemma FirstSight(edges: seq<Edge>, p: Policy, source: Node, dist: map<Node, nat>, done: set<Node>,
                   queue: seq<Node>, w: seq<Node>, target: Node)
    requires Searching(edges, p, source, dist, done, queue)
    requires queue != [] && dist[queue[0]] < p.maxHops && target !in dist
    requires Joins(edges, p, w, source, queue[0]) && |w| - 1 == dist[queue[0]]
    requires Hop(edges, p, queue[0], target)
    ensures Shortest(edges, p, w + [target], source, target)
  {
    WalkExtends(edges, p, w, source, queue[0], target);
    forall v | Joins(edges, p, v, source, target) ensures |w + [target]| <= |v| {
      if |v| - 1 <= dist[queue[0]] {
        Settled(edges, p, source, dist, done, queue, v, target);
      }
    }
  }

  /** Everything a search can visit: the start and the endpoints of the edges. */
  ghost function Universe(edges: seq<Edge>, source: Node): set<Node> {
    {source} + (set e | e in edges :: e.source) + (set e | e in edges :: e.target)
  }

  lemma TargetsInUniverse(edges: seq<Edge>, p: Policy, source: Node, x: Node)
    ensures forall y :: y in Targets(edges, p, x) ==> y in Universe(edges, source)
  {
    forall y | y in Targets(edges, p, x) ensures y in Universe(edges, source) {
      TargetsAreHops(edges, p, x, y);
      var i :| 0 <= i < |edges| && Carries(edges[i], p, x, y);
      assert edges[i] in edges;
    }
  }

  function WithDistance(nodes: seq<Node>, d: nat): (r: seq<(Node, nat)>)
    ensures |r| == |nodes| && forall i :: 0 <= i < |r| ==> r[i] == (nodes[i], d)
  {
    seq(|nodes|, i requires 0 <= i < |nodes| => (nodes[i], d))
  }

  function WithPaths(nodes: seq<Node>, path: seq<Node>): (r: seq<(Node, seq<Node>)>)
    ensures |r| == |nodes| && forall i :: 0 <= i < |r| ==> r[i] == (nodes[i], path + [nodes[i]])
  {
    seq(|nodes|, i requires 0 <= i < |nodes| => (nodes[i], path + [nodes[i]]))
  }

  lemma WithDistanceAppends(nodes: seq<Node>, x: Node, d: nat)
    ensures WithDistance(nodes + [x], d) == WithDistance(nodes, d) + [(x, d)]
  {
  }

  lemma WithPathsAppends(nodes: seq<Node>, x: Node, path: seq<Node>)
    ensures WithPaths(nodes + [x], path) == WithPaths(nodes, path) + [(x, path + [x])]
  {
  }

  /** The search only ever grows: expanding either sees nothing new or enlarges the visited set. */
  lemma Progress(edges: seq<Edge>, p: Policy, source: Node, x: Node, visited: set<Node>, newly: seq<Node>)
    requires visited <= Universe(edges, source)
    requires newly == Unseen(Targets(edges, p, x), visited)
    ensures visited + ToSet(newly) <= Universe(edges, source)
    ensures (newly == [] && visited + ToSet(newly) == visited) || visited < visited + ToSet(newly)
  {
    UnseenMembers(Targets(edges, p, x), visited);
    TargetsInUniverse(edges, p, source, x);
    if newly != [] {
      assert newly[0] in visited + ToSet(newly);
    }
  }

  // ---------------------------------------------------------------- searches over (node, hops)

  ghost predicate Numbered(dist: map<Node, nat>, queue: seq<(Node, nat)>, nodes: seq<Node>) {
    |queue| == |nodes| && forall i :: 0 <= i < |queue| ==> nodes[i] in dist && queue[i] == (nodes[i], dist[nodes[i]])
  }

  lemma NumberedExpands(dist: map<Node, nat>, queue: seq<(Node, nat)>, nodes: seq<Node>, neighbors: seq<Node>, newly: seq<Node>, d: nat)
    requires Numbered(dist, queue, nodes) && queue != []
    requires newly == Unseen(neighbors, dist.Keys)
    ensures Numbered(Extend(dist, newly, d), queue[1..] + WithDistance(newly, d), nodes[1..] + newly)
  {
    UnseenMembers(neighbors, dist.Keys);
    var queue', nodes' := queue[1..] + WithDistance(newly, d), nodes[1..] + newly;
    forall i | 0 <= i < |queue'|
      ensures nodes'[i] in Extend(dist, newly, d) && queue'[i] == (nodes'[i], Extend(dist, newly, d)[nodes'[i]])
    {
      if i < |queue| - 1 {
        assert queue'[i] == queue[i + 1] && nodes'[i] == nodes[i + 1];
      } else {
        assert nodes'[i] == newly[i - (|queue| - 1)];
      }
    }
  }

  /** The loop invariant of a search that stops at a goal. */
  ghost predicate Seeking(edges: seq<Edge>, p: Policy, source: Node, goal: Node, dist: map<Node, nat>, done: set<Node>,
                          nodes: seq<Node>, visited: set<Node>) {
    && Searching(edges, p, source, dist, done, nodes)
    && visited == dist.Keys && goal !in visited && visited <= Universe(edges, source)
  }

  lemma SeekingExpands(edges: seq<Edge>, p: Policy, source: Node, goal: Node, dist: map<Node, nat>, done: set<Node>,
                       nodes: seq<Node>, visited: set<Node>, newly: seq<Node>)
    requires Seeking(edges, p, source, goal, dist, done, nodes, visited)
    requires nodes != [] && dist[nodes[0]] < p.maxHops
    requires newly == Unseen(Targets(edges, p, nodes[0]), visited) && goal !in Targets(edges, p, nodes[0])
    ensures Seeking(edges, p, source, goal, Extend(dist, newly, dist[nodes[0]] + 1), done + {nodes[0]},
                    nodes[1..] + newly, visited + ToSet(newly))
  {
    UnseenMembers(Targets(edges, p, nodes[0]), visited);
    assert goal !in ToSet(newly);
    PopAndExpand(edges, p, source, dist, done, nodes, newly);
    Progress(edges, p, source, nodes[0], visited, newly);
  }

  /** A goal sighted from the front node lies exactly one hop beyond it. */
  lemma Sighted(edges: seq<Edge>, p: Policy, source: Node, goal: Node, dist: map<Node, nat>, done: set<Node>,
                nodes: seq<Node>, visited: set<Node>)
    requires Seeking(edges, p, source, goal, dist, done, nodes, visited)
    requires nodes != [] && dist[nodes[0]] < p.maxHops && goal in Targets(edges, p, nodes[0])
    ensures IsDistance(edges, p, source, goal, dist[nodes[0]] + 1)
  {
    TargetsAreHops(edges, p, nodes[0], goal);
    assert Reaches(edges, p, source, nodes[0], dist[nodes[0]]);
    var w :| Joins(edges, p, w, source, nodes[0]) && |w| - 1 == dist[nodes[0]];
    FirstSight(edges, p, source, dist, done, nodes, w, goal);
    ShortestIsDistance(edges, p, w + [goal], source, goal);
  }

  /** The body of the loops over one node's neighbours: stop at the goal, otherwise append the
      unseen neighbours one level further out. */
  method Scan(neighbors: seq<Node>, goal: Node, d: nat, visited: set<Node>, queue: seq<(Node, nat)>)
    returns (hit: bool, visited': set<Node>, queue': seq<(Node, nat)>)
    ensures hit <==> goal in neighbors
    ensures !hit ==> visited' == visited + ToSet(Unseen(neighbors, visited))
    ensures !hit ==> queue' == queue + WithDistance(Unseen(neighbors, visited), d)
  {
    visited', queue' := visited, queue;
    ghost var newly: seq<Node> := [];
    for i := 0 to |neighbors|
      invariant newly == UnseenUpTo(neighbors, visited, i)
      invariant visited' == visited + ToSet(newly)
      invariant queue' == queue + WithDistance(newly, d)
      invariant forall k :: 0 <= k < i ==> neighbors[k] != goal
    {
      var neighbor := neighbors[i];
      if neighbor == goal {
        return true, visited', queue';
      }
      if neighbor !in visited' {
        ToSetAppends(newly, neighbor);
        WithDistanceAppends(newly, neighbor, d);
        visited' := visited' + {neighbor};
        queue' := queue' + [(neighbor, d)];
        newly := newly + [neighbor];
      }
    }
    hit := false;
  }

  // ---------------------------------------------------------------- candidate_generator

  /** The candidate generator's location check. */
  method TypedPathExists(edges: seq<Edge>, source: Node, target: Node, p: Policy) returns (r: bool)
    ensures r <==> Within(edges, p, source, target, p.maxHops)
  {
    if source == target {
      assert Joins(edges, p, [source], source, target);
      return true;
    }
    var adj := Adjacency(edges, p);
    var queue: seq<(Node, nat)> := [(source, 0)];
    var visited := {source};
    ghost var dist: map<Node, nat>, done: set<Node>, nodes := map[source := 0], {}, [source];
    SearchStarts(edges, p, source);
    while queue != []
      invariant Seeking(edges, p, source, target, dist, done, nodes, visited)
      invariant Numbered(dist, queue, nodes)
      decreases Universe(edges, source) - visited, |queue|
    {
      var (current, distance) := queue[0];
      if distance >= p.maxHops {
        PopAtBound(edges, p, source, dist, done, nodes);
        queue, done, nodes := queue[1..], done + {current}, nodes[1..];
        continue;
      }
      var neighbors := Lookup(adj, current);
      var hit, visited', queue' := Scan(neighbors, target, distance + 1, visited, queue[1..]);
      if hit {
        Sighted(edges, p, source, target, dist, done, nodes, visited);
        WithinGrows(edges, p, source, target, distance + 1, p.maxHops);
        return true;
      }
      ghost var newly := Unseen(neighbors, visited);
      Progress(edges, p, source, current, visited, newly);
      SeekingExpands(edges, p, source, target, dist, done, nodes, visited, newly);
      NumberedExpands(dist, queue, nodes, neighbors, newly, distance + 1);
      dist, done, nodes := Extend(dist, newly, distance + 1), done + {current}, nodes[1..] + newly;
      visited, queue := visited', queue';
    }
    Exhausted(edges, p, source, dist, done, target);
    return false;
  }

  // ---------------------------------------------------------------- ranker.TopologyIndex

  /** The ranker's reachability query: exactly the nodes within the hop bound, each once, nearer
      nodes first. */
  method Reachable(edges: seq<Edge>, source: Node, p: Policy) returns (result: seq<Node>)
    ensures ReachableAnswer(edges, p, source, result)
  {
    var adj := Adjacency(edges, p);
    var queue: seq<(Node, nat)> := [(source, 0)];
    var visited := {source};
    result := [source];
    ghost var dist: map<Node, nat>, done: set<Node>, nodes := map[source := 0], {}, [source];
    ExploringStarts(edges, p, source);
    while queue != []
      invariant Exploring(edges, p, source, dist, done, nodes, visited, result)
      invariant Numbered(dist, queue, nodes)
      decreases Universe(edges, source) - visited, |queue|
    {
      var (current, distance) := queue[0];
      if distance >= p.maxHops {
        ExploringPops(edges, p, source, dist, done, nodes, visited, result);
        queue, done, nodes := queue[1..], done + {current}, nodes[1..];
        continue;
      }
      var neighbors := Lookup(adj, current);
      var visited', queue', result' := Collect(neighbors, distance + 1, visited, queue[1..], result);
      ghost var newly := Unseen(neighbors, visited);
      Progress(edges, p, source, current, visited, newly);
      ExploringExpands(edges, p, source, dist, done, nodes, visited, result, newly);
      NumberedExpands(dist, queue, nodes, neighbors, newly, distance + 1);
      dist, done, nodes := Extend(dist, newly, distance + 1), done + {current}, nodes[1..] + newly;
      visited, queue, result := visited', queue', result';
    }
    ReachableIsExact(edges, p, source, dist, done, visited, result);
  }

  /** The neighbour loop of the reachability query. */
  method Collect(neighbors: seq<Node>, d: nat, visited: set<Node>, queue: seq<(Node, nat)>, result: seq<Node>)
    returns (visited': set<Node>, queue': seq<(Node, nat)>, result': seq<Node>)
    ensures visited' == visited + ToSet(Unseen(neighbors, visited))
    ensures queue' == queue + WithDistance(Unseen(neighbors, visited), d)
    ensures result' == result + Unseen(neighbors, visited)
  {
    visited', queue', result' := visited, queue, result;
    ghost var newly: seq<Node> := [];
    for i := 0 to |neighbors|
      invariant newly == UnseenUpTo(neighbors, visited, i)
      invariant visited' == visited + ToSet(newly)
      invariant queue' == queue + WithDistance(newly, d)
      invariant result' == result + newly
    {
      var neighbor := neighbors[i];
      if neighbor !in visited' {
        ToSetAppends(newly, neighbor);
        WithDistanceAppends(newly, neighbor, d);
        visited' := visited' + {neighbor};
        result' := result' + [neighbor];
        queue' := queue' + [(neighbor, d)];
        newly := newly + [neighbor];
      }
    }
  }

  /** The result so far lists the visited nodes once each, by hop count. */
  ghost predicate Discovered(dist: map<Node, nat>, result: seq<Node>) {
    Distinct(result) && dist.Keys == ToSet(result) && result != [] && Ascending(dist, result)
  }

  /** The loop invariant of the reachability query. */
  ghost predicate Exploring(edges: seq<Edge>, p: Policy, source: Node, dist: map<Node, nat>, done: set<Node>,
                            nodes: seq<Node>, visited: set<Node>, result: seq<Node>) {
    && Searching(edges, p, source, dist, done, nodes)
    && visited == dist.Keys && visited <= Universe(edges, source)
    && Discovered(dist, result) && result[0] == source
  }

  lemma ExploringStarts(edges: seq<Edge>, p: Policy, source: Node)
    ensures Exploring(edges, p, source, map[source := 0], {}, [source], {source}, [source])
    ensures Numbered(map[source := 0], [(source, 0)], [source])
  {
    SearchStarts(edges, p, source);
  }

  lemma ExploringPops(edges: seq<Edge>, p: Policy, source: Node, dist: map<Node, nat>, done: set<Node>,
                      nodes: seq<Node>, visited: set<Node>, result: seq<Node>)
    requires Exploring(edges, p, source, dist, done, nodes, visited, result)
    requires nodes != [] && dist[nodes[0]] >= p.maxHops
    ensures Exploring(edges, p, source, dist, done + {nodes[0]}, nodes[1..], visited, result)
  {
    PopAtBound(edges, p, source, dist, done, nodes);
  }

  lemma ExploringExpands(edges: seq<Edge>, p: Policy, source: Node, dist: map<Node, nat>, done: set<Node>,
                         nodes: seq<Node>, visited: set<Node>, result: seq<Node>, newly: seq<Node>)
    requires Exploring(edges, p, source, dist, done, nodes, visited, result)
    requires nodes != [] && dist[nodes[0]] < p.maxHops
    requires newly == Unseen(Targets(edges, p, nodes[0]), visited)
    ensures Exploring(edges, p, source, Extend(dist, newly, dist[nodes[0]] + 1), done + {nodes[0]},
                      nodes[1..] + newly, visited + ToSet(newly), result + newly)
  {
    UnseenMembers(Targets(edges, p, nodes[0]), visited);
    PopAndExpand(edges, p, source, dist, done, nodes, newly);
    Progress(edges, p, source, nodes[0], visited, newly);
    DiscoveredExpands(dist, done, nodes, result, newly);
  }

  lemma DiscoveredExpands(dist: map<Node, nat>, done: set<Node>, nodes: seq<Node>, result: seq<Node>, newly: seq<Node>)
    requires Layered(dist, done, nodes) && nodes != [] && Discovered(dist, result)
    requires Distinct(newly) && forall y :: y in newly ==> y !in dist
    ensures Discovered(Extend(dist, newly, dist[nodes[0]] + 1), result + newly)
  {
    ToSetConcat(result, newly);
    forall y | y in newly ensures y !in result {
      assert y !in ToSet(result);
    }
    DistinctConcat(result, newly);
    forall x | x in result ensures x in dist && dist[x] <= dist[nodes[0]] + 1 {
      assert x in done || x in nodes;
    }
    AscendingAppends(dist, Extend(dist, newly, dist[nodes[0]] + 1), result, newly, dist[nodes[0]] + 1);
  }

  lemma {:induction false} AscendingPairs(dist: map<Node, nat>, items: seq<Node>, i: nat, j: nat)
    requires forall x :: x in items ==> x in dist
    requires Ascending(dist, items) && i < j < |items|
    ensures dist[items[i]] <= dist[items[j]]
  {
    if i > 0 {
      AscendingPairs(dist, items[1..], i - 1, j - 1);
    }
  }

  lemma ReachableIsExact(edges: seq<Edge>, p: Policy, source: Node, dist: map<Node, nat>, done: set<Node>,
                         visited: set<Node>, result: seq<Node>)
    requires Exploring(edges, p, source, dist, done, [], visited, result)
    ensures ReachableAnswer(edges, p, source, result)
  {
    forall x ensures x in result <==> Within(edges, p, source, x, p.maxHops) {
      Exhausted(edges, p, source, dist, done, x);
    }
    forall i, j, di, dj | 0 <= i < j < |result| && IsDistance(edges, p, source, result[i], di) && IsDistance(edges, p, source, result[j], dj)
      ensures di <= dj
    {
      Exhausted(edges, p, source, dist, done, result[i]);
      Exhausted(edges, p, source, dist, done, result[j]);
      AscendingPairs(dist, result, i, j);
    }
  }

  // ---------------------------------------------------------------- searches over (node, path)

  /** The walk that finds a node comes before the walk that finds another: it is shorter, or as long
      and earlier in edge order. */
  predicate Precedes(edges: seq<Edge>, p: Policy, v: seq<Node>, w: seq<Node>) {
    |v| < |w| || (|v| == |w| && Earlier(edges, p, v, w))
  }

  function PrecedesIn(edges: seq<Edge>, p: Policy): (seq<Node>, seq<Node>) -> bool {
    (v, w) => Precedes(edges, p, v, w)
  }

  ghost function FirstFrom(edges: seq<Edge>, p: Policy, source: Node): (Node, seq<Node>) -> bool {
    (x, w) => First(edges, p, w, source, x)
  }

  type Routes = map<Node, seq<Node>>

  ghost predicate Parented(route: Routes, done: set<Node>, y: Node)
    requires y in route
  {
    exists x :: x in done && x in route && route[y] == route[x] + [y]
  }

  /** Nodes are expanded in the order of their walks, expanded ones before queued ones. */
  ghost predicate InOrder(before: (seq<Node>, seq<Node>) -> bool, done: set<Node>, nodes: seq<Node>, route: Routes)
    requires route.Keys == done + ToSet(nodes)
  {
    && (forall x, y :: x in done && y in nodes ==> before(route[x], route[y]))
    && (forall i, j :: 0 <= i < j < |nodes| ==> before(route[nodes[i]], route[nodes[j]]))
  }

  /** Every queued node was found by extending the walk of an expanded one. */
  ghost predicate AllParented(source: Node, done: set<Node>, nodes: seq<Node>, route: Routes)
    requires route.Keys == done + ToSet(nodes)
  {
    forall y :: y in nodes && y != source ==> Parented(route, done, y)
  }

  /** Every visited node has the walk it should have, as long as its recorded hop count. */
  ghost predicate Walked(first: (Node, seq<Node>) -> bool, dist: map<Node, nat>, route: Routes) {
    route.Keys == dist.Keys && forall x :: x in route ==> first(x, route[x]) && |route[x]| - 1 == dist[x]
  }

  /** `route` holds the first shortest walk to every visited node. */
  ghost predicate Routed(edges: seq<Edge>, p: Policy, source: Node, dist: map<Node, nat>, done: set<Node>, nodes: seq<Node>, route: Routes) {
    && route.Keys == done + ToSet(nodes) && Walked(FirstFrom(edges, p, source), dist, route)
    && InOrder(PrecedesIn(edges, p), done, nodes, route) && AllParented(source, done, nodes, route)
  }

  lemma RoutedStarts(edges: seq<Edge>, p: Policy, source: Node)
    ensures Routed(edges, p, source, map[source := 0], {}, [source], map[source := [source]])
  {
    assert Joins(edges, p, [source], source, source);
    assert FirstFrom(edges, p, source)(source, [source]);
  }

  lemma OrderPops(before: (seq<Node>, seq<Node>) -> bool, done: set<Node>, nodes: seq<Node>, route: Routes)
    requires route.Keys == done + ToSet(nodes) && nodes != [] && InOrder(before, done, nodes, route)
    ensures route.Keys == done + {nodes[0]} + ToSet(nodes[1..]) && InOrder(before, done + {nodes[0]}, nodes[1..], route)
  {
    ToSetSplits(nodes);
    forall x, y | x in done + {nodes[0]} && y in nodes[1..] ensures before(route[x], route[y]) {
      var j :| 0 <= j < |nodes[1..]| && nodes[1..][j] == y;
      assert nodes[j + 1] == y && y in nodes;
    }
  }

  lemma ParentsPop(source: Node, done: set<Node>, nodes: seq<Node>, route: Routes)
    requires route.Keys == done + ToSet(nodes) && nodes != [] && AllParented(source, done, nodes, route)
    ensures route.Keys == done + {nodes[0]} + ToSet(nodes[1..]) && AllParented(source, done + {nodes[0]}, nodes[1..], route)
  {
    ToSetSplits(nodes);
    forall y | y in nodes[1..] && y != source ensures Parented(route, done + {nodes[0]}, y) {
      assert Parented(route, done, y);
    }
  }

  lemma RoutedPops(edges: seq<Edge>, p: Policy, source: Node, dist: map<Node, nat>, done: set<Node>, nodes: seq<Node>, route: Routes)
    requires Routed(edges, p, source, dist, done, nodes, route) && nodes != []
    ensures Routed(edges, p, source, dist, done + {nodes[0]}, nodes[1..], route)
  {
    OrderPops(PrecedesIn(edges, p), done, nodes, route);
    ParentsPop(source, done, nodes, route);
  }

  /** A node first sighted from the front is reached by extending the front's walk, and by no earlier
      walk: another shortest walk to it runs through a node still on the queue. */
  lemma FirstAtFront(edges: seq<Edge>, p: Policy, source: Node, dist: map<Node, nat>, done: set<Node>, nodes: seq<Node>,
                     route: Routes, y: Node)
    requires Searching(edges, p, source, dist, done, nodes) && Routed(edges, p, source, dist, done, nodes, route)
    requires nodes != [] && dist[nodes[0]] < p.maxHops && y !in dist && Hop(edges, p, nodes[0], y)
    ensures First(edges, p, route[nodes[0]] + [y], source, y)
  {
    var front := route[nodes[0]];
    assert FirstFrom(edges, p, source)(nodes[0], front);
    FirstSight(edges, p, source, dist, done, nodes, front, y);
    forall v | Joins(edges, p, v, source, y) && |v| == |front + [y]| ensures !Earlier(edges, p, v, front + [y]) {
      var x := ThroughQueue(edges, p, source, dist, done, nodes, v, y);
      OnQueue(edges, p, source, dist, done, nodes, route, x);
      NoneEarlier(edges, p, source, front, route[x], v, x, y);
    }
  }

  /** A queued node at the front's level is the front, or has a later walk. */
  lemma OnQueue(edges: seq<Edge>, p: Policy, source: Node, dist: map<Node, nat>, done: set<Node>, nodes: seq<Node>, route: Routes, x: Node)
    requires Routed(edges, p, source, dist, done, nodes, route) && nodes != [] && x in nodes && dist[x] == dist[nodes[0]]
    ensures First(edges, p, route[x], source, x) && |route[x]| == |route[nodes[0]]|
    ensures x == nodes[0] || Earlier(edges, p, route[nodes[0]], route[x])
  {
    assert nodes[0] in nodes;
    assert FirstFrom(edges, p, source)(x, route[x]) && FirstFrom(edges, p, source)(nodes[0], route[nodes[0]]);
    var j :| 0 <= j < |nodes| && nodes[j] == x;
    assert j > 0 ==> PrecedesIn(edges, p)(route[nodes[0]], route[nodes[j]]);
  }

  /** Extending the earlier of two walks gives a walk no walk through the end of the other undercuts. */
  lemma NoneEarlier(edges: seq<Edge>, p: Policy, source: Node, front: seq<Node>, other: seq<Node>, v: seq<Node>, x: Node, y: Node)
    requires |v| == |front| + 1 == |other| + 1 && front != [] && v[|v| - 1] == y
    requires Joins(edges, p, v[..|v| - 1], source, x) && First(edges, p, other, source, x)
    requires front == other || (front[|front| - 1] != x && Earlier(edges, p, front, other))
    ensures !Earlier(edges, p, v, front + [y])
  {
    var u := v[..|front|];
    assert v == u + [y] && u[|u| - 1] == x;
    assert !Earlier(edges, p, u, other);
    EarlierAppends(edges, p, u, front, y, y);
    if front != other {
      if Earlier(edges, p, u, front) {
        EarlierChains(edges, p, u, front, other);
      }
    }
  }

  /** A walk one hop longer than the front's, to a node not yet visited, takes its last hop from a node
      on the queue at the front's level. */
  lemma ThroughQueue(edges: seq<Edge>, p: Policy, source: Node, dist: map<Node, nat>, done: set<Node>, nodes: seq<Node>, v: seq<Node>, y: Node)
    returns (x: Node)
    requires Searching(edges, p, source, dist, done, nodes)
    requires nodes != [] && dist[nodes[0]] < p.maxHops && y !in dist
    requires Joins(edges, p, v, source, y) && |v| - 1 == dist[nodes[0]] + 1
    ensures x == v[|v| - 2] && x in nodes && dist[x] == dist[nodes[0]] && Joins(edges, p, v[..|v| - 1], source, x)
  {
    var n := |v| - 1;
    x := v[n - 1];
    WalkPrefix(edges, p, v, source, y, n);
    Settled(edges, p, source, dist, done, nodes, v[..n], x);
    assert Hop(edges, p, x, v[n - 1 + 1]);
    assert x in nodes;
  }

  /** The unseen neighbours of a node are listed in the order of their first edges. */
  lemma {:induction false} UnseenPrefix(neighbors: seq<Node>, more: seq<Node>, visited: set<Node>, n: nat)
    requires n <= |neighbors|
    ensures UnseenUpTo(neighbors + more, visited, n) == UnseenUpTo(neighbors, visited, n)
  {
    if n > 0 {
      UnseenPrefix(neighbors, more, visited, n - 1);
    }
  }

  ghost predicate InEdgeOrder(edges: seq<Edge>, p: Policy, x: Node, ys: seq<Node>) {
    forall i, j :: 0 <= i < j < |ys| ==> FirstEdge(edges, p, x, ys[i]) < FirstEdge(edges, p, x, ys[j])
  }

  lemma UnseenAppends(neighbors: seq<Node>, y: Node, visited: set<Node>)
    ensures var before := Unseen(neighbors, visited);
            Unseen(neighbors + [y], visited) == if y in visited || y in before then before else before + [y]
  {
    UnseenPrefix(neighbors, [y], visited, |neighbors|);
  }

  lemma {:induction false} UnseenInEdgeOrder(edges: seq<Edge>, p: Policy, x: Node, visited: set<Node>, n: nat)
    requires n <= |edges|
    ensures InEdgeOrder(edges, p, x, Unseen(TargetsUpTo(edges, p, x, n), visited))
  {
    if n > 0 {
      UnseenInEdgeOrder(edges, p, x, visited, n - 1);
      var before, now := TargetsUpTo(edges, p, x, n - 1), TargetsUpTo(edges, p, x, n);
      if now != before {
        var y := if p.direction.Forward? then edges[n - 1].target else edges[n - 1].source;
        assert now == before + [y];
        UnseenAppends(before, y, visited);
        if y !in visited && y !in Unseen(before, visited) {
          NewTarget(edges, p, x, visited, n - 1, y);
          AppendsInEdgeOrder(edges, p, x, Unseen(before, visited), y);
        }
      }
    }
  }

  /** A target not seen before has a later first edge than every target seen so far. */
  lemma NewTarget(edges: seq<Edge>, p: Policy, x: Node, visited: set<Node>, n: nat, y: Node)
    requires n <= |edges| && y !in visited && y !in Unseen(TargetsUpTo(edges, p, x, n), visited)
    ensures forall z :: z in Unseen(TargetsUpTo(edges, p, x, n), visited) ==> FirstEdge(edges, p, x, z) < FirstEdge(edges, p, x, y)
  {
    var seen := TargetsUpTo(edges, p, x, n);
    UnseenMembers(seen, visited);
    TargetsUpToAreHops(edges, p, x, y, n);
    assert FirstEdge(edges, p, x, y) >= n;
    forall z | z in Unseen(seen, visited) ensures FirstEdge(edges, p, x, z) < FirstEdge(edges, p, x, y) {
      TargetsUpToAreHops(edges, p, x, z, n);
    }
  }

  lemma AppendsInEdgeOrder(edges: seq<Edge>, p: Policy, x: Node, ys: seq<Node>, y: Node)
    requires InEdgeOrder(edges, p, x, ys) && forall z :: z in ys ==> FirstEdge(edges, p, x, z) < FirstEdge(edges, p, x, y)
    ensures InEdgeOrder(edges, p, x, ys + [y])
  {
  }

  function ExtendRoutes(route: Routes, newly: seq<Node>, path: seq<Node>): (r: map<Node, seq<Node>>)
    ensures r.Keys == route.Keys + ToSet(newly)
    ensures forall x :: x in r ==> r[x] == if x in route then route[x] else path + [x]
  {
    route + (map x | x in newly && x !in route :: path + [x])
  }

  lemma RoutedExpands(edges: seq<Edge>, p: Policy, source: Node, dist: map<Node, nat>, done: set<Node>, nodes: seq<Node>,
                      route: Routes, newly: seq<Node>)
    requires Searching(edges, p, source, dist, done, nodes) && Routed(edges, p, source, dist, done, nodes, route)
    requires nodes != [] && dist[nodes[0]] < p.maxHops
    requires newly == Unseen(Targets(edges, p, nodes[0]), dist.Keys)
    ensures Routed(edges, p, source, Extend(dist, newly, dist[nodes[0]] + 1), done + {nodes[0]}, nodes[1..] + newly,
                   ExtendRoutes(route, newly, route[nodes[0]]))
  {
    UnseenMembers(Targets(edges, p, nodes[0]), dist.Keys);
    assert nodes[0] in nodes;
    RoutesExtend(edges, p, source, dist, done, nodes, route, newly);
    ToSetConcat(nodes[1..], newly);
    OrderPops(PrecedesIn(edges, p), done, nodes, route);
    NewFollow(edges, p, source, dist, done, nodes, route, newly);
    QueueExtends(PrecedesIn(edges, p), done + {nodes[0]}, nodes[1..], route, newly, route[nodes[0]]);
    ParentsPop(source, done, nodes, route);
    ParentsExpand(source, done, nodes, route, newly);
  }

  ghost predicate AllFirst(first: (Node, seq<Node>) -> bool, newly: seq<Node>, path: seq<Node>) {
    forall y :: y in newly ==> first(y, path + [y])
  }

  lemma RouteFound(edges: seq<Edge>, p: Policy, source: Node, dist: map<Node, nat>, done: set<Node>, nodes: seq<Node>, route: Routes, y: Node)
    requires Searching(edges, p, source, dist, done, nodes) && Routed(edges, p, source, dist, done, nodes, route)
    requires nodes != [] && dist[nodes[0]] < p.maxHops && y in Targets(edges, p, nodes[0]) && y !in dist
    ensures FirstFrom(edges, p, source)(y, route[nodes[0]] + [y])
  {
    TargetsAreHops(edges, p, nodes[0], y);
    FirstAtFront(edges, p, source, dist, done, nodes, route, y);
  }

  lemma RoutesFound(edges: seq<Edge>, p: Policy, source: Node, dist: map<Node, nat>, done: set<Node>, nodes: seq<Node>, route: Routes, newly: seq<Node>)
    requires Searching(edges, p, source, dist, done, nodes) && Routed(edges, p, source, dist, done, nodes, route)
    requires nodes != [] && dist[nodes[0]] < p.maxHops
    requires forall y :: y in newly ==> y in Targets(edges, p, nodes[0]) && y !in dist
    ensures AllFirst(FirstFrom(edges, p, source), newly, route[nodes[0]])
  {
    var first := FirstFrom(edges, p, source);
    forall y | y in newly ensures first(y, route[nodes[0]] + [y]) {
      RouteFound(edges, p, source, dist, done, nodes, route, y);
    }
  }

  lemma RoutesExtend(edges: seq<Edge>, p: Policy, source: Node, dist: map<Node, nat>, done: set<Node>, nodes: seq<Node>, route: Routes, newly: seq<Node>)
    requires Searching(edges, p, source, dist, done, nodes) && Routed(edges, p, source, dist, done, nodes, route)
    requires nodes != [] && dist[nodes[0]] < p.maxHops && nodes[0] in route
    requires forall y :: y in newly ==> y in Targets(edges, p, nodes[0]) && y !in dist
    ensures Walked(FirstFrom(edges, p, source), Extend(dist, newly, dist[nodes[0]] + 1), ExtendRoutes(route, newly, route[nodes[0]]))
  {
    assert AllFirst(FirstFrom(edges, p, source), newly, route[nodes[0]]) by {
      RoutesFound(edges, p, source, dist, done, nodes, route, newly);
    }
    FoundExtends(edges, p, source, dist, route, newly, nodes[0]);
  }

  lemma FoundExtends(edges: seq<Edge>, p: Policy, source: Node, dist: map<Node, nat>, route: Routes, newly: seq<Node>, front: Node)
    requires Walked(FirstFrom(edges, p, source), dist, route) && front in dist && front in route
    requires AllFirst(FirstFrom(edges, p, source), newly, route[front])
    ensures Walked(FirstFrom(edges, p, source), Extend(dist, newly, dist[front] + 1), ExtendRoutes(route, newly, route[front]))
  {
    WalkedExtends(FirstFrom(edges, p, source), dist, route, newly, front);
  }

  lemma WalkedExtends(first: (Node, seq<Node>) -> bool, dist: map<Node, nat>, route: Routes, newly: seq<Node>, front: Node)
    requires Walked(first, dist, route) && front in dist && front in route
    requires AllFirst(first, newly, route[front])
    ensures Walked(first, Extend(dist, newly, dist[front] + 1), ExtendRoutes(route, newly, route[front]))
  {
  }

  lemma ParentsExpand(source: Node, done: set<Node>, nodes: seq<Node>, route: Routes, newly: seq<Node>)
    requires nodes != [] && route.Keys == done + {nodes[0]} + ToSet(nodes[1..])
    requires AllParented(source, done + {nodes[0]}, nodes[1..], route) && forall y :: y in newly ==> y !in route
    ensures var route' := ExtendRoutes(route, newly, route[nodes[0]]);
            && route'.Keys == done + {nodes[0]} + ToSet(nodes[1..] + newly)
            && AllParented(source, done + {nodes[0]}, nodes[1..] + newly, route')
  {
    var front, route' := nodes[0], ExtendRoutes(route, newly, route[nodes[0]]);
    ToSetConcat(nodes[1..], newly);
    forall y | y in nodes[1..] + newly && y != source ensures Parented(route', done + {front}, y) {
      if y in newly {
        assert route'[y] == route'[front] + [y];
      } else {
        assert Parented(route, done + {front}, y);
        var x :| x in done + {front} && x in route && route[y] == route[x] + [y];
        assert route'[y] == route'[x] + [y];
      }
    }
  }

  /** The walks of newly found nodes come after all others, in order. */
  ghost predicate Follow(before: (seq<Node>, seq<Node>) -> bool, done: set<Node>, nodes: seq<Node>, route: Routes, newly: seq<Node>, path: seq<Node>)
    requires route.Keys == done + ToSet(nodes)
  {
    && (forall x, y :: x in done && y in newly ==> before(route[x], path + [y]))
    && (forall x, y :: x in nodes && y in newly ==> before(route[x], path + [y]))
    && (forall i, j :: 0 <= i < j < |newly| ==> before(path + [newly[i]], path + [newly[j]]))
  }

  lemma NewFollow(edges: seq<Edge>, p: Policy, source: Node, dist: map<Node, nat>, done: set<Node>, nodes: seq<Node>, route: Routes, newly: seq<Node>)
    requires Routed(edges, p, source, dist, done, nodes, route) && Layered(dist, done, nodes) && nodes != []
    requires newly == Unseen(Targets(edges, p, nodes[0]), dist.Keys)
    ensures route.Keys == done + {nodes[0]} + ToSet(nodes[1..])
    ensures Follow(PrecedesIn(edges, p), done + {nodes[0]}, nodes[1..], route, newly, route[nodes[0]])
  {
    OrderPops(PrecedesIn(edges, p), done, nodes, route);
    DoneBeforeNew(edges, p, source, dist, done, nodes, route, newly);
    QueuedBeforeNew(edges, p, source, dist, done, nodes, route, newly);
    FrontEnds(edges, p, source, dist, done, nodes, route);
    NewestInOrder(edges, p, dist, nodes[0], route[nodes[0]], newly);
  }

  lemma DoneBeforeNew(edges: seq<Edge>, p: Policy, source: Node, dist: map<Node, nat>, done: set<Node>, nodes: seq<Node>, route: Routes, newly: seq<Node>)
    requires Routed(edges, p, source, dist, done, nodes, route) && Layered(dist, done, nodes) && nodes != []
    ensures forall x, y :: x in done + {nodes[0]} && y in newly ==> PrecedesIn(edges, p)(route[x], route[nodes[0]] + [y])
  {
    forall x, y | x in done + {nodes[0]} && y in newly ensures PrecedesIn(edges, p)(route[x], route[nodes[0]] + [y]) {
      NoLonger(FirstFrom(edges, p, source), dist, done, nodes, route, x);
    }
  }

  lemma NoLonger(first: (Node, seq<Node>) -> bool, dist: map<Node, nat>, done: set<Node>, nodes: seq<Node>, route: Routes, x: Node)
    requires Walked(first, dist, route) && Layered(dist, done, nodes) && nodes != [] && x in done + {nodes[0]}
    ensures x in route && nodes[0] in route && |route[x]| <= |route[nodes[0]]|
  {
    assert nodes[0] in nodes;
  }

  lemma QueuedBeforeNew(edges: seq<Edge>, p: Policy, source: Node, dist: map<Node, nat>, done: set<Node>, nodes: seq<Node>, route: Routes, newly: seq<Node>)
    requires Routed(edges, p, source, dist, done, nodes, route) && Layered(dist, done, nodes) && nodes != []
    ensures forall x, y :: x in nodes[1..] && y in newly ==> PrecedesIn(edges, p)(route[x], route[nodes[0]] + [y])
  {
    forall x, y | x in nodes[1..] && y in newly ensures PrecedesIn(edges, p)(route[x], route[nodes[0]] + [y]) {
      OldBeforeNew(edges, p, source, dist, done, nodes, route, x, y);
    }
  }

  lemma FrontEnds(edges: seq<Edge>, p: Policy, source: Node, dist: map<Node, nat>, done: set<Node>, nodes: seq<Node>, route: Routes)
    requires Routed(edges, p, source, dist, done, nodes, route) && nodes != []
    ensures nodes[0] in route && route[nodes[0]] != [] && route[nodes[0]][|route[nodes[0]]| - 1] == nodes[0]
  {
    assert nodes[0] in nodes;
    assert FirstFrom(edges, p, source)(nodes[0], route[nodes[0]]);
  }

  lemma NewestInOrder(edges: seq<Edge>, p: Policy, dist: map<Node, nat>, x: Node, front: seq<Node>, newly: seq<Node>)
    requires newly == Unseen(Targets(edges, p, x), dist.Keys) && front != [] && front[|front| - 1] == x
    ensures forall i, j :: 0 <= i < j < |newly| ==> PrecedesIn(edges, p)(front + [newly[i]], front + [newly[j]])
  {
    UnseenInEdgeOrder(edges, p, x, dist.Keys, |edges|);
    forall i, j | 0 <= i < j < |newly| ensures PrecedesIn(edges, p)(front + [newly[i]], front + [newly[j]]) {
      NewInOrder(edges, p, x, front, newly, i, j);
    }
  }

  lemma NewInOrder(edges: seq<Edge>, p: Policy, x: Node, front: seq<Node>, newly: seq<Node>, i: nat, j: nat)
    requires InEdgeOrder(edges, p, x, newly) && i < j < |newly| && front != [] && front[|front| - 1] == x
    ensures Precedes(edges, p, front + [newly[i]], front + [newly[j]])
  {
    EarlierAppends(edges, p, front, front, newly[i], newly[j]);
  }

  /** Appending nodes whose walks come after all others, in order, keeps the order. */
  lemma QueueExtends(before: (seq<Node>, seq<Node>) -> bool, done: set<Node>, nodes: seq<Node>, route: Routes, newly: seq<Node>, path: seq<Node>)
    requires route.Keys == done + ToSet(nodes) && InOrder(before, done, nodes, route) && forall y :: y in newly ==> y !in route
    requires Follow(before, done, nodes, route, newly, path)
    ensures var route' := ExtendRoutes(route, newly, path);
            route'.Keys == done + ToSet(nodes + newly) && InOrder(before, done, nodes + newly, route')
  {
    var all, route' := nodes + newly, ExtendRoutes(route, newly, path);
    ToSetConcat(nodes, newly);
    forall i, j | 0 <= i < j < |all| ensures before(route'[all[i]], route'[all[j]]) {
      if j < |nodes| {
        assert all[i] == nodes[i] && all[j] == nodes[j];
      } else if i < |nodes| {
        assert all[i] == nodes[i] && all[j] == newly[j - |nodes|];
      } else {
        assert all[i] == newly[i - |nodes|] && all[j] == newly[j - |nodes|];
      }
    }
  }

  /** A node still on the queue comes before a node found from the front: it was found from a node
      expanded before the front. */
  lemma OldBeforeNew(edges: seq<Edge>, p: Policy, source: Node, dist: map<Node, nat>, done: set<Node>, nodes: seq<Node>,
                     route: Routes, x: Node, y: Node)
    requires Routed(edges, p, source, dist, done, nodes, route) && Layered(dist, done, nodes) && nodes != [] && x in nodes[1..]
    ensures Precedes(edges, p, route[x], route[nodes[0]] + [y])
  {
    var front := route[nodes[0]];
    assert nodes[0] in nodes && x in nodes;
    assert FirstFrom(edges, p, source)(x, route[x]) && FirstFrom(edges, p, source)(nodes[0], front);
    if |route[x]| > |front| {
      assert x != source by {
        assert Joins(edges, p, [source], source, source);
      }
      assert Parented(route, done, x);
      var w :| w in done && w in route && route[x] == route[w] + [x];
      assert FirstFrom(edges, p, source)(w, route[w]) && PrecedesIn(edges, p)(route[w], front);
      EarlierAppends(edges, p, route[w], front, x, y);
    }
  }

  /** Each queue entry carries its node's walk. */
  ghost predicate Carrying(queue: seq<(Node, seq<Node>)>, nodes: seq<Node>, route: Routes) {
    |queue| == |nodes| && forall i :: 0 <= i < |queue| ==> nodes[i] in route && queue[i] == (nodes[i], route[nodes[i]])
  }

  lemma CarryingPops(queue: seq<(Node, seq<Node>)>, nodes: seq<Node>, route: Routes)
    requires Carrying(queue, nodes, route) && queue != []
    ensures Carrying(queue[1..], nodes[1..], route)
  {
  }

  lemma CarryingExpands(queue: seq<(Node, seq<Node>)>, nodes: seq<Node>, route: Routes, newly: seq<Node>)
    requires Carrying(queue, nodes, route) && queue != [] && forall y :: y in newly ==> y !in route
    ensures Carrying(queue[1..] + WithPaths(newly, queue[0].1), nodes[1..] + newly, ExtendRoutes(route, newly, queue[0].1))
  {
    var queue', nodes' := queue[1..] + WithPaths(newly, queue[0].1), nodes[1..] + newly;
    var route' := ExtendRoutes(route, newly, queue[0].1);
    forall i | 0 <= i < |queue'| ensures nodes'[i] in route' && queue'[i] == (nodes'[i], route'[nodes'[i]]) {
      if i < |queue| - 1 {
        assert queue'[i] == queue[i + 1] && nodes'[i] == nodes[i + 1];
      } else {
        assert nodes'[i] == newly[i - (|queue| - 1)];
      }
    }
  }

  /** The loop invariant of the path query. */
  ghost predicate SeekingPath(edges: seq<Edge>, p: Policy, source: Node, goal: Node, dist: map<Node, nat>, done: set<Node>,
                              nodes: seq<Node>, visited: set<Node>, queue: seq<(Node, seq<Node>)>, route: Routes) {
    && Seeking(edges, p, source, goal, dist, done, nodes, visited)
    && Routed(edges, p, source, dist, done, nodes, route) && Carrying(queue, nodes, route)
  }

  lemma PathSeekingStarts(edges: seq<Edge>, p: Policy, source: Node, goal: Node)
    requires source != goal
    ensures SeekingPath(edges, p, source, goal, map[source := 0], {}, [source], {source}, [(source, [source])], map[source := [source]])
  {
    SearchStarts(edges, p, source);
    RoutedStarts(edges, p, source);
  }

  lemma PathSeekingPops(edges: seq<Edge>, p: Policy, source: Node, goal: Node, dist: map<Node, nat>, done: set<Node>,
                        nodes: seq<Node>, visited: set<Node>, queue: seq<(Node, seq<Node>)>, route: Routes)
    requires SeekingPath(edges, p, source, goal, dist, done, nodes, visited, queue, route)
    requires queue != [] && |queue[0].1| - 1 >= p.maxHops
    ensures SeekingPath(edges, p, source, goal, dist, done + {queue[0].0}, nodes[1..], visited, queue[1..], route)
  {
    FrontCarries(edges, p, source, goal, dist, done, nodes, visited, queue, route);
    CarryingPops(queue, nodes, route);
    PopAtBound(edges, p, source, dist, done, nodes);
    RoutedPops(edges, p, source, dist, done, nodes, route);
  }

  lemma FrontCarries(edges: seq<Edge>, p: Policy, source: Node, goal: Node, dist: map<Node, nat>, done: set<Node>,
                     nodes: seq<Node>, visited: set<Node>, queue: seq<(Node, seq<Node>)>, route: Routes)
    requires SeekingPath(edges, p, source, goal, dist, done, nodes, visited, queue, route) && queue != []
    ensures nodes != [] && nodes[0] in route && nodes[0] in dist && queue[0] == (nodes[0], route[nodes[0]])
    ensures |queue[0].1| - 1 == dist[nodes[0]] && visited == dist.Keys == route.Keys
  {
    assert nodes[0] in nodes;
  }

  lemma PathSeekingExpands(edges: seq<Edge>, p: Policy, source: Node, goal: Node, dist: map<Node, nat>, done: set<Node>,
                           nodes: seq<Node>, visited: set<Node>, queue: seq<(Node, seq<Node>)>, route: Routes, newly: seq<Node>)
    requires SeekingPath(edges, p, source, goal, dist, done, nodes, visited, queue, route)
    requires queue != [] && |queue[0].1| - 1 < p.maxHops && newly == Unseen(Targets(edges, p, queue[0].0), visited)
    requires goal !in Targets(edges, p, queue[0].0)
    ensures var path := queue[0].1;
            SeekingPath(edges, p, source, goal, Extend(dist, newly, |path|), done + {queue[0].0}, nodes[1..] + newly,
                        visited + ToSet(newly), queue[1..] + WithPaths(newly, path), ExtendRoutes(route, newly, path))
  {
    FrontCarries(edges, p, source, goal, dist, done, nodes, visited, queue, route);
    SeekingExpands(edges, p, source, goal, dist, done, nodes, visited, newly);
    RoutedExpands(edges, p, source, dist, done, nodes, route, newly);
    UnseenMembers(Targets(edges, p, nodes[0]), visited);
    CarryingExpands(queue, nodes, route, newly);
  }

  lemma PathSighted(edges: seq<Edge>, p: Policy, source: Node, goal: Node, dist: map<Node, nat>, done: set<Node>,
                    nodes: seq<Node>, visited: set<Node>, queue: seq<(Node, seq<Node>)>, route: Routes)
    requires SeekingPath(edges, p, source, goal, dist, done, nodes, visited, queue, route)
    requires queue != [] && |queue[0].1| - 1 < p.maxHops && goal in Targets(edges, p, queue[0].0)
    ensures PathAnswer(edges, p, source, goal, Some(queue[0].1 + [goal]))
  {
    FrontCarries(edges, p, source, goal, dist, done, nodes, visited, queue, route);
    TargetsAreHops(edges, p, nodes[0], goal);
    FirstAtFront(edges, p, source, dist, done, nodes, route, goal);
    assert Joins(edges, p, route[nodes[0]] + [goal], source, goal) && |route[nodes[0]] + [goal]| - 1 <= p.maxHops;
  }

  /** The neighbour loop of the path query. */
  method ScanPaths(neighbors: seq<Node>, goal: Node, path: seq<Node>, visited: set<Node>, queue: seq<(Node, seq<Node>)>)
    returns (hit: bool, visited': set<Node>, queue': seq<(Node, seq<Node>)>)
    ensures hit <==> goal in neighbors
    ensures !hit ==> visited' == visited + ToSet(Unseen(neighbors, visited))
    ensures !hit ==> queue' == queue + WithPaths(Unseen(neighbors, visited), path)
  {
    visited', queue' := visited, queue;
    ghost var newly: seq<Node> := [];
    for i := 0 to |neighbors|
      invariant newly == UnseenUpTo(neighbors, visited, i)
      invariant visited' == visited + ToSet(newly)
      invariant queue' == queue + WithPaths(newly, path)
      invariant forall k :: 0 <= k < i ==> neighbors[k] != goal
    {
      var neighbor := neighbors[i];
      var nextPath := path + [neighbor];
      if neighbor == goal {
        return true, visited', queue';
      }
      if neighbor !in visited' {
        ToSetAppends(newly, neighbor);
        WithPathsAppends(newly, neighbor, path);
        visited' := visited' + {neighbor};
        queue' := queue' + [(neighbor, nextPath)];
        newly := newly + [neighbor];
      }
    }
    hit := false;
  }

  /** The ranker's path query: the first shortest walk of the policy within the hop bound, or none. */
  method Path(edges: seq<Edge>, source: Node, target: Node, p: Policy) returns (r: Option<seq<Node>>)
    ensures PathAnswer(edges, p, source, target, r)
  {
    if source == target {
      TrivialWalk(edges, p, source);
      return Some([source]);
    }
    var adj := Adjacency(edges, p);
    var queue: seq<(Node, seq<Node>)> := [(source, [source])];
    var visited := {source};
    ghost var dist: map<Node, nat>, done: set<Node>, nodes, route := map[source := 0], {}, [source], map[source := [source]];
    PathSeekingStarts(edges, p, source, target);
    while queue != []
      invariant SeekingPath(edges, p, source, target, dist, done, nodes, visited, queue, route)
      decreases Universe(edges, source) - visited, |queue|
    {
      var (current, path) := queue[0];
      if |path| - 1 >= p.maxHops {
        PathSeekingPops(edges, p, source, target, dist, done, nodes, visited, queue, route);
        queue, done, nodes := queue[1..], done + {current}, nodes[1..];
        continue;
      }
      var neighbors := Lookup(adj, current);
      var hit, visited', queue' := ScanPaths(neighbors, target, path, visited, queue[1..]);
      if hit {
        PathSighted(edges, p, source, target, dist, done, nodes, visited, queue, route);
        return Some(path + [target]);
      }
      ghost var newly := Unseen(neighbors, visited);
      Progress(edges, p, source, current, visited, newly);
      PathSeekingExpands(edges, p, source, target, dist, done, nodes, visited, queue, route, newly);
      dist, done, nodes, route := Extend(dist, newly, |path|), done + {current}, nodes[1..] + newly, ExtendRoutes(route, newly, path);
      visited, queue := visited', queue';
    }
    Exhausted(edges, p, source, dist, done, target);
    return None;
  }

  // ---------------------------------------------------------------- detection.TopologyView

  const MAX_HOPS: nat := 2

  function ForwardPolicy(relation: Relation): Policy {
    Policy(relation, Forward, MAX_HOPS)
  }

  function Row(adj: map<(Node, Relation), seq<Node>>, x: Node, rel: Relation): seq<Node> {
    if (x, rel) in adj then adj[(x, rel)] else []
  }

  /** The cascade detector's view: an adjacency keyed by node and relation, filled once. */
  class TopologyView {
    var adj: map<(Node, Relation), seq<Node>>
    ghost var edges: seq<Edge>

    ghost predicate Valid()
      reads this
    {
      forall x, rel :: Row(adj, x, rel) == Targets(edges, ForwardPolicy(rel), x)
    }

    constructor (rows: seq<Edge>)
      ensures Valid() && edges == rows
    {
      var table: map<(Node, Relation), seq<Node>> := map[];
      for i := 0 to |rows|
        invariant forall x, rel :: Row(table, x, rel) == TargetsUpTo(rows, ForwardPolicy(rel), x, i)
      {
        var e := rows[i];
        table := table[(e.source, e.relation) := Row(table, e.source, e.relation) + [e.target]];
      }
      adj, edges := table, rows;
    }

    /** The hop distance along forward edges of the relation when it is at most two. */
    method Distance(from: Node, to: Node, rel: Relation) returns (r: Option<nat>)
      requires Valid()
      ensures DistanceAnswer(edges, ForwardPolicy(rel), from, to, r)
    {
      ghost var p := ForwardPolicy(rel);
      if from == to {
        TrivialWalk(edges, p, from);
        return Some(0);
      }
      var visited := {from};
      var queue: seq<(Node, nat)> := [(from, 0)];
      ghost var dist: map<Node, nat>, done: set<Node>, nodes := map[from := 0], {}, [from];
      SearchStarts(edges, p, from);
      while queue != []
        invariant Seeking(edges, p, from, to, dist, done, nodes, visited)
        invariant Numbered(dist, queue, nodes)
        decreases Universe(edges, from) - visited, |queue|
      {
        var (current, hops) := queue[0];
        if hops >= MAX_HOPS {
          PopAtBound(edges, p, from, dist, done, nodes);
          queue, done, nodes := queue[1..], done + {current}, nodes[1..];
          continue;
        }
        var neighbors := Row(adj, current, rel);
        var hit, visited', queue' := Scan(neighbors, to, hops + 1, visited, queue[1..]);
        if hit {
          Sighted(edges, p, from, to, dist, done, nodes, visited);
          WithinGrows(edges, p, from, to, hops + 1, MAX_HOPS);
          return Some(hops + 1);
        }
        ghost var newly := Unseen(neighbors, visited);
        Progress(edges, p, from, current, visited, newly);
        SeekingExpands(edges, p, from, to, dist, done, nodes, visited, newly);
        NumberedExpands(dist, queue, nodes, neighbors, newly, hops + 1);
        dist, done, nodes := Extend(dist, newly, hops + 1), done + {current}, nodes[1..] + newly;
        visited, queue := visited', queue';
      }
      Exhausted(edges, p, from, dist, done, to);
      return None;
    }
  }
}
