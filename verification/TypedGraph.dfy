/** What a typed, directed, bounded traversal of the topology means: walks over edges of one
    relation, followed in one direction. Every search loop in the repository is proved against
    these definitions. */
module TypedGraph {
  import opened Common

  type Node = string

  datatype Relation = DependsOn | SendsTrafficTo

  datatype Direction = Forward | Reverse

  datatype Edge = Edge(source: Node, target: Node, relation: Relation)

  datatype Policy = Policy(relation: Relation, direction: Direction, maxHops: nat)

  predicate Carries(e: Edge, p: Policy, a: Node, b: Node) {
    && e.relation == p.relation
    && (if p.direction.Forward? then e.source == a && e.target == b else e.target == a && e.source == b)
  }

  ghost predicate Hop(edges: seq<Edge>, p: Policy, a: Node, b: Node) {
    exists i :: 0 <= i < |edges| && Carries(edges[i], p, a, b)
  }

  ghost predicate IsWalk(edges: seq<Edge>, p: Policy, w: seq<Node>) {
    && |w| > 0
    && forall i :: 0 <= i < |w| - 1 ==> Hop(edges, p, w[i], w[i + 1])
  }

  ghost predicate Joins(edges: seq<Edge>, p: Policy, w: seq<Node>, s: Node, t: Node) {
    IsWalk(edges, p, w) && w[0] == s && w[|w| - 1] == t
  }

  /** Some walk of at most `k` edges leads from `s` to `t`. */
  ghost predicate Within(edges: seq<Edge>, p: Policy, s: Node, t: Node, k: nat) {
    exists w :: Joins(edges, p, w, s, t) && |w| - 1 <= k
  }

  /** The hop distance from `s` to `t` is exactly `k`. */
  ghost predicate IsDistance(edges: seq<Edge>, p: Policy, s: Node, t: Node, k: nat) {
    Within(edges, p, s, t, k) && forall j: nat :: Within(edges, p, s, t, j) ==> k <= j
  }

  ghost predicate Shortest(edges: seq<Edge>, p: Policy, w: seq<Node>, s: Node, t: Node) {
    && Joins(edges, p, w, s, t)
    && forall v :: Joins(edges, p, v, s, t) ==> |w| <= |v|
  }

  function FirstEdgeFrom(edges: seq<Edge>, p: Policy, a: Node, b: Node, n: nat): (r: nat)
    requires n <= |edges|
    ensures n <= r <= |edges|
    ensures r < |edges| ==> Carries(edges[r], p, a, b)
    ensures forall k :: n <= k < r ==> !Carries(edges[k], p, a, b)
    decreases |edges| - n
  {
    if n == |edges| || Carries(edges[n], p, a, b) then n else FirstEdgeFrom(edges, p, a, b, n + 1)
  }

  /** The position of the first edge that carries the hop. */
  function FirstEdge(edges: seq<Edge>, p: Policy, a: Node, b: Node): nat {
    FirstEdgeFrom(edges, p, a, b, 0)
  }

  /** Of two walks of the same length, the one whose first different hop is by the earlier edge. */
  predicate Earlier(edges: seq<Edge>, p: Policy, v: seq<Node>, w: seq<Node>)
    requires |v| == |w|
  {
    var n := |v| - 1;
    && n > 0
    && (Earlier(edges, p, v[..n], w[..n])
        || (v[..n] == w[..n] && FirstEdge(edges, p, v[n - 1], v[n]) < FirstEdge(edges, p, w[n - 1], w[n])))
  }

  /** The first shortest walk from `s` to `t` in edge order. */
  ghost predicate First(edges: seq<Edge>, p: Policy, w: seq<Node>, s: Node, t: Node) {
    Shortest(edges, p, w, s, t) && forall v :: Joins(edges, p, v, s, t) && |v| == |w| ==> !Earlier(edges, p, v, w)
  }

  // ---------------------------------------------------------------- what each search must answer

  /** A bounded path query: the first shortest walk when one fits the bound, none exactly when none
      does. */
  ghost predicate PathAnswer(edges: seq<Edge>, p: Policy, s: Node, t: Node, r: Option<seq<Node>>) {
    && (r.None? <==> !Within(edges, p, s, t, p.maxHops))
    && (r.Some? ==> First(edges, p, r.value, s, t) && |r.value| - 1 <= p.maxHops)
  }

  /** A bounded distance query. */
  ghost predicate DistanceAnswer(edges: seq<Edge>, p: Policy, s: Node, t: Node, r: Option<nat>) {
    && (r.None? <==> !Within(edges, p, s, t, p.maxHops))
    && (r.Some? ==> IsDistance(edges, p, s, t, r.value) && r.value <= p.maxHops)
  }

  /** The nodes listed lie in order of their distance from `s`. */
  ghost predicate NearestFirst(edges: seq<Edge>, p: Policy, s: Node, r: seq<Node>) {
    forall i, j, di, dj :: 0 <= i < j < |r| && IsDistance(edges, p, s, r[i], di) && IsDistance(edges, p, s, r[j], dj) ==> di <= dj
  }

  /** A reachability query: the start first, then every node within the bound, once each. */
  ghost predicate ReachableAnswer(edges: seq<Edge>, p: Policy, s: Node, r: seq<Node>) {
    && Distinct(r) && |r| > 0 && r[0] == s
    && (forall x :: x in r <==> Within(edges, p, s, x, p.maxHops))
    && NearestFirst(edges, p, s, r)
  }

  /** The declared meaning of the topology service's neighbour query: every other node within the
      bound, once each, nearest first. */
  ghost predicate NeighborsAnswer(edges: seq<Edge>, p: Policy, s: Node, r: seq<Node>) {
    && Distinct(r)
    && (forall x :: x in r <==> x != s && Within(edges, p, s, x, p.maxHops))
    && NearestFirst(edges, p, s, r)
  }

  function Opposite(p: Policy): Policy {
    p.(direction := if p.direction.Forward? then Reverse else Forward)
  }

  lemma WalkExtends(edges: seq<Edge>, p: Policy, w: seq<Node>, s: Node, t: Node, u: Node)
    requires Joins(edges, p, w, s, t) && Hop(edges, p, t, u)
    ensures Joins(edges, p, w + [u], s, u)
  {
    forall i | 0 <= i < |w + [u]| - 1 ensures Hop(edges, p, (w + [u])[i], (w + [u])[i + 1]) {
      if i < |w| - 1 {
        assert Hop(edges, p, w[i], w[i + 1]);
      }
    }
  }

  lemma WalkPrefix(edges: seq<Edge>, p: Policy, w: seq<Node>, s: Node, t: Node, n: nat)
    requires Joins(edges, p, w, s, t) && 0 < n <= |w|
    ensures Joins(edges, p, w[..n], s, w[n - 1])
  {
    forall i | 0 <= i < n - 1 ensures Hop(edges, p, w[..n][i], w[..n][i + 1]) {
      assert Hop(edges, p, w[i], w[i + 1]);
    }
  }

  lemma HopFlips(edges: seq<Edge>, p: Policy, a: Node, b: Node)
    requires Hop(edges, p, a, b)
    ensures Hop(edges, Opposite(p), b, a)
  {
    var i :| 0 <= i < |edges| && Carries(edges[i], p, a, b);
    assert Carries(edges[i], Opposite(p), b, a);
  }

  function Reversed(w: seq<Node>): (r: seq<Node>)
    ensures |r| == |w| && forall i :: 0 <= i < |w| ==> r[i] == w[|w| - 1 - i]
  {
    seq(|w|, i requires 0 <= i < |w| => w[|w| - 1 - i])
  }

  lemma WalkFlips(edges: seq<Edge>, p: Policy, w: seq<Node>, s: Node, t: Node)
    requires Joins(edges, p, w, s, t)
    ensures Joins(edges, Opposite(p), Reversed(w), t, s)
  {
    var r := Reversed(w);
    forall i | 0 <= i < |r| - 1 ensures Hop(edges, Opposite(p), r[i], r[i + 1]) {
      var j := |w| - 2 - i;
      assert Hop(edges, p, w[j], w[j + 1]);
      HopFlips(edges, p, w[j], w[j + 1]);
    }
  }

  /** Reverse traversal is the exact dual of forward traversal, at every hop bound. */
  lemma ReverseIsDual(edges: seq<Edge>, p: Policy, s: Node, t: Node, k: nat)
    ensures Within(edges, p, s, t, k) <==> Within(edges, Opposite(p), t, s, k)
  {
    if Within(edges, p, s, t, k) {
      var w :| Joins(edges, p, w, s, t) && |w| - 1 <= k;
      WalkFlips(edges, p, w, s, t);
      assert Joins(edges, Opposite(p), Reversed(w), t, s) && |Reversed(w)| - 1 <= k;
    }
    if Within(edges, Opposite(p), t, s, k) {
      var w :| Joins(edges, Opposite(p), w, t, s) && |w| - 1 <= k;
      WalkFlips(edges, Opposite(p), w, t, s);
      assert Opposite(Opposite(p)) == p;
      assert Joins(edges, p, Reversed(w), s, t) && |Reversed(w)| - 1 <= k;
    }
  }

  /** The hop bound of the policy plays no part in what a single hop is. */
  lemma BoundIrrelevant(edges: seq<Edge>, p: Policy, q: Policy, s: Node, t: Node, k: nat)
    requires p.relation == q.relation && p.direction == q.direction
    ensures Within(edges, p, s, t, k) <==> Within(edges, q, s, t, k)
  {
    forall a, b ensures Hop(edges, p, a, b) <==> Hop(edges, q, a, b) {
      if Hop(edges, p, a, b) {
        var i :| 0 <= i < |edges| && Carries(edges[i], p, a, b);
        assert Carries(edges[i], q, a, b);
      }
      if Hop(edges, q, a, b) {
        var i :| 0 <= i < |edges| && Carries(edges[i], q, a, b);
        assert Carries(edges[i], p, a, b);
      }
    }
    forall w ensures Joins(edges, p, w, s, t) <==> Joins(edges, q, w, s, t) {
      assert IsWalk(edges, p, w) <==> IsWalk(edges, q, w);
    }
  }

  /** One hop forward follows an edge of the relation from source to target, one in reverse from target
      to source. */
  lemma OneHop(edges: seq<Edge>, p: Policy, s: Node, t: Node)
    ensures Within(edges, p, s, t, 1) <==>
              s == t || (if p.direction == Forward then Edge(s, t, p.relation) else Edge(t, s, p.relation)) in edges
  {
    var edge := if p.direction == Forward then Edge(s, t, p.relation) else Edge(t, s, p.relation);
    if Within(edges, p, s, t, 1) && s != t {
      var w :| Joins(edges, p, w, s, t) && |w| - 1 <= 1;
      assert Hop(edges, p, w[0], w[0 + 1]);
      var i :| 0 <= i < |edges| && Carries(edges[i], p, s, t);
      assert edges[i] == edge;
    }
    if s == t {
      assert Joins(edges, p, [s], s, t);
    } else if edge in edges {
      var i :| 0 <= i < |edges| && edges[i] == edge;
      assert Carries(edges[i], p, s, t);
      assert Joins(edges, p, [s, t], s, t);
    }
  }

  lemma WithinGrows(edges: seq<Edge>, p: Policy, s: Node, t: Node, j: nat, k: nat)
    requires j <= k && Within(edges, p, s, t, j)
    ensures Within(edges, p, s, t, k)
  {
    var w :| Joins(edges, p, w, s, t) && |w| - 1 <= j;
    assert Joins(edges, p, w, s, t) && |w| - 1 <= k;
  }

  /** A shortest walk realises the distance. */
  lemma ShortestIsDistance(edges: seq<Edge>, p: Policy, w: seq<Node>, s: Node, t: Node)
    requires Shortest(edges, p, w, s, t)
    ensures IsDistance(edges, p, s, t, |w| - 1)
  {
    assert Joins(edges, p, w, s, t) && |w| - 1 <= |w| - 1;
    forall j: nat | Within(edges, p, s, t, j) ensures |w| - 1 <= j {
      var v :| Joins(edges, p, v, s, t) && |v| - 1 <= j;
    }
  }

  // ---------------------------------------------------------------- the order of walks

  lemma EarlierAppends(edges: seq<Edge>, p: Policy, v: seq<Node>, w: seq<Node>, x: Node, y: Node)
    requires |v| == |w| && v != []
    ensures Earlier(edges, p, v + [x], w + [y]) <==>
              Earlier(edges, p, v, w) || (v == w && FirstEdge(edges, p, v[|v| - 1], x) < FirstEdge(edges, p, w[|w| - 1], y))
  {
    assert (v + [x])[..|v|] == v && (w + [y])[..|w|] == w;
  }

  lemma {:induction false} EarlierChains(edges: seq<Edge>, p: Policy, u: seq<Node>, v: seq<Node>, w: seq<Node>)
    requires |u| == |v| == |w| && Earlier(edges, p, u, v) && Earlier(edges, p, v, w)
    ensures Earlier(edges, p, u, w)
  {
    var n := |u| - 1;
    if Earlier(edges, p, u[..n], v[..n]) && Earlier(edges, p, v[..n], w[..n]) {
      EarlierChains(edges, p, u[..n], v[..n], w[..n]);
    }
  }

  /** Two walks of the same length with the same start are the same or one is earlier. */
  lemma {:induction false} EarlierIsTotal(edges: seq<Edge>, p: Policy, v: seq<Node>, w: seq<Node>)
    requires |v| == |w| && IsWalk(edges, p, v) && IsWalk(edges, p, w) && v[0] == w[0]
    ensures v == w || Earlier(edges, p, v, w) || Earlier(edges, p, w, v)
  {
    var n := |v| - 1;
    if n > 0 {
      WalkPrefix(edges, p, v, v[0], v[n], n);
      WalkPrefix(edges, p, w, w[0], w[n], n);
      EarlierIsTotal(edges, p, v[..n], w[..n]);
      assert v == v[..n] + [v[n]] && w == w[..n] + [w[n]];
      assert v[..n] == w[..n] ==> v[n - 1] == w[n - 1];
      assert Hop(edges, p, v[n - 1], v[n - 1 + 1]) && Hop(edges, p, w[n - 1], w[n - 1 + 1]);
    } else {
      assert v == [v[0]] && w == [w[0]];
    }
  }

  /** A path query has one answer: any two correct answers are the same walk. */
  lemma PathIsDetermined(edges: seq<Edge>, p: Policy, s: Node, t: Node, one: Option<seq<Node>>, other: Option<seq<Node>>)
    requires PathAnswer(edges, p, s, t, one) && PathAnswer(edges, p, s, t, other)
    ensures one == other
  {
    if one.Some? {
      assert Joins(edges, p, one.value, s, t) && Joins(edges, p, other.value, s, t);
      EarlierIsTotal(edges, p, one.value, other.value);
    }
  }

  // ---------------------------------------------------------------- the searches agree

  /** The ranker's path and the detector's distance agree, and the generator's yes/no with both. */
  lemma PathAndDistanceAgree(edges: seq<Edge>, p: Policy, s: Node, t: Node, path: Option<seq<Node>>, distance: Option<nat>)
    requires PathAnswer(edges, p, s, t, path) && DistanceAnswer(edges, p, s, t, distance)
    ensures path.Some? <==> distance.Some?
    ensures path.Some? ==> |path.value| - 1 == distance.value
    ensures path.Some? <==> Within(edges, p, s, t, p.maxHops)
  {
    if path.Some? {
      ShortestIsDistance(edges, p, path.value, s, t);
      assert Within(edges, p, s, t, |path.value| - 1) && Within(edges, p, s, t, distance.value);
    }
  }

  /** What the ranker calls reachable is the start followed by the neighbour query's answer. */
  lemma ReachableMeansNeighbors(edges: seq<Edge>, p: Policy, s: Node, r: seq<Node>)
    requires ReachableAnswer(edges, p, s, r)
    ensures NeighborsAnswer(edges, p, s, r[1..])
  {
    assert r == [s] + r[1..];
    assert forall i :: 0 <= i < |r[1..]| ==> r[1..][i] == r[i + 1];
  }

  /** The dependency blast radius of `root` is dual to dependency search: it holds `x` exactly when
      `root` is within as many forward dependency hops of `x`. */
  lemma BlastRadiusIsDual(edges: seq<Edge>, root: Node, hops: nat, blast: seq<Node>, x: Node)
    requires NeighborsAnswer(edges, Policy(DependsOn, Reverse, hops), root, blast)
    ensures x in blast <==> x != root && Within(edges, Policy(DependsOn, Forward, hops), x, root, hops)
  {
    ReverseIsDual(edges, Policy(DependsOn, Reverse, hops), root, x, hops);
  }
}
