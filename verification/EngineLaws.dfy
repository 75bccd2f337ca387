/** What the engine's result shows of the ranked candidates and of the topology, told from the bundle. */
module EngineLaws {
  import opened AnalysisEngine
  import opened Common
  import opened RcaContracts
  import opened Scoring
  import opened Sorting
  import opened TypedGraph

  // ---------------------------------------------------------------- hypotheses and conflicts

  /** A shown hypothesis is the scored candidate of its place, under the catalogue's summary, and its
      requirement keys are those its entry lists. */
  ghost predicate Shows(c: Catalogue, s: CandidateScore, i: nat, h: Ranked, requirements: map<string, seq<string>>) {
    && h.id == HypothesisLabel(i + 1) && h.rank == i + 1
    && h.candidateId == s.candidate.id && h.hypothesisType == s.candidate.hypothesisType && h.entity == s.candidate.entity
    && h.score == s.score && h.coverage == s.coverage && h.factors == s.factors
    && exists entry :: entry in c.hypotheses && Describes(entry, h, requirements)
  }

  ghost predicate Describes(entry: Entry, h: Ranked, requirements: map<string, seq<string>>) {
    && entry.hypothesisType == h.hypothesisType && entry.summary == h.summary
    && h.hypothesisType in requirements && |requirements[h.hypothesisType]| == |entry.expectedEvidence|
    && forall k :: 0 <= k < |entry.expectedEvidence| ==> requirements[h.hypothesisType][k] == entry.expectedEvidence[k].0
  }

  /** A conflict drafted for the hypothesis at a place. */
  ghost predicate Drafts(ordered: seq<CandidateScore>, d: ConflictDraft, i: nat) {
    && i < |ordered| && d.hypothesisId == HypothesisLabel(i + 1)
    && exists k :: k in ordered[i].conflicts && d.sourceEventId == k.sourceEventId && d.statement == k.pattern.statement && d.reasonCode == k.pattern.id
  }

  lemma RankedShows(c: Catalogue, ordered: seq<CandidateScore>, i: nat)
    requires i < |ordered| && EntryIndex(c.hypotheses, ordered[i].candidate.hypothesisType) < |c.hypotheses|
    ensures Shows(c, ordered[i], i, RankedAt(c, ordered[i], i), Requirements(c, ordered))
  {
    var entry := c.hypotheses[EntryIndex(c.hypotheses, ordered[i].candidate.hypothesisType)];
    assert entry in c.hypotheses;
    assert Describes(entry, RankedAt(c, ordered[i], i), Requirements(c, ordered));
  }

  /** The ranked list shows the scored candidates best first. */
  lemma HypothesesShown(c: Catalogue, b: Bundle, available: Availability, scored: seq<CandidateScore>, r: Computation, ordered: seq<CandidateScore>, i: nat)
    requires ValidCatalogue(c) && Explains(c, b, available, scored, r)
    requires ordered == SortBy(scored, Merit(c)) && i < |ordered|
    ensures |r.ranked| == |ordered| && Shows(c, ordered[i], i, r.ranked[i], r.requirements)
  {
    var s := ordered[i];
    assert s in ordered;
    SortKeepsMembers(scored, Merit(c), s);
    var k :| 0 <= k < |scored| && scored[k] == s;
    KnownType(c, b, available, r.candidates, scored, k);
    RankedShows(c, ordered, i);
  }

  lemma KnownType(c: Catalogue, b: Bundle, available: Availability, candidates: seq<Candidate>, scored: seq<CandidateScore>, k: nat)
    requires ValidCatalogue(c) && AllScored(c, b, candidates, available, scored) && k < |scored|
    ensures EntryIndex(c.hypotheses, scored[k].candidate.hypothesisType) < |c.hypotheses|
  {
    ScoresItsCandidate(c, b, candidates[k], available, scored[k]);
  }

  /** Every draft is a conflict of a shown hypothesis, under that hypothesis. */
  lemma ConflictsAreShown(c: Catalogue, b: Bundle, available: Availability, scored: seq<CandidateScore>, r: Computation, d: ConflictDraft) returns (i: nat)
    requires ValidCatalogue(c) && Explains(c, b, available, scored, r) && d in r.conflicts
    ensures Drafts(SortBy(scored, Merit(c)), d, i)
  {
    var ordered := SortBy(scored, Merit(c));
    var j: nat;
    i, j := DraftAt(ordered, |ordered|, d);
    assert ordered[i].conflicts[j] in ordered[i].conflicts;
  }

  /** Every conflict of a shown hypothesis is drafted. */
  lemma ConflictsShown(c: Catalogue, b: Bundle, available: Availability, scored: seq<CandidateScore>, r: Computation, d: ConflictDraft, i: nat)
    requires ValidCatalogue(c) && Explains(c, b, available, scored, r) && Drafts(SortBy(scored, Merit(c)), d, i)
    ensures d in r.conflicts
  {
    var ordered := SortBy(scored, Merit(c));
    var k :| k in ordered[i].conflicts && d.sourceEventId == k.sourceEventId && d.statement == k.pattern.statement && d.reasonCode == k.pattern.id;
    var j :| 0 <= j < |ordered[i].conflicts| && ordered[i].conflicts[j] == k;
    ConflictsDrafted(ordered, |ordered|, i, j);
  }

  // ---------------------------------------------------------------- topology states

  /** Within three traffic hops of the root. */
  ghost predicate Exposed(b: Bundle, root: Node, x: Node) {
    Within(b.edges, Policy(SendsTrafficTo, Forward, 3), root, x, 3)
  }

  /** The state a known node is shown with: the root before the primary entity, that before the other
      affected ones, and those before the rest of the blast radius. */
  ghost predicate NodeShown(b: Bundle, root: Node, x: Node, state: Emphasis) {
    && (exists n :: n in b.nodes && n.id == x)
    && match state
       case SuspectedRoot => x == root
       case PrimaryAffected => x != root && x == b.incident.primary
       case ImpactPath => x != root && x != b.incident.primary && x in b.incident.affected
       case BlastRadius => x != root && x != b.incident.primary && x !in b.incident.affected && Exposed(b, root, x)
  }

  /** The hop lies on the first shortest traffic path from the root to some affected entity. */
  ghost predicate OnImpactPath(b: Bundle, root: Node, s: Node, t: Node) {
    exists a, w, k ::
      && a in b.incident.affected && First(b.edges, Policy(SendsTrafficTo, Forward, 3), w, root, a) && |w| <= 4
      && 0 <= k < |w| - 1 && w[k] == s && w[k + 1] == t
  }

  /** The state an edge is shown with. */
  ghost predicate EdgeShown(b: Bundle, root: Node, e: Edge, state: Emphasis) {
    && e in b.edges && e.relation == SendsTrafficTo
    && if OnImpactPath(b, root, e.source, e.target) then state == ImpactPath
       else state == BlastRadius && Exposed(b, root, e.source) && Exposed(b, root, e.target)
  }

  lemma {:induction false} ListedNodes(nodes: seq<TopologyNode>, states: map<Node, Emphasis>, x: Node, state: Emphasis)
    ensures NodeState(x, state) in NodeStates(nodes, states) <==> x in states && states[x] == state && exists n :: n in nodes && n.id == x
  {
    if nodes != [] {
      assert nodes == [nodes[0]] + nodes[1..];
      ListedNodes(nodes[1..], states, x, state);
    }
  }

  /** The nodes listed are those of the topology with a state, each with its own. */
  lemma NodesShown(b: Bundle, root: Node, nodeStates: seq<NodeState>, edgeStates: seq<EdgeState>, x: Node, state: Emphasis)
    requires StatesAnswer(b, root, nodeStates, edgeStates)
    ensures NodeState(x, state) in nodeStates <==> NodeShown(b, root, x, state)
  {
    var states: map<Node, Emphasis> :| (forall y :: StateIn(states, y) == StateOf(b, root, y)) && nodeStates == NodeStates(b.nodes, states);
    ListedNodes(b.nodes, states, x, state);
    assert StateIn(states, x) == StateOf(b, root, x);
  }

  lemma {:induction false} PairExactly(path: seq<Node>, s: Node, t: Node)
    ensures (s, t) in Pairs(path) <==> exists k :: 0 <= k < |path| - 1 && path[k] == s && path[k + 1] == t
  {
    if |path| >= 2 {
      PairExactly(path[1..], s, t);
      if k :| 0 <= k < |path| - 1 && path[k] == s && path[k + 1] == t {
        if k > 0 {
          assert path[1..][k - 1] == s && path[1..][k - 1 + 1] == t;
        }
      }
      if k :| 0 <= k < |path[1..]| - 1 && path[1..][k] == s && path[1..][k + 1] == t {
        assert path[k + 1] == s && path[k + 1 + 1] == t;
      }
    }
  }

  lemma {:induction false} ImpactEdgeFrom(chosen: seq<Option<seq<Node>>>, n: nat, s: Node, t: Node)
    requires n <= |chosen|
    ensures (s, t) in ImpactEdges(chosen, n) <==> exists i :: 0 <= i < n && chosen[i].Some? && (s, t) in Pairs(chosen[i].value)
  {
    if n > 0 {
      ImpactEdgeFrom(chosen, n - 1, s, t);
    }
  }

  lemma ImpactExactly(b: Bundle, root: Node, chosen: seq<Option<seq<Node>>>, s: Node, t: Node)
    requires ImpactPaths(b, root, chosen, |b.incident.affected|)
    ensures (s, t) in ImpactEdges(chosen, |chosen|) <==> OnImpactPath(b, root, s, t)
  {
    var p := Policy(SendsTrafficTo, Forward, 3);
    ImpactEdgeFrom(chosen, |chosen|, s, t);
    if i :| 0 <= i < |chosen| && chosen[i].Some? && (s, t) in Pairs(chosen[i].value) {
      PairExactly(chosen[i].value, s, t);
      assert PathAnswer(b.edges, p, root, b.incident.affected[i], chosen[i]);
      assert b.incident.affected[i] in b.incident.affected;
    }
    if OnImpactPath(b, root, s, t) {
      var a, w, k :| a in b.incident.affected && First(b.edges, p, w, root, a) && |w| <= 4 && 0 <= k < |w| - 1 && w[k] == s && w[k + 1] == t;
      var i :| 0 <= i < |b.incident.affected| && b.incident.affected[i] == a;
      FirstIsAnswer(b.edges, p, w, root, a);
      PathIsDetermined(b.edges, p, root, a, chosen[i], Some(w));
      PairExactly(w, s, t);
    }
  }

  lemma FirstIsAnswer(edges: seq<Edge>, p: Policy, w: seq<Node>, s: Node, t: Node)
    requires First(edges, p, w, s, t) && |w| - 1 <= p.maxHops
    ensures PathAnswer(edges, p, s, t, Some(w))
  {
    assert Joins(edges, p, w, s, t) && |w| - 1 <= p.maxHops;
  }

  lemma {:induction false} ListedEdge(edges: seq<Edge>, impact: set<(Node, Node)>, reachable: set<Node>, n: nat, e: Edge, state: Emphasis)
    requires n <= |edges|
    ensures EdgeState(e, state) in EdgeStatesUpTo(edges, impact, reachable, n) <==> e in edges[..n] && EdgeEmphasis(e, impact, reachable) == Some(state)
  {
    if n > 0 {
      ListedEdge(edges, impact, reachable, n - 1, e, state);
      assert edges[..n] == edges[..n - 1] + [edges[n - 1]];
    }
  }

  /** The edges listed are the traffic edges of the blast radius, those on an impact path as such. */
  lemma EdgesShown(b: Bundle, root: Node, nodeStates: seq<NodeState>, edgeStates: seq<EdgeState>, e: Edge, state: Emphasis)
    requires StatesAnswer(b, root, nodeStates, edgeStates)
    ensures EdgeState(e, state) in edgeStates <==> EdgeShown(b, root, e, state)
  {
    var chosen, reachable :| ImpactPaths(b, root, chosen, |b.incident.affected|)
                             && ReachableAnswer(b.edges, TrafficPolicy(STATE_HOPS), root, reachable)
                             && edgeStates == EdgeStatesUpTo(b.edges, ImpactEdges(chosen, |chosen|), ToSet(reachable), |b.edges|);
    ListedEdge(b.edges, ImpactEdges(chosen, |chosen|), ToSet(reachable), |b.edges|, e, state);
    assert b.edges[..|b.edges|] == b.edges;
    ImpactExactly(b, root, chosen, e.source, e.target);
  }
}
