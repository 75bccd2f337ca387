/** The analysis engine is a function of its input: whatever it returns for a bundle, a catalogue and a
    requirement matcher, it returns every time. */
module Determinism {
  import opened AnalysisEngine
  import opened CandidateGeneration
  import opened Common
  import opened RcaContracts
  import opened Scoring
  import opened Sorting
  import opened TypedGraph

  /** A published traffic path is as good as any, so another one is not better. */
  lemma NotShorter(b: Bundle, x: Node, w: seq<Node>, other: Option<seq<Node>>)
    requires TrafficImpact(b, x, Some(w)) && TrafficImpact(b, x, other)
    ensures other.Some? && !Shorter(other.value, w)
  {
    var t :| t in b.incident.affected && PathAnswer(b.edges, TrafficPolicy(2), x, t, Some(w));
    assert Within(b.edges, TrafficPolicy(2), x, t, 2);
  }

  /** The published traffic path is the only path that meets its description. */
  lemma TrafficImpactIsDetermined(b: Bundle, x: Node, one: Option<seq<Node>>, other: Option<seq<Node>>)
    requires TrafficImpact(b, x, one) && TrafficImpact(b, x, other)
    ensures one == other
  {
    if one.Some? {
      NotShorter(b, x, one.value, other);
    }
    if other.Some? {
      NotShorter(b, x, other.value, one);
      SameLength(one.value, other.value);
    }
  }

  lemma SameLength(v: seq<Node>, w: seq<Node>)
    requires !Shorter(v, w) && !Shorter(w, v)
    ensures v == w
  {
    ShorterIsTotal();
  }

  lemma TypedPathsAreDetermined(scored: seq<CandidateScore>, b: Bundle, one: map<string, seq<Node>>, other: map<string, seq<Node>>)
    requires TypedPathsAnswer(scored, b, one) && TypedPathsAnswer(scored, b, other)
    ensures one == other
  {
    var i := TypeIndex(scored, CONFIGURATION);
    if i < |scored| {
      TrafficImpactIsDetermined(b, scored[i].candidate.entity,
                                if TRAFFIC_IMPACT in one then Some(one[TRAFFIC_IMPACT]) else None,
                                if TRAFFIC_IMPACT in other then Some(other[TRAFFIC_IMPACT]) else None);
    }
    forall k ensures k in one <==> k in other {
      assert k in one || k in other ==> k in {TRAFFIC_IMPACT, DATABASE_DEPENDENCY};
    }
  }

  lemma ImpactPathsAreDetermined(b: Bundle, root: Node, one: seq<Option<seq<Node>>>, other: seq<Option<seq<Node>>>)
    requires ImpactPaths(b, root, one, |b.incident.affected|) && ImpactPaths(b, root, other, |b.incident.affected|)
    ensures one == other
  {
    forall i | 0 <= i < |one| ensures one[i] == other[i] {
      PathIsDetermined(b.edges, TrafficPolicy(STATE_HOPS), root, b.incident.affected[i], one[i], other[i]);
    }
  }

  lemma StatesAreDetermined(b: Bundle, root: Node, nodes: seq<NodeState>, edges: seq<EdgeState>, nodes': seq<NodeState>, edges': seq<EdgeState>)
    requires StatesAnswer(b, root, nodes, edges) && StatesAnswer(b, root, nodes', edges')
    ensures nodes == nodes' && edges == edges'
  {
    NodeStatesAreDetermined(b, root, nodes, nodes', edges, edges');
    EdgeStatesAreDetermined(b, root, nodes, nodes', edges, edges');
  }

  lemma NodeStatesAreDetermined(b: Bundle, root: Node, nodes: seq<NodeState>, nodes': seq<NodeState>, edges: seq<EdgeState>, edges': seq<EdgeState>)
    requires StatesAnswer(b, root, nodes, edges) && StatesAnswer(b, root, nodes', edges')
    ensures nodes == nodes'
  {
    var one: map<Node, Emphasis> :| (forall x :: StateIn(one, x) == StateOf(b, root, x)) && nodes == NodeStates(b.nodes, one);
    var other: map<Node, Emphasis> :| (forall x :: StateIn(other, x) == StateOf(b, root, x)) && nodes' == NodeStates(b.nodes, other);
    forall x ensures (x in one <==> x in other) && (x in one && x in other ==> one[x] == other[x]) {
      assert StateIn(one, x) == StateIn(other, x);
    }
    assert one == other;
  }

  lemma EdgeStatesAreDetermined(b: Bundle, root: Node, nodes: seq<NodeState>, nodes': seq<NodeState>, edges: seq<EdgeState>, edges': seq<EdgeState>)
    requires StatesAnswer(b, root, nodes, edges) && StatesAnswer(b, root, nodes', edges')
    ensures edges == edges'
  {
    var one, r :|
      && ImpactPaths(b, root, one, |b.incident.affected|) && ReachableAnswer(b.edges, TrafficPolicy(STATE_HOPS), root, r)
      && edges == EdgeStatesUpTo(b.edges, ImpactEdges(one, |one|), ToSet(r), |b.edges|);
    var other, q :|
      && ImpactPaths(b, root, other, |b.incident.affected|) && ReachableAnswer(b.edges, TrafficPolicy(STATE_HOPS), root, q)
      && edges' == EdgeStatesUpTo(b.edges, ImpactEdges(other, |other|), ToSet(q), |b.edges|);
    ImpactPathsAreDetermined(b, root, one, other);
    SameReach(b.edges, TrafficPolicy(STATE_HOPS), root, r, q);
  }

  lemma SameReach(edges: seq<Edge>, p: Policy, s: Node, one: seq<Node>, other: seq<Node>)
    requires ReachableAnswer(edges, p, s, one) && ReachableAnswer(edges, p, s, other)
    ensures ToSet(one) == ToSet(other)
  {
    forall x ensures x in one <==> x in other {
      assert x in one <==> Within(edges, p, s, x, p.maxHops);
    }
  }

  /** Two results for the same input are the same result: candidates, ranking, scores, conflicts, paths
      and topology states. */
  lemma EngineIsDetermined(c: Catalogue, b: Bundle, available: Availability, scored: seq<CandidateScore>, r: Computation,
                           scored': seq<CandidateScore>, r': Computation)
    requires ValidCatalogue(c) && Explains(c, b, available, scored, r) && Explains(c, b, available, scored', r')
    ensures scored == scored' && r == r'
  {
    AllScoredDetermined(c, b, Candidates(c, b), available, scored, scored');
    SameOrdered(c, b, available, scored, r, r');
  }

  lemma SameOrdered(c: Catalogue, b: Bundle, available: Availability, scored: seq<CandidateScore>, r: Computation, r': Computation)
    requires ValidCatalogue(c) && Explains(c, b, available, scored, r) && Explains(c, b, available, scored, r')
    ensures r == r'
  {
    TypedPathsAreDetermined(SortBy(scored, Merit(c)), b, r.typedPaths, r'.typedPaths);
    StatesAreDetermined(b, r.ranked[0].entity, r.nodeStates, r.edgeStates, r'.nodeStates, r'.edgeStates);
  }

  /** The published ranking runs from the best score down. */
  lemma ResultIsRankedByScore(c: Catalogue, b: Bundle, available: Availability, scored: seq<CandidateScore>, r: Computation, i: nat, j: nat)
    requires ValidCatalogue(c) && Explains(c, b, available, scored, r) && i < j < |r.ranked|
    ensures r.ranked[i].score >= r.ranked[j].score && r.ranked[i].rank < r.ranked[j].rank
  {
    GeneratedOnePerType(c, b, available, scored);
    RankedByScore(c, scored, i, j);
  }

  /** With a catalogue whose conflict patterns name factors of the rubric no candidate is refused, so the
      engine raises exactly when it generates no candidate. */
  lemma SupportedNeverRefused(c: Catalogue, b: Bundle, i: nat)
    requires ValidCatalogue(c) && FactorsSupported(c) && i < |Candidates(c, b)|
    ensures !Refused(c, b, Candidates(c, b)[i])
  {
    var x := Candidates(c, b)[i];
    GeneratedCandidates(c, b);
    assert Justified(c, b, x);
    var e := EntryIndex(c.hypotheses, x.hypothesisType);
    var entry := c.hypotheses[e];
    assert entry in c.hypotheses;
    forall k | 0 <= k < |Effects(Matched(entry.conflictPatterns, b))| ensures !Effects(Matched(entry.conflictPatterns, b))[k].factor.Unsupported? {
      var applied := Matched(entry.conflictPatterns, b)[k];
      MatchedFromCatalogue(entry.conflictPatterns, b, applied);
    }
  }

  method AnalyseSupported(c: Catalogue, b: Bundle, available: Availability) returns (r: Outcome<Computation, EngineError>)
    requires ValidBundle(b) && ValidCatalogue(c) && FactorsSupported(c)
    ensures r.Raised? <==> Candidates(c, b) == []
  {
    ghost var scored;
    r, scored := Analyse(c, b, available);
    forall i | 0 <= i < |Candidates(c, b)| ensures !Refused(c, b, Candidates(c, b)[i]) {
      SupportedNeverRefused(c, b, i);
    }
  }
}
