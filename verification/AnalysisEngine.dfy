/** The pure analysis engine: generation, ranking, typed paths and topology states, assembled into one
    result that passes every check of its own contract. */
module AnalysisEngine {
  import opened CandidateGeneration
  import opened Common
  import opened Contracts
  import opened Ranking
  import opened RcaContracts
  import opened Scoring
  import opened Sorting
  import opened TypedGraph
  import TopologySearch

  datatype EngineError = NoCandidates | ScoringFailed(error: ScoringError)

  // ---------------------------------------------------------------- ranked hypotheses and conflicts

  function SummaryOf(c: Catalogue, t: string): string {
    var i := EntryIndex(c.hypotheses, t);
    if i < |c.hypotheses| then c.hypotheses[i].summary else ""
  }

  function RankedAt(c: Catalogue, s: CandidateScore, i: nat): Ranked {
    Ranked(HypothesisLabel(i + 1), s.candidate.id, s.candidate.hypothesisType, s.candidate.entity, i + 1,
           s.score, s.coverage, s.factors, SummaryOf(c, s.candidate.hypothesisType))
  }

  function RankedFrom(c: Catalogue, scored: seq<CandidateScore>): (r: seq<Ranked>)
    ensures |r| == |scored| && forall i :: 0 <= i < |r| ==> r[i] == RankedAt(c, scored[i], i)
  {
    seq(|scored|, i requires 0 <= i < |scored| => RankedAt(c, scored[i], i))
  }

  function Draft(k: AppliedConflict, i: nat): ConflictDraft {
    ConflictDraft(HypothesisLabel(i + 1), k.sourceEventId, k.pattern.statement, k.pattern.id)
  }

  /** The conflict drafts of the first `n` hypotheses, best first. */
  function DraftsUpTo(scored: seq<CandidateScore>, n: nat): seq<ConflictDraft>
    requires n <= |scored|
  {
    if n == 0 then []
    else DraftsUpTo(scored, n - 1) + Mapped(scored[n - 1].conflicts, (k: AppliedConflict) => Draft(k, n - 1))
  }

  /** Every draft belongs to one conflict of one hypothesis. */
  lemma {:induction false} DraftAt(scored: seq<CandidateScore>, n: nat, d: ConflictDraft) returns (i: nat, j: nat)
    requires n <= |scored| && d in DraftsUpTo(scored, n)
    ensures i < n && j < |scored[i].conflicts| && d == Draft(scored[i].conflicts[j], i)
  {
    var last := Mapped(scored[n - 1].conflicts, (k: AppliedConflict) => Draft(k, n - 1));
    if d in last {
      i := n - 1;
      j :| j < |last| && last[j] == d;
    } else {
      i, j := DraftAt(scored, n - 1, d);
    }
  }

  /** Every conflict of every hypothesis is drafted. */
  lemma {:induction false} ConflictsDrafted(scored: seq<CandidateScore>, n: nat, i: nat, j: nat)
    requires i < n <= |scored| && j < |scored[i].conflicts|
    ensures Draft(scored[i].conflicts[j], i) in DraftsUpTo(scored, n)
  {
    if i == n - 1 {
      assert Mapped(scored[i].conflicts, (k: AppliedConflict) => Draft(k, i))[j] == Draft(scored[i].conflicts[j], i);
    } else {
      ConflictsDrafted(scored, n - 1, i, j);
    }
  }

  function RequirementKeys(c: Catalogue, t: string): seq<string> {
    var i := EntryIndex(c.hypotheses, t);
    if i < |c.hypotheses| then Mapped(c.hypotheses[i].expectedEvidence, (p: (string, string)) => p.0) else []
  }

  function Requirements(c: Catalogue, scored: seq<CandidateScore>): map<string, seq<string>> {
    map i | 0 <= i < |scored| :: scored[i].candidate.hypothesisType := RequirementKeys(c, scored[i].candidate.hypothesisType)
  }

  // ---------------------------------------------------------------- typed paths

  const CONFIGURATION := "configuration_regression"
  const DATABASE := "database_connection_exhaustion"
  const TRAFFIC_IMPACT := "configuration_traffic_impact"
  const DATABASE_DEPENDENCY := "database_dependency"

  function TrafficPolicy(hops: nat): Policy {
    Policy(SendsTrafficTo, Forward, hops)
  }

  /** Python compares tuples of strings item by item. */
  predicate TupleLess(a: seq<Node>, b: seq<Node>) {
    b != [] && (a == [] || StringLess(a[0], b[0]) || (a[0] == b[0] && TupleLess(a[1..], b[1..])))
  }

  predicate Shorter(a: seq<Node>, b: seq<Node>) {
    |a| < |b| || (|a| == |b| && TupleLess(a, b))
  }

  lemma {:induction false} TupleLessTrichotomy(a: seq<Node>, b: seq<Node>)
    ensures !TupleLess(a, a)
    ensures a == b || TupleLess(a, b) || TupleLess(b, a)
  {
    if a != [] {
      StringLessTrichotomy(a[0], a[0]);
      TupleLessTrichotomy(a[1..], if b != [] then b[1..] else []);
      if b != [] {
        StringLessTrichotomy(a[0], b[0]);
        assert a == [a[0]] + a[1..] && b == [b[0]] + b[1..];
      }
    }
  }

  lemma {:induction false} TupleLessTransitive(a: seq<Node>, b: seq<Node>, c: seq<Node>)
    requires TupleLess(a, b) && TupleLess(b, c)
    ensures TupleLess(a, c)
  {
    if a != [] {
      if StringLess(a[0], b[0]) && StringLess(b[0], c[0]) {
        StringLessTransitive(a[0], b[0], c[0]);
      } else if a[0] == b[0] == c[0] && TupleLess(a[1..], b[1..]) && TupleLess(b[1..], c[1..]) {
        TupleLessTransitive(a[1..], b[1..], c[1..]);
      }
    }
  }

  lemma ShorterIsTotal()
    ensures StrictTotal(Shorter)
  {
    forall a, b ensures !Shorter(a, a) && (a == b || Shorter(a, b) || Shorter(b, a)) {
      TupleLessTrichotomy(a, b);
    }
    forall a, b, c | Shorter(a, b) && Shorter(b, c) ensures Shorter(a, c) {
      if |a| == |b| == |c| {
        TupleLessTransitive(a, b, c);
      }
    }
  }

  function Longest(paths: seq<seq<Node>>): (r: seq<Node>)
    requires paths != []
    ensures r in paths && forall p :: p in paths ==> |p| <= |r|
  {
    if |paths| == 1 then paths[0]
    else
      assert paths == [paths[0]] + paths[1..];
      var rest := Longest(paths[1..]);
      if Shorter(paths[0], rest) then rest else paths[0]
  }

  /** Python's `max` by (length, path): no path comes after it. */
  lemma {:induction false} LongestIsLast(paths: seq<seq<Node>>, p: seq<Node>)
    requires p in paths
    ensures !Shorter(Longest(paths), p)
  {
    ShorterIsTotal();
    if |paths| > 1 {
      assert paths == [paths[0]] + paths[1..];
      if p in paths[1..] {
        LongestIsLast(paths[1..], p);
      }
    }
  }

  function TypeIndex(scored: seq<CandidateScore>, t: string): (r: nat)
    ensures r <= |scored|
    ensures r < |scored| ==> scored[r].candidate.hypothesisType == t
    ensures forall k :: 0 <= k < r ==> scored[k].candidate.hypothesisType != t
  {
    if scored == [] || scored[0].candidate.hypothesisType == t then 0 else 1 + TypeIndex(scored[1..], t)
  }

  /** The longest of the traffic paths from `x` to the affected entities, the last in order among equally
      long ones, when there is any. */
  ghost predicate TrafficImpact(b: Bundle, x: Node, path: Option<seq<Node>>) {
    var p := TrafficPolicy(2);
    match path
    case None => forall t :: t in b.incident.affected ==> !Within(b.edges, p, x, t, 2)
    case Some(w) =>
      && (exists t :: t in b.incident.affected && PathAnswer(b.edges, p, x, t, Some(w)))
      && (forall t, d: nat :: t in b.incident.affected && d <= 2 && IsDistance(b.edges, p, x, t, d) ==> d <= |w| - 1)
      && forall t, v :: t in b.incident.affected && PathAnswer(b.edges, p, x, t, Some(v)) ==> !Shorter(w, v)
  }

  ghost predicate PathsFound(b: Bundle, x: Node, n: nat, choices: seq<seq<Node>>)
    requires n <= |b.incident.affected|
  {
    && (forall w :: w in choices ==> exists t :: t in b.incident.affected && PathAnswer(b.edges, TrafficPolicy(2), x, t, Some(w)))
    && (forall j :: 0 <= j < n && Within(b.edges, TrafficPolicy(2), x, b.incident.affected[j], 2)
          ==> exists w :: w in choices && PathAnswer(b.edges, TrafficPolicy(2), x, b.incident.affected[j], Some(w)))
  }

  method TrafficPath(b: Bundle, x: Node) returns (path: Option<seq<Node>>)
    ensures TrafficImpact(b, x, path)
  {
    var choices: seq<seq<Node>> := [];
    for i := 0 to |b.incident.affected|
      invariant PathsFound(b, x, i, choices)
    {
      var target := b.incident.affected[i];
      var found := TopologySearch.Path(b.edges, x, target, TrafficPolicy(2));
      if found.Some? {
        PathsAppend(b, x, i, choices, found.value);
        choices := choices + [found.value];
      }
    }
    if choices == [] {
      return None;
    }
    path := Some(Longest(choices));
    forall t, d: nat | t in b.incident.affected && d <= 2 && IsDistance(b.edges, TrafficPolicy(2), x, t, d)
      ensures d <= |path.value| - 1
    {
      LongestReaches(b, x, choices, t, d);
    }
    forall t, v | t in b.incident.affected && PathAnswer(b.edges, TrafficPolicy(2), x, t, Some(v)) ensures !Shorter(path.value, v) {
      FoundAmong(b, x, choices, t, v);
      LongestIsLast(choices, v);
    }
  }

  lemma FoundFor(b: Bundle, x: Node, choices: seq<seq<Node>>, t: Node) returns (w: seq<Node>)
    requires PathsFound(b, x, |b.incident.affected|, choices) && t in b.incident.affected && Within(b.edges, TrafficPolicy(2), x, t, 2)
    ensures w in choices && PathAnswer(b.edges, TrafficPolicy(2), x, t, Some(w))
  {
    var j :| 0 <= j < |b.incident.affected| && b.incident.affected[j] == t;
    w :| w in choices && PathAnswer(b.edges, TrafficPolicy(2), x, t, Some(w));
  }

  lemma AnswerReaches(edges: seq<Edge>, p: Policy, x: Node, t: Node, w: seq<Node>, d: nat)
    requires PathAnswer(edges, p, x, t, Some(w)) && IsDistance(edges, p, x, t, d)
    ensures d <= |w| - 1
  {
    assert Within(edges, p, x, t, |w| - 1);
  }

  lemma FoundAmong(b: Bundle, x: Node, choices: seq<seq<Node>>, t: Node, v: seq<Node>)
    requires PathsFound(b, x, |b.incident.affected|, choices) && t in b.incident.affected
    requires PathAnswer(b.edges, TrafficPolicy(2), x, t, Some(v))
    ensures v in choices
  {
    var j :| 0 <= j < |b.incident.affected| && b.incident.affected[j] == t;
    var w :| w in choices && PathAnswer(b.edges, TrafficPolicy(2), x, b.incident.affected[j], Some(w));
    PathIsDetermined(b.edges, TrafficPolicy(2), x, t, Some(v), Some(w));
  }

  lemma PathsAppend(b: Bundle, x: Node, i: nat, choices: seq<seq<Node>>, path: seq<Node>)
    requires i < |b.incident.affected| && PathsFound(b, x, i, choices)
    requires PathAnswer(b.edges, TrafficPolicy(2), x, b.incident.affected[i], Some(path))
    ensures PathsFound(b, x, i + 1, choices + [path])
  {
    assert b.incident.affected[i] in b.incident.affected;
    var all := choices + [path];
    assert path in all;
    forall w | w in all ensures exists t :: t in b.incident.affected && PathAnswer(b.edges, TrafficPolicy(2), x, t, Some(w)) {
      if w != path {
        assert w in choices;
      }
    }
    forall j | 0 <= j < i + 1 && Within(b.edges, TrafficPolicy(2), x, b.incident.affected[j], 2)
      ensures exists w :: w in all && PathAnswer(b.edges, TrafficPolicy(2), x, b.incident.affected[j], Some(w))
    {
      if j < i {
        var w :| w in choices && PathAnswer(b.edges, TrafficPolicy(2), x, b.incident.affected[j], Some(w));
        assert w in all;
      }
    }
  }

  lemma LongestReaches(b: Bundle, x: Node, choices: seq<seq<Node>>, t: Node, d: nat)
    requires choices != [] && PathsFound(b, x, |b.incident.affected|, choices)
    requires t in b.incident.affected && d <= 2 && IsDistance(b.edges, TrafficPolicy(2), x, t, d)
    ensures d <= |Longest(choices)| - 1
  {
    WithinGrows(b.edges, TrafficPolicy(2), x, t, d, 2);
    var w := FoundFor(b, x, choices, t);
    AnswerReaches(b.edges, TrafficPolicy(2), x, t, w, d);
  }

  /** What the typed paths name. */
  ghost predicate TypedPathsAnswer(scored: seq<CandidateScore>, b: Bundle, paths: map<string, seq<Node>>) {
    var i, j := TypeIndex(scored, CONFIGURATION), TypeIndex(scored, DATABASE);
    && paths.Keys <= {TRAFFIC_IMPACT, DATABASE_DEPENDENCY}
    && (i == |scored| ==> TRAFFIC_IMPACT !in paths)
    && (i < |scored| ==> TrafficImpact(b, scored[i].candidate.entity, if TRAFFIC_IMPACT in paths then Some(paths[TRAFFIC_IMPACT]) else None))
    && (DATABASE_DEPENDENCY in paths <==> j < |scored| && scored[j].path != [])
    && (DATABASE_DEPENDENCY in paths ==> paths[DATABASE_DEPENDENCY] == scored[j].path)
  }

  method TypedPaths(scored: seq<CandidateScore>, b: Bundle) returns (paths: map<string, seq<Node>>)
    ensures TypedPathsAnswer(scored, b, paths)
  {
    paths := map[];
    var i := TypeIndex(scored, CONFIGURATION);
    if i < |scored| {
      var impact := TrafficPath(b, scored[i].candidate.entity);
      if impact.Some? {
        paths := paths[TRAFFIC_IMPACT := impact.value];
      }
    }
    var j := TypeIndex(scored, DATABASE);
    assert TRAFFIC_IMPACT[0] != DATABASE_DEPENDENCY[0];
    if j < |scored| && scored[j].path != [] {
      paths := paths[DATABASE_DEPENDENCY := scored[j].path];
    }
  }

  // ---------------------------------------------------------------- topology states

  const STATE_HOPS: nat := 3

  /** The state a node ends up with, whatever order the dictionary was filled in. */
  ghost function StateOf(b: Bundle, root: Node, x: Node): Option<Emphasis> {
    if x == root then Some(SuspectedRoot)
    else if x == b.incident.primary then Some(PrimaryAffected)
    else if x in b.incident.affected then Some(ImpactPath)
    else if Within(b.edges, TrafficPolicy(STATE_HOPS), root, x, STATE_HOPS) then Some(BlastRadius)
    else None
  }

  function StateIn(states: map<Node, Emphasis>, x: Node): Option<Emphasis> {
    if x in states then Some(states[x]) else None
  }

  /** The table after the affected and primary entities have been entered. */
  function Marked(b: Bundle, root: Node, x: Node): Option<Emphasis> {
    if b.incident.primary != root && x == b.incident.primary then Some(PrimaryAffected)
    else if x in b.incident.affected then Some(ImpactPath)
    else None
  }

  method MarkIncident(b: Bundle, root: Node) returns (states: map<Node, Emphasis>)
    ensures forall x :: StateIn(states, x) == Marked(b, root, x)
  {
    states := map[];
    for i := 0 to |b.incident.affected|
      invariant forall x :: StateIn(states, x) == if x in b.incident.affected[..i] then Some(ImpactPath) else None
    {
      assert b.incident.affected[..i + 1] == b.incident.affected[..i] + [b.incident.affected[i]];
      states := states[b.incident.affected[i] := ImpactPath];
    }
    assert b.incident.affected[..|b.incident.affected|] == b.incident.affected;
    if b.incident.primary != root {
      states := states[b.incident.primary := PrimaryAffected];
    }
  }

  method NodeStateTable(b: Bundle, root: Node, reachable: seq<Node>) returns (states: map<Node, Emphasis>)
    requires ReachableAnswer(b.edges, TrafficPolicy(STATE_HOPS), root, reachable)
    ensures forall x :: StateIn(states, x) == StateOf(b, root, x)
  {
    states := MarkIncident(b, root);
    for i := 0 to |reachable|
      invariant forall x :: StateIn(states, x) ==
                  if Marked(b, root, x).Some? then Marked(b, root, x) else if x in reachable[..i] then Some(BlastRadius) else None
    {
      assert reachable[..i + 1] == reachable[..i] + [reachable[i]];
      assert StateIn(states, reachable[i]) == if reachable[i] in states then Some(states[reachable[i]]) else None;
      if reachable[i] !in states {
        states := states[reachable[i] := BlastRadius];
      }
    }
    assert reachable[..|reachable|] == reachable;
    ghost var before := states;
    states := states[root := SuspectedRoot];
    forall x ensures StateIn(states, x) == StateOf(b, root, x) {
      assert StateIn(before, x) == if Marked(b, root, x).Some? then Marked(b, root, x) else if x in reachable then Some(BlastRadius) else None;
      assert x in reachable <==> Within(b.edges, TrafficPolicy(STATE_HOPS), root, x, STATE_HOPS);
    }
  }

  /** The listed nodes are the topology's nodes that have a state, in topology order. */
  function NodeStates(nodes: seq<TopologyNode>, states: map<Node, Emphasis>): seq<NodeState> {
    if nodes == [] then []
    else if nodes[0].id in states then [NodeState(nodes[0].id, states[nodes[0].id])] + NodeStates(nodes[1..], states)
    else NodeStates(nodes[1..], states)
  }

  /** The pairs of consecutive nodes, as Python's `zip(path, path[1:])`. */
  function Pairs(path: seq<Node>): set<(Node, Node)> {
    if |path| < 2 then {} else {(path[0], path[1])} + Pairs(path[1..])
  }

  lemma {:induction false} PairAt(path: seq<Node>, s: Node, t: Node) returns (i: nat)
    requires (s, t) in Pairs(path)
    ensures i + 1 < |path| && path[i] == s && path[i + 1] == t
  {
    if (s, t) == (path[0], path[1]) {
      i := 0;
    } else {
      var j := PairAt(path[1..], s, t);
      i := j + 1;
    }
  }

  /** The edges of the first `n` chosen impact paths. */
  function ImpactEdges(chosen: seq<Option<seq<Node>>>, n: nat): set<(Node, Node)>
    requires n <= |chosen|
  {
    if n == 0 then {}
    else ImpactEdges(chosen, n - 1) + (if chosen[n - 1].Some? then Pairs(chosen[n - 1].value) else {})
  }

  /** One shortest traffic path from the root to each affected entity within the bound. */
  ghost predicate ImpactPaths(b: Bundle, root: Node, chosen: seq<Option<seq<Node>>>, n: nat)
    requires n <= |b.incident.affected|
  {
    |chosen| == n && forall i :: 0 <= i < n ==> PathAnswer(b.edges, TrafficPolicy(STATE_HOPS), root, b.incident.affected[i], chosen[i])
  }

  method ImpactPathEdges(b: Bundle, root: Node) returns (impact: set<(Node, Node)>)
    ensures exists chosen :: ImpactPaths(b, root, chosen, |b.incident.affected|) && impact == ImpactEdges(chosen, |chosen|)
  {
    impact := {};
    ghost var chosen := [];
    for i := 0 to |b.incident.affected|
      invariant ImpactPaths(b, root, chosen, i) && impact == ImpactEdges(chosen, i)
    {
      var path := TopologySearch.Path(b.edges, root, b.incident.affected[i], TrafficPolicy(STATE_HOPS));
      ImpactEdgesPrefix(chosen, [path], i);
      chosen := chosen + [path];
      if path.None? {
        continue;
      }
      impact := impact + Pairs(path.value);
    }
  }

  lemma {:induction false} ImpactEdgesPrefix(chosen: seq<Option<seq<Node>>>, more: seq<Option<seq<Node>>>, n: nat)
    requires n <= |chosen|
    ensures ImpactEdges(chosen + more, n) == ImpactEdges(chosen, n)
  {
    if n > 0 {
      ImpactEdgesPrefix(chosen, more, n - 1);
    }
  }

  /** The state of one edge: on an impact path, else inside the traffic blast radius, else none. */
  function EdgeEmphasis(e: Edge, impact: set<(Node, Node)>, reachable: set<Node>): Option<Emphasis> {
    if e.relation.SendsTrafficTo? && (e.source, e.target) in impact then Some(ImpactPath)
    else if e.relation.SendsTrafficTo? && e.source in reachable && e.target in reachable then Some(BlastRadius)
    else None
  }

  function EdgeStatesUpTo(edges: seq<Edge>, impact: set<(Node, Node)>, reachable: set<Node>, n: nat): seq<EdgeState>
    requires n <= |edges|
  {
    if n == 0 then []
    else
      var before := EdgeStatesUpTo(edges, impact, reachable, n - 1);
      match EdgeEmphasis(edges[n - 1], impact, reachable)
      case None => before
      case Some(state) => before + [EdgeState(edges[n - 1], state)]
  }

  method EdgeStates(b: Bundle, impact: set<(Node, Node)>, reachable: set<Node>) returns (states: seq<EdgeState>)
    ensures states == EdgeStatesUpTo(b.edges, impact, reachable, |b.edges|)
  {
    states := [];
    for i := 0 to |b.edges|
      invariant states == EdgeStatesUpTo(b.edges, impact, reachable, i)
    {
      var edge := b.edges[i];
      if edge.relation.SendsTrafficTo? && (edge.source, edge.target) in impact {
        states := states + [EdgeState(edge, ImpactPath)];
      } else if edge.relation.SendsTrafficTo? && edge.source in reachable && edge.target in reachable {
        states := states + [EdgeState(edge, BlastRadius)];
      }
    }
  }

  /** An edge of the traffic blast radius: both ends within three traffic hops of the root. */
  ghost predicate InBlast(b: Bundle, root: Node, e: Edge) {
    && e.relation.SendsTrafficTo?
    && Within(b.edges, TrafficPolicy(STATE_HOPS), root, e.source, STATE_HOPS)
    && Within(b.edges, TrafficPolicy(STATE_HOPS), root, e.target, STATE_HOPS)
  }

  /** The edges that are listed: the topology's edges in the blast radius, in topology order. */
  ghost function BlastEdges(b: Bundle, root: Node, edges: seq<Edge>): seq<Edge> {
    if edges == [] then []
    else
      var before, last := BlastEdges(b, root, edges[..|edges| - 1]), edges[|edges| - 1];
      if InBlast(b, root, last) then before + [last] else before
  }

  function EdgesOf(states: seq<EdgeState>): seq<Edge> {
    Mapped(states, (s: EdgeState) => s.edge)
  }

  /** A node on a walk from the root is as close to the root as its place on the walk. */
  lemma OnWalkWithin(edges: seq<Edge>, p: Policy, w: seq<Node>, s: Node, t: Node, i: nat)
    requires Joins(edges, p, w, s, t) && i < |w| && |w| - 1 <= p.maxHops
    ensures Within(edges, p, s, w[i], p.maxHops)
  {
    WalkPrefix(edges, p, w, s, t, i + 1);
    assert Joins(edges, p, w[..i + 1], s, w[i]) && |w[..i + 1]| - 1 <= p.maxHops;
  }

  lemma {:induction false} ImpactEdgesInBlast(b: Bundle, root: Node, chosen: seq<Option<seq<Node>>>, n: nat, s: Node, t: Node)
    requires n <= |chosen| <= |b.incident.affected| && ImpactPaths(b, root, chosen, |chosen|)
    requires (s, t) in ImpactEdges(chosen, n)
    ensures InBlast(b, root, Edge(s, t, SendsTrafficTo))
  {
    if chosen[n - 1].Some? && (s, t) in Pairs(chosen[n - 1].value) {
      var w := chosen[n - 1].value;
      var i := PairAt(w, s, t);
      var p := TrafficPolicy(STATE_HOPS);
      OnWalkWithin(b.edges, p, w, root, b.incident.affected[n - 1], i);
      OnWalkWithin(b.edges, p, w, root, b.incident.affected[n - 1], i + 1);
    } else {
      ImpactEdgesInBlast(b, root, chosen, n - 1, s, t);
    }
  }

  /** Whichever shortest paths were chosen, the listed edges are exactly those of the blast radius. */
  lemma {:induction false} ListedEdges(b: Bundle, root: Node, chosen: seq<Option<seq<Node>>>, reachable: seq<Node>, n: nat)
    requires n <= |b.edges| && ImpactPaths(b, root, chosen, |b.incident.affected|)
    requires ReachableAnswer(b.edges, TrafficPolicy(STATE_HOPS), root, reachable)
    ensures EdgesOf(EdgeStatesUpTo(b.edges, ImpactEdges(chosen, |chosen|), ToSet(reachable), n)) == BlastEdges(b, root, b.edges[..n])
  {
    if n > 0 {
      ListedEdges(b, root, chosen, reachable, n - 1);
      var e := b.edges[n - 1];
      assert b.edges[..n][..n - 1] == b.edges[..n - 1];
      if e.relation.SendsTrafficTo? && (e.source, e.target) in ImpactEdges(chosen, |chosen|) {
        ImpactEdgesInBlast(b, root, chosen, |chosen|, e.source, e.target);
      }
      var before := EdgeStatesUpTo(b.edges, ImpactEdges(chosen, |chosen|), ToSet(reachable), n - 1);
      var emphasis := EdgeEmphasis(e, ImpactEdges(chosen, |chosen|), ToSet(reachable));
      assert emphasis.Some? <==> InBlast(b, root, e);
      if emphasis.Some? {
        assert EdgesOf(before + [EdgeState(e, emphasis.value)]) == EdgesOf(before) + [e];
      }
    }
  }

  ghost predicate NoRepeatedBlastEdge(b: Bundle, root: Node) {
    forall i, j :: 0 <= i < j < |b.edges| && InBlast(b, root, b.edges[i]) ==> b.edges[i] != b.edges[j]
  }

  lemma {:induction false} BlastEdgeMembers(b: Bundle, root: Node, edges: seq<Edge>, e: Edge)
    ensures e in BlastEdges(b, root, edges) <==> e in edges && InBlast(b, root, e)
  {
    if edges != [] {
      var init, last := edges[..|edges| - 1], edges[|edges| - 1];
      BlastEdgeMembers(b, root, init, e);
      assert edges == init + [last];
    }
  }

  /** An edge state is repeated exactly when the topology itself repeats a typed edge of the blast
      radius. The bundle's own validator does not exclude that; the topology loader does. */
  lemma {:induction false} BlastDistinctExactly(b: Bundle, root: Node, n: nat)
    requires n <= |b.edges|
    ensures Distinct(BlastEdges(b, root, b.edges[..n])) <==>
              forall i, j :: 0 <= i < j < n && InBlast(b, root, b.edges[i]) ==> b.edges[i] != b.edges[j]
  {
    if n > 0 {
      var init, last := b.edges[..n - 1], b.edges[n - 1];
      assert b.edges[..n][..n - 1] == init;
      BlastDistinctExactly(b, root, n - 1);
      BlastEdgeMembers(b, root, init, last);
      var before := BlastEdges(b, root, init);
      if InBlast(b, root, last) {
        DistinctAppends(before, last);
        if last in before {
          var i :| 0 <= i < n - 1 && init[i] == last;
          assert InBlast(b, root, b.edges[i]) && b.edges[i] == b.edges[n - 1];
        }
      }
    }
  }

  // ---------------------------------------------------------------- the engine

  /** What the engine's result says beyond being well formed. */
  ghost predicate Explains(c: Catalogue, b: Bundle, available: Availability, scored: seq<CandidateScore>, r: Computation)
    requires ValidCatalogue(c)
  {
    && r.candidates == Candidates(c, b) != []
    && AllScored(c, b, r.candidates, available, scored)
    && var ordered := SortBy(scored, Merit(c));
       && r.ranked == RankedFrom(c, ordered) && r.ranked != []
       && r.conflicts == DraftsUpTo(ordered, |ordered|)
       && r.conflictCodes == Dedupe(Codes(r.conflicts))
       && r.requirements == Requirements(c, ordered)
       && TypedPathsAnswer(ordered, b, r.typedPaths)
       && StatesAnswer(b, r.ranked[0].entity, r.nodeStates, r.edgeStates)
  }

  ghost predicate StatesAnswer(b: Bundle, root: Node, nodeStates: seq<NodeState>, edgeStates: seq<EdgeState>) {
    && (exists states: map<Node, Emphasis> ::
          (forall x :: StateIn(states, x) == StateOf(b, root, x)) && nodeStates == NodeStates(b.nodes, states))
    && (exists chosen, reachable ::
          && ImpactPaths(b, root, chosen, |b.incident.affected|)
          && ReachableAnswer(b.edges, TrafficPolicy(STATE_HOPS), root, reachable)
          && edgeStates == EdgeStatesUpTo(b.edges, ImpactEdges(chosen, |chosen|), ToSet(reachable), |b.edges|))
  }

  method TopologyStates(b: Bundle, root: Node) returns (nodeStates: seq<NodeState>, edgeStates: seq<EdgeState>)
    ensures StatesAnswer(b, root, nodeStates, edgeStates)
  {
    var reachable := TopologySearch.Reachable(b.edges, root, TrafficPolicy(STATE_HOPS));
    var states := NodeStateTable(b, root, reachable);
    var impact := ImpactPathEdges(b, root);
    nodeStates := NodeStates(b.nodes, states);
    edgeStates := EdgeStates(b, impact, ToSet(reachable));
  }

  method Analyse(c: Catalogue, b: Bundle, available: Availability)
    returns (r: Outcome<Computation, EngineError>, ghost scored: seq<CandidateScore>)
    requires ValidBundle(b) && ValidCatalogue(c)
    ensures r.Ok? ==> Explains(c, b, available, scored, r.value)
    ensures r.Raised? <==> Candidates(c, b) == [] || exists i :: 0 <= i < |Candidates(c, b)| && Refused(c, b, Candidates(c, b)[i])
  {
    scored := [];
    var candidates := Generate(c, b);
    if candidates == [] {
      return Raised(NoCandidates), scored;
    }
    var ranking;
    ranking, scored := Rank(c, b, candidates, available);
    if ranking.Raised? {
      return Raised(ScoringFailed(ranking.error)), scored;
    }
    var ordered := ranking.value;
    SortedSize(scored, Merit(c));
    var ranked := RankedFrom(c, ordered);
    var conflicts := DraftsUpTo(ordered, |ordered|);
    var paths := TypedPaths(ordered, b);
    var nodeStates, edgeStates := TopologyStates(b, ranked[0].entity);
    r := Ok(Computation(candidates, ranked, conflicts, Dedupe(Codes(conflicts)), nodeStates, edgeStates, paths, Requirements(c, ordered)));
  }

  lemma SortedSize<T>(items: seq<T>, less: (T, T) -> bool)
    ensures |SortBy(items, less)| == |items|
  {
    assert |multiset(SortBy(items, less))| == |multiset(items)|;
  }

  // ---------------------------------------------------------------- the result meets its contract

  /** What a scored candidate contributes to a well-formed result. */
  ghost predicate Sound(c: Catalogue, b: Bundle, s: CandidateScore) {
    && EntryIndex(c.hypotheses, s.candidate.hypothesisType) < |c.hypotheses|
    && InUnit(s.factors) && 0.0 <= s.score <= 100.0 && s.coverage.available <= s.coverage.expected
    && (forall k :: k in s.conflicts ==> k.pattern.id != "" && k.pattern.statement != "" && Attached(b.events, k.sourceEventId))
  }

  lemma ScoredFactorsInUnit(c: Catalogue, entry: Entry, b: Bundle, x: Node, path: seq<Node>, impact: set<Node>, effects: seq<Effect>)
    requires ValidBundle(b) && ValidEntry(c, entry) && Bounded(effects)
    requires Final(c, entry, b, x, path, impact, effects).Ok?
    ensures InUnit(Final(c, entry, b, x, path, impact, effects).value)
  {
    var readings := Read(c, entry, b, x, path, impact, effects != []);
    ReadInUnit(c, entry, b, x, path, impact, effects != []);
    TableInUnit(readings);
    EffectsOnlyLower(Table(readings), effects);
  }

  lemma ConflictsSound(c: Catalogue, entry: Entry, b: Bundle)
    requires ValidEntry(c, entry)
    ensures var matched := Matched(entry.conflictPatterns, b);
            && Bounded(Effects(matched))
            && forall k :: k in matched ==> k.pattern.id != "" && k.pattern.statement != "" && Attached(b.events, k.sourceEventId)
  {
    var matched := Matched(entry.conflictPatterns, b);
    forall k | k in matched
      ensures k.pattern.id != "" && k.pattern.statement != "" && Attached(b.events, k.sourceEventId) && 0.0 <= k.pattern.effect.amount <= 1.0
    {
      MatchedFromCatalogue(entry.conflictPatterns, b, k);
      SourceIsAttached(k.pattern, b);
    }
    forall i | 0 <= i < |matched| ensures 0.0 <= Effects(matched)[i].amount <= 1.0 {
      assert matched[i] in matched;
    }
  }

  lemma ScoredIsSound(c: Catalogue, b: Bundle, x: Candidate, available: Availability, s: CandidateScore)
    requires ValidBundle(b) && ValidCatalogue(c) && ScoredIn(c, b, available)(x, s)
    ensures s.candidate == x && Sound(c, b, s)
  {
    var i := EntryIndex(c.hypotheses, x.hypothesisType);
    var entry := c.hypotheses[i];
    assert ScoredBy(c, entry, b, x, available, s);
    ConflictsSound(c, entry, b);
    ScoredFactorsInUnit(c, entry, b, x.entity, s.path, Impact(entry, b, x.entity, s.path), Effects(s.conflicts));
    ScoreInRange(s.factors);
  }

  /** The sorted scores are the candidates' scores: sound, one for each candidate. */
  lemma OrderedScores(c: Catalogue, b: Bundle, candidates: seq<Candidate>, available: Availability, scored: seq<CandidateScore>, i: nat)
    requires ValidBundle(b) && ValidCatalogue(c) && AllScored(c, b, candidates, available, scored)
    requires i < |SortBy(scored, Merit(c))|
    ensures var s := SortBy(scored, Merit(c))[i];
            Sound(c, b, s) && s.candidate in candidates
  {
    var s := SortBy(scored, Merit(c))[i];
    SortKeepsMembers(scored, Merit(c), s);
    var k :| 0 <= k < |scored| && scored[k] == s;
    assert ScoredIn(c, b, available)(candidates[k], scored[k]);
    ScoredIsSound(c, b, candidates[k], available, s);
    assert candidates[k] in candidates;
  }

  lemma RankedLabels(c: Catalogue, scored: seq<CandidateScore>)
    ensures Distinct(RankedIds(RankedFrom(c, scored))) && RanksConsecutive(RanksOf(RankedFrom(c, scored)))
  {
    var ids := RankedIds(RankedFrom(c, scored));
    forall i, j | 0 <= i < j < |ids| ensures ids[i] != ids[j] {
      LabelsDiffer(i + 1, j + 1);
    }
    var ranks := RanksOf(RankedFrom(c, scored));
    assert ranks == seq(|ranks|, i requires 0 <= i < |ranks| => i + 1);
  }

  lemma CandidateLabelsDistinct(c: Catalogue, b: Bundle, cs: seq<Candidate>)
    requires WellGenerated(c, b, cs)
    ensures Distinct(CandidateIds(cs))
  {
    forall i, j | 0 <= i < j < |cs| ensures CandidateIds(cs)[i] != CandidateIds(cs)[j] {
      LabelsDiffer(i + 1, j + 1);
    }
  }

  lemma SummariesPresent(c: Catalogue, t: string)
    requires ValidCatalogue(c) && EntryIndex(c.hypotheses, t) < |c.hypotheses|
    ensures SummaryOf(c, t) != ""
  {
    assert c.hypotheses[EntryIndex(c.hypotheses, t)] in c.hypotheses;
  }

  lemma HypothesisLabelsAreText(n: nat)
    ensures HypothesisLabel(n) != ""
  {
    assert |HypothesisLabel(n)| >= 4;
  }

  /** Each score is sound and scores one of the candidates. */
  ghost predicate Backed(c: Catalogue, b: Bundle, candidates: seq<Candidate>, ordered: seq<CandidateScore>) {
    forall i :: 0 <= i < |ordered| ==> Sound(c, b, ordered[i]) && ordered[i].candidate in candidates
  }

  lemma OrderedBacked(c: Catalogue, b: Bundle, candidates: seq<Candidate>, available: Availability, scored: seq<CandidateScore>)
    requires ValidBundle(b) && ValidCatalogue(c) && AllScored(c, b, candidates, available, scored)
    ensures Backed(c, b, candidates, SortBy(scored, Merit(c)))
  {
    forall i | 0 <= i < |SortBy(scored, Merit(c))|
      ensures Sound(c, b, SortBy(scored, Merit(c))[i]) && SortBy(scored, Merit(c))[i].candidate in candidates
    {
      OrderedScores(c, b, candidates, available, scored, i);
    }
  }

  lemma RankedValid(c: Catalogue, b: Bundle, candidates: seq<Candidate>, ordered: seq<CandidateScore>, i: nat)
    requires ValidCatalogue(c) && Backed(c, b, candidates, ordered) && i < |ordered|
    ensures ValidRanked(RankedAt(c, ordered[i], i)) && MatchesCandidate(RankedAt(c, ordered[i], i), candidates)
  {
    SummariesPresent(c, ordered[i].candidate.hypothesisType);
    HypothesisLabelsAreText(i + 1);
    var k :| 0 <= k < |candidates| && candidates[k] == ordered[i].candidate;
    var x := candidates[k];
    assert x == Candidate(x.id, x.hypothesisType, x.entity);
  }

  lemma DraftValid(c: Catalogue, b: Bundle, candidates: seq<Candidate>, ordered: seq<CandidateScore>, d: ConflictDraft)
    requires Backed(c, b, candidates, ordered) && d in DraftsUpTo(ordered, |ordered|)
    ensures d.hypothesisId in RankedIds(RankedFrom(c, ordered)) && d.reasonCode != "" && d.statement != ""
  {
    var m, n := DraftAt(ordered, |ordered|, d);
    assert ordered[m].conflicts[n] in ordered[m].conflicts;
    assert RankedIds(RankedFrom(c, ordered))[m] == HypothesisLabel(m + 1);
  }

  lemma RequirementKeysKnown(c: Catalogue, ordered: seq<CandidateScore>, key: string)
    requires key in Requirements(c, ordered)
    ensures exists i :: 0 <= i < |RankedFrom(c, ordered)| && RankedFrom(c, ordered)[i].hypothesisType == key
  {
    var i :| 0 <= i < |ordered| && ordered[i].candidate.hypothesisType == key;
    assert RankedFrom(c, ordered)[i].hypothesisType == key;
  }

  lemma TypedPathsNotEmpty(scored: seq<CandidateScore>, b: Bundle, paths: map<string, seq<Node>>, key: string)
    requires TypedPathsAnswer(scored, b, paths) && key in paths
    ensures |paths[key]| >= 1
  {
  }

  /** Whatever the bundle and the catalogue, a result of the engine passes the checks of its own
      contract: labels and ranks, matching candidates, conflict references and codes, requirement
      keys, non-empty paths. */
  lemma ResultIsValid(c: Catalogue, b: Bundle, available: Availability, scored: seq<CandidateScore>, r: Computation)
    requires ValidBundle(b) && ValidCatalogue(c) && Explains(c, b, available, scored, r)
    ensures ValidComputation(r)
  {
    var ordered := SortBy(scored, Merit(c));
    GeneratedCandidates(c, b);
    CandidateLabelsDistinct(c, b, r.candidates);
    OrderedBacked(c, b, r.candidates, available, scored);
    BackedIsValid(c, b, ordered, r);
  }

  lemma BackedIsValid(c: Catalogue, b: Bundle, ordered: seq<CandidateScore>, r: Computation)
    requires ValidCatalogue(c) && Backed(c, b, r.candidates, ordered) && Distinct(CandidateIds(r.candidates))
    requires r.ranked == RankedFrom(c, ordered) && r.conflicts == DraftsUpTo(ordered, |ordered|)
    requires r.conflictCodes == Dedupe(Codes(r.conflicts)) && r.requirements == Requirements(c, ordered)
    requires TypedPathsAnswer(ordered, b, r.typedPaths)
    ensures ValidComputation(r)
  {
    RankedLabels(c, ordered);
    forall i | 0 <= i < |r.ranked| ensures ValidRanked(r.ranked[i]) && MatchesCandidate(r.ranked[i], r.candidates) {
      RankedValid(c, b, r.candidates, ordered, i);
    }
    forall i | 0 <= i < |r.conflicts|
      ensures r.conflicts[i].hypothesisId in RankedIds(r.ranked) && r.conflicts[i].reasonCode != "" && r.conflicts[i].statement != ""
    {
      DraftValid(c, b, r.candidates, ordered, r.conflicts[i]);
    }
    forall key | key in r.requirements ensures exists i :: 0 <= i < |r.ranked| && r.ranked[i].hypothesisType == key {
      RequirementKeysKnown(c, ordered, key);
    }
    forall key | key in r.typedPaths ensures |r.typedPaths[key]| >= 1 {
      TypedPathsNotEmpty(ordered, b, r.typedPaths, key);
    }
  }
}
