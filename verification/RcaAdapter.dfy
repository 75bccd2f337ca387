/** From the engine's pure result to publishable rows, and the publisher's check of them. */
module RcaAdapter {
  import opened AnalysisEngine
  import opened CandidateGeneration
  import opened Common
  import opened Contracts
  import opened Evidence
  import opened RcaContracts
  import opened Scoring
  import opened Sorting
  import opened TypedGraph
  import opened Wording
  import Explanation

  datatype HypothesisRow = HypothesisRow(
    id: string,
    runId: string,
    incidentId: string,
    hypothesisType: string,
    entity: Node,
    rank: nat,
    score: real,
    coverage: Coverage)

  datatype RecommendationRow = RecommendationRow(id: string, runId: string, incidentId: string, hypothesisId: string, stepId: string)

  datatype Publication = Publication(
    hypotheses: seq<HypothesisRow>,
    evidence: seq<Item>,
    recommendations: seq<RecommendationRow>,
    explanation: Explanation.Result,
    nodeStates: seq<NodeState>,
    edgeStates: seq<EdgeState>,
    typedPaths: map<string, seq<Node>>,
    conflictCodes: seq<string>,
    requirements: map<string, seq<string>>)

  datatype AdapterError =
    | NoHypotheses
    | NotInCatalogue
    | CoverageMismatch
    | UnknownEntity
    | MissingPlaybookStep
    | NotExplained

  /** What the adapter is set up with: the catalogue, the evidence rules, the playbooks, the cause
      labels, the hashed row ids and the explanation mode and provider. */
  datatype Setup = Setup(
    catalogue: Catalogue,
    rules: Rules,
    playbooks: Explanation.Playbooks,
    cause: string -> string,
    digest: string -> string,
    mode: Explanation.Mode,
    provider: Option<Explanation.Provider>)

  // ---------------------------------------------------------------- the rows of one hypothesis

  function RowOf(run: Explanation.Run, u: Setup, r: Ranked): HypothesisRow {
    HypothesisRow(u.digest(r.id), run.id, run.incidentId, r.hypothesisType, r.entity, r.rank, r.score, r.coverage)
  }

  function SubjectOf(run: Explanation.Run, u: Setup, r: Ranked): Subject {
    Subject(run.id, run.incidentId, u.digest(r.id), r.hypothesisType, r.entity)
  }

  function ConflictsOf(c: Computation, r: Ranked): seq<ConflictDraft> {
    Where(c.conflicts, (d: ConflictDraft) => d.hypothesisId == r.id)
  }

  /** The catalogue entry as the collector sees it, with the applied conflict effects when there are any. */
  function EntryFor(entry: Entry, c: Computation, r: Ranked): EvidenceEntry {
    var drafts := ConflictsOf(c, r);
    EvidenceEntry(
      entry.expectedEvidence,
      if drafts == [] then None else Some(Mapped(drafts, (d: ConflictDraft) => ConflictEffect(d.reasonCode, Some(d.sourceEventId)))),
      Mapped(entry.conflictPatterns, (p: ConflictPattern) => p.id))
  }

  function EvidenceOf(run: Explanation.Run, u: Setup, b: Bundle, c: Computation, r: Ranked): seq<Item> {
    var i := EntryIndex(u.catalogue.hypotheses, r.hypothesisType);
    if i == |u.catalogue.hypotheses| then []
    else Collected(u.rules, SubjectOf(run, u, r), Accepted(b.events), EntryFor(u.catalogue.hypotheses[i], c, r))
  }

  function KindOfNode(nodes: seq<TopologyNode>, x: Node): Option<string> {
    if nodes == [] then None else if nodes[0].id == x then Some(nodes[0].kind) else KindOfNode(nodes[1..], x)
  }

  predicate StepApplies(u: Setup, id: string, t: string, kind: string) {
    id in u.playbooks && t in u.playbooks[id].hypothesisTypes && kind in u.playbooks[id].entityTypes
  }

  function DeclaredSteps(entry: Entry): seq<string> {
    entry.diagnosticSteps + entry.remediationSteps
  }

  /** What a recommendation's row id is hashed from. */
  function StepKey(r: Ranked, id: string): string {
    r.id + "|" + id
  }

  function RecommendationsOf(run: Explanation.Run, u: Setup, r: Ranked): seq<RecommendationRow> {
    var i := EntryIndex(u.catalogue.hypotheses, r.hypothesisType);
    if i == |u.catalogue.hypotheses| then []
    else Mapped(DeclaredSteps(u.catalogue.hypotheses[i]), (id: string) => RecommendationRow(u.digest(StepKey(r, id)), run.id, run.incidentId, u.digest(r.id), id))
  }

  /** One hypothesis can be mapped: it is in the catalogue, its computed coverage is the collected one,
      its entity is known and its declared steps apply. */
  predicate Mappable(run: Explanation.Run, u: Setup, b: Bundle, c: Computation, r: Ranked) {
    var i := EntryIndex(u.catalogue.hypotheses, r.hypothesisType);
    && i < |u.catalogue.hypotheses|
    && var entry := u.catalogue.hypotheses[i];
       && CalculateCoverage(EntryFor(entry, c, r), EvidenceOf(run, u, b, c, r)) == r.coverage
       && KindOfNode(b.nodes, r.entity).Some?
       && forall id :: id in DeclaredSteps(entry) ==> StepApplies(u, id, r.hypothesisType, KindOfNode(b.nodes, r.entity).value)
  }

  /** What the explanation of the top hypothesis is checked against. */
  function FrameOf(run: Explanation.Run, u: Setup, b: Bundle, c: Computation, top: Ranked): Explanation.Frame {
    var i := EntryIndex(u.catalogue.hypotheses, top.hypothesisType);
    var steps := if i < |u.catalogue.hypotheses| then DeclaredSteps(u.catalogue.hypotheses[i]) else [];
    Explanation.Frame(run, SubjectOf(run, u, top), EvidenceOf(run, u, b, c, top), RecommendedSteps(u, steps), KindOfNode(b.nodes, top.entity), u.playbooks)
  }

  function RecommendedSteps(u: Setup, ids: seq<string>): seq<Explanation.Recommendation> {
    if ids == [] then []
    else if ids[0] in u.playbooks then [Explanation.Recommendation(ids[0], u.playbooks[ids[0]].stepType)] + RecommendedSteps(u, ids[1..])
    else RecommendedSteps(u, ids[1..])
  }

  method MissingStep(u: Setup, ids: seq<string>, t: string, kind: string) returns (missing: bool)
    ensures missing <==> !forall id :: id in ids ==> StepApplies(u, id, t, kind)
  {
    for i := 0 to |ids|
      invariant forall k :: 0 <= k < i ==> StepApplies(u, ids[k], t, kind)
    {
      if !StepApplies(u, ids[i], t, kind) {
        assert ids[i] in ids;
        return true;
      }
    }
    missing := false;
  }

  /** The rows one hypothesis contributes. */
  datatype Part = Part(row: HypothesisRow, evidence: seq<Item>, recommendations: seq<RecommendationRow>)

  ghost predicate PartOf(run: Explanation.Run, u: Setup, b: Bundle, c: Computation, r: Ranked, part: Part) {
    Mappable(run, u, b, c, r) && part == Part(RowOf(run, u, r), EvidenceOf(run, u, b, c, r), RecommendationsOf(run, u, r))
  }

  ghost function PartIn(run: Explanation.Run, u: Setup, b: Bundle, c: Computation): (Ranked, Part) -> bool {
    (r, part) => PartOf(run, u, b, c, r, part)
  }

  function RowsOf(parts: seq<Part>): seq<HypothesisRow> {
    Mapped(parts, (part: Part) => part.row)
  }

  function AllEvidence(parts: seq<Part>): seq<Item> {
    if parts == [] then [] else AllEvidence(parts[..|parts| - 1]) + parts[|parts| - 1].evidence
  }

  function AllRecommendations(parts: seq<Part>): seq<RecommendationRow> {
    if parts == [] then [] else AllRecommendations(parts[..|parts| - 1]) + parts[|parts| - 1].recommendations
  }

  lemma PartAppends(parts: seq<Part>, part: Part)
    ensures RowsOf(parts + [part]) == RowsOf(parts) + [part.row]
    ensures AllEvidence(parts + [part]) == AllEvidence(parts) + part.evidence
    ensures AllRecommendations(parts + [part]) == AllRecommendations(parts) + part.recommendations
  {
    assert (parts + [part])[..|parts|] == parts;
  }

  method MapHypothesis(run: Explanation.Run, u: Setup, b: Bundle, c: Computation, r: Ranked) returns (part: Outcome<Part, AdapterError>)
    ensures part.Ok? <==> Mappable(run, u, b, c, r)
    ensures part.Ok? ==> PartIn(run, u, b, c)(r, part.value)
  {
    var i := EntryIndex(u.catalogue.hypotheses, r.hypothesisType);
    if i == |u.catalogue.hypotheses| {
      return Raised(NotInCatalogue);
    }
    var entry := u.catalogue.hypotheses[i];
    var evidence := CollectEvidence(u.rules, SubjectOf(run, u, r), b.events, EntryFor(entry, c, r));
    if CalculateCoverage(EntryFor(entry, c, r), evidence) != r.coverage {
      return Raised(CoverageMismatch);
    }
    var kind := KindOfNode(b.nodes, r.entity);
    if kind.None? {
      return Raised(UnknownEntity);
    }
    var missing := MissingStep(u, DeclaredSteps(entry), r.hypothesisType, kind.value);
    if missing {
      return Raised(MissingPlaybookStep);
    }
    part := Ok(Part(RowOf(run, u, r), evidence, RecommendationsOf(run, u, r)));
  }

  predicate ByRank(a: Ranked, b: Ranked) {
    a.rank < b.rank
  }

  /** The mapping loop over the ranked hypotheses. */
  method MapAll(run: Explanation.Run, u: Setup, b: Bundle, c: Computation, ranked: seq<Ranked>)
    returns (error: Option<AdapterError>, hypotheses: seq<HypothesisRow>, evidence: seq<Item>, recommendations: seq<RecommendationRow>,
             ghost parts: seq<Part>)
    ensures error.Some? ==> exists i :: 0 <= i < |ranked| && !Mappable(run, u, b, c, ranked[i])
    ensures error.None? ==> |parts| == |ranked| && Pairwise(PartIn(run, u, b, c), ranked, parts)
    ensures error.None? ==> hypotheses == RowsOf(parts) && evidence == AllEvidence(parts) && recommendations == AllRecommendations(parts)
  {
    hypotheses, evidence, recommendations, parts := [], [], [], [];
    for i := 0 to |ranked|
      invariant |parts| == i && Pairwise(PartIn(run, u, b, c), ranked, parts)
      invariant hypotheses == RowsOf(parts) && evidence == AllEvidence(parts) && recommendations == AllRecommendations(parts)
    {
      var part := MapHypothesis(run, u, b, c, ranked[i]);
      if part.Raised? {
        error := Some(part.error);
        return;
      }
      PairwiseAppends(PartIn(run, u, b, c), ranked, parts, part.value);
      PartAppends(parts, part.value);
      hypotheses := hypotheses + [part.value.row];
      evidence := evidence + part.value.evidence;
      recommendations := recommendations + part.value.recommendations;
      parts := parts + [part.value];
    }
    error := None;
  }

  /** What the explanation step leaves: the template it started from and the provider calls made. */
  datatype Explained = Explained(template: Explanation.Output, calls: nat)

  ghost predicate ExplainedBy(u: Setup, frame: Explanation.Frame, e: Explained, r: Explanation.Result) {
    && Explanation.Verdict(frame, e.template, Some(frame.run.id), false, Explanation.Template).None?
    && Explanation.Served(frame, e.template, u.mode, u.provider, r, e.calls)
  }

  /** The template for the frame exists and passes its own validation. */
  predicate TemplateServes(u: Setup, frame: Explanation.Frame) {
    var template := Explanation.GenerateTemplate(frame.subject, frame.evidence, frame.recommendations, u.cause(frame.subject.hypothesisType));
    template.Ok? && Explanation.Verdict(frame, template.value, Some(frame.run.id), false, Explanation.Template).None?
  }

  method ExplainTop(u: Setup, frame: Explanation.Frame) returns (r: Option<Explanation.Result>, ghost e: Explained)
    ensures r.Some? ==> ExplainedBy(u, frame, e, r.value)
    ensures r.Some? <==> TemplateServes(u, frame)
  {
    var cause := u.cause(frame.subject.hypothesisType);
    var template := Explanation.GenerateTemplate(frame.subject, frame.evidence, frame.recommendations, cause);
    var explained, calls := Explanation.Generate(frame, cause, u.mode, u.provider);
    e := Explained(if template.Ok? then template.value else Explanation.Output("", "", "", Explanation.Template, "", [], [], []), calls);
    r := if explained.Raised? then None else Some(explained.value);
  }

  /** What the adapter returns: the rows of the parts, the engine's states, paths, codes and requirement
      keys unchanged, and an explanation of the best hypothesis. */
  ghost predicate PublicationOf(run: Explanation.Run, u: Setup, b: Bundle, c: Computation, parts: seq<Part>, e: Explained, p: Publication) {
    var ranked := SortBy(c.ranked, ByRank);
    && ranked != [] && |parts| == |ranked| && Pairwise(PartIn(run, u, b, c), ranked, parts)
    && p.hypotheses == RowsOf(parts) && p.evidence == AllEvidence(parts) && p.recommendations == AllRecommendations(parts)
    && p.nodeStates == c.nodeStates && p.edgeStates == c.edgeStates && p.typedPaths == c.typedPaths
    && p.conflictCodes == c.conflictCodes && p.requirements == c.requirements
    && ExplainedBy(u, FrameOf(run, u, b, c, ranked[0]), e, p.explanation)
  }

  function MappableIn(run: Explanation.Run, u: Setup, b: Bundle, c: Computation): Ranked -> bool {
    r => Mappable(run, u, b, c, r)
  }

  predicate All<T(!new)>(items: seq<T>, good: T -> bool) {
    forall k :: 0 <= k < |items| ==> good(items[k])
  }

  /** Every hypothesis can be mapped and the best one explained. */
  predicate Adaptable(run: Explanation.Run, u: Setup, b: Bundle, c: Computation) {
    var ranked := SortBy(c.ranked, ByRank);
    ranked != [] && All(ranked, MappableIn(run, u, b, c)) && TemplateServes(u, FrameOf(run, u, b, c, ranked[0]))
  }

  lemma AllMapped(run: Explanation.Run, u: Setup, b: Bundle, c: Computation, ranked: seq<Ranked>, parts: seq<Part>)
    requires |parts| == |ranked| && Pairwise(PartIn(run, u, b, c), ranked, parts)
    ensures All(ranked, MappableIn(run, u, b, c))
  {
    forall i | 0 <= i < |ranked| ensures MappableIn(run, u, b, c)(ranked[i]) {
      assert PartIn(run, u, b, c)(ranked[i], parts[i]);
    }
  }

  method ToPublication(run: Explanation.Run, u: Setup, b: Bundle, c: Computation)
    returns (r: Outcome<Publication, AdapterError>, ghost parts: seq<Part>, ghost e: Explained)
    ensures r.Ok? ==> PublicationOf(run, u, b, c, parts, e, r.value)
    ensures r.Ok? <==> Adaptable(run, u, b, c)
  {
    e := Explained(Explanation.Output("", "", "", Explanation.Template, "", [], [], []), 0);
    parts := [];
    if c.ranked == [] {
      return Raised(NoHypotheses), parts, e;
    }
    var ranked := SortBy(c.ranked, ByRank);
    SortedSize(c.ranked, ByRank);
    var error, hypotheses, evidence, recommendations;
    error, hypotheses, evidence, recommendations, parts := MapAll(run, u, b, c, ranked);
    if error.Some? {
      return Raised(error.value), parts, e;
    }
    AllMapped(run, u, b, c, ranked, parts);
    var explained;
    explained, e := ExplainTop(u, FrameOf(run, u, b, c, ranked[0]));
    if explained.None? {
      return Raised(NotExplained), parts, e;
    }
    r := Ok(Publication(hypotheses, evidence, recommendations, explained.value, c.nodeStates, c.edgeStates, c.typedPaths, c.conflictCodes, c.requirements));
  }

  // ---------------------------------------------------------------- the publisher's check

  function RowIds(rows: seq<HypothesisRow>): seq<string> {
    Mapped(rows, (r: HypothesisRow) => r.id)
  }

  function RowRanks(rows: seq<HypothesisRow>): seq<nat> {
    Mapped(rows, (r: HypothesisRow) => r.rank)
  }

  function StateNodes(states: seq<NodeState>): seq<Node> {
    Mapped(states, (s: NodeState) => s.id)
  }

  ghost predicate HypothesesPublishable(run: Explanation.Run, rows: seq<HypothesisRow>) {
    && Distinct(RowIds(rows)) && RanksConsecutive(RowRanks(rows))
    && forall i :: 0 <= i < |rows| ==> rows[i].runId == run.id && rows[i].incidentId == run.incidentId
  }

  ghost predicate EvidencePublishable(run: Explanation.Run, ids: seq<string>, evidence: seq<Item>) {
    forall item :: item in evidence ==> item.runId == run.id && item.incidentId == run.incidentId && item.hypothesisId in ids
  }

  ghost predicate RecommendationsPublishable(run: Explanation.Run, ids: seq<string>, rows: seq<RecommendationRow>) {
    forall row :: row in rows ==> row.runId == run.id && row.incidentId == run.incidentId && row.hypothesisId in ids
  }

  ghost predicate CodePublishable(known: set<string>, evidence: seq<Item>, code: string) {
    code in known && exists item :: item in evidence && item.kind.Conflicting? && item.reasonCode == code
  }

  /** Every declared conflict code is the catalogue's and has a conflicting evidence row. */
  ghost predicate CodesPublishable(known: set<string>, evidence: seq<Item>, codes: seq<string>) {
    forall code :: code in codes ==> CodePublishable(known, evidence, code)
  }

  ghost predicate RequirementsPublishable(rows: seq<HypothesisRow>, requirements: map<string, seq<string>>) {
    forall key :: key in requirements ==>
      && Distinct(requirements[key])
      && (key in RowIds(rows) || exists i :: 0 <= i < |rows| && rows[i].hypothesisType == key)
  }

  ghost predicate NodeStatesPublishable(nodes: seq<TopologyNode>, states: seq<NodeState>) {
    Distinct(StateNodes(states)) && forall x :: x in StateNodes(states) ==> NodeIn(nodes, x)
  }

  ghost predicate EdgeStatesPublishable(edges: seq<Edge>, states: seq<EdgeState>) {
    Distinct(EdgesOf(states)) && forall e :: e in EdgesOf(states) ==> e in edges
  }

  ghost predicate PathsPublishable(nodes: seq<TopologyNode>, paths: map<string, seq<Node>>) {
    forall name :: name in paths ==> name != "" && paths[name] != [] && forall x :: x in paths[name] ==> NodeIn(nodes, x)
  }

  /** The publisher's check of the analysis result, but for the repetition of edge states. */
  ghost predicate OtherwisePublishable(run: Explanation.Run, known: set<string>, b: Bundle, p: Publication) {
    && HypothesesPublishable(run, p.hypotheses)
    && EvidencePublishable(run, RowIds(p.hypotheses), p.evidence)
    && RecommendationsPublishable(run, RowIds(p.hypotheses), p.recommendations)
    && CodesPublishable(known, p.evidence, p.conflictCodes)
    && RequirementsPublishable(p.hypotheses, p.requirements)
    && NodeStatesPublishable(b.nodes, p.nodeStates)
    && (forall e :: e in EdgesOf(p.edgeStates) ==> e in b.edges)
    && PathsPublishable(b.nodes, p.typedPaths)
  }

  ghost predicate Publishable(run: Explanation.Run, known: set<string>, b: Bundle, p: Publication) {
    OtherwisePublishable(run, known, b, p) && EdgeStatesPublishable(b.edges, p.edgeStates)
  }

  /** The conflict codes of the catalogue. */
  ghost function KnownCodes(c: Catalogue): set<string> {
    set e, p | e in c.hypotheses && p in e.conflictPatterns :: p.id
  }

  // ---------------------------------------------------------------- known nodes

  /** The nodes of a walk that touches the topology anywhere are all known. */
  lemma WalkNodesKnown(b: Bundle, p: Policy, w: seq<Node>, s: Node, t: Node, i: nat)
    requires ValidTopology(b.nodes, b.edges) && Joins(b.edges, p, w, s, t) && i < |w|
    requires NodeIn(b.nodes, s) || NodeIn(b.nodes, t)
    ensures NodeIn(b.nodes, w[i])
  {
    if |w| > 1 {
      var k := if i + 1 < |w| then i else i - 1;
      assert Hop(b.edges, p, w[k], w[k + 1]);
      var e :| 0 <= e < |b.edges| && Carries(b.edges[e], p, w[k], w[k + 1]);
    }
  }

  lemma {:induction false} NodeStateIds(nodes: seq<TopologyNode>, states: map<Node, Emphasis>)
    requires forall i, j :: 0 <= i < j < |nodes| ==> nodes[i].id != nodes[j].id
    ensures Distinct(StateNodes(NodeStates(nodes, states)))
    ensures forall x :: x in StateNodes(NodeStates(nodes, states)) ==> NodeIn(nodes, x)
  {
    if nodes != [] {
      var rest := nodes[1..];
      assert forall i :: 0 <= i < |rest| ==> rest[i] == nodes[i + 1];
      NodeStateIds(rest, states);
      var tail := StateNodes(NodeStates(rest, states));
      forall x | x in tail ensures NodeIn(nodes, x) && x != nodes[0].id {
        assert NodeIn(rest, x);
        var i :| 0 <= i < |rest| && rest[i].id == x;
        assert nodes[i + 1].id == x;
      }
      if nodes[0].id in states {
        DistinctConcat([nodes[0].id], tail);
        assert StateNodes(NodeStates(nodes, states)) == [nodes[0].id] + tail;
        assert NodeIn(nodes, nodes[0].id);
      }
    }
  }

  lemma StatesKnown(b: Bundle, root: Node, nodeStates: seq<NodeState>, edgeStates: seq<EdgeState>)
    requires ValidTopology(b.nodes, b.edges) && StatesAnswer(b, root, nodeStates, edgeStates)
    ensures NodeStatesPublishable(b.nodes, nodeStates)
    ensures EdgesOf(edgeStates) == BlastEdges(b, root, b.edges)
    ensures forall e :: e in EdgesOf(edgeStates) ==> e in b.edges
    ensures EdgeStatesPublishable(b.edges, edgeStates) <==> NoRepeatedBlastEdge(b, root)
  {
    var states: map<Node, Emphasis> :| (forall x :: StateIn(states, x) == StateOf(b, root, x)) && nodeStates == NodeStates(b.nodes, states);
    NodeStateIds(b.nodes, states);
    BlastIsListed(b, root, nodeStates, edgeStates);
    assert b.edges[..|b.edges|] == b.edges;
    BlastDistinctExactly(b, root, |b.edges|);
    forall e | e in EdgesOf(edgeStates) ensures e in b.edges {
      BlastEdgeMembers(b, root, b.edges, e);
    }
  }

  lemma BlastIsListed(b: Bundle, root: Node, nodeStates: seq<NodeState>, edgeStates: seq<EdgeState>)
    requires StatesAnswer(b, root, nodeStates, edgeStates)
    ensures EdgesOf(edgeStates) == BlastEdges(b, root, b.edges)
  {
    var chosen, reachable :|
      && ImpactPaths(b, root, chosen, |b.incident.affected|)
      && ReachableAnswer(b.edges, TrafficPolicy(STATE_HOPS), root, reachable)
      && edgeStates == EdgeStatesUpTo(b.edges, ImpactEdges(chosen, |chosen|), ToSet(reachable), |b.edges|);
    ListedEdges(b, root, chosen, reachable, |b.edges|);
    assert b.edges[..|b.edges|] == b.edges;
  }

  /** A scored candidate and its topology path lie inside the topology. */
  ghost predicate Placed(b: Bundle, s: CandidateScore) {
    NodeIn(b.nodes, s.candidate.entity) && forall y :: y in s.path ==> NodeIn(b.nodes, y)
  }

  lemma JustifiedIsNode(c: Catalogue, b: Bundle, x: Candidate)
    requires Justified(c, b, x)
    ensures NodeIn(b.nodes, x.entity)
  {
    var i :| 0 <= i < |c.hypotheses| && c.hypotheses[i].hypothesisType == x.hypothesisType && Fits(c.hypotheses[i], b, x.entity);
    assert KindFits(c.hypotheses[i], b, x.entity);
    var n :| 0 <= n < |b.nodes| && b.nodes[n].id == x.entity && b.nodes[n].kind in c.hypotheses[i].entityTypes;
  }

  lemma NearestPathKnown(b: Bundle, p: Policy, origins: seq<Node>, target: Node, origin: Option<Node>, path: seq<Node>)
    requires ValidTopology(b.nodes, b.edges) && NodeIn(b.nodes, target) && Nearest(b.edges, p, origins, target, origin, path)
    ensures forall y :: y in path ==> NodeIn(b.nodes, y)
  {
    if origin.Some? {
      forall i | 0 <= i < |path| ensures NodeIn(b.nodes, path[i]) {
        WalkNodesKnown(b, p, path, origin.value, target, i);
      }
    }
  }

  lemma ScoredIsPlaced(c: Catalogue, b: Bundle, x: Candidate, available: Availability, s: CandidateScore)
    requires ValidBundle(b) && ValidCatalogue(c) && ScoredIn(c, b, available)(x, s) && NodeIn(b.nodes, x.entity)
    ensures s.candidate == x && Placed(b, s)
  {
    var entry := c.hypotheses[EntryIndex(c.hypotheses, x.hypothesisType)];
    assert ScoredBy(c, entry, b, x, available, s);
    NearestPathKnown(b, entry.traversal, TopologyOrigins(entry, b), x.entity, s.origin, s.path);
  }

  lemma OrderedPlaced(c: Catalogue, b: Bundle, available: Availability, scored: seq<CandidateScore>, i: nat)
    requires ValidBundle(b) && ValidCatalogue(c) && AllScored(c, b, Candidates(c, b), available, scored)
    requires i < |SortBy(scored, Merit(c))|
    ensures Placed(b, SortBy(scored, Merit(c))[i])
  {
    var s, cs := SortBy(scored, Merit(c))[i], Candidates(c, b);
    SortKeepsMembers(scored, Merit(c), s);
    var k :| 0 <= k < |scored| && scored[k] == s;
    assert ScoredIn(c, b, available)(cs[k], scored[k]);
    GeneratedCandidates(c, b);
    JustifiedIsNode(c, b, cs[k]);
    ScoredIsPlaced(c, b, cs[k], available, s);
  }

  lemma TrafficImpactKnown(b: Bundle, x: Node, w: seq<Node>)
    requires ValidTopology(b.nodes, b.edges) && NodeIn(b.nodes, x) && TrafficImpact(b, x, Some(w))
    ensures w != [] && forall y :: y in w ==> NodeIn(b.nodes, y)
  {
    var t :| t in b.incident.affected && PathAnswer(b.edges, TrafficPolicy(2), x, t, Some(w));
    forall i | 0 <= i < |w| ensures NodeIn(b.nodes, w[i]) {
      WalkNodesKnown(b, TrafficPolicy(2), w, x, t, i);
    }
  }

  lemma PathsKnown(b: Bundle, ordered: seq<CandidateScore>, paths: map<string, seq<Node>>)
    requires ValidBundle(b) && TypedPathsAnswer(ordered, b, paths) && forall i :: 0 <= i < |ordered| ==> Placed(b, ordered[i])
    ensures PathsPublishable(b.nodes, paths)
  {
    forall name | name in paths ensures name != "" && paths[name] != [] && forall x :: x in paths[name] ==> NodeIn(b.nodes, x) {
      assert TRAFFIC_IMPACT != "" && DATABASE_DEPENDENCY != "";
      if name == TRAFFIC_IMPACT {
        var i := TypeIndex(ordered, CONFIGURATION);
        TrafficImpactKnown(b, ordered[i].candidate.entity, paths[name]);
      } else {
        assert name == DATABASE_DEPENDENCY;
      }
    }
  }

  // ---------------------------------------------------------------- rows of the parts

  lemma RankedIsSorted(c: Catalogue, ordered: seq<CandidateScore>)
    ensures SortBy(RankedFrom(c, ordered), ByRank) == RankedFrom(c, ordered)
  {
    var ranked := RankedFrom(c, ordered);
    assert forall i :: 0 <= i < |ranked| ==> ranked[i].rank == i + 1;
    AscendingIsSorted(ranked);
  }

  lemma AscendingIsSorted(ranked: seq<Ranked>)
    requires forall i, j :: 0 <= i < j < |ranked| ==> ranked[i].rank < ranked[j].rank
    ensures SortBy(ranked, ByRank) == ranked
  {
    forall x, y | x in ranked && y in ranked ensures x == y || ByRank(x, y) || ByRank(y, x) {
      var i :| 0 <= i < |ranked| && ranked[i] == x;
      var j :| 0 <= j < |ranked| && ranked[j] == y;
      assert i == j || ranked[i].rank != ranked[j].rank;
    }
    SortByOrders(ranked, ByRank);
    AscendingIsOrdered(ranked);
    OrderedUnique(ranked, SortBy(ranked, ByRank), ByRank);
  }

  lemma {:induction false} AscendingIsOrdered(ranked: seq<Ranked>)
    requires forall i, j :: 0 <= i < j < |ranked| ==> ranked[i].rank < ranked[j].rank
    ensures Ordered(ranked, ByRank)
  {
    if ranked != [] {
      var rest := ranked[1..];
      assert forall i :: 0 <= i < |rest| ==> rest[i] == ranked[i + 1];
      AscendingIsOrdered(rest);
      forall y | y in rest ensures !ByRank(y, ranked[0]) {
        var i :| 0 <= i < |rest| && rest[i] == y;
      }
    }
  }

  lemma {:induction false} EvidenceHasPart(parts: seq<Part>, item: Item) returns (i: nat)
    requires item in AllEvidence(parts)
    ensures i < |parts| && item in parts[i].evidence
  {
    if item in parts[|parts| - 1].evidence {
      i := |parts| - 1;
    } else {
      i := EvidenceHasPart(parts[..|parts| - 1], item);
    }
  }

  lemma {:induction false} PartHasEvidence(parts: seq<Part>, i: nat, item: Item)
    requires i < |parts| && item in parts[i].evidence
    ensures item in AllEvidence(parts)
  {
    if i < |parts| - 1 {
      PartHasEvidence(parts[..|parts| - 1], i, item);
    }
  }

  lemma {:induction false} RecommendationHasPart(parts: seq<Part>, row: RecommendationRow) returns (i: nat)
    requires row in AllRecommendations(parts)
    ensures i < |parts| && row in parts[i].recommendations
  {
    if row in parts[|parts| - 1].recommendations {
      i := |parts| - 1;
    } else {
      i := RecommendationHasPart(parts[..|parts| - 1], row);
    }
  }

  lemma PartRow(run: Explanation.Run, u: Setup, b: Bundle, c: Computation, parts: seq<Part>, i: nat)
    requires Pairwise(PartIn(run, u, b, c), c.ranked, parts) && i < |parts|
    ensures parts[i].row == RowOf(run, u, c.ranked[i]) && parts[i].evidence == EvidenceOf(run, u, b, c, c.ranked[i])
    ensures parts[i].recommendations == RecommendationsOf(run, u, c.ranked[i])
    ensures u.digest(c.ranked[i].id) in RowIds(RowsOf(parts))
  {
    assert PartIn(run, u, b, c)(c.ranked[i], parts[i]);
    assert RowIds(RowsOf(parts))[i] == u.digest(c.ranked[i].id);
  }

  /** Distinct strings have distinct hashes. */
  ghost predicate Injective(digest: string -> string) {
    forall a, b :: digest(a) == digest(b) ==> a == b
  }

  lemma RowsArePublishable(run: Explanation.Run, u: Setup, b: Bundle, c: Computation, parts: seq<Part>)
    requires Injective(u.digest) && Distinct(RankedIds(c.ranked)) && RanksConsecutive(RanksOf(c.ranked))
    requires |parts| == |c.ranked| && Pairwise(PartIn(run, u, b, c), c.ranked, parts)
    ensures HypothesesPublishable(run, RowsOf(parts))
  {
    forall i | 0 <= i < |parts| ensures RowsOf(parts)[i] == RowOf(run, u, c.ranked[i]) {
      PartRow(run, u, b, c, parts, i);
    }
    forall i, j | 0 <= i < j < |parts| ensures RowIds(RowsOf(parts))[i] != RowIds(RowsOf(parts))[j] {
      assert RankedIds(c.ranked)[i] != RankedIds(c.ranked)[j];
    }
    assert RowRanks(RowsOf(parts)) == RanksOf(c.ranked);
  }

  lemma ItemIsPublishable(run: Explanation.Run, u: Setup, b: Bundle, c: Computation, parts: seq<Part>, item: Item)
    requires |parts| == |c.ranked| && Pairwise(PartIn(run, u, b, c), c.ranked, parts) && item in AllEvidence(parts)
    ensures item.runId == run.id && item.incidentId == run.incidentId && item.hypothesisId in RowIds(RowsOf(parts))
  {
    var i := EvidenceHasPart(parts, item);
    PartRow(run, u, b, c, parts, i);
    EvidenceScoped(run, u, b, c, c.ranked[i], item);
  }

  lemma StepIsPublishable(run: Explanation.Run, u: Setup, b: Bundle, c: Computation, parts: seq<Part>, row: RecommendationRow)
    requires |parts| == |c.ranked| && Pairwise(PartIn(run, u, b, c), c.ranked, parts) && row in AllRecommendations(parts)
    ensures row.runId == run.id && row.incidentId == run.incidentId && row.hypothesisId in RowIds(RowsOf(parts))
  {
    var i := RecommendationHasPart(parts, row);
    PartRow(run, u, b, c, parts, i);
  }

  lemma EvidenceIsPublishable(run: Explanation.Run, u: Setup, b: Bundle, c: Computation, parts: seq<Part>)
    requires |parts| == |c.ranked| && Pairwise(PartIn(run, u, b, c), c.ranked, parts)
    ensures EvidencePublishable(run, RowIds(RowsOf(parts)), AllEvidence(parts))
    ensures RecommendationsPublishable(run, RowIds(RowsOf(parts)), AllRecommendations(parts))
  {
    forall item | item in AllEvidence(parts)
      ensures item.runId == run.id && item.incidentId == run.incidentId && item.hypothesisId in RowIds(RowsOf(parts))
    {
      ItemIsPublishable(run, u, b, c, parts, item);
    }
    forall row | row in AllRecommendations(parts)
      ensures row.runId == run.id && row.incidentId == run.incidentId && row.hypothesisId in RowIds(RowsOf(parts))
    {
      StepIsPublishable(run, u, b, c, parts, row);
    }
  }

  lemma EvidenceScoped(run: Explanation.Run, u: Setup, b: Bundle, c: Computation, r: Ranked, item: Item)
    requires item in EvidenceOf(run, u, b, c, r)
    ensures item.runId == run.id && item.incidentId == run.incidentId && item.hypothesisId == u.digest(r.id)
  {
    var i := EntryIndex(u.catalogue.hypotheses, r.hypothesisType);
    ItemsAreScoped(u.rules, SubjectOf(run, u, r), Accepted(b.events), EntryFor(u.catalogue.hypotheses[i], c, r), item);
  }

  // ---------------------------------------------------------------- conflict codes

  lemma AcceptedKeepsIds(b: Bundle, id: string)
    requires ValidBundle(b) && Attached(b.events, id)
    ensures Attached(Accepted(b.events), id)
  {
    var i :| 0 <= i < |b.events| && b.events[i].id == id;
    assert IdsIdentify(b.events);
    ByIdMembers(b.events);
    SortKeepsMembers(ById(b.events), EarlierEvent, b.events[i]);
    var k :| 0 <= k < |Accepted(b.events)| && Accepted(b.events)[k] == b.events[i];
  }

  /** A drafted conflict is among the applied effects of its hypothesis, and so gets a conflicting item. */
  lemma DraftHasEvidence(run: Explanation.Run, u: Setup, b: Bundle, c: Computation, r: Ranked, d: ConflictDraft)
    requires ValidBundle(b) && d in c.conflicts && d.hypothesisId == r.id && d.reasonCode != "" && Attached(b.events, d.sourceEventId)
    requires EntryIndex(u.catalogue.hypotheses, r.hypothesisType) < |u.catalogue.hypotheses|
    ensures exists item :: item in EvidenceOf(run, u, b, c, r) && item.kind.Conflicting? && item.reasonCode == d.reasonCode
  {
    var entry := u.catalogue.hypotheses[EntryIndex(u.catalogue.hypotheses, r.hypothesisType)];
    var drafts := ConflictsOf(c, r);
    WhereMembers(c.conflicts, (x: ConflictDraft) => x.hypothesisId == r.id, d);
    var k :| 0 <= k < |drafts| && drafts[k] == d;
    assert EffectsOf(EntryFor(entry, c, r))[k] == ConflictEffect(d.reasonCode, Some(d.sourceEventId));
    AcceptedKeepsIds(b, d.sourceEventId);
    AppliedEffectsAppear(u.rules, SubjectOf(run, u, r), Accepted(b.events), EntryFor(entry, c, r), k);
  }

  lemma ConflictIsKnown(c: Catalogue, b: Bundle, available: Availability, scored: seq<CandidateScore>, m: nat, n: nat)
    requires ValidCatalogue(c) && AllScored(c, b, Candidates(c, b), available, scored)
    requires m < |SortBy(scored, Merit(c))| && n < |SortBy(scored, Merit(c))[m].conflicts|
    ensures SortBy(scored, Merit(c))[m].conflicts[n].pattern.id in KnownCodes(c)
  {
    var s := SortBy(scored, Merit(c))[m];
    SortKeepsMembers(scored, Merit(c), s);
    var k :| 0 <= k < |scored| && scored[k] == s;
    var x := Candidates(c, b)[k];
    assert ScoredIn(c, b, available)(x, scored[k]);
    var entry := c.hypotheses[EntryIndex(c.hypotheses, x.hypothesisType)];
    MatchedFromCatalogue(entry.conflictPatterns, b, s.conflicts[n]);
    assert entry in c.hypotheses && s.conflicts[n].pattern in entry.conflictPatterns;
  }

  lemma CodesArePublishable(run: Explanation.Run, u: Setup, b: Bundle, available: Availability, scored: seq<CandidateScore>, c: Computation, parts: seq<Part>)
    requires ValidBundle(b) && ValidCatalogue(u.catalogue) && Explains(u.catalogue, b, available, scored, c)
    requires |parts| == |c.ranked| && Pairwise(PartIn(run, u, b, c), c.ranked, parts)
    ensures CodesPublishable(KnownCodes(u.catalogue), AllEvidence(parts), c.conflictCodes)
  {
    forall d | d in c.conflicts ensures CodePublishable(KnownCodes(u.catalogue), AllEvidence(parts), d.reasonCode) {
      var m := DraftPlaced(u.catalogue, b, available, scored, c, d);
      CodeIsPublishable(run, u, b, c, parts, d, m);
    }
    CodesOfDrafts(KnownCodes(u.catalogue), AllEvidence(parts), c.conflicts);
  }

  lemma CodesOfDrafts(known: set<string>, evidence: seq<Item>, drafts: seq<ConflictDraft>)
    requires forall d :: d in drafts ==> CodePublishable(known, evidence, d.reasonCode)
    ensures CodesPublishable(known, evidence, Dedupe(Codes(drafts)))
  {
    forall code | code in Dedupe(Codes(drafts)) ensures CodePublishable(known, evidence, code) {
      assert code in Codes(drafts);
      var k :| 0 <= k < |drafts| && drafts[k].reasonCode == code;
      assert drafts[k] in drafts;
    }
  }

  /** A drafted conflict belongs to a ranked hypothesis of the catalogue. */
  lemma DraftPlaced(c: Catalogue, b: Bundle, available: Availability, scored: seq<CandidateScore>, r: Computation, d: ConflictDraft) returns (m: nat)
    requires ValidBundle(b) && ValidCatalogue(c) && Explains(c, b, available, scored, r) && d in r.conflicts
    ensures m < |r.ranked| && d.hypothesisId == r.ranked[m].id && EntryIndex(c.hypotheses, r.ranked[m].hypothesisType) < |c.hypotheses|
    ensures d.reasonCode in KnownCodes(c) && d.reasonCode != "" && Attached(b.events, d.sourceEventId)
  {
    var ordered := SortBy(scored, Merit(c));
    var n;
    m, n := DraftAt(ordered, |ordered|, d);
    ConflictIsKnown(c, b, available, scored, m, n);
    OrderedScores(c, b, r.candidates, available, scored, m);
    assert ordered[m].conflicts[n] in ordered[m].conflicts;
  }

  lemma CodeIsPublishable(run: Explanation.Run, u: Setup, b: Bundle, c: Computation, parts: seq<Part>, d: ConflictDraft, m: nat)
    requires ValidBundle(b) && d in c.conflicts && m < |c.ranked| && d.hypothesisId == c.ranked[m].id
    requires EntryIndex(u.catalogue.hypotheses, c.ranked[m].hypothesisType) < |u.catalogue.hypotheses|
    requires d.reasonCode in KnownCodes(u.catalogue) && d.reasonCode != "" && Attached(b.events, d.sourceEventId)
    requires |parts| == |c.ranked| && Pairwise(PartIn(run, u, b, c), c.ranked, parts)
    ensures CodePublishable(KnownCodes(u.catalogue), AllEvidence(parts), d.reasonCode)
  {
    var r := c.ranked[m];
    PartRow(run, u, b, c, parts, m);
    DraftHasEvidence(run, u, b, c, r, d);
    var item :| item in EvidenceOf(run, u, b, c, r) && item.kind.Conflicting? && item.reasonCode == d.reasonCode;
    PartHasEvidence(parts, m, item);
  }

  lemma RequirementsArePublishable(run: Explanation.Run, u: Setup, b: Bundle, c: Computation, ordered: seq<CandidateScore>, parts: seq<Part>)
    requires ValidCatalogue(u.catalogue) && c.ranked == RankedFrom(u.catalogue, ordered) && c.requirements == Requirements(u.catalogue, ordered)
    requires |parts| == |c.ranked| && Pairwise(PartIn(run, u, b, c), c.ranked, parts)
    ensures RequirementsPublishable(RowsOf(parts), c.requirements)
  {
    forall key | key in c.requirements
      ensures Distinct(c.requirements[key]) && exists i :: 0 <= i < |RowsOf(parts)| && RowsOf(parts)[i].hypothesisType == key
    {
      var i :| 0 <= i < |ordered| && ordered[i].candidate.hypothesisType == key;
      PartRow(run, u, b, c, parts, i);
      assert RowsOf(parts)[i].hypothesisType == key;
      KeysDistinct(u.catalogue, key);
    }
  }

  lemma KeysDistinct(c: Catalogue, t: string)
    requires ValidCatalogue(c)
    ensures Distinct(RequirementKeys(c, t))
  {
    var i := EntryIndex(c.hypotheses, t);
    if i < |c.hypotheses| {
      assert c.hypotheses[i] in c.hypotheses;
    }
  }

  // ---------------------------------------------------------------- end to end

  /** End-to-end acceptance. Whatever valid bundle and catalogue the engine was given, what the adapter
      maps its result to passes every publication check but one unconditionally, and passes that one,
      the repetition of edge states, exactly when the bundle's topology repeats no traffic edge of the
      suspected root's blast radius. The explanation rows pass theirs whatever the provider did. */
  lemma EngineOutputIsPublishable(run: Explanation.Run, u: Setup, b: Bundle, available: Availability, scored: seq<CandidateScore>,
                                  c: Computation, parts: seq<Part>, e: Explained, p: Publication)
    requires ValidBundle(b) && ValidCatalogue(u.catalogue) && Injective(u.digest)
    requires Explains(u.catalogue, b, available, scored, c) && PublicationOf(run, u, b, c, parts, e, p)
    ensures OtherwisePublishable(run, KnownCodes(u.catalogue), b, p)
    ensures Publishable(run, KnownCodes(u.catalogue), b, p) <==> NoRepeatedBlastEdge(b, c.ranked[0].entity)
    ensures Explanation.RowsPublishable(run.id, run.incidentId, RowIds(p.hypotheses), p.explanation.rows)
    ensures Explanation.FallbackConsistent(p.explanation)
  {
    var ordered := SortBy(scored, Merit(u.catalogue));
    RankedIsSorted(u.catalogue, ordered);
    RankedLabels(u.catalogue, ordered);
    RowsArePublishable(run, u, b, c, parts);
    EvidenceIsPublishable(run, u, b, c, parts);
    CodesArePublishable(run, u, b, available, scored, c, parts);
    RequirementsArePublishable(run, u, b, c, ordered, parts);
    StatesKnown(b, c.ranked[0].entity, p.nodeStates, p.edgeStates);
    forall i | 0 <= i < |ordered| ensures Placed(b, ordered[i]) {
      OrderedPlaced(u.catalogue, b, available, scored, i);
    }
    PathsKnown(b, ordered, p.typedPaths);
    ExplanationIsPublishable(run, u, b, c, parts, e, p);
  }

  lemma ExplanationIsPublishable(run: Explanation.Run, u: Setup, b: Bundle, c: Computation, parts: seq<Part>, e: Explained, p: Publication)
    requires PublicationOf(run, u, b, c, parts, e, p) && SortBy(c.ranked, ByRank) == c.ranked
    ensures Explanation.RowsPublishable(run.id, run.incidentId, RowIds(p.hypotheses), p.explanation.rows)
    ensures Explanation.FallbackConsistent(p.explanation)
  {
    PartRow(run, u, b, c, parts, 0);
    Explanation.ServiceResultPublishable(FrameOf(run, u, b, c, c.ranked[0]), e.template, u.mode, u.provider, p.explanation, e.calls, RowIds(p.hypotheses));
  }

  // ---------------------------------------------------------------- when the adapter succeeds

  /** What the adapter checks of one hypothesis at run time: the collector's coverage is the ranker's,
      and every declared playbook step applies. */
  ghost predicate Agrees(run: Explanation.Run, u: Setup, b: Bundle, c: Computation, r: Ranked) {
    var i := EntryIndex(u.catalogue.hypotheses, r.hypothesisType);
    i < |u.catalogue.hypotheses| ==>
      var entry := u.catalogue.hypotheses[i];
      && CalculateCoverage(EntryFor(entry, c, r), EvidenceOf(run, u, b, c, r)) == r.coverage
      && forall id, kind :: id in DeclaredSteps(entry) && KindOfNode(b.nodes, r.entity) == Some(kind) ==> StepApplies(u, id, r.hypothesisType, kind)
  }

  ghost function AgreesIn(run: Explanation.Run, u: Setup, b: Bundle, c: Computation): Ranked -> bool {
    r => Agrees(run, u, b, c, r)
  }

  lemma {:induction false} KindKnown(nodes: seq<TopologyNode>, x: Node)
    ensures KindOfNode(nodes, x).Some? <==> NodeIn(nodes, x)
  {
    if nodes != [] {
      KindKnown(nodes[1..], x);
      if NodeIn(nodes[1..], x) {
        var i :| 0 <= i < |nodes[1..]| && nodes[1..][i].id == x;
        assert nodes[i + 1].id == x;
      }
      if NodeIn(nodes, x) && nodes[0].id != x {
        var i :| 0 <= i < |nodes| && nodes[i].id == x;
        assert nodes[1..][i - 1].id == x;
      }
    }
  }

  /** The engine's hypotheses are the catalogue's, on known nodes. */
  lemma RankedAreKnown(c: Catalogue, b: Bundle, available: Availability, scored: seq<CandidateScore>, i: nat)
    requires ValidBundle(b) && ValidCatalogue(c) && AllScored(c, b, Candidates(c, b), available, scored)
    requires i < |SortBy(scored, Merit(c))|
    ensures var r := RankedFrom(c, SortBy(scored, Merit(c)))[i];
            EntryIndex(c.hypotheses, r.hypothesisType) < |c.hypotheses| && KindOfNode(b.nodes, r.entity).Some?
  {
    OrderedPlaced(c, b, available, scored, i);
    OrderedScores(c, b, Candidates(c, b), available, scored, i);
    KindKnown(b.nodes, SortBy(scored, Merit(c))[i].candidate.entity);
  }

  /** So mapping one fails only where the collector and the playbooks disagree with it. */
  lemma MappableExactly(run: Explanation.Run, u: Setup, b: Bundle, c: Computation, r: Ranked)
    requires EntryIndex(u.catalogue.hypotheses, r.hypothesisType) < |u.catalogue.hypotheses| && KindOfNode(b.nodes, r.entity).Some?
    ensures Mappable(run, u, b, c, r) <==> Agrees(run, u, b, c, r)
  {
  }

  lemma {:induction false} RecommendedFrom(u: Setup, ids: seq<string>, x: Explanation.Recommendation)
    requires x in RecommendedSteps(u, ids)
    ensures x.stepId in ids && x.stepId in u.playbooks && x.stepType == u.playbooks[x.stepId].stepType
  {
    if ids[0] in u.playbooks && x == Explanation.Recommendation(ids[0], u.playbooks[ids[0]].stepType) {
    } else {
      RecommendedFrom(u, ids[1..], x);
    }
  }

  /** The frame of a mappable hypothesis is one the template is made for. */
  lemma FrameIsServed(run: Explanation.Run, u: Setup, b: Bundle, c: Computation, r: Ranked)
    requires Mappable(run, u, b, c, r)
    ensures Explanation.OneScope(FrameOf(run, u, b, c, r)) && Explanation.Applicable(FrameOf(run, u, b, c, r))
  {
    var f, entry := FrameOf(run, u, b, c, r), u.catalogue.hypotheses[EntryIndex(u.catalogue.hypotheses, r.hypothesisType)];
    forall i | 0 <= i < |f.evidence| ensures InSubject(f.subject, f.evidence[i]) {
      ItemsAreScoped(u.rules, f.subject, Accepted(b.events), EntryFor(entry, c, r), f.evidence[i]);
    }
    forall x | x in f.recommendations ensures Explanation.CheckStep(f, x.stepId, x.stepType).None? {
      RecommendedFrom(u, DeclaredSteps(entry), x);
      var k :| 0 <= k < |f.recommendations| && f.recommendations[k] == x;
      assert Explanation.Recommended(f, x.stepId);
      assert StepApplies(u, x.stepId, r.hypothesisType, f.entityType.value);
    }
  }

  /** When the engine's result is published: the adapter maps it exactly when the collected coverage and
      the playbooks agree with every hypothesis and neither the top cause label nor the top entity id
      says "confirmed". */
  lemma EngineOutputIsAdaptedExactly(run: Explanation.Run, u: Setup, b: Bundle, available: Availability, scored: seq<CandidateScore>, c: Computation)
    requires ValidBundle(b) && ValidCatalogue(u.catalogue) && Explains(u.catalogue, b, available, scored, c)
    requires !Blank(u.cause(c.ranked[0].hypothesisType))
    ensures Adaptable(run, u, b, c) <==>
              && All(c.ranked, AgreesIn(run, u, b, c))
              && !Contains(Lower(u.cause(c.ranked[0].hypothesisType)), CONFIRMED) && !Contains(Lower(c.ranked[0].entity), CONFIRMED)
  {
    RankedIsSorted(u.catalogue, SortBy(scored, Merit(u.catalogue)));
    AllAgreeExactly(run, u, b, available, scored, c);
    AdaptedExactly(run, u, b, c);
  }

  lemma AllAgreeExactly(run: Explanation.Run, u: Setup, b: Bundle, available: Availability, scored: seq<CandidateScore>, c: Computation)
    requires ValidBundle(b) && ValidCatalogue(u.catalogue) && AllScored(u.catalogue, b, Candidates(u.catalogue, b), available, scored)
    requires c.ranked == RankedFrom(u.catalogue, SortBy(scored, Merit(u.catalogue)))
    ensures All(c.ranked, MappableIn(run, u, b, c)) <==> All(c.ranked, AgreesIn(run, u, b, c))
  {
    forall i | 0 <= i < |c.ranked| ensures MappableIn(run, u, b, c)(c.ranked[i]) <==> AgreesIn(run, u, b, c)(c.ranked[i]) {
      RankedAreKnown(u.catalogue, b, available, scored, i);
      MappableExactly(run, u, b, c, c.ranked[i]);
    }
  }

  lemma ServedExactly(run: Explanation.Run, u: Setup, b: Bundle, c: Computation, r: Ranked)
    requires MappableIn(run, u, b, c)(r) && !Blank(u.cause(r.hypothesisType))
    ensures TemplateServes(u, FrameOf(run, u, b, c, r)) <==>
              !Contains(Lower(u.cause(r.hypothesisType)), CONFIRMED) && !Contains(Lower(r.entity), CONFIRMED)
  {
    FrameIsServed(run, u, b, c, r);
    Explanation.TemplatePassesExactly(FrameOf(run, u, b, c, r), u.cause(r.hypothesisType));
  }

  lemma AdaptedExactly(run: Explanation.Run, u: Setup, b: Bundle, c: Computation)
    requires c.ranked != [] && SortBy(c.ranked, ByRank) == c.ranked && !Blank(u.cause(c.ranked[0].hypothesisType))
    ensures Adaptable(run, u, b, c) <==>
              && All(c.ranked, MappableIn(run, u, b, c))
              && !Contains(Lower(u.cause(c.ranked[0].hypothesisType)), CONFIRMED) && !Contains(Lower(c.ranked[0].entity), CONFIRMED)
  {
    if All(c.ranked, MappableIn(run, u, b, c)) {
      ServedExactly(run, u, b, c, c.ranked[0]);
    }
  }
}
