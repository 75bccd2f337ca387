/** The values at the boundary of the analysis engine, the hypothesis catalogue, and the checks their
    constructors make. */
module RcaContracts {
  import opened Common
  import opened Contracts
  import opened TypedGraph
  import opened Ranking

  // ---------------------------------------------------------------- the incident bundle

  datatype Incident = Incident(id: string, primary: Node, affected: seq<Node>)

  datatype TopologyNode = TopologyNode(id: Node, kind: string)

  datatype HistoricalMatch = HistoricalMatch(cause: string, similarity: real)

  datatype Bundle = Bundle(
    incident: Incident,
    events: seq<CanonicalEvent>,
    anomalies: seq<AnomalyRecord>,
    excludedIds: seq<string>,
    nodes: seq<TopologyNode>,
    edges: seq<Edge>,
    history: seq<HistoricalMatch>)

  predicate NodeIn(nodes: seq<TopologyNode>, x: Node) {
    exists i :: 0 <= i < |nodes| && nodes[i].id == x
  }

  predicate Attached(events: seq<CanonicalEvent>, id: string) {
    exists i :: 0 <= i < |events| && events[i].id == id
  }

  ghost predicate ValidTopology(nodes: seq<TopologyNode>, edges: seq<Edge>) {
    && (forall i, j :: 0 <= i < j < |nodes| ==> nodes[i].id != nodes[j].id)
    && (forall i :: 0 <= i < |edges| ==>
          edges[i].source != edges[i].target && NodeIn(nodes, edges[i].source) && NodeIn(nodes, edges[i].target))
  }

  ghost predicate ValidBundle(b: Bundle) {
    && ValidTopology(b.nodes, b.edges)
    && (forall i, j :: 0 <= i < j < |b.events| ==> b.events[i].id != b.events[j].id)
    && (forall id :: id in b.excludedIds ==> !Attached(b.events, id))
    && (forall a :: a in b.anomalies ==> Attached(b.events, a.eventId) && 0.0 <= a.score <= 1.0)
    && (forall h :: h in b.history ==> 0.0 <= h.similarity <= 1.0)
  }

  // ---------------------------------------------------------------- the hypothesis catalogue

  datatype Selector = ChangedEntity | PrimaryEntity | ReferencedDependency | EventEntity

  datatype GenerationRule = GenerationRule(
    selector: Selector,
    requiresRecentChange: bool,
    anyAnomalyTypes: set<string>,
    anyLogEventTypes: set<string>,
    anyEventTypes: set<string>)

  datatype Pattern = Pattern(
    anomalyTypes: set<string>,
    eventTypes: set<string>,
    trueKeys: set<string>,
    minimum: Option<real>,
    maximum: Option<real>,
    absentAnomalyTypes: set<string>)

  datatype ConflictPattern = ConflictPattern(id: string, effect: Effect, pattern: Pattern, statement: string)

  datatype Entry = Entry(
    hypothesisType: string,
    entityTypes: set<string>,
    traversal: Policy,
    generation: GenerationRule,
    changeBased: bool,
    plausibleChangeKeys: set<string>,
    originEventTypes: set<string>,
    metricAnomalyTypes: set<string>,
    requiredSymptoms: seq<string>,
    expectedPropagation: seq<string>,
    expectedEvidence: seq<(string, string)>,
    conflictPatterns: seq<ConflictPattern>,
    summary: string,
    diagnosticSteps: seq<string>,
    remediationSteps: seq<string>)

  datatype Catalogue = Catalogue(symptoms: map<string, Pattern>, propagation: map<string, Pattern>, hypotheses: seq<Entry>)

  ghost predicate ValidEntry(c: Catalogue, e: Entry) {
    && e.hypothesisType != "" && e.summary != "" && e.traversal.maxHops >= 1
    && (forall s :: s in e.requiredSymptoms ==> s in c.symptoms)
    && (forall s :: s in e.expectedPropagation ==> s in c.propagation)
    && (forall p :: p in e.conflictPatterns ==> p.id != "" && p.statement != "" && 0.0 <= p.effect.amount <= 1.0)
    && (forall i, j :: 0 <= i < j < |e.expectedEvidence| ==> e.expectedEvidence[i].0 != e.expectedEvidence[j].0)
  }

  ghost predicate ValidCatalogue(c: Catalogue) {
    && (forall i, j :: 0 <= i < j < |c.hypotheses| ==> c.hypotheses[i].hypothesisType != c.hypotheses[j].hypothesisType)
    && (forall e :: e in c.hypotheses ==> ValidEntry(c, e))
  }

  /** Every conflict pattern names a factor of the rubric. The catalogue's own validator does not
      check this; the ranker refuses the first matched pattern that does not. */
  ghost predicate FactorsSupported(c: Catalogue) {
    forall e, p :: e in c.hypotheses && p in e.conflictPatterns ==> !p.effect.factor.Unsupported?
  }

  // ---------------------------------------------------------------- the engine's result

  datatype Candidate = Candidate(id: string, hypothesisType: string, entity: Node)

  datatype Coverage = Coverage(available: nat, expected: nat)

  datatype Ranked = Ranked(
    id: string,
    candidateId: string,
    hypothesisType: string,
    entity: Node,
    rank: nat,
    score: real,
    coverage: Coverage,
    factors: Factors,
    summary: string)

  datatype ConflictDraft = ConflictDraft(hypothesisId: string, sourceEventId: string, statement: string, reasonCode: string)

  datatype Emphasis = SuspectedRoot | PrimaryAffected | ImpactPath | BlastRadius

  datatype NodeState = NodeState(id: Node, state: Emphasis)

  datatype EdgeState = EdgeState(edge: Edge, state: Emphasis)

  datatype Computation = Computation(
    candidates: seq<Candidate>,
    ranked: seq<Ranked>,
    conflicts: seq<ConflictDraft>,
    conflictCodes: seq<string>,
    nodeStates: seq<NodeState>,
    edgeStates: seq<EdgeState>,
    typedPaths: map<string, seq<Node>>,
    requirements: map<string, seq<string>>)

  function CandidateIds(c: seq<Candidate>): seq<string> {
    Mapped(c, (x: Candidate) => x.id)
  }

  function RankedIds(r: seq<Ranked>): seq<string> {
    Mapped(r, (x: Ranked) => x.id)
  }

  function Codes(d: seq<ConflictDraft>): seq<string> {
    Mapped(d, (x: ConflictDraft) => x.reasonCode)
  }

  /** `sorted(ranks) == [1, ..., n]`: as many ranks as hypotheses, each of 1..n used. */
  ghost predicate RanksConsecutive(ranks: seq<nat>) {
    multiset(ranks) == multiset(seq(|ranks|, i requires 0 <= i < |ranks| => i + 1))
  }

  function RanksOf(r: seq<Ranked>): seq<nat> {
    Mapped(r, (x: Ranked) => x.rank)
  }

  ghost predicate ValidRanked(r: Ranked) {
    && r.id != "" && r.summary != "" && r.rank >= 1 && 0.0 <= r.score <= 100.0
    && InUnit(r.factors) && r.coverage.available <= r.coverage.expected
  }

  ghost predicate MatchesCandidate(r: Ranked, candidates: seq<Candidate>) {
    exists i :: 0 <= i < |candidates| && candidates[i] == Candidate(r.candidateId, r.hypothesisType, r.entity)
  }

  /** The field checks and `validate_result_graph` of the engine's result. */
  ghost predicate ValidComputation(c: Computation) {
    && Distinct(CandidateIds(c.candidates))
    && Distinct(RankedIds(c.ranked))
    && RanksConsecutive(RanksOf(c.ranked))
    && (forall i :: 0 <= i < |c.ranked| ==> ValidRanked(c.ranked[i]) && MatchesCandidate(c.ranked[i], c.candidates))
    && (forall i :: 0 <= i < |c.conflicts| ==>
          c.conflicts[i].hypothesisId in RankedIds(c.ranked) && c.conflicts[i].reasonCode != "" && c.conflicts[i].statement != "")
    && c.conflictCodes == Dedupe(Codes(c.conflicts))
    && (forall key :: key in c.requirements ==>
          key in RankedIds(c.ranked) || exists i :: 0 <= i < |c.ranked| && c.ranked[i].hypothesisType == key)
    && (forall key :: key in c.typedPaths ==> |c.typedPaths[key]| >= 1)
  }

  // ---------------------------------------------------------------- numbered labels

  function DigitOf(d: nat): char
    requires d < 10
  {
    ('0' as int + d) as char
  }

  function Digits(n: nat): string {
    if n < 10 then [DigitOf(n)] else Digits(n / 10) + [DigitOf(n % 10)]
  }

  /** The format `03d`: decimal digits, zero-padded to three places. */
  function Padded(n: nat): string {
    if n < 10 then "00" + Digits(n) else if n < 100 then "0" + Digits(n) else Digits(n)
  }

  function NumberOf(s: string): int {
    if s == [] then 0 else 10 * NumberOf(s[..|s| - 1]) + (s[|s| - 1] as int - '0' as int)
  }

  lemma {:induction false} DigitsRead(n: nat)
    ensures NumberOf(Digits(n)) == n
  {
    if n >= 10 {
      DigitsRead(n / 10);
      assert Digits(n)[..|Digits(n)| - 1] == Digits(n / 10);
    } else {
      assert Digits(n)[..0] == [];
    }
  }

  lemma {:induction false} LeadingZero(s: string)
    requires s != []
    ensures NumberOf("0" + s) == NumberOf(s)
  {
    var t := "0" + s;
    assert t[..|t| - 1] == "0" + s[..|s| - 1];
    if |s| > 1 {
      LeadingZero(s[..|s| - 1]);
    } else {
      assert s[..0] == [] && NumberOf("0" + s[..0]) == 0 by {
        assert ("0" + s[..0])[..0] == [];
      }
    }
  }

  /** Labels number their items: reading the digits back gives the number. */
  lemma PaddedReads(n: nat)
    ensures NumberOf(Padded(n)) == n
  {
    DigitsRead(n);
    LeadingZero(Digits(n));
    LeadingZero("0" + Digits(n));
    assert "0" + ("0" + Digits(n)) == "00" + Digits(n);
  }

  function CandidateLabel(n: nat): string {
    "candidate_" + Padded(n)
  }

  function HypothesisLabel(n: nat): string {
    "hyp_" + Padded(n)
  }

  lemma LabelsDiffer(m: nat, n: nat)
    requires m != n
    ensures CandidateLabel(m) != CandidateLabel(n) && HypothesisLabel(m) != HypothesisLabel(n)
  {
    PaddedReads(m);
    PaddedReads(n);
    assert CandidateLabel(m)[10..] == Padded(m) && CandidateLabel(n)[10..] == Padded(n);
    assert HypothesisLabel(m)[4..] == Padded(m) && HypothesisLabel(n)[4..] == Padded(n);
  }
}
