/** The join between analysis and publication: what the adapter hands over is what the publisher stores. */
module EndToEnd {
  import opened AnalysisEngine
  import opened CandidateGeneration
  import opened Common
  import opened RcaAdapter
  import opened RcaContracts
  import opened Scoring
  import opened TypedGraph
  import AnalysisDatabase
  import Determinism
  import Evidence
  import Explanation
  import PublicationRuns
  import PublicationUnit = Publication
  import Revisions

  type Child = AnalysisDatabase.Child

  function HypothesisRows(rows: seq<HypothesisRow>): seq<Child> {
    Mapped(rows, (r: HypothesisRow) => AnalysisDatabase.Child(r.id, r.runId, r.incidentId, r.id, AnalysisDatabase.HypothesisChild(r.rank)))
  }

  function EvidenceRows(items: seq<Evidence.Item>): seq<Child> {
    Mapped(items, (item: Evidence.Item) =>
      AnalysisDatabase.Child(item.id, item.runId, item.incidentId, item.hypothesisId, AnalysisDatabase.EvidenceChild(item.kind.Missing?)))
  }

  function RecommendationRows(rows: seq<RecommendationRow>): seq<Child> {
    Mapped(rows, (r: RecommendationRow) =>
      AnalysisDatabase.Child(r.id, r.runId, r.incidentId, r.hypothesisId, AnalysisDatabase.RecommendationChild))
  }

  function ExplanationRows(rows: seq<Explanation.Output>): seq<Child> {
    Mapped(rows, (o: Explanation.Output) =>
      AnalysisDatabase.Child("", o.runId, o.incidentId, o.hypothesisId,
                             AnalysisDatabase.ExplanationChild(if o.generator.Template? then AnalysisDatabase.Template else AnalysisDatabase.Llm)))
  }

  /** The rows a publication stores, in insertion order. */
  function ToRows(p: Publication, snapshot: Option<string>): AnalysisDatabase.Rows {
    AnalysisDatabase.Rows(
      HypothesisRows(p.hypotheses) + EvidenceRows(p.evidence) + RecommendationRows(p.recommendations) + ExplanationRows(p.explanation.rows),
      snapshot, p.explanation.fallback.Some?)
  }

  /** Every row that passed the publisher's checks is of the run and resolves to one of its hypotheses. */
  lemma AcceptedRowsAreValid(run: Explanation.Run, known: set<string>, b: Bundle, p: Publication, snapshot: Option<string>)
    requires OtherwisePublishable(run, known, b, p)
    requires Explanation.RowsPublishable(run.id, run.incidentId, RowIds(p.hypotheses), p.explanation.rows)
    ensures AnalysisDatabase.RowsValid(run.id, run.incidentId, ToRows(p, snapshot))
  {
    var children := ToRows(p, snapshot).children;
    forall c | c in children
      ensures c.run == run.id && c.incident == run.incidentId && AnalysisDatabase.Resolves(children, c)
    {
      ChildPlace(run, known, b, p, c);
      HypothesisStored(p, snapshot, c.hypothesis);
    }
    var k :| 0 <= k < |p.explanation.rows| && p.explanation.rows[k].generator.Template?;
    var x := ExplanationRows(p.explanation.rows)[k];
    assert x in ExplanationRows(p.explanation.rows) && x in children;
  }

  lemma ChildPlace(run: Explanation.Run, known: set<string>, b: Bundle, p: Publication, c: Child)
    requires OtherwisePublishable(run, known, b, p)
    requires Explanation.RowsPublishable(run.id, run.incidentId, RowIds(p.hypotheses), p.explanation.rows)
    requires c in HypothesisRows(p.hypotheses) || c in EvidenceRows(p.evidence) || c in RecommendationRows(p.recommendations)
             || c in ExplanationRows(p.explanation.rows)
    ensures c.run == run.id && c.incident == run.incidentId && c.hypothesis in RowIds(p.hypotheses)
  {
    if c in HypothesisRows(p.hypotheses) {
      var k :| 0 <= k < |p.hypotheses| && HypothesisRows(p.hypotheses)[k] == c;
      assert RowIds(p.hypotheses)[k] == c.hypothesis;
    } else if c in EvidenceRows(p.evidence) {
      var k :| 0 <= k < |p.evidence| && EvidenceRows(p.evidence)[k] == c;
      assert p.evidence[k] in p.evidence;
    } else if c in RecommendationRows(p.recommendations) {
      var k :| 0 <= k < |p.recommendations| && RecommendationRows(p.recommendations)[k] == c;
      assert p.recommendations[k] in p.recommendations;
    }
  }

  lemma HypothesisStored(p: Publication, snapshot: Option<string>, id: string)
    requires id in RowIds(p.hypotheses)
    ensures exists h :: h in ToRows(p, snapshot).children && h.kind.HypothesisChild? && h.id == id
  {
    var k :| 0 <= k < |p.hypotheses| && RowIds(p.hypotheses)[k] == id;
    var h := HypothesisRows(p.hypotheses)[k];
    assert h in HypothesisRows(p.hypotheses) && h in ToRows(p, snapshot).children;
  }

  /** What is stored for a publication: a row for each hypothesis under its own id and rank, each
      evidence item, marked missing exactly when nothing met its requirement, each recommendation and
      each explanation with its generator, in that order. */
  lemma StoredRowsTell(p: Publication, snapshot: Option<string>, k: nat)
    requires k < |ToRows(p, snapshot).children|
    ensures var rows, c := ToRows(p, snapshot), ToRows(p, snapshot).children[k];
            var m, n, l := |p.hypotheses|, |p.hypotheses| + |p.evidence|, |p.hypotheses| + |p.evidence| + |p.recommendations|;
            && |rows.children| == l + |p.explanation.rows|
            && (k < m ==> c == AnalysisDatabase.Child(p.hypotheses[k].id, p.hypotheses[k].runId, p.hypotheses[k].incidentId, p.hypotheses[k].id,
                                                      AnalysisDatabase.HypothesisChild(p.hypotheses[k].rank)))
            && (m <= k < n ==>
                  var x := p.evidence[k - m];
                  c == AnalysisDatabase.Child(x.id, x.runId, x.incidentId, x.hypothesisId, AnalysisDatabase.EvidenceChild(x.kind == Evidence.Missing)))
            && (n <= k < l ==>
                  var x := p.recommendations[k - n];
                  c == AnalysisDatabase.Child(x.id, x.runId, x.incidentId, x.hypothesisId, AnalysisDatabase.RecommendationChild))
            && (l <= k ==>
                  var x := p.explanation.rows[k - l];
                  && c.run == x.runId && c.incident == x.incidentId && c.hypothesis == x.hypothesisId && c.kind.ExplanationChild?
                  && (c.kind.generator == AnalysisDatabase.Template <==> x.generator == Explanation.Template))
  {
    var hypotheses, evidence := HypothesisRows(p.hypotheses), EvidenceRows(p.evidence);
    var recommendations, explanations := RecommendationRows(p.recommendations), ExplanationRows(p.explanation.rows);
    assert ToRows(p, snapshot).children == hypotheses + evidence + recommendations + explanations;
  }

  // ---------------------------------------------------------------- from the engine to the current run

  /** From the bundle to the database: whatever the engine found and the adapter mapped, the savepoint
      accepts it exactly when the topology repeats no traffic edge of the suspected root's blast radius. */
  lemma EngineOutputIsAcceptedExactly(run: Explanation.Run, u: Setup, b: Bundle, available: Availability, scored: seq<CandidateScore>,
                                      c: Computation, parts: seq<Part>, e: Explained, p: Publication, snapshot: Option<string>, verdict: bool)
    requires ValidBundle(b) && ValidCatalogue(u.catalogue) && Injective(u.digest)
    requires Explains(u.catalogue, b, available, scored, c) && PublicationOf(run, u, b, c, parts, e, p)
    requires verdict <==> Publishable(run, KnownCodes(u.catalogue), b, p)
    ensures PublicationUnit.Acceptable(run.incidentId, run.id, PublicationUnit.Produces(ToRows(p, snapshot)), verdict)
            <==> NoRepeatedBlastEdge(b, c.ranked[0].entity)
  {
    EngineOutputIsPublishable(run, u, b, available, scored, c, parts, e, p);
    AcceptedRowsAreValid(run, KnownCodes(u.catalogue), b, p, snapshot);
  }

  // ---------------------------------------------------------------- the registered engine

  /** What the analysis of a bundle comes to: an exception, or the rows of an adapted engine result. */
  ghost predicate RcaOutcome(u: Setup, run: Explanation.Run, b: Bundle, analysis: PublicationUnit.Analysis)
    requires ValidCatalogue(u.catalogue)
  {
    analysis.Raises?
    || (analysis.Produces? && exists available, scored, c, parts, e, p, snapshot ::
          && Explains(u.catalogue, b, available, scored, c) && PublicationOf(run, u, b, c, parts, e, p)
          && analysis.rows == ToRows(p, snapshot))
  }

  /** Without events, and without an entry that needs no signal and fits, the analysis raises. */
  lemma UnattachedRaises(u: Setup, run: Explanation.Run, b: Bundle, analysis: PublicationUnit.Analysis)
    requires ValidCatalogue(u.catalogue) && ValidBundle(b) && b.events == [] && RcaOutcome(u, run, b, analysis)
    requires forall i :: 0 <= i < |u.catalogue.hypotheses| ==>
               !Unprompted(u.catalogue.hypotheses[i]) || !Fits(u.catalogue.hypotheses[i], b, b.incident.primary)
    ensures analysis.Raises?
  {
    EmptyGeneratesExactly(u.catalogue, b);
  }

  /** The registered engine analyses, for an incident with no attached event, a bundle without events. */
  ghost predicate Registered(u: Setup, engine: Revisions.Engine)
    requires ValidCatalogue(u.catalogue)
  {
    forall i, run :: Unattached(u, engine, i, run)
  }

  ghost predicate Unattached(u: Setup, engine: Revisions.Engine, i: string, run: string)
    requires ValidCatalogue(u.catalogue)
  {
    exists b :: AnalysesEmpty(u, engine, i, run, b)
  }

  ghost predicate AnalysesEmpty(u: Setup, engine: Revisions.Engine, i: string, run: string, b: Bundle)
    requires ValidCatalogue(u.catalogue)
  {
    ValidBundle(b) && b.events == [] && RcaOutcome(u, Explanation.Run(run, i, Explanation.Building), b, engine(i, {}, run))
  }

  lemma RegisteredRaises(u: Setup, engine: Revisions.Engine, i: string, run: string)
    requires ValidCatalogue(u.catalogue) && Unattached(u, engine, i, run) && forall e :: e in u.catalogue.hypotheses ==> !Unprompted(e)
    ensures engine(i, {}, run).Raises?
  {
    var b :| AnalysesEmpty(u, engine, i, run, b);
    UnattachedRaises(u, Explanation.Run(run, i, Explanation.Building), b, engine(i, {}, run));
  }

  /** With the registered engine and a catalogue whose entries all need a signal, published revisions are
      at most the attached events, in every history and without further condition. */
  lemma RegisteredRevisionsBounded(u: Setup, engine: Revisions.Engine, requests: seq<PublicationRuns.Request>, trace: seq<AnalysisDatabase.Db>)
    requires ValidCatalogue(u.catalogue) && Registered(u, engine) && forall e :: e in u.catalogue.hypotheses ==> !Unprompted(e)
    requires Revisions.History(engine, requests, trace)
    ensures Revisions.WithinAttached(trace[|requests|])
  {
    forall i, run ensures engine(i, {}, run).Raises? {
      RegisteredRaises(u, engine, i, run);
    }
    Revisions.RevisionsBoundedExactly(engine);
  }

  // ---------------------------------------------------------------- a repeated edge

  /** A topology of two nodes with the same traffic edge twice, which the bundle's validator accepts. */
  function RepeatedEdge(): Bundle {
    var edge := Edge("a", "z", SendsTrafficTo);
    Bundle(Incident("i", "a", ["a"]), [], [], [], [TopologyNode("a", "service"), TopologyNode("z", "service")], [edge, edge], [])
  }

  /** A catalogue of one entry that suspects the primary entity. */
  function OneEntry(): Catalogue {
    Catalogue(map[], map[], [Entry("t", {"service"}, Policy(SendsTrafficTo, Forward, 1), GenerationRule(PrimaryEntity, false, {}, {}, {}),
                                   false, {}, {}, {}, [], [], [], [], "s", [], [])])
  }

  lemma RepeatedEdgeIsValid()
    ensures ValidBundle(RepeatedEdge()) && ValidCatalogue(OneEntry())
  {
    var b := RepeatedEdge();
    assert "a"[0] != "z"[0];
    assert b.nodes[0].id == "a" && b.nodes[1].id == "z";
  }

  lemma RepeatedEdgeGenerates()
    ensures Candidates(OneEntry(), RepeatedEdge()) != []
    ensures forall i :: 0 <= i < |Candidates(OneEntry(), RepeatedEdge())| ==> Candidates(OneEntry(), RepeatedEdge())[i].entity == "a"
  {
    var c, b := OneEntry(), RepeatedEdge();
    RepeatedEdgeIsValid();
    assert KindFits(c.hypotheses[0], b, "a") by {
      assert b.nodes[0].id == "a" && b.nodes[0].kind in c.hypotheses[0].entityTypes;
    }
    assert Located(c.hypotheses[0], b, "a") by {
      assert Joins(b.edges, c.hypotheses[0].traversal, ["a"], "a", "a");
      assert "a" in AffectedOrPrimary(b);
    }
    EmptyGeneratesExactly(c, b);
    assert Unprompted(c.hypotheses[0]) && Fits(c.hypotheses[0], b, b.incident.primary);
    forall i | 0 <= i < |Candidates(c, b)| ensures Candidates(c, b)[i].entity == "a" {
      NumberedComes(c.hypotheses, Choices(c, b), |c.hypotheses|, i, CandidateLabel);
      EmptyChoice(c.hypotheses[0], b);
    }
  }

  lemma RepeatedInBlast()
    ensures !NoRepeatedBlastEdge(RepeatedEdge(), "a")
  {
    var b, p := RepeatedEdge(), TrafficPolicy(STATE_HOPS);
    assert Joins(b.edges, p, ["a"], "a", "a");
    assert Carries(b.edges[0], p, "a", "z") && Hop(b.edges, p, "a", "z");
    assert Joins(b.edges, p, ["a", "z"], "a", "z");
    assert InBlast(b, "a", b.edges[0]) && b.edges[0] == b.edges[1];
  }

  lemma RootIsPrimary(available: Availability, scored: seq<CandidateScore>, r: Computation)
    requires ValidCatalogue(OneEntry()) && ValidBundle(RepeatedEdge()) && Explains(OneEntry(), RepeatedEdge(), available, scored, r)
    ensures r.ranked[0].entity == "a"
  {
    RepeatedEdgeGenerates();
    OrderedScores(OneEntry(), RepeatedEdge(), Candidates(OneEntry(), RepeatedEdge()), available, scored, 0);
  }

  lemma RepeatedEdgeNotRefused(i: nat)
    requires i < |Candidates(OneEntry(), RepeatedEdge())|
    ensures !Refused(OneEntry(), RepeatedEdge(), Candidates(OneEntry(), RepeatedEdge())[i])
  {
    RepeatedEdgeIsValid();
    Determinism.SupportedNeverRefused(OneEntry(), RepeatedEdge(), i);
  }

  lemma RepeatedStates(available: Availability, scored: seq<CandidateScore>, r: Computation)
    requires ValidCatalogue(OneEntry()) && ValidBundle(RepeatedEdge()) && Explains(OneEntry(), RepeatedEdge(), available, scored, r)
    ensures ValidComputation(r) && !EdgeStatesPublishable(RepeatedEdge().edges, r.edgeStates)
  {
    ResultIsValid(OneEntry(), RepeatedEdge(), available, scored, r);
    RootIsPrimary(available, scored, r);
    RepeatedInBlast();
    StatesKnown(RepeatedEdge(), "a", r.nodeStates, r.edgeStates);
  }

  /** The engine explains it, with the same edge state twice: the publication check fails. */
  method RepeatedEdgeIsRefused(available: Availability) returns (r: Outcome<Computation, EngineError>)
    ensures r.Ok? && ValidComputation(r.value) && !EdgeStatesPublishable(RepeatedEdge().edges, r.value.edgeStates)
  {
    RepeatedEdgeIsValid();
    RepeatedEdgeGenerates();
    ghost var scored;
    r, scored := Analyse(OneEntry(), RepeatedEdge(), available);
    forall i: nat | i < |Candidates(OneEntry(), RepeatedEdge())| ensures !Refused(OneEntry(), RepeatedEdge(), Candidates(OneEntry(), RepeatedEdge())[i]) {
      RepeatedEdgeNotRefused(i);
    }
    RepeatedStates(available, scored, r.value);
  }

  /** So whatever the adapter and the provider make of it, the savepoint does not accept it. */
  lemma RepeatedEdgeIsNotAccepted(run: Explanation.Run, u: Setup, available: Availability, scored: seq<CandidateScore>,
                                  c: Computation, parts: seq<Part>, e: Explained, p: Publication, snapshot: Option<string>, verdict: bool)
    requires u.catalogue == OneEntry() && ValidCatalogue(OneEntry()) && Injective(u.digest)
    requires Explains(OneEntry(), RepeatedEdge(), available, scored, c) && PublicationOf(run, u, RepeatedEdge(), c, parts, e, p)
    requires verdict <==> Publishable(run, KnownCodes(u.catalogue), RepeatedEdge(), p)
    ensures !PublicationUnit.Acceptable(run.incidentId, run.id, PublicationUnit.Produces(ToRows(p, snapshot)), verdict)
  {
    RepeatedEdgeIsValid();
    RootIsPrimary(available, scored, c);
    RepeatedInBlast();
    EngineOutputIsAcceptedExactly(run, u, RepeatedEdge(), available, scored, c, parts, e, p, snapshot, verdict);
  }
}
