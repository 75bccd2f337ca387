/** The investigation reader: several queries, between any two of which other publications and reviews
    may commit. Each query sees the database committed at its own time. */
module Readers {
  import opened AnalysisDatabase
  import opened Common
  import PublicationRuns
  import opened Sorting

  datatype ReadError =
    | IncidentNotFound
    | AnalysisNotAvailable
    | StaleAnalysis
    | SnapshotMissing
    | NoHypotheses
    | ExplanationNotFound
    | Inconsistent

  datatype Response = Response(
    runId: Id,
    run: RunRow,
    incident: IncidentRow,
    topology: string,
    hypotheses: seq<Child>,
    evidence: map<Id, seq<Child>>,
    recommendations: map<Id, seq<Child>>,
    explanation: Child,
    reviews: seq<ReviewRow>)

  /** The databases the successive queries see, one for each query. */
  type Views = seq<Db>

  const QUERIES: nat := 7

  /** Each view is a committed database that any number of commits later became the next ones: by
      `StepEvolves`, `EvolvesChains` and their counterpart for reviews, every interleaving gives this. */
  ghost predicate Timeline(views: Views) {
    |views| == QUERIES && forall j, k {:trigger Evolves(views[j], views[k])} :: 0 <= j <= k < QUERIES ==> Evolves(views[j], views[k])
  }

  // ---------------------------------------------------------------- queries

  function HypothesesIn(rows: seq<Child>): seq<Child> {
    SortBy(Where(rows, (c: Child) => c.kind.HypothesisChild?), ByRank)
  }

  predicate ByRank(a: Child, b: Child) {
    a.kind.HypothesisChild? && b.kind.HypothesisChild? && a.kind.rank < b.kind.rank
  }

  function EvidenceIn(rows: seq<Child>): seq<Child> {
    Where(rows, (c: Child) => c.kind.EvidenceChild?)
  }

  function RecommendationsIn(rows: seq<Child>): seq<Child> {
    Where(rows, (c: Child) => c.kind.RecommendationChild?)
  }

  /** The rows of one hypothesis, as a lookup in the grouped dictionary. */
  function GroupOf(groups: map<Id, seq<Child>>, h: Id): seq<Child> {
    if h in groups then groups[h] else []
  }

  /** `setdefault(row.hypothesis_id, []).append(row)` over the rows. */
  method Group(rows: seq<Child>) returns (groups: map<Id, seq<Child>>)
    ensures forall h :: GroupOf(groups, h) == Where(rows, (c: Child) => c.hypothesis == h)
    ensures forall h :: h in groups ==> groups[h] != []
  {
    groups := map[];
    for k := 0 to |rows|
      invariant forall h :: GroupOf(groups, h) == Where(rows[..k], (c: Child) => c.hypothesis == h)
      invariant forall h :: h in groups ==> groups[h] != []
    {
      var row := rows[k];
      ghost var before := groups;
      groups := groups[row.hypothesis := GroupOf(groups, row.hypothesis) + [row]];
      forall h ensures GroupOf(groups, h) == Where(rows[..k + 1], (c: Child) => c.hypothesis == h) {
        assert rows[..k + 1] == rows[..k] + [row];
        WhereConcat(rows[..k], [row], (c: Child) => c.hypothesis == h);
        assert GroupOf(before, h) == Where(rows[..k], (c: Child) => c.hypothesis == h);
      }
    }
    assert rows[..|rows|] == rows;
  }

  predicate Explains(c: Child, incident: Id, h: Id) {
    c.kind.ExplanationChild? && c.incident == incident && c.hypothesis == h
  }

  predicate Worse(a: Child, b: Child) {
    a.kind.ExplanationChild? && b.kind.ExplanationChild?
    && ((a.kind.generator.Template? && b.kind.generator.Llm?) || (a.kind.generator == b.kind.generator && StringLess(a.id, b.id)))
  }

  /** The preferred explanation: the provider's over the template's, then the latest. */
  function Preferred(candidates: seq<Child>): (r: Option<Child>)
    ensures r.None? <==> candidates == []
    ensures r.Some? ==> r.value in candidates
  {
    if candidates == [] then None
    else
      assert candidates == [candidates[0]] + candidates[1..];
      match Preferred(candidates[1..])
      case None => Some(candidates[0])
      case Some(best) => if Worse(candidates[0], best) then Some(best) else Some(candidates[0])
  }

  function ExplanationIn(rows: seq<Child>, incident: Id, h: Id): Option<Child> {
    Preferred(Where(rows, (c: Child) => Explains(c, incident, h)))
  }

  function ReviewsOf(db: Db, run: Id): seq<ReviewRow> {
    Where(db.reviews, (r: ReviewRow) => r.run == run)
  }

  // ---------------------------------------------------------------- the consistency assertion

  /** The response's own check that everything run-scoped in it is of one run. */
  predicate ConsistentRun(r: Response) {
    && r.incident.pointer == Some(r.runId)
    && (forall k :: 0 <= k < |r.hypotheses| ==> r.hypotheses[k].run == r.runId)
    && (forall h :: h in r.evidence ==> forall k :: 0 <= k < |r.evidence[h]| ==> r.evidence[h][k].run == r.runId)
    && (forall h :: h in r.recommendations ==> forall k :: 0 <= k < |r.recommendations[h]| ==> r.recommendations[h][k].run == r.runId)
    && r.explanation.run == r.runId
    && (forall k :: 0 <= k < |r.reviews| ==> r.reviews[k].run == r.runId)
  }

  // ---------------------------------------------------------------- the reader

  predicate CurrentIn(db: Db, i: Id, id: Id) {
    id in db.runs && db.runs[id].incident == i && db.runs[id].state.Current?
  }

  /** The error the two context queries answer with, if any. */
  function ContextError(i: Id, incidents: Db, runs: Db): Option<ReadError> {
    if i !in incidents.incidents then Some(IncidentNotFound)
    else if incidents.incidents[i].pointer.None? then Some(AnalysisNotAvailable)
    else if !CurrentIn(runs, i, incidents.incidents[i].pointer.value) then Some(StaleAnalysis)
    else None
  }

  /** The hypothesis explained: the captured top one, or the best ranked. */
  function Explained(top: Option<Id>, hypotheses: seq<Child>): Option<Id> {
    if top.Some? then top else if hypotheses != [] then Some(hypotheses[0].id) else None
  }

  /** The error the explanation query answers with, if any, on the rows of the run. */
  function ExplanationError(i: Id, top: Option<Id>, rows: seq<Child>): Option<ReadError> {
    match Explained(top, HypothesesIn(rows))
    case None => Some(NoHypotheses)
    case Some(h) => if ExplanationIn(rows, i, h).None? then Some(ExplanationNotFound) else None
  }

  /** The incident row and pointer are read once; the run row is the second query. */
  method CurrentContext(i: Id, views: Views) returns (r: Outcome<(IncidentRow, RunRow, Id), ReadError>)
    requires Timeline(views)
    ensures r.Ok? ==>
              var (incident, run, id) := r.value;
              && i in views[0].incidents && incident == views[0].incidents[i] && incident.pointer == Some(id)
              && id in views[1].runs && run == views[1].runs[id] && run.incident == i && run.state.Current?
    ensures match ContextError(i, views[0], views[1]) case Some(error) => r == Raised(error) case None => r.Ok?
  {
    if i !in views[0].incidents {
      return Raised(IncidentNotFound);
    }
    var incident := views[0].incidents[i];
    if incident.pointer.None? {
      return Raised(AnalysisNotAvailable);
    }
    var id := incident.pointer.value;
    if !CurrentIn(views[1], i, id) {
      return Raised(StaleAnalysis);
    }
    r := Ok((incident, views[1].runs[id], id));
  }

  /** The run-scoped parts of a response are those of the given rows. */
  ghost predicate PartsOf(r: Response, i: Id, rows: seq<Child>) {
    && r.hypotheses == HypothesesIn(rows)
    && (forall h :: GroupOf(r.evidence, h) == Where(EvidenceIn(rows), (c: Child) => c.hypothesis == h))
    && (forall h :: GroupOf(r.recommendations, h) == Where(RecommendationsIn(rows), (c: Child) => c.hypothesis == h))
    && (r.incident.top.Some? || r.hypotheses != [])
    && ExplanationIn(rows, i, if r.incident.top.Some? then r.incident.top.value else r.hypotheses[0].id) == Some(r.explanation)
  }

  // ---------------------------------------------------------------- what the parts are

  /** The parts hold every hypothesis, evidence and recommendation row among the given rows, each as often
      as it is there, under its own hypothesis, and no other row; hypotheses come by ascending rank. */
  ghost predicate AllShown(hypotheses: seq<Child>, evidence: map<Id, seq<Child>>, recommendations: map<Id, seq<Child>>, rows: seq<Child>) {
    && (forall c :: multiset(hypotheses)[c] == if c.kind.HypothesisChild? then multiset(rows)[c] else 0)
    && (forall h, c :: multiset(GroupOf(evidence, h))[c] == if c.kind.EvidenceChild? && c.hypothesis == h then multiset(rows)[c] else 0)
    && (forall h, c :: multiset(GroupOf(recommendations, h))[c] == if c.kind.RecommendationChild? && c.hypothesis == h then multiset(rows)[c] else 0)
    && AscendingRanks(hypotheses)
  }

  ghost predicate AscendingRanks(hypotheses: seq<Child>) {
    && (forall j :: 0 <= j < |hypotheses| ==> hypotheses[j].kind.HypothesisChild?)
    && forall j, k :: 0 <= j < k < |hypotheses| ==> hypotheses[j].kind.rank <= hypotheses[k].kind.rank
  }

  lemma HypothesesShown(rows: seq<Child>)
    ensures forall c :: multiset(HypothesesIn(rows))[c] == if c.kind.HypothesisChild? then multiset(rows)[c] else 0
    ensures AscendingRanks(HypothesesIn(rows))
  {
    var keep := (c: Child) => c.kind.HypothesisChild?;
    forall c ensures multiset(HypothesesIn(rows))[c] == if c.kind.HypothesisChild? then multiset(rows)[c] else 0 {
      WhereCounts(rows, keep, c);
    }
    RanksSorted(Where(rows, keep));
    forall j | 0 <= j < |HypothesesIn(rows)| ensures HypothesesIn(rows)[j].kind.HypothesisChild? {
      assert HypothesesIn(rows)[j] in multiset(HypothesesIn(rows));
    }
  }

  lemma PrependRank(x: Child, rows: seq<Child>)
    requires x.kind.HypothesisChild? && AscendingRanks(rows) && forall c :: c in rows ==> c.kind.HypothesisChild? && x.kind.rank <= c.kind.rank
    ensures AscendingRanks([x] + rows)
  {
    var all := [x] + rows;
    forall j, k | 0 <= j < k < |all| ensures all[j].kind.HypothesisChild? && all[k].kind.HypothesisChild? && all[j].kind.rank <= all[k].kind.rank {
      assert all[k] == rows[k - 1] && rows[k - 1] in rows;
    }
  }

  lemma HeadIsLeast(rows: seq<Child>)
    requires AscendingRanks(rows) && rows != []
    ensures rows[0].kind.HypothesisChild? && AscendingRanks(rows[1..])
    ensures forall c :: c in rows ==> c.kind.HypothesisChild? && rows[0].kind.rank <= c.kind.rank
    ensures forall c :: c in rows[1..] ==> c in rows
  {
    forall c | c in rows ensures c.kind.HypothesisChild? && rows[0].kind.rank <= c.kind.rank {
      var k :| 0 <= k < |rows| && rows[k] == c;
    }
  }

  /** Inserting by rank into rows that ascend. */
  lemma {:induction false} RankInserted(x: Child, rows: seq<Child>)
    requires x.kind.HypothesisChild? && AscendingRanks(rows)
    ensures AscendingRanks(Insert(x, rows, ByRank))
  {
    if rows == [] {
      PrependRank(x, []);
      assert [x] + [] == [x];
    } else {
      HeadIsLeast(rows);
      if ByRank(rows[0], x) {
        RankInserted(x, rows[1..]);
        InsertedRows(x, rows[1..]);
        PrependRank(rows[0], Insert(x, rows[1..], ByRank));
      } else {
        PrependRank(x, rows);
      }
    }
  }

  lemma InsertedRows(x: Child, rows: seq<Child>)
    ensures forall c :: c in Insert(x, rows, ByRank) <==> c == x || c in rows
  {
    forall c ensures c in Insert(x, rows, ByRank) <==> c == x || c in rows {
      InsertMembers(x, rows, ByRank, c);
    }
  }

  lemma {:induction false} RanksSorted(rows: seq<Child>)
    requires forall c :: c in rows ==> c.kind.HypothesisChild?
    ensures AscendingRanks(SortBy(rows, ByRank))
  {
    if rows != [] {
      assert forall c :: c in rows[1..] ==> c in rows;
      RanksSorted(rows[1..]);
      RankInserted(rows[0], SortBy(rows[1..], ByRank));
    }
  }

  /** The rows of one kind of one hypothesis, filtered twice. */
  lemma GroupShown(rows: seq<Child>, kind: Child -> bool, part: seq<Child>, group: seq<Child>, h: Id)
    requires part == Where(rows, kind) && group == Where(part, (c: Child) => c.hypothesis == h)
    ensures forall c :: multiset(group)[c] == if kind(c) && c.hypothesis == h then multiset(rows)[c] else 0
  {
    forall c ensures multiset(group)[c] == if kind(c) && c.hypothesis == h then multiset(rows)[c] else 0 {
      WhereCounts(rows, kind, c);
      WhereCounts(part, (c: Child) => c.hypothesis == h, c);
    }
  }

  lemma PartsShown(hypotheses: seq<Child>, evidence: map<Id, seq<Child>>, recommendations: map<Id, seq<Child>>, rows: seq<Child>)
    requires hypotheses == HypothesesIn(rows)
    requires forall h :: GroupOf(evidence, h) == Where(EvidenceIn(rows), (c: Child) => c.hypothesis == h)
    requires forall h :: GroupOf(recommendations, h) == Where(RecommendationsIn(rows), (c: Child) => c.hypothesis == h)
    ensures AllShown(hypotheses, evidence, recommendations, rows)
  {
    HypothesesShown(rows);
    forall h, c
      ensures multiset(GroupOf(evidence, h))[c] == if c.kind.EvidenceChild? && c.hypothesis == h then multiset(rows)[c] else 0
    {
      GroupShown(rows, (x: Child) => x.kind.EvidenceChild?, EvidenceIn(rows), GroupOf(evidence, h), h);
    }
    forall h, c
      ensures multiset(GroupOf(recommendations, h))[c] == if c.kind.RecommendationChild? && c.hypothesis == h then multiset(rows)[c] else 0
    {
      GroupShown(rows, (x: Child) => x.kind.RecommendationChild?, RecommendationsIn(rows), GroupOf(recommendations, h), h);
    }
  }

  /** The row explains the hypothesis, as the provider's if the run has one of the provider for it, and
      with the greatest id among those of its generator. */
  ghost predicate BestExplanation(x: Child, rows: seq<Child>, i: Id, h: Id) {
    && x in rows && x.kind.ExplanationChild? && x.incident == i && x.hypothesis == h
    && (forall c :: c in rows && c.kind == ExplanationChild(Llm) && c.incident == i && c.hypothesis == h ==> x.kind.generator.Llm?)
    && (forall c :: c in rows && c.kind == x.kind && c.incident == i && c.hypothesis == h ==> c.id == x.id || StringLess(c.id, x.id))
  }

  lemma {:induction false} PreferredIsBest(candidates: seq<Child>)
    requires candidates != [] && forall c :: c in candidates ==> c.kind.ExplanationChild?
    ensures var best := Preferred(candidates).value;
            forall c :: c in candidates ==>
              (c.kind.generator.Llm? ==> best.kind.generator.Llm?)
              && (c.kind == best.kind ==> c.id == best.id || StringLess(c.id, best.id))
  {
    StringLessIsTotal();
    if |candidates| > 1 {
      var rest := candidates[1..];
      assert candidates == [candidates[0]] + rest;
      PreferredIsBest(rest);
    } else {
      assert candidates == [candidates[0]];
    }
  }

  lemma ExplanationIsBest(rows: seq<Child>, i: Id, h: Id)
    ensures ExplanationIn(rows, i, h).None? <==> forall c :: c in rows && c.incident == i && c.hypothesis == h ==> !c.kind.ExplanationChild?
    ensures ExplanationIn(rows, i, h).Some? ==> BestExplanation(ExplanationIn(rows, i, h).value, rows, i, h)
  {
    var told := Where(rows, (c: Child) => Explains(c, i, h));
    forall c ensures c in told <==> c in rows && Explains(c, i, h) {
      WhereMembers(rows, (c: Child) => Explains(c, i, h), c);
    }
    if told != [] {
      assert told[0] in told;
      PreferredIsBest(told);
    }
  }

  /** What the response shows of a run with these rows: all of them, by kind and hypothesis, and the best
      explanation of its top or best ranked hypothesis. */
  ghost predicate Complete(r: Response, i: Id, rows: seq<Child>) {
    && AllShown(r.hypotheses, r.evidence, r.recommendations, rows)
    && (r.incident.top.Some? || r.hypotheses != [])
    && BestExplanation(r.explanation, rows, i, if r.incident.top.Some? then r.incident.top.value else r.hypotheses[0].id)
  }

  lemma PartsComplete(r: Response, i: Id, rows: seq<Child>)
    requires PartsOf(r, i, rows)
    ensures Complete(r, i, rows)
  {
    PartsShown(r.hypotheses, r.evidence, r.recommendations, rows);
    ExplanationIsBest(rows, i, if r.incident.top.Some? then r.incident.top.value else r.hypotheses[0].id);
  }

  /** All reviews of the run and no other, each as often as it is stored. */
  ghost predicate ReviewsShown(reviews: seq<ReviewRow>, db: Db, run: Id) {
    forall x :: multiset(reviews)[x] == if x.run == run then multiset(db.reviews)[x] else 0
  }

  lemma OwnReviewsShown(db: Db, run: Id)
    ensures ReviewsShown(ReviewsOf(db, run), db, run)
  {
    forall x ensures multiset(ReviewsOf(db, run))[x] == if x.run == run then multiset(db.reviews)[x] else 0 {
      WhereCounts(db.reviews, (y: ReviewRow) => y.run == run, x);
    }
  }

  /** The evidence, hypothesis and recommendation queries, one view each. */
  method QueryParts(run: Id, views: Views) returns (hypotheses: seq<Child>, evidence: map<Id, seq<Child>>, recommendations: map<Id, seq<Child>>)
    requires Timeline(views) && run in views[1].runs
    ensures var rows := ChildrenOf(views[1], run);
            && hypotheses == HypothesesIn(rows)
            && (forall h :: GroupOf(evidence, h) == Where(EvidenceIn(rows), (c: Child) => c.hypothesis == h))
            && (forall h :: GroupOf(recommendations, h) == Where(RecommendationsIn(rows), (c: Child) => c.hypothesis == h))
            && AllShown(hypotheses, evidence, recommendations, rows)
  {
    RowsStay(views, run, 2);
    RowsStay(views, run, 3);
    RowsStay(views, run, 4);
    evidence := Group(EvidenceIn(ChildrenOf(views[2], run)));
    hypotheses := HypothesesIn(ChildrenOf(views[3], run));
    recommendations := Group(RecommendationsIn(ChildrenOf(views[4], run)));
    PartsShown(hypotheses, evidence, recommendations, ChildrenOf(views[1], run));
  }

  /** The explanation of the captured top hypothesis, or of the best ranked one. */
  method QueryExplanation(i: Id, run: Id, top: Option<Id>, hypotheses: seq<Child>, views: Views) returns (r: Outcome<Child, ReadError>)
    requires Timeline(views) && run in views[1].runs && hypotheses == HypothesesIn(ChildrenOf(views[1], run))
    ensures r.Ok? ==>
              && (top.Some? || hypotheses != [])
              && ExplanationIn(ChildrenOf(views[1], run), i, if top.Some? then top.value else hypotheses[0].id) == Some(r.value)
              && BestExplanation(r.value, ChildrenOf(views[1], run), i, if top.Some? then top.value else hypotheses[0].id)
    ensures match ExplanationError(i, top, ChildrenOf(views[1], run)) case Some(error) => r == Raised(error) case None => r.Ok?
  {
    var chosen := top;
    if chosen.None? && hypotheses != [] {
      chosen := Some(hypotheses[0].id);
    }
    if chosen.None? {
      return Raised(NoHypotheses);
    }
    RowsStay(views, run, 5);
    var explanation := ExplanationIn(ChildrenOf(views[5], run), i, chosen.value);
    ExplanationIsBest(ChildrenOf(views[1], run), i, chosen.value);
    if explanation.None? {
      return Raised(ExplanationNotFound);
    }
    r := Ok(explanation.value);
  }

  /** The error an investigation answers with, if any: it depends on the first two views only. */
  function InvestigationError(i: Id, incidents: Db, runs: Db): Option<ReadError> {
    if ContextError(i, incidents, runs).Some? then ContextError(i, incidents, runs)
    else
      var id := incidents.incidents[i].pointer.value;
      if runs.runs[id].snapshot.None? then Some(SnapshotMissing)
      else ExplanationError(i, incidents.incidents[i].top, ChildrenOf(runs, id))
  }

  /** Whatever commits between the queries, the answer is an error the first two views determine or
      holds exactly the rows of the one captured run, and the consistency assertion never raises. */
  method Investigate(i: Id, views: Views) returns (r: Outcome<Response, ReadError>)
    requires Timeline(views)
    ensures match InvestigationError(i, views[0], views[1])
            case Some(error) => r == Raised(error) && error != Inconsistent
            case None => r.Ok?
    ensures r.Ok? ==>
              var run := r.value.runId;
              && i in views[0].incidents && r.value.incident == views[0].incidents[i] && r.value.incident.pointer == Some(run)
              && run in views[1].runs && r.value.run == views[1].runs[run] && r.value.run.snapshot == Some(r.value.topology)
              && PartsOf(r.value, i, ChildrenOf(views[1], run)) && Complete(r.value, i, ChildrenOf(views[1], run))
              && r.value.reviews == ReviewsOf(views[6], run) && ConsistentRun(r.value)
              && ReviewsShown(r.value.reviews, views[6], run)
  {
    var context := CurrentContext(i, views);
    if context.Raised? {
      return Raised(context.error);
    }
    var (incident, run, id) := context.value;
    if run.snapshot.None? {
      return Raised(SnapshotMissing);
    }
    var hypotheses, evidence, recommendations := QueryParts(id, views);
    var explanation := QueryExplanation(i, id, incident.top, hypotheses, views);
    if explanation.Raised? {
      return Raised(explanation.error);
    }
    var response := Response(id, run, incident, run.snapshot.value, hypotheses, evidence, recommendations, explanation.value, ReviewsOf(views[6], id));
    ChildrenAreOfRun(views[1], id);
    PartsComplete(response, i, ChildrenOf(views[1], id));
    OwnReviewsShown(views[6], id);
    PartsConsistent(response, i, ChildrenOf(views[1], id), views[6]);
    if !ConsistentRun(response) {
      return Raised(Inconsistent);
    }
    r := Ok(response);
  }

  lemma ChildrenAreOfRun(db: Db, run: Id)
    ensures forall c :: c in ChildrenOf(db, run) ==> c.run == run
  {
    forall c | c in ChildrenOf(db, run) ensures c.run == run {
      WhereMembers(db.children, (x: Child) => x.run == run, c);
    }
  }

  /** The rows of a run a view knows are the same in every later view. */
  lemma RowsStay(views: Views, run: Id, k: nat)
    requires Timeline(views) && 1 <= k < QUERIES && run in views[1].runs
    ensures ChildrenOf(views[k], run) == ChildrenOf(views[1], run)
  {
    assert Evolves(views[1], views[k]);
  }

  lemma PartsConsistent(r: Response, i: Id, rows: seq<Child>, db: Db)
    requires PartsOf(r, i, rows) && r.incident.pointer == Some(r.runId) && r.reviews == ReviewsOf(db, r.runId)
    requires forall c :: c in rows ==> c.run == r.runId
    ensures ConsistentRun(r)
  {
    forall k | 0 <= k < |r.hypotheses| ensures r.hypotheses[k].run == r.runId {
      SortKeepsMembers(Where(rows, (c: Child) => c.kind.HypothesisChild?), ByRank, r.hypotheses[k]);
      WhereMembers(rows, (c: Child) => c.kind.HypothesisChild?, r.hypotheses[k]);
    }
    forall h | h in r.evidence ensures forall k :: 0 <= k < |r.evidence[h]| ==> r.evidence[h][k].run == r.runId {
      GroupInRows(r.evidence, EvidenceIn(rows), rows, h, r.runId);
    }
    forall h | h in r.recommendations ensures forall k :: 0 <= k < |r.recommendations[h]| ==> r.recommendations[h][k].run == r.runId {
      GroupInRows(r.recommendations, RecommendationsIn(rows), rows, h, r.runId);
    }
    var h := if r.incident.top.Some? then r.incident.top.value else r.hypotheses[0].id;
    WhereMembers(rows, (c: Child) => Explains(c, i, h), r.explanation);
    forall k | 0 <= k < |r.reviews| ensures r.reviews[k].run == r.runId {
      WhereMembers(db.reviews, (x: ReviewRow) => x.run == r.runId, r.reviews[k]);
    }
  }

  lemma GroupInRows(groups: map<Id, seq<Child>>, part: seq<Child>, rows: seq<Child>, h: Id, run: Id)
    requires forall c :: c in rows ==> c.run == run
    requires part == EvidenceIn(rows) || part == RecommendationsIn(rows)
    requires h in groups && GroupOf(groups, h) == Where(part, (c: Child) => c.hypothesis == h)
    ensures forall k :: 0 <= k < |groups[h]| ==> groups[h][k].run == run
  {
    forall k | 0 <= k < |groups[h]| ensures groups[h][k].run == run {
      WhereMembers(part, (c: Child) => c.hypothesis == h, groups[h][k]);
      WhereMembers(rows, (c: Child) => c.kind.EvidenceChild?, groups[h][k]);
      WhereMembers(rows, (c: Child) => c.kind.RecommendationChild?, groups[h][k]);
    }
  }

  /** The rows an investigation shows are exactly those its run was published with, however many
      publications and reviews came between the publication and the read. */
  lemma ShowsThePublication(before: Db, op: Op, views: Views)
    requires Sound(before) && op.Publish? && op.rows.Some? && Enabled(before, op)
    requires Timeline(views) && Evolves(Apply(before, op), views[1])
    ensures op.run in views[1].runs && ChildrenOf(views[1], op.run) == op.rows.value.children
    ensures views[1].runs[op.run].snapshot == op.rows.value.snapshot
  {
    var after := Apply(before, op);
    var keep := (c: Child) => c.run == op.run;
    assert op.run in after.runs && RunEvolves(after.runs[op.run], views[1].runs[op.run]);
    forall c | c in before.children ensures c.run != op.run {
      assert ChildOk(before, c);
    }
    WhereConcat(before.children, op.rows.value.children, keep);
    WhereNone(before.children, keep);
    WhereAll(op.rows.value.children, keep);
  }

  /** So the response shows exactly the published rows, each in its own part, whatever came between the
      publication and the read. */
  method InvestigatePublished(i: Id, before: Db, op: Op, views: Views) returns (r: Outcome<Response, ReadError>)
    requires Sound(before) && op.Publish? && op.incident == i && op.rows.Some? && Enabled(before, op)
    requires Timeline(views) && Evolves(Apply(before, op), views[1])
    ensures r.Ok? && r.value.runId == op.run ==> Complete(r.value, i, op.rows.value.children) && Some(r.value.topology) == op.rows.value.snapshot
  {
    r := Investigate(i, views);
    ShowsThePublication(before, op, views);
  }

  /** The pointer a reader captured is stale exactly when the incident points elsewhere by the time of
      the second query. */
  lemma StaleExactly(i: Id, incidents: Db, runs: Db)
    requires Sound(incidents) && Sound(runs) && Evolves(incidents, runs)
    requires i in incidents.incidents && incidents.incidents[i].pointer.Some?
    ensures ContextError(i, incidents, runs) == Some(StaleAnalysis) <==> runs.incidents[i].pointer != incidents.incidents[i].pointer
  {
    var id := incidents.incidents[i].pointer.value;
    assert IncidentOk(incidents, i);
    PublicationRuns.OneCurrentRun(runs, i, id);
  }

  /** A reader whose pointer is not replaced between its first two queries answers for every run that
      was published with a snapshot and an explanation of its top hypothesis, whatever commits later. */
  lemma UnreplacedIsAnswered(i: Id, before: Db, op: Op, h: Id, incidents: Db, runs: Db)
    requires Sound(before) && op.Publish? && op.incident == i && op.rows.Some? && Enabled(before, op)
    requires Evolves(Apply(before, op), incidents) && Evolves(incidents, runs) && Sound(incidents) && Sound(runs)
    requires incidents.incidents[i].pointer == runs.incidents[i].pointer == Some(op.run)
    requires incidents.incidents[i].top == Apply(before, op).incidents[i].top == Some(h)
    ensures InvestigationError(i, incidents, runs).None? <==>
              op.rows.value.snapshot.Some? && exists c :: c in op.rows.value.children && Explains(c, i, h)
  {
    var after, rows := Apply(before, op), op.rows.value.children;
    PublicationRuns.PublicationIsComplete(before, i, op.run, op.revision, op.rows.value);
    assert RunEvolves(after.runs[op.run], incidents.runs[op.run]) && RunEvolves(incidents.runs[op.run], runs.runs[op.run]);
    assert ChildrenOf(runs, op.run) == ChildrenOf(incidents, op.run) == ChildrenOf(after, op.run) == rows;
    StaleExactly(i, incidents, runs);
    var told := Where(rows, (c: Child) => Explains(c, i, h));
    forall c ensures c in told <==> c in rows && Explains(c, i, h) {
      WhereMembers(rows, (c: Child) => Explains(c, i, h), c);
    }
    if told != [] {
      assert told[0] in told;
    }
  }
}
