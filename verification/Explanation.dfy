/** Explanations: the template, the validator and the service that may add one provider answer. */
module Explanation {
  import opened Common
  import opened Evidence
  import opened Sorting
  import opened TypedGraph
  import opened Wording

  datatype Generator = Template | Llm

  datatype Claim = Claim(evidenceIds: seq<string>)

  datatype Output = Output(
    runId: string,
    incidentId: string,
    hypothesisId: string,
    generator: Generator,
    summary: string,
    claims: seq<Claim>,
    diagnostic: seq<string>,
    remediation: seq<string>)

  datatype RunStatus = Building | Current | Superseded | Failed

  datatype Run = Run(id: string, incidentId: string, status: RunStatus)

  datatype StepType = Diagnostic | Remediation

  datatype Recommendation = Recommendation(stepId: string, stepType: StepType)

  datatype Step = Step(stepType: StepType, hypothesisTypes: set<string>, entityTypes: set<string>)

  /** The playbook catalogue by step id. */
  type Playbooks = map<string, Step>

  datatype Reason =
    | SchemaInvalid
    | GeneratorMismatch
    | RunIdMismatch
    | IncidentIdMismatch
    | HypothesisRunMismatch
    | HypothesisIncidentMismatch
    | HypothesisIdMismatch
    | StaleAnalysisRun
    | CausalWordingInvalid
    | ClaimWithoutEvidence
    | EvidenceIdNotFound
    | EvidenceScopeMismatch
    | DuplicatePlaybookStep
    | StepNotRecommended
    | StepNotWhitelisted
    | StepTypeMismatch
    | StepNotApplicable

  /** Everything an explanation is checked against. */
  datatype Frame = Frame(
    run: Run,
    subject: Subject,
    evidence: seq<Item>,
    recommendations: seq<Recommendation>,
    entityType: Option<string>,
    playbooks: Playbooks)

  // ---------------------------------------------------------------- the validator

  function FindItem(evidence: seq<Item>, id: string): (r: Option<Item>)
    ensures r.Some? ==> r.value in evidence && r.value.id == id
    ensures r.None? <==> forall i :: 0 <= i < |evidence| ==> evidence[i].id != id
  {
    if evidence == [] then None
    else if evidence[|evidence| - 1].id == id then Some(evidence[|evidence| - 1])
    else
      assert evidence == evidence[..|evidence| - 1] + [evidence[|evidence| - 1]];
      FindItem(evidence[..|evidence| - 1], id)
  }

  predicate InScope(f: Frame, item: Item) {
    item.runId == f.run.id && item.incidentId == f.run.incidentId && item.hypothesisId == f.subject.hypothesisId
  }

  function CheckIds(f: Frame, ids: seq<string>): Option<Reason> {
    if ids == [] then None
    else match FindItem(f.evidence, ids[0])
      case None => Some(EvidenceIdNotFound)
      case Some(item) => if InScope(f, item) then CheckIds(f, ids[1..]) else Some(EvidenceScopeMismatch)
  }

  function CheckClaims(f: Frame, claims: seq<Claim>): Option<Reason> {
    if claims == [] then None
    else if claims[0].evidenceIds == [] then Some(ClaimWithoutEvidence)
    else match CheckIds(f, claims[0].evidenceIds)
      case Some(reason) => Some(reason)
      case None => CheckClaims(f, claims[1..])
  }

  predicate Recommended(f: Frame, id: string) {
    exists i :: 0 <= i < |f.recommendations| && f.recommendations[i].stepId == id
  }

  function CheckStep(f: Frame, id: string, kind: StepType): Option<Reason> {
    if !Recommended(f, id) then Some(StepNotRecommended)
    else if id !in f.playbooks then Some(StepNotWhitelisted)
    else
      var step := f.playbooks[id];
      if step.stepType != kind then Some(StepTypeMismatch)
      else if f.subject.hypothesisType !in step.hypothesisTypes then Some(StepNotApplicable)
      else if f.entityType.None? || f.entityType.value !in step.entityTypes then Some(StepNotApplicable)
      else None
  }

  function CheckEach(f: Frame, ids: seq<string>, kind: StepType): Option<Reason> {
    if ids == [] then None
    else match CheckStep(f, ids[0], kind)
      case Some(reason) => Some(reason)
      case None => CheckEach(f, ids[1..], kind)
  }

  predicate Repeats(ids: seq<string>) {
    exists i, j :: 0 <= i < j < |ids| && ids[i] == ids[j]
  }

  function CheckSteps(f: Frame, ids: seq<string>, kind: StepType): Option<Reason> {
    if Repeats(ids) then Some(DuplicatePlaybookStep) else CheckEach(f, ids, kind)
  }

  /** The validator's verdict: the first reason in the order of its tests, or none. */
  function Verdict(f: Frame, o: Output, currentRunId: Option<string>, requireCurrent: bool, expected: Generator): Option<Reason> {
    if o.generator != expected then Some(GeneratorMismatch)
    else if o.runId != f.run.id then Some(RunIdMismatch)
    else if o.incidentId != f.run.incidentId then Some(IncidentIdMismatch)
    else if f.subject.runId != f.run.id then Some(HypothesisRunMismatch)
    else if f.subject.incidentId != f.run.incidentId then Some(HypothesisIncidentMismatch)
    else if o.hypothesisId != f.subject.hypothesisId then Some(HypothesisIdMismatch)
    else if requireCurrent && ((!f.run.status.Building? && !f.run.status.Current?) || currentRunId != Some(f.run.id)) then Some(StaleAnalysisRun)
    else if !CausalWording(o.summary) then Some(CausalWordingInvalid)
    else match CheckClaims(f, o.claims)
      case Some(reason) => Some(reason)
      case None =>
        match CheckSteps(f, o.diagnostic, Diagnostic)
        case Some(reason) => Some(reason)
        case None => CheckSteps(f, o.remediation, Remediation)
  }

  /** What an accepted explanation may cite: supplied evidence of this hypothesis, and supplied steps
      the catalogue lists with that type for this hypothesis and entity. */
  ghost predicate CitesOnlySupplied(f: Frame, o: Output) {
    && (forall i, id :: 0 <= i < |o.claims| && id in o.claims[i].evidenceIds ==>
          exists item :: item in f.evidence && item.id == id && InScope(f, item))
    && (forall id :: id in o.diagnostic ==> CheckStep(f, id, Diagnostic).None?)
    && (forall id :: id in o.remediation ==> CheckStep(f, id, Remediation).None?)
    && Distinct(o.diagnostic) && Distinct(o.remediation)
  }

  lemma {:induction false} CheckedIds(f: Frame, ids: seq<string>, id: string)
    requires CheckIds(f, ids).None? && id in ids
    ensures exists item :: item in f.evidence && item.id == id && InScope(f, item)
  {
    if ids[0] == id {
      var item := FindItem(f.evidence, id).value;
      assert item in f.evidence && InScope(f, item);
    } else {
      CheckedIds(f, ids[1..], id);
    }
  }

  lemma {:induction false} CheckedClaims(f: Frame, claims: seq<Claim>, i: nat)
    requires CheckClaims(f, claims).None? && i < |claims|
    ensures claims[i].evidenceIds != [] && CheckIds(f, claims[i].evidenceIds).None?
  {
    if i > 0 {
      CheckedClaims(f, claims[1..], i - 1);
    }
  }

  lemma {:induction false} CheckedSteps(f: Frame, ids: seq<string>, kind: StepType, id: string)
    requires CheckEach(f, ids, kind).None? && id in ids
    ensures CheckStep(f, id, kind).None?
  {
    if ids[0] != id {
      CheckedSteps(f, ids[1..], kind, id);
    }
  }

  /** An accepted explanation belongs to this run, words its cause as probable, and cites nothing that
      was not supplied. */
  lemma AcceptedCitesOnlySupplied(f: Frame, o: Output, currentRunId: Option<string>, requireCurrent: bool, expected: Generator)
    requires Verdict(f, o, currentRunId, requireCurrent, expected).None?
    ensures CitesOnlySupplied(f, o) && CausalWording(o.summary)
    ensures o.generator == expected && o.runId == f.run.id == f.subject.runId && o.incidentId == f.run.incidentId == f.subject.incidentId
    ensures o.hypothesisId == f.subject.hypothesisId
  {
    forall i, id | 0 <= i < |o.claims| && id in o.claims[i].evidenceIds
      ensures exists item :: item in f.evidence && item.id == id && InScope(f, item)
    {
      CheckedClaims(f, o.claims, i);
      CheckedIds(f, o.claims[i].evidenceIds, id);
    }
    forall id | id in o.diagnostic ensures CheckStep(f, id, Diagnostic).None? {
      CheckedSteps(f, o.diagnostic, Diagnostic, id);
    }
    forall id | id in o.remediation ensures CheckStep(f, id, Remediation).None? {
      CheckedSteps(f, o.remediation, Remediation, id);
    }
  }

  // ---------------------------------------------------------------- the template

  datatype TemplateError = ScopeMismatch

  predicate ItemPrecedes(a: Item, b: Item) {
    var i, j := KindOrder(a.kind), KindOrder(b.kind);
    var s, t := if a.source.Some? then a.source.value else "", if b.source.Some? then b.source.value else "";
    i < j || (i == j && (StringLess(a.reasonCode, b.reasonCode)
                         || (a.reasonCode == b.reasonCode && (StringLess(s, t) || (s == t && StringLess(a.id, b.id))))))
  }

  /** The distinct ids of the recommended steps of one type, sorted. */
  function StepIds(recommendations: seq<Recommendation>, kind: StepType): seq<string> {
    SortBy(Dedupe(Mapped(Where(recommendations, (r: Recommendation) => r.stepType == kind), (r: Recommendation) => r.stepId)), StringLess)
  }

  predicate AllInSubject(s: Subject, evidence: seq<Item>) {
    forall i :: 0 <= i < |evidence| ==> InSubject(s, evidence[i])
  }

  /** One claim for each evidence item. */
  function GenerateTemplate(s: Subject, evidence: seq<Item>, recommendations: seq<Recommendation>, cause: string): Outcome<Output, TemplateError> {
    if !AllInSubject(s, evidence) then Raised(ScopeMismatch)
    else if Contains(Lower(Summary(cause, s.entity)), CONFIRMED) then Raised(ScopeMismatch)
    else Ok(Output(s.runId, s.incidentId, s.hypothesisId, Template, Summary(cause, s.entity),
                   Mapped(SortBy(evidence, ItemPrecedes), (item: Item) => Claim([item.id])),
                   StepIds(recommendations, Diagnostic), StepIds(recommendations, Remediation)))
  }

  /** The recommended steps come from the playbook catalogue and apply to this hypothesis and entity. */
  ghost predicate Applicable(f: Frame) {
    forall r :: r in f.recommendations ==> CheckStep(f, r.stepId, r.stepType).None?
  }

  /** The hypothesis belongs to the run, and its evidence to it. */
  ghost predicate OneScope(f: Frame) {
    f.subject.runId == f.run.id && f.subject.incidentId == f.run.incidentId && AllInSubject(f.subject, f.evidence)
  }

  lemma {:induction false} SuppliedIdsPass(f: Frame, claims: seq<Claim>, items: seq<Item>)
    requires OneScope(f) && |claims| == |items|
    requires forall i :: 0 <= i < |claims| ==> claims[i] == Claim([items[i].id]) && items[i] in f.evidence
    ensures CheckClaims(f, claims).None?
  {
    if claims != [] {
      var id := items[0].id;
      var k :| 0 <= k < |f.evidence| && f.evidence[k] == items[0];
      assert FindItem(f.evidence, id).Some?;
      var m :| 0 <= m < |f.evidence| && f.evidence[m] == FindItem(f.evidence, id).value;
      assert claims[0].evidenceIds == [id] && [id][1..] == [];
      assert CheckIds(f, [id]) == None;
      assert forall i :: 0 <= i < |claims[1..]| ==> claims[1..][i] == claims[i + 1] && items[1..][i] == items[i + 1];
      SuppliedIdsPass(f, claims[1..], items[1..]);
    }
  }

  lemma {:induction false} EachStepPasses(f: Frame, ids: seq<string>, kind: StepType)
    requires forall i :: 0 <= i < |ids| ==> CheckStep(f, ids[i], kind).None?
    ensures CheckEach(f, ids, kind).None?
  {
    if ids != [] {
      assert forall i :: 0 <= i < |ids[1..]| ==> ids[1..][i] == ids[i + 1];
      EachStepPasses(f, ids[1..], kind);
    }
  }

  lemma StepIdMembers(recommendations: seq<Recommendation>, kind: StepType, id: string)
    ensures id in StepIds(recommendations, kind) <==> Recommendation(id, kind) in recommendations
  {
    var keep := (r: Recommendation) => r.stepType == kind;
    var kept := Where(recommendations, keep);
    var ids := Mapped(kept, (r: Recommendation) => r.stepId);
    SortKeepsMembers(Dedupe(ids), StringLess, id);
    WhereMembers(recommendations, keep, Recommendation(id, kind));
    if id in ids {
      var i :| 0 <= i < |ids| && ids[i] == id;
      WhereMembers(recommendations, keep, kept[i]);
      assert kept[i] == Recommendation(id, kind);
    }
    if Recommendation(id, kind) in kept {
      var i :| 0 <= i < |kept| && kept[i] == Recommendation(id, kind);
      assert ids[i] == id;
    }
  }

  lemma StepIdsDistinct(recommendations: seq<Recommendation>, kind: StepType)
    ensures Distinct(StepIds(recommendations, kind))
  {
    var ids := Dedupe(Mapped(Where(recommendations, (r: Recommendation) => r.stepType == kind), (r: Recommendation) => r.stepId));
    SortKeepsDistinct(ids, StringLess);
  }

  lemma TemplateStepsPass(f: Frame, kind: StepType)
    requires Applicable(f)
    ensures CheckSteps(f, StepIds(f.recommendations, kind), kind).None?
  {
    var ids := StepIds(f.recommendations, kind);
    StepIdsDistinct(f.recommendations, kind);
    forall i | 0 <= i < |ids| ensures CheckStep(f, ids[i], kind).None? {
      StepIdMembers(f.recommendations, kind, ids[i]);
    }
    EachStepPasses(f, ids, kind);
  }

  lemma TemplateClaimsPass(f: Frame)
    requires OneScope(f)
    ensures CheckClaims(f, Mapped(SortBy(f.evidence, ItemPrecedes), (item: Item) => Claim([item.id]))).None?
  {
    var items := SortBy(f.evidence, ItemPrecedes);
    forall i | 0 <= i < |items| ensures items[i] in f.evidence {
      SortKeepsMembers(f.evidence, ItemPrecedes, items[i]);
    }
    SuppliedIdsPass(f, Mapped(items, (item: Item) => Claim([item.id])), items);
  }

  /** For a cause label that is not blank, in-scope evidence and applicable steps, the template exists
      and passes the validator exactly when neither label nor entity id says "confirmed". */
  lemma TemplatePassesExactly(f: Frame, cause: string)
    requires OneScope(f) && Applicable(f) && !Blank(cause)
    ensures var o := GenerateTemplate(f.subject, f.evidence, f.recommendations, cause);
            (o.Ok? && Verdict(f, o.value, Some(f.run.id), false, Template).None?)
            <==> !Contains(Lower(cause), CONFIRMED) && !Contains(Lower(f.subject.entity), CONFIRMED)
  {
    SummaryPassesExactly(cause, f.subject.entity);
    TemplateClaimsPass(f);
    TemplateStepsPass(f, Diagnostic);
    TemplateStepsPass(f, Remediation);
  }

  // ---------------------------------------------------------------- the service

  /** What a provider call can do: raise, return something that is not an explanation, or return one. */
  datatype Reply = Crashed | Malformed | Wellformed(output: Output)

  /** A provider that behaves arbitrarily, and the run the incident turns out to be building or
      publishing after each of its answers. */
  datatype Provider = Provider(reply: nat -> Reply, currentRun: nat -> Option<string>)

  datatype Fallback = ProviderUnavailable | GenerationFailed | ResultStale | ValidationFailed(reason: Reason)

  datatype Mode = TemplateMode | LlmMode

  datatype ServiceError = TemplateRejected(reason: Reason) | TemplateRaised

  /** The rows to publish, the reason a provider answer is missing when one was wanted, and the
      attempts made. */
  datatype Result = Result(rows: seq<Output>, fallback: Option<Fallback>, attempts: nat)

  predicate Retriable(reason: Reason) {
    !reason.RunIdMismatch? && !reason.IncidentIdMismatch? && !reason.StaleAnalysisRun?
  }

  /** What one attempt comes to. */
  datatype Attempt = Kept(output: Output) | Stopped | Retry(why: Fallback)

  function Judged(f: Frame, reply: Reply, currentRun: Option<string>): Attempt {
    match reply
    case Crashed => Retry(GenerationFailed)
    case Malformed => if currentRun != Some(f.run.id) then Stopped else Retry(ValidationFailed(SchemaInvalid))
    case Wellformed(o) =>
      if currentRun != Some(f.run.id) then Stopped
      else match Verdict(f, o, currentRun, true, Llm)
        case None => Kept(o)
        case Some(reason) => if Retriable(reason) then Retry(ValidationFailed(reason)) else Stopped
  }

  /** The outcome of at most two attempts after the template. */
  function Settled(template: Output, first: Attempt, second: Attempt): Result {
    match first
    case Kept(o) => Result([template, o], None, 0)
    case Stopped => Result([template], Some(ResultStale), 1)
    case Retry(_) =>
      match second
      case Kept(o) => Result([template, o], None, 0)
      case Stopped => Result([template], Some(ResultStale), 2)
      case Retry(why) => Result([template], Some(why), 2)
  }

  /** The retry loop: stop at an accepted or a stale answer, retry once otherwise. */
  method Ask(f: Frame, template: Output, p: Provider) returns (r: Result, calls: nat)
    ensures calls <= 2
    ensures var first, second := Judged(f, p.reply(1), p.currentRun(1)), Judged(f, p.reply(2), p.currentRun(2));
            r == Settled(template, first, second) && calls == if first.Retry? then 2 else 1
  {
    calls := 0;
    var last := GenerationFailed;
    for attempt := 1 to 3
      invariant calls == attempt - 1
      invariant attempt == 2 ==> Judged(f, p.reply(1), p.currentRun(1)).Retry?
      invariant attempt != 3
    {
      var candidate := p.reply(attempt);
      calls := calls + 1;
      if candidate.Crashed? {
        last := GenerationFailed;
        if attempt == 1 {
          continue;
        }
        return Result([template], Some(last), attempt), calls;
      }
      var current := p.currentRun(attempt);
      if current != Some(f.run.id) {
        return Result([template], Some(ResultStale), attempt), calls;
      }
      var reason := if candidate.Malformed? then Some(SchemaInvalid) else Verdict(f, candidate.output, current, true, Llm);
      if reason.None? {
        return Result([template, candidate.output], None, 0), calls;
      }
      if !Retriable(reason.value) {
        return Result([template], Some(ResultStale), attempt), calls;
      }
      last := ValidationFailed(reason.value);
      if attempt == 2 {
        return Result([template], Some(last), attempt), calls;
      }
    }
  }

  /** What the service returns, and how often it calls the provider. */
  ghost predicate Served(f: Frame, template: Output, mode: Mode, provider: Option<Provider>, r: Result, calls: nat) {
    if mode.TemplateMode? then r == Result([template], None, 0) && calls == 0
    else match provider
      case None => r == Result([template], Some(ProviderUnavailable), 1) && calls == 0
      case Some(p) =>
        var first, second := Judged(f, p.reply(1), p.currentRun(1)), Judged(f, p.reply(2), p.currentRun(2));
        r == Settled(template, first, second) && calls == if first.Retry? then 2 else 1
  }

  /** Template first; then, in provider mode, at most two calls to the provider. */
  method Generate(f: Frame, cause: string, mode: Mode, provider: Option<Provider>)
    returns (r: Outcome<Result, ServiceError>, calls: nat)
    ensures calls <= 2
    ensures var template := GenerateTemplate(f.subject, f.evidence, f.recommendations, cause);
            && (r.Ok? <==> template.Ok? && Verdict(f, template.value, Some(f.run.id), false, Template).None?)
            && (r.Ok? ==> Served(f, template.value, mode, provider, r.value, calls))
  {
    calls := 0;
    var template := GenerateTemplate(f.subject, f.evidence, f.recommendations, cause);
    if template.Raised? {
      return Raised(TemplateRaised), calls;
    }
    var verdict := Verdict(f, template.value, Some(f.run.id), false, Template);
    if verdict.Some? {
      return Raised(TemplateRejected(verdict.value)), calls;
    }
    if mode.TemplateMode? {
      return Ok(Result([template.value], None, 0)), calls;
    }
    if provider.None? {
      return Ok(Result([template.value], Some(ProviderUnavailable), 1)), calls;
    }
    var asked;
    asked, calls := Ask(f, template.value, provider.value);
    r := Ok(asked);
  }

  // ---------------------------------------------------------------- what the publisher asks of the rows

  /** The publisher's check of the explanation rows. */
  ghost predicate RowsPublishable(runId: string, incidentId: string, hypothesisIds: seq<string>, rows: seq<Output>) {
    && rows != []
    && (forall i :: 0 <= i < |rows| ==>
          rows[i].runId == runId && rows[i].incidentId == incidentId && rows[i].hypothesisId in hypothesisIds)
    && (forall i, j :: 0 <= i < j < |rows| ==>
          !(rows[i].generator == rows[j].generator && rows[i].hypothesisId == rows[j].hypothesisId))
    && exists i :: 0 <= i < |rows| && rows[i].generator.Template?
  }

  /** The metadata rule of the publication result: no attempts without a fallback, at least one with. */
  predicate FallbackConsistent(r: Result) {
    match r.fallback
    case None => r.attempts == 0
    case Some(_) => r.attempts >= 1
  }

  /** For every mode and every behaviour of the provider, whatever the service returns can be
      published, its fallback metadata is consistent, and each row cites only what was supplied. */
  lemma ServiceResultPublishable(f: Frame, template: Output, mode: Mode, provider: Option<Provider>, r: Result, calls: nat, hypothesisIds: seq<string>)
    requires Verdict(f, template, Some(f.run.id), false, Template).None? && f.subject.hypothesisId in hypothesisIds
    requires Served(f, template, mode, provider, r, calls)
    ensures RowsPublishable(f.run.id, f.run.incidentId, hypothesisIds, r.rows) && FallbackConsistent(r)
    ensures forall i :: 0 <= i < |r.rows| ==> CitesOnlySupplied(f, r.rows[i])
  {
    AcceptedCitesOnlySupplied(f, template, Some(f.run.id), false, Template);
    assert r.rows[0] == template;
    if |r.rows| == 2 {
      KeptRowAccepted(f, template, provider.value, r.rows[1]);
    }
  }

  lemma KeptRowAccepted(f: Frame, template: Output, p: Provider, o: Output)
    requires Settled(template, Judged(f, p.reply(1), p.currentRun(1)), Judged(f, p.reply(2), p.currentRun(2))).rows == [template, o]
    ensures CitesOnlySupplied(f, o) && o.generator.Llm? && o.runId == f.run.id && o.incidentId == f.run.incidentId
    ensures o.hypothesisId == f.subject.hypothesisId
  {
    var first := Judged(f, p.reply(1), p.currentRun(1));
    if first.Kept? {
      AcceptedCitesOnlySupplied(f, first.output, p.currentRun(1), true, Llm);
    } else {
      var second := Judged(f, p.reply(2), p.currentRun(2));
      assert second.Kept?;
      AcceptedCitesOnlySupplied(f, second.output, p.currentRun(2), true, Llm);
    }
  }
}
