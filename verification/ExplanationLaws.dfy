/** Which explanations are accepted and kept, told from the explanation, the supplied rows and the
    provider's answers. */
module ExplanationLaws {
  import opened Common
  import opened Evidence
  import opened Explanation
  import opened Sorting
  import Wording

  // ---------------------------------------------------------------- acceptance

  /** Where the last item of an id stands. */
  ghost predicate LastAt(evidence: seq<Item>, id: string, k: int) {
    0 <= k < |evidence| && evidence[k].id == id && forall m :: k < m < |evidence| ==> evidence[m].id != id
  }

  /** The last supplied item of this id belongs to the hypothesis explained. */
  ghost predicate Supplied(f: Frame, id: string) {
    exists k ::
      && LastAt(f.evidence, id, k)
      && f.evidence[k].runId == f.run.id && f.evidence[k].incidentId == f.run.incidentId && f.evidence[k].hypothesisId == f.subject.hypothesisId
  }

  /** The step was recommended, and the playbook catalogue lists it with this type for this hypothesis
      and entity. */
  ghost predicate Applies(f: Frame, id: string, kind: StepType) {
    && (exists r :: r in f.recommendations && r.stepId == id)
    && id in f.playbooks && f.playbooks[id].stepType == kind
    && f.subject.hypothesisType in f.playbooks[id].hypothesisTypes
    && f.entityType.Some? && f.entityType.value in f.playbooks[id].entityTypes
  }

  ghost predicate AddressedTo(f: Frame, o: Output, expected: Generator) {
    && o.generator == expected
    && o.runId == f.run.id && o.incidentId == f.run.incidentId
    && f.subject.runId == f.run.id && f.subject.incidentId == f.run.incidentId
    && o.hypothesisId == f.subject.hypothesisId
  }

  /** The run is still being built or shown. */
  ghost predicate Live(f: Frame, currentRunId: Option<string>) {
    f.run.status in {Building, Current} && currentRunId == Some(f.run.id)
  }

  /** Every claim cites something, and only what was supplied; the steps apply and do not repeat. */
  ghost predicate WellFounded(f: Frame, o: Output) {
    && (forall claim :: claim in o.claims ==> claim.evidenceIds != [] && forall id :: id in claim.evidenceIds ==> Supplied(f, id))
    && (forall id :: id in o.diagnostic ==> Applies(f, id, Diagnostic))
    && (forall id :: id in o.remediation ==> Applies(f, id, Remediation))
    && Distinct(o.diagnostic) && Distinct(o.remediation)
  }

  lemma {:induction false} FoundAt(evidence: seq<Item>, id: string) returns (k: int)
    ensures FindItem(evidence, id).Some? ==> LastAt(evidence, id, k) && FindItem(evidence, id) == Some(evidence[k])
  {
    k := |evidence| - 1;
    if evidence != [] && evidence[k].id != id {
      var n := k;
      k := FoundAt(evidence[..n], id);
      if FindItem(evidence, id).Some? {
        forall m | k < m < |evidence| ensures evidence[m].id != id {
          assert m < n ==> evidence[m] == evidence[..n][m];
        }
      }
    }
  }

  lemma OneLast(evidence: seq<Item>, id: string, j: int, k: int)
    requires LastAt(evidence, id, j) && LastAt(evidence, id, k)
    ensures j == k
  {
  }

  lemma FoundIsSupplied(f: Frame, id: string)
    ensures (FindItem(f.evidence, id).Some? && InScope(f, FindItem(f.evidence, id).value)) <==> Supplied(f, id)
  {
    var k := FoundAt(f.evidence, id);
    if FindItem(f.evidence, id).Some? {
      forall j | LastAt(f.evidence, id, j) ensures j == k {
        OneLast(f.evidence, id, j, k);
      }
      assert LastAt(f.evidence, id, k);
    }
  }

  lemma {:induction false} IdsCheckedExactly(f: Frame, ids: seq<string>)
    ensures CheckIds(f, ids).None? <==> forall id :: id in ids ==> Supplied(f, id)
  {
    if ids != [] {
      assert ids == [ids[0]] + ids[1..];
      IdsCheckedExactly(f, ids[1..]);
      FoundIsSupplied(f, ids[0]);
    }
  }

  lemma {:induction false} ClaimsCheckedExactly(f: Frame, claims: seq<Claim>)
    ensures CheckClaims(f, claims).None? <==>
              forall claim :: claim in claims ==> claim.evidenceIds != [] && forall id :: id in claim.evidenceIds ==> Supplied(f, id)
  {
    if claims != [] {
      assert claims == [claims[0]] + claims[1..];
      ClaimsCheckedExactly(f, claims[1..]);
      IdsCheckedExactly(f, claims[0].evidenceIds);
    }
  }

  lemma StepCheckedExactly(f: Frame, id: string, kind: StepType)
    ensures CheckStep(f, id, kind).None? <==> Applies(f, id, kind)
  {
    if r :| r in f.recommendations && r.stepId == id {
      var i :| 0 <= i < |f.recommendations| && f.recommendations[i] == r;
    }
    if Recommended(f, id) {
      var i :| 0 <= i < |f.recommendations| && f.recommendations[i].stepId == id;
      assert f.recommendations[i] in f.recommendations;
    }
  }

  lemma {:induction false} StepsCheckedExactly(f: Frame, ids: seq<string>, kind: StepType)
    ensures CheckEach(f, ids, kind).None? <==> forall id :: id in ids ==> Applies(f, id, kind)
  {
    if ids != [] {
      assert ids == [ids[0]] + ids[1..];
      StepsCheckedExactly(f, ids[1..], kind);
      StepCheckedExactly(f, ids[0], kind);
    }
  }

  /** An explanation is accepted exactly when it is addressed to the run and hypothesis, the run is live
      where that is asked, its summary words a probable cause, and it is well founded. */
  lemma AcceptedExactly(f: Frame, o: Output, currentRunId: Option<string>, requireCurrent: bool, expected: Generator)
    ensures Verdict(f, o, currentRunId, requireCurrent, expected).None? <==>
              && AddressedTo(f, o, expected) && (requireCurrent ==> Live(f, currentRunId))
              && Wording.CausalWording(o.summary) && WellFounded(f, o)
  {
    ClaimsCheckedExactly(f, o.claims);
    StepsCheckedExactly(f, o.diagnostic, Diagnostic);
    StepsCheckedExactly(f, o.remediation, Remediation);
    assert Repeats(o.diagnostic) <==> !Distinct(o.diagnostic);
    assert Repeats(o.remediation) <==> !Distinct(o.remediation);
  }

  // ---------------------------------------------------------------- the provider's answers

  /** The answer of this attempt is kept. */
  ghost predicate Kept(f: Frame, p: Provider, n: nat, o: Output) {
    && p.reply(n) == Wellformed(o) && p.currentRun(n) == Some(f.run.id)
    && AddressedTo(f, o, Llm) && f.run.status in {Building, Current} && Wording.CausalWording(o.summary) && WellFounded(f, o)
  }

  /** The attempt found that the incident had moved on, or got an answer for another run or incident. */
  ghost predicate Overtaken(f: Frame, p: Provider, n: nat) {
    && p.reply(n) != Crashed
    && (p.currentRun(n) != Some(f.run.id)
        || (p.reply(n).Wellformed? && p.reply(n).output.generator == Llm
            && (p.reply(n).output.runId != f.run.id || p.reply(n).output.incidentId != f.run.incidentId
                || (AddressedTo(f, p.reply(n).output, Llm) && f.run.status !in {Building, Current}))))
  }

  lemma JudgedExactly(f: Frame, p: Provider, n: nat)
    ensures var judged := Judged(f, p.reply(n), p.currentRun(n));
            && (forall o :: judged == Attempt.Kept(o) <==> Kept(f, p, n, o))
            && (judged.Stopped? <==> Overtaken(f, p, n))
  {
    match p.reply(n)
    case Crashed =>
    case Malformed =>
    case Wellformed(o) =>
      AcceptedExactly(f, o, p.currentRun(n), true, Llm);
      if p.currentRun(n) == Some(f.run.id) {
        UnretriableExactly(f, o, p.currentRun(n));
      }
  }

  lemma UnretriableExactly(f: Frame, o: Output, currentRunId: Option<string>)
    requires currentRunId == Some(f.run.id)
    ensures var reason := Verdict(f, o, currentRunId, true, Llm);
            (reason.Some? && !Retriable(reason.value)) <==>
              && o.generator == Llm
              && (o.runId != f.run.id || o.incidentId != f.run.incidentId || (AddressedTo(f, o, Llm) && f.run.status !in {Building, Current}))
  {
    ClaimsRetriable(f, o.claims);
    StepsRetriable(f, o.diagnostic, Diagnostic);
    StepsRetriable(f, o.remediation, Remediation);
  }

  lemma {:induction false} IdsRetriable(f: Frame, ids: seq<string>)
    ensures CheckIds(f, ids).Some? ==> Retriable(CheckIds(f, ids).value)
  {
    if ids != [] {
      IdsRetriable(f, ids[1..]);
    }
  }

  lemma {:induction false} ClaimsRetriable(f: Frame, claims: seq<Claim>)
    ensures CheckClaims(f, claims).Some? ==> Retriable(CheckClaims(f, claims).value)
  {
    if claims != [] {
      IdsRetriable(f, claims[0].evidenceIds);
      ClaimsRetriable(f, claims[1..]);
    }
  }

  lemma {:induction false} StepsRetriable(f: Frame, ids: seq<string>, kind: StepType)
    ensures CheckEach(f, ids, kind).Some? ==> Retriable(CheckEach(f, ids, kind).value)
  {
    if ids != [] {
      StepsRetriable(f, ids[1..], kind);
    }
  }

  /** What the service answers in provider mode: the template alone, or with the first answer that is
      kept, the second being asked for only when the first was neither kept nor overtaken. */
  lemma ServedExactly(f: Frame, template: Output, p: Provider, r: Result, calls: nat)
    requires Served(f, template, LlmMode, Some(p), r, calls)
    ensures calls == (if Overtaken(f, p, 1) || exists o :: Kept(f, p, 1, o) then 1 else 2)
    ensures forall o :: r.rows == [template, o] <==> Kept(f, p, calls, o)
    ensures r.rows == [template] || exists o :: Kept(f, p, calls, o)
    ensures r.rows == [template] <==> r.fallback.Some?
    ensures r.fallback == Some(ResultStale) <==> Overtaken(f, p, calls)
    ensures r.attempts == if r.rows == [template] then calls else 0
  {
    JudgedExactly(f, p, 1);
    JudgedExactly(f, p, 2);
  }

  // ---------------------------------------------------------------- the template

  /** The template speaks for every item of the evidence, one claim each, and for nothing else. */
  lemma TemplateTells(f: Frame, cause: string)
    requires GenerateTemplate(f.subject, f.evidence, f.recommendations, cause).Ok?
    ensures var o := GenerateTemplate(f.subject, f.evidence, f.recommendations, cause).value;
            && o.runId == f.subject.runId && o.incidentId == f.subject.incidentId && o.hypothesisId == f.subject.hypothesisId
            && o.generator == Template && |o.claims| == |f.evidence|
            && (forall item :: item in f.evidence ==> Claim([item.id]) in o.claims)
            && (forall claim :: claim in o.claims ==> exists item :: item in f.evidence && claim == Claim([item.id]))
  {
    var o := GenerateTemplate(f.subject, f.evidence, f.recommendations, cause).value;
    var items := SortBy(f.evidence, ItemPrecedes);
    forall item ensures item in items <==> item in f.evidence {
      SortKeepsMembers(f.evidence, ItemPrecedes, item);
    }
    assert |items| == |f.evidence| by {
      assert |multiset(items)| == |multiset(f.evidence)|;
    }
    forall item | item in f.evidence ensures Claim([item.id]) in o.claims {
      var i :| 0 <= i < |items| && items[i] == item;
      assert o.claims[i] == Claim([item.id]);
    }
    forall claim | claim in o.claims ensures exists item :: item in f.evidence && claim == Claim([item.id]) {
      var i :| 0 <= i < |o.claims| && o.claims[i] == claim;
      assert items[i] in items;
    }
  }
}
