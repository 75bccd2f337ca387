/** How a review submission is answered, told from the tables. */
module ReviewLaws {
  import opened AnalysisDatabase
  import opened Common
  import opened Reviews

  // ---------------------------------------------------------------- what the tables say

  /** The client action is on record for this incident. */
  ghost predicate OnRecord(db: Db, i: Id, action: Id) {
    exists x :: x in db.reviews && x.incident == i && x.action == action
  }

  ghost predicate Reviewable(db: Db, i: Id) {
    i in db.incidents && db.incidents[i].status in {Open, Investigating}
  }

  /** The review is of a hypothesis of the run the incident shows. */
  ghost predicate OnTarget(db: Db, i: Id, q: Request) {
    && Reviewable(db, i) && db.incidents[i].pointer == Some(q.run)
    && q.run in db.runs && db.runs[q.run].incident == i && db.runs[q.run].state == Current
    && exists c :: c in db.children && c.run == q.run && c.id == q.hypothesis && c.kind.HypothesisChild?
  }

  /** A confirming or rejecting review of the hypothesis. */
  ghost predicate DecidedAs(db: Db, q: Request, decision: Decision) {
    exists x :: x in db.reviews && x.run == q.run && x.hypothesis == q.hypothesis && x.decision == decision && decision in {Confirm, Reject}
  }

  /** The evidence asked for is a missing item of the hypothesis. */
  ghost predicate AsksForMissing(db: Db, q: Request) {
    exists c :: c in db.children && c.run == q.run && c.hypothesis == q.hypothesis && c.kind == EvidenceChild(true)
                && c.id == if q.requested.Some? then q.requested.value else ""
  }

  ghost predicate AskedBefore(db: Db, q: Request) {
    exists x :: x in db.reviews && x.run == q.run && x.decision == RequestEvidence
                && x.requested == Some(if q.requested.Some? then q.requested.value else "")
  }

  // ---------------------------------------------------------------- the lookups find these

  lemma FoundExactly(reviews: seq<ReviewRow>, test: ReviewRow -> bool)
    ensures First(reviews, test).Some? <==> exists x :: x in reviews && test(x)
  {
    if x :| x in reviews && test(x) {
      var k :| 0 <= k < |reviews| && reviews[k] == x;
      assert test(reviews[k]);
    }
  }

  lemma ActionExactly(db: Db, i: Id, action: Id)
    ensures ByAction(db.reviews, i, action).Some? <==> OnRecord(db, i, action)
  {
    FoundExactly(db.reviews, x => OfAction(x, i, action));
  }

  lemma TargetExactly(db: Db, run: Id, h: Id)
    ensures HasHypothesis(db, run, h) <==> exists c :: c in db.children && c.run == run && c.id == h && c.kind.HypothesisChild?
  {
    if c :| c in db.children && c.run == run && c.id == h && c.kind.HypothesisChild? {
      var k :| 0 <= k < |db.children| && db.children[k] == c;
    }
    if HasHypothesis(db, run, h) {
      var k :| 0 <= k < |db.children| && db.children[k].run == run && db.children[k].kind.HypothesisChild? && db.children[k].id == h;
      assert db.children[k] in db.children;
    }
  }

  /** One terminal decision per hypothesis and run, so the first found tells what was decided. */
  lemma TerminalExactly(db: Db, q: Request)
    requires Unique(db.reviews)
    ensures var terminal := TerminalFor(db.reviews, q.hypothesis, q.run);
            && (terminal.None? <==> !DecidedAs(db, q, Confirm) && !DecidedAs(db, q, Reject))
            && (terminal.Some? ==> forall decision :: DecidedAs(db, q, decision) <==> terminal.value.decision == decision)
  {
    var test := x => Terminal(x, q.hypothesis, q.run);
    FoundExactly(db.reviews, test);
    var terminal := TerminalFor(db.reviews, q.hypothesis, q.run);
    if terminal.Some? {
      forall x | x in db.reviews && test(x) ensures x == terminal.value {
        OneDecision(db.reviews, x, terminal.value);
      }
    }
  }

  lemma OneDecision(reviews: seq<ReviewRow>, x: ReviewRow, y: ReviewRow)
    requires Unique(reviews) && x in reviews && y in reviews
    requires x.hypothesis == y.hypothesis && x.run == y.run && !x.decision.RequestEvidence? && !y.decision.RequestEvidence?
    ensures x == y
  {
    var j :| 0 <= j < |reviews| && reviews[j] == x;
    var k :| 0 <= k < |reviews| && reviews[k] == y;
  }

  lemma MissingExactly(db: Db, q: Request)
    ensures MissingEvidence(db, q.run, q.hypothesis, if q.requested.Some? then q.requested.value else "") <==> AsksForMissing(db, q)
  {
    var id := if q.requested.Some? then q.requested.value else "";
    if MissingEvidence(db, q.run, q.hypothesis, id) {
      var k :| 0 <= k < |db.children| && db.children[k].run == q.run && db.children[k].hypothesis == q.hypothesis
               && db.children[k].kind == EvidenceChild(true) && db.children[k].id == id;
      assert db.children[k] in db.children;
    }
    if c :| c in db.children && c.run == q.run && c.hypothesis == q.hypothesis && c.kind == EvidenceChild(true) && c.id == id {
      var k :| 0 <= k < |db.children| && db.children[k] == c;
    }
  }

  lemma AskedExactly(db: Db, q: Request)
    ensures RequestFor(db.reviews, q.run, if q.requested.Some? then q.requested.value else "").Some? <==> AskedBefore(db, q)
  {
    FoundExactly(db.reviews, x => Requests(x, q.run, if q.requested.Some? then q.requested.value else ""));
  }

  // ---------------------------------------------------------------- the answers

  /** What a submission comes to: a recorded action is answered with its review, whatever became of the
      incident; a closed incident, a missing analysis and an outdated target are refused in turn; a
      decision is repeated when it agrees with the one on record and refused when it does not; an
      evidence request must name a missing item and is answered from an earlier request for it; and
      everything else is accepted. */
  lemma DecidesExactly(db: Db, i: Id, q: Request)
    requires Unique(db.reviews)
    ensures var verdict := Decide(db, i, q);
            var unseen := !OnRecord(db, i, q.action);
            var open := unseen && OnTarget(db, i, q) && !DecidedAs(db, q, Confirm) && !DecidedAs(db, q, Reject);
            && (verdict == Refused(NotFound) <==> unseen && i !in db.incidents)
            && (verdict == Refused(IncidentClosed) <==> unseen && i in db.incidents && db.incidents[i].status in {Resolved, Rejected})
            && (verdict == Refused(AnalysisNotAvailable) <==> unseen && Reviewable(db, i) && db.incidents[i].pointer == None)
            && (verdict == Refused(StaleAnalysis) <==> unseen && Reviewable(db, i) && db.incidents[i].pointer != None && !OnTarget(db, i, q))
            && (verdict == Refused(ReviewConflict) <==>
                  unseen && OnTarget(db, i, q) && (exists other :: other != q.decision && DecidedAs(db, q, other)))
            && (verdict == Refused(NotMissingEvidence) <==> open && q.decision == RequestEvidence && !AsksForMissing(db, q))
            && (verdict == Accepted <==> open && (q.decision == RequestEvidence ==> AsksForMissing(db, q) && !AskedBefore(db, q)))
  {
    ActionExactly(db, i, q.action);
    TargetExactly(db, q.run, q.hypothesis);
    TerminalExactly(db, q);
    MissingExactly(db, q);
    AskedExactly(db, q);
  }

  /** A submission answered without being written is answered with a review that says the same: of the
      same action, or of the same hypothesis and decision, or of a request for the same item. */
  lemma ExistingTells(db: Db, i: Id, q: Request)
    requires Decide(db, i, q).Existing?
    ensures var x := Decide(db, i, q).review;
            && x in db.reviews
            && (|| (x.incident == i && x.action == q.action)
                || (x.run == q.run && x.hypothesis == q.hypothesis && x.decision == q.decision)
                || (x.run == q.run && x.decision == q.decision == RequestEvidence
                    && x.requested == Some(if q.requested.Some? then q.requested.value else "")))
  {
  }

  // ---------------------------------------------------------------- the effect

  /** A hypothesis of the run, and a rejecting review of it. */
  ghost predicate HypothesisOf(db: Db, run: Id, c: Child) {
    c in db.children && c.run == run && c.kind.HypothesisChild?
  }

  ghost predicate RejectedReview(reviews: seq<ReviewRow>, run: Id, h: Id) {
    exists x :: x in reviews && x.run == run && x.hypothesis == h && x.decision == Reject
  }

  lemma RejectedExactly(reviews: seq<ReviewRow>, run: Id, h: Id)
    requires Unique(reviews)
    ensures RejectedIn(reviews, h, run) <==> RejectedReview(reviews, run, h)
  {
    FoundExactly(reviews, x => Terminal(x, h, run));
    if x :| x in reviews && x.run == run && x.hypothesis == h && x.decision == Reject {
      assert Terminal(x, h, run);
      OneDecision(reviews, x, TerminalFor(reviews, h, run).value);
    }
  }

  lemma SomeHypothesis(db: Db, run: Id)
    ensures (exists k :: 0 <= k < |db.children| && db.children[k].run == run && db.children[k].kind.HypothesisChild?) <==> exists c :: HypothesisOf(db, run, c)
  {
    if c :| HypothesisOf(db, run, c) {
      var k :| 0 <= k < |db.children| && db.children[k] == c;
    }
    if k :| 0 <= k < |db.children| && db.children[k].run == run && db.children[k].kind.HypothesisChild? {
      assert HypothesisOf(db, run, db.children[k]);
    }
  }

  lemma EveryHypothesis(db: Db, run: Id, good: Id -> bool)
    ensures (forall k :: 0 <= k < |db.children| && db.children[k].run == run && db.children[k].kind.HypothesisChild? ==> good(db.children[k].id))
            <==> forall c :: HypothesisOf(db, run, c) ==> good(c.id)
  {
    if forall c :: HypothesisOf(db, run, c) ==> good(c.id) {
      forall k | 0 <= k < |db.children| && db.children[k].run == run && db.children[k].kind.HypothesisChild? ensures good(db.children[k].id) {
        assert HypothesisOf(db, run, db.children[k]);
      }
    }
    if forall k :: 0 <= k < |db.children| && db.children[k].run == run && db.children[k].kind.HypothesisChild? ==> good(db.children[k].id) {
      forall c | HypothesisOf(db, run, c) ensures good(c.id) {
        var k :| 0 <= k < |db.children| && db.children[k] == c;
      }
    }
  }

  lemma AllRejectedExactly(db: Db, reviews: seq<ReviewRow>, run: Id)
    requires Unique(reviews)
    ensures AllRejected(db.children, reviews, run) <==>
              (exists c :: HypothesisOf(db, run, c)) && forall c :: HypothesisOf(db, run, c) ==> RejectedReview(reviews, run, c.id)
  {
    var rejected: Id -> bool := h => RejectedIn(reviews, h, run);
    SomeHypothesis(db, run);
    EveryHypothesis(db, run, rejected);
    forall c | HypothesisOf(db, run, c) ensures rejected(c.id) <==> RejectedReview(reviews, run, c.id) {
      RejectedExactly(reviews, run, c.id);
    }
  }

  /** What an accepted review leaves: its own row, audited; a confirmation resolves the incident with the
      hypothesis, a rejection closes it when it was the last hypothesis of the run not yet rejected, and
      nothing else moves. */
  lemma RecordedTells(db: Db, i: Id, q: Request, id: Id)
    requires i in db.incidents && Unique(db.reviews + [ReviewRow(id, i, q.run, q.hypothesis, q.decision, q.action, q.requested)])
    ensures var next := Recorded(db, i, q, id);
            && next.reviews == db.reviews + [ReviewRow(id, i, q.run, q.hypothesis, q.decision, q.action, q.requested)]
            && next.incidents.Keys == db.incidents.Keys && (forall j :: j in db.incidents && j != i ==> next.incidents[j] == db.incidents[j])
            && next.incidents[i].pointer == db.incidents[i].pointer && next.incidents[i].top == db.incidents[i].top
            && next.incidents[i].confirmed == (if q.decision == Confirm then Some(q.hypothesis) else db.incidents[i].confirmed)
            && (q.decision == Confirm ==> next.incidents[i].status == Resolved)
            && (q.decision == RequestEvidence ==> next.incidents[i] == db.incidents[i])
    ensures var next := Recorded(db, i, q, id);
            q.decision == Reject ==>
              next.incidents[i].status ==
                if (exists c :: HypothesisOf(db, q.run, c)) && forall c :: HypothesisOf(db, q.run, c) ==> RejectedReview(next.reviews, q.run, c.id)
                then Rejected else db.incidents[i].status
    ensures var next := Recorded(db, i, q, id);
            && next.runs == db.runs && next.children == db.children && next.attached == db.attached
            && next.audit == db.audit + [ReviewAudit(id)] + if next.incidents[i].status != db.incidents[i].status then [StatusAudit(id)] else []
  {
    AllRejectedExactly(db, Recorded(db, i, q, id).reviews, q.run);
  }
}
