/** Human review: one submission validated and recorded against the current run, in any interleaving
    with publications. */
module Reviews {
  import opened AnalysisDatabase
  import opened Common

  datatype Request = Request(run: Id, hypothesis: Id, decision: Decision, action: Id, requested: Option<Id>)

  datatype ReviewError = NotFound | IncidentClosed | AnalysisNotAvailable | StaleAnalysis | ReviewConflict | NotMissingEvidence

  /** What a submission comes to before anything is written. */
  datatype Verdict = Existing(review: ReviewRow) | Refused(error: ReviewError) | Accepted

  // ---------------------------------------------------------------- lookups

  /** The first review that passes the test. */
  function First(reviews: seq<ReviewRow>, test: ReviewRow -> bool): (r: Option<ReviewRow>)
    ensures r.Some? ==> r.value in reviews && test(r.value)
    ensures r.None? <==> forall k :: 0 <= k < |reviews| ==> !test(reviews[k])
  {
    if reviews == [] then None
    else if test(reviews[0]) then Some(reviews[0])
    else
      assert reviews == [reviews[0]] + reviews[1..];
      First(reviews[1..], test)
  }

  predicate OfAction(x: ReviewRow, i: Id, action: Id) {
    x.incident == i && x.action == action
  }

  predicate Terminal(x: ReviewRow, h: Id, run: Id) {
    x.hypothesis == h && x.run == run && !x.decision.RequestEvidence?
  }

  predicate Requests(x: ReviewRow, run: Id, evidence: Id) {
    x.run == run && x.decision.RequestEvidence? && x.requested == Some(evidence)
  }

  function ByAction(reviews: seq<ReviewRow>, i: Id, action: Id): Option<ReviewRow> {
    First(reviews, x => OfAction(x, i, action))
  }

  function TerminalFor(reviews: seq<ReviewRow>, h: Id, run: Id): Option<ReviewRow> {
    First(reviews, x => Terminal(x, h, run))
  }

  function RequestFor(reviews: seq<ReviewRow>, run: Id, evidence: Id): Option<ReviewRow> {
    First(reviews, x => Requests(x, run, evidence))
  }

  /** A missing-evidence row of this run and hypothesis. */
  predicate MissingEvidence(db: Db, run: Id, h: Id, id: Id) {
    exists k :: 0 <= k < |db.children| && db.children[k].run == run && db.children[k].hypothesis == h
                && db.children[k].kind == EvidenceChild(true) && db.children[k].id == id
  }

  predicate IsOpen(row: IncidentRow) {
    row.status.Open? || row.status.Investigating?
  }

  // ---------------------------------------------------------------- one submission

  function Decide(db: Db, i: Id, q: Request): Verdict {
    var existing := ByAction(db.reviews, i, q.action);
    if existing.Some? then Existing(existing.value)
    else if i !in db.incidents then Refused(NotFound)
    else
      var incident := db.incidents[i];
      if !IsOpen(incident) then Refused(IncidentClosed)
      else if incident.pointer.None? then Refused(AnalysisNotAvailable)
      else if q.run != incident.pointer.value || q.run !in db.runs || db.runs[q.run].incident != i || !db.runs[q.run].state.Current?
      then Refused(StaleAnalysis)
      else if !HasHypothesis(db, q.run, q.hypothesis) then Refused(StaleAnalysis)
      else Judge(db, q)
  }

  /** The decision rules once the target is known to be current. */
  function Judge(db: Db, q: Request): Verdict {
    var terminal := TerminalFor(db.reviews, q.hypothesis, q.run);
    if terminal.Some? then (if terminal.value.decision == q.decision then Existing(terminal.value) else Refused(ReviewConflict))
    else if !q.decision.RequestEvidence? then Accepted
    else
      var id := if q.requested.Some? then q.requested.value else "";
      if !MissingEvidence(db, q.run, q.hypothesis, id) then Refused(NotMissingEvidence)
      else match RequestFor(db.reviews, q.run, id)
        case Some(prior) => Existing(prior)
        case None => Accepted
  }

  function NewRow(i: Id, q: Request, id: Id): ReviewRow {
    ReviewRow(id, i, q.run, q.hypothesis, q.decision, q.action, q.requested)
  }

  /** Every hypothesis of the run has a rejecting review, and there is one. */
  predicate AllRejected(children: seq<Child>, reviews: seq<ReviewRow>, run: Id) {
    && (exists k :: 0 <= k < |children| && children[k].run == run && children[k].kind.HypothesisChild?)
    && forall k :: 0 <= k < |children| && children[k].run == run && children[k].kind.HypothesisChild? ==>
         RejectedIn(reviews, children[k].id, run)
  }

  predicate RejectedIn(reviews: seq<ReviewRow>, h: Id, run: Id) {
    TerminalFor(reviews, h, run).Some? && TerminalFor(reviews, h, run).value.decision.Reject?
  }

  /** The database with the review, its audit row and the status transition it causes. */
  function Recorded(db: Db, i: Id, q: Request, id: Id): Db
    requires i in db.incidents
  {
    var reviews := db.reviews + [NewRow(i, q, id)];
    var row := db.incidents[i];
    var row' :=
      if q.decision.Confirm? then row.(confirmed := Some(q.hypothesis), status := Resolved)
      else if q.decision.Reject? && AllRejected(db.children, reviews, q.run) then row.(status := Rejected)
      else row;
    db.(incidents := db.incidents[i := row'],
        reviews := reviews,
        audit := db.audit + [ReviewAudit(id)] + if row'.status != row.status then [StatusAudit(id)] else [])
  }

  class ReviewDesk {
    var db: Db

    constructor (start: Db)
      ensures db == start
    {
      db := start;
    }

    /** Insert unless the client action is already recorded. */
    method PersistIdempotent(row: ReviewRow) returns (stored: ReviewRow, created: bool)
      modifies this`db
      ensures created <==> ByAction(old(db).reviews, row.incident, row.action).None?
      ensures created ==> stored == row && db == old(db).(reviews := old(db).reviews + [row])
      ensures !created ==> db == old(db) && Some(stored) == ByAction(old(db).reviews, row.incident, row.action)
    {
      var existing := ByAction(db.reviews, row.incident, row.action);
      if existing.Some? {
        return existing.value, false;
      }
      db := db.(reviews := db.reviews + [row]);
      return row, true;
    }

    /** Submit a review in one transaction. */
    method Submit(i: Id, q: Request, id: Id) returns (r: Outcome<ReviewRow, ReviewError>)
      modifies this`db
      ensures match Decide(old(db), i, q)
              case Existing(review) => r == Ok(review) && db == old(db)
              case Refused(error) => r == Raised(error) && db == old(db)
              case Accepted => r == Ok(NewRow(i, q, id)) && i in old(db).incidents && db == Recorded(old(db), i, q, id)
    {
      var verdict := Decide(db, i, q);
      match verdict {
        case Existing(review) => return Ok(review);
        case Refused(error) => return Raised(error);
        case Accepted =>
      }
      var row, created := PersistIdempotent(NewRow(i, q, id));
      if !created {
        return Ok(row);
      }
      db := db.(audit := db.audit + [ReviewAudit(row.id)]);
      var oldStatus := db.incidents[i].status;
      if q.decision.Confirm? {
        db := db.(incidents := db.incidents[i := db.incidents[i].(confirmed := Some(q.hypothesis), status := Resolved)]);
      } else if q.decision.Reject? {
        if AllRejected(db.children, db.reviews, q.run) {
          db := db.(incidents := db.incidents[i := db.incidents[i].(status := Rejected)]);
        }
      }
      if db.incidents[i].status != oldStatus {
        db := db.(audit := db.audit + [StatusAudit(row.id)]);
      }
      assert db.incidents == Recorded(old(db), i, q, id).incidents;
      r := Ok(row);
    }
  }

  // ---------------------------------------------------------------- what every reachable state keeps

  /** One review per (incident, client action); one terminal decision per (hypothesis, run); one
      evidence request per (run, evidence item); ids differ. */
  ghost predicate Unique(reviews: seq<ReviewRow>) {
    forall j, k {:trigger reviews[j], reviews[k]} :: 0 <= j < k < |reviews| ==> Apart(reviews[j], reviews[k])
  }

  predicate Apart(x: ReviewRow, y: ReviewRow) {
    && x.id != y.id
    && !(x.incident == y.incident && x.action == y.action)
    && !(x.hypothesis == y.hypothesis && x.run == y.run && !x.decision.RequestEvidence? && !y.decision.RequestEvidence?)
    && !(x.run == y.run && x.decision.RequestEvidence? && y.decision.RequestEvidence? && x.requested == y.requested)
  }

  /** The ids of the review audit rows, in order. */
  function AuditedReviews(audit: seq<AuditRow>): seq<Id> {
    if audit == [] then []
    else
      var before, last := AuditedReviews(audit[..|audit| - 1]), audit[|audit| - 1];
      if last.ReviewAudit? then before + [last.review] else before
  }

  function ReviewIds(reviews: seq<ReviewRow>): seq<Id> {
    Mapped(reviews, (x: ReviewRow) => x.id)
  }

  /** A review is of a run of its incident and of a hypothesis of that run, and an evidence request
      names an item. */
  ghost predicate ReviewOk(db: Db, x: ReviewRow) {
    && x.run in db.runs && db.runs[x.run].incident == x.incident && HasHypothesis(db, x.run, x.hypothesis)
    && (x.decision.RequestEvidence? ==> x.requested.Some?)
  }

  /** A rejected incident has a published run all of whose hypotheses were rejected; a resolved one a
      confirming review of its confirmed hypothesis in its current run. */
  ghost predicate ClosureOk(db: Db, i: Id)
    requires i in db.incidents
  {
    var row := db.incidents[i];
    && (row.status.Rejected? ==> row.pointer.Some? && AllRejected(db.children, db.reviews, row.pointer.value))
    && (row.status.Resolved? ==>
          && row.pointer.Some? && row.confirmed.Some?
          && TerminalFor(db.reviews, row.confirmed.value, row.pointer.value).Some?
          && TerminalFor(db.reviews, row.confirmed.value, row.pointer.value).value.decision.Confirm?)
  }

  ghost predicate Reviewed(db: Db) {
    && Sound(db) && Unique(db.reviews) && AuditedReviews(db.audit) == ReviewIds(db.reviews)
    && (forall k {:trigger ReviewOk(db, db.reviews[k])} :: 0 <= k < |db.reviews| ==> ReviewOk(db, db.reviews[k]))
    && (forall i {:trigger ClosureOk(db, i)} :: i in db.incidents ==> ClosureOk(db, i))
  }

  // ---------------------------------------------------------------- submissions keep it

  /** A review accepted by the rules is apart from every earlier one. */
  lemma AcceptedIsApart(db: Db, i: Id, q: Request, id: Id, k: nat)
    requires Decide(db, i, q).Accepted? && k < |db.reviews| && db.reviews[k].id != id
    requires q.decision.RequestEvidence? ==> q.requested.Some?
    ensures Apart(db.reviews[k], NewRow(i, q, id))
  {
    var x := db.reviews[k];
    assert !OfAction(x, i, q.action);
    assert !Terminal(x, q.hypothesis, q.run);
    assert q.decision.RequestEvidence? ==> !Requests(x, q.run, q.requested.value);
  }

  lemma UniqueAppends(reviews: seq<ReviewRow>, x: ReviewRow)
    requires Unique(reviews) && forall k :: 0 <= k < |reviews| ==> Apart(reviews[k], x)
    ensures Unique(reviews + [x])
  {
  }

  lemma {:induction false} AuditConcat(a: seq<AuditRow>, b: seq<AuditRow>)
    ensures AuditedReviews(a + b) == AuditedReviews(a) + AuditedReviews(b)
  {
    if b == [] {
      assert a + b == a;
    } else {
      assert (a + b)[..|a + b| - 1] == a + b[..|b| - 1];
      AuditConcat(a, b[..|b| - 1]);
    }
  }

  lemma {:induction false} FirstInPrefix(reviews: seq<ReviewRow>, more: seq<ReviewRow>, test: ReviewRow -> bool)
    ensures First(reviews, test).Some? ==> First(reviews + more, test) == First(reviews, test)
    ensures First(reviews, test).None? ==> First(reviews + more, test) == First(more, test)
  {
    if reviews == [] {
      assert reviews + more == more;
    } else {
      assert (reviews + more)[1..] == reviews[1..] + more;
      FirstInPrefix(reviews[1..], more, test);
    }
  }

  /** A terminal decision found once is found in every longer list. */
  lemma TerminalStays(reviews: seq<ReviewRow>, longer: seq<ReviewRow>, h: Id, run: Id)
    requires reviews <= longer && TerminalFor(reviews, h, run).Some?
    ensures TerminalFor(longer, h, run) == TerminalFor(reviews, h, run)
  {
    assert longer == reviews + longer[|reviews|..];
    FirstInPrefix(reviews, longer[|reviews|..], x => Terminal(x, h, run));
  }

  lemma RejectedStays(children: seq<Child>, reviews: seq<ReviewRow>, longer: seq<ReviewRow>, run: Id)
    requires reviews <= longer && AllRejected(children, reviews, run)
    ensures AllRejected(children, longer, run)
  {
    forall k | 0 <= k < |children| && children[k].run == run && children[k].kind.HypothesisChild?
      ensures RejectedIn(longer, children[k].id, run)
    {
      assert RejectedIn(reviews, children[k].id, run);
      TerminalStays(reviews, longer, children[k].id, run);
    }
  }

  lemma RecordedIsSound(db: Db, i: Id, q: Request, id: Id)
    requires Sound(db) && i in db.incidents
    ensures Sound(Recorded(db, i, q, id))
  {
    var next := Recorded(db, i, q, id);
    forall r | r in next.runs ensures RunOk(next, r) {
      assert RunOk(db, r);
    }
    forall r, s | r in next.runs && s in next.runs ensures PairOk(next, r, s) {
      assert PairOk(db, r, s);
    }
    forall j | j in next.incidents ensures IncidentOk(next, j) {
      assert IncidentOk(db, j);
    }
    forall c | c in next.children ensures ChildOk(next, c) {
      assert ChildOk(db, c);
    }
  }

  /** Closing transitions are justified by the reviews on record. */
  lemma RecordedClosure(db: Db, i: Id, q: Request, id: Id, j: Id)
    requires Reviewed(db) && Decide(db, i, q).Accepted? && j in db.incidents
    ensures ClosureOk(Recorded(db, i, q, id), j)
  {
    var next := Recorded(db, i, q, id);
    assert ClosureOk(db, j);
    if j == i {
      if q.decision.Confirm? {
        FirstInPrefix(db.reviews, [NewRow(i, q, id)], x => Terminal(x, q.hypothesis, q.run));
      }
    } else {
      ClosureKept(db, next, j);
    }
  }

  lemma ClosureKept(db: Db, next: Db, j: Id)
    requires j in db.incidents && ClosureOk(db, j) && db.reviews <= next.reviews && next.children == db.children
    requires j in next.incidents && next.incidents[j] == db.incidents[j]
    ensures ClosureOk(next, j)
  {
    var row := db.incidents[j];
    if row.status.Rejected? {
      RejectedStays(db.children, db.reviews, next.reviews, row.pointer.value);
    }
    if row.status.Resolved? {
      TerminalStays(db.reviews, next.reviews, row.confirmed.value, row.pointer.value);
    }
  }

  lemma SubmissionKeepsReviewed(db: Db, i: Id, q: Request, id: Id)
    requires Reviewed(db) && Decide(db, i, q).Accepted? && (q.decision.RequestEvidence? ==> q.requested.Some?)
    requires forall k :: 0 <= k < |db.reviews| ==> db.reviews[k].id != id
    ensures Reviewed(Recorded(db, i, q, id))
  {
    var next, x := Recorded(db, i, q, id), NewRow(i, q, id);
    RecordedIsSound(db, i, q, id);
    forall k | 0 <= k < |db.reviews| ensures Apart(db.reviews[k], x) {
      AcceptedIsApart(db, i, q, id, k);
    }
    UniqueAppends(db.reviews, x);
    AuditOfReview(db, i, q, id);
    forall k | 0 <= k < |next.reviews| ensures ReviewOk(next, next.reviews[k]) {
      if k < |db.reviews| {
        assert ReviewOk(db, db.reviews[k]);
      }
    }
    forall j | j in next.incidents ensures ClosureOk(next, j) {
      RecordedClosure(db, i, q, id, j);
    }
  }

  lemma AuditOfReview(db: Db, i: Id, q: Request, id: Id)
    requires i in db.incidents && AuditedReviews(db.audit) == ReviewIds(db.reviews)
    ensures AuditedReviews(Recorded(db, i, q, id).audit) == ReviewIds(Recorded(db, i, q, id).reviews)
  {
    AuditConcat(db.audit + [ReviewAudit(id)], [StatusAudit(id)]);
    AuditConcat(db.audit, [ReviewAudit(id)]);
    assert [ReviewAudit(id)][..0] == [] && [StatusAudit(id)][..0] == [];
    assert db.audit + [ReviewAudit(id)] + [] == db.audit + [ReviewAudit(id)];
    assert ReviewIds(db.reviews + [NewRow(i, q, id)]) == ReviewIds(db.reviews) + [id];
  }

  lemma SubmissionEvolves(db: Db, i: Id, q: Request, id: Id)
    requires i in db.incidents
    ensures Evolves(db, Recorded(db, i, q, id))
  {
  }

  // ---------------------------------------------------------------- publications keep it

  /** Rows of another run do not change whether a run's hypotheses are all rejected. */
  lemma OtherRowsDoNotCount(children: seq<Child>, added: seq<Child>, reviews: seq<ReviewRow>, run: Id)
    requires AllRejected(children, reviews, run) && forall c :: c in added ==> c.run != run
    ensures AllRejected(children + added, reviews, run)
  {
    var all := children + added;
    var k :| 0 <= k < |children| && children[k].run == run && children[k].kind.HypothesisChild?;
    assert all[k] == children[k];
    assert forall n :: |children| <= n < |all| ==> all[n] == added[n - |children|];
    forall n | 0 <= n < |all| && all[n].run == run && all[n].kind.HypothesisChild? ensures RejectedIn(reviews, all[n].id, run) {
      assert all[n] == children[n];
    }
  }

  lemma StepClosure(db: Db, op: Op, j: Id)
    requires Reviewed(db) && Enabled(db, op) && j in Apply(db, op).incidents
    ensures ClosureOk(Apply(db, op), j)
  {
    if j in db.incidents {
      assert ClosureOk(db, j) && IncidentOk(db, j);
      if op.Publish? && j != op.incident && db.incidents[j].status.Rejected? {
        OtherRowsDoNotCount(db.children, Children(op.rows), db.reviews, db.incidents[j].pointer.value);
      }
    }
  }

  lemma StepReviewOk(db: Db, op: Op, x: ReviewRow)
    requires Sound(db) && Enabled(db, op) && ReviewOk(db, x)
    ensures ReviewOk(Apply(db, op), x)
  {
    StepEvolves(db, op);
    assert RunEvolves(db.runs[x.run], Apply(db, op).runs[x.run]);
    HypothesisKept(db, Apply(db, op), x.run, x.hypothesis);
  }

  lemma StepKeepsReviewed(db: Db, op: Op)
    requires Reviewed(db) && Enabled(db, op)
    ensures Reviewed(Apply(db, op))
  {
    var next := Apply(db, op);
    StepKeepsSound(db, op);
    StepAudit(db, op);
    forall k | 0 <= k < |next.reviews| ensures ReviewOk(next, next.reviews[k]) {
      assert ReviewOk(db, db.reviews[k]);
      StepReviewOk(db, op, db.reviews[k]);
    }
    forall j | j in next.incidents ensures ClosureOk(next, j) {
      StepClosure(db, op, j);
    }
  }

  lemma StepAudit(db: Db, op: Op)
    requires Enabled(db, op)
    ensures AuditedReviews(Apply(db, op).audit) == AuditedReviews(db.audit)
  {
    if op.Publish? {
      var fallback := if op.rows.Some? && op.rows.value.fallback then [FallbackAudit(op.run)] else [];
      var published := PublishedAudit(op.run, op.revision, db.incidents[op.incident].pointer);
      AuditConcat(db.audit + fallback, [published]);
      AuditConcat(db.audit, fallback);
      NoReviewIn(published);
      NoReviewIn(FallbackAudit(op.run));
    } else if op.Fail? {
      AuditConcat(db.audit, [FailedAudit(op.run, op.revision)]);
      NoReviewIn(FailedAudit(op.run, op.revision));
    }
  }

  lemma NoReviewIn(row: AuditRow)
    requires !row.ReviewAudit?
    ensures AuditedReviews([row]) == []
  {
    assert [row][..0] == [];
  }

  // ---------------------------------------------------------------- any interleaving

  /** A publication step or a review submission. */
  datatype Act = Step(op: Op) | Submission(incident: Id, request: Request, id: Id)

  /** The request type requires an evidence id exactly for evidence requests. */
  predicate WellFormed(q: Request) {
    q.decision.RequestEvidence? <==> q.requested.Some?
  }

  /** Review ids are fresh. */
  ghost predicate CanHappen(db: Db, act: Act) {
    match act
    case Step(op) => Enabled(db, op)
    case Submission(_, q, id) => WellFormed(q) && forall k :: 0 <= k < |db.reviews| ==> db.reviews[k].id != id
  }

  function After(db: Db, act: Act): Db {
    match act
    case Step(op) => Apply(db, op)
    case Submission(i, q, id) => if Decide(db, i, q).Accepted? then Recorded(db, i, q, id) else db
  }

  /** The databases along a run of acts. */
  ghost predicate IsRun(states: seq<Db>, acts: seq<Act>) {
    && |states| == |acts| + 1
    && forall k {:trigger acts[k]} :: 0 <= k < |acts| ==> CanHappen(states[k], acts[k]) && states[k + 1] == After(states[k], acts[k])
  }

  lemma ActKeepsReviewed(db: Db, act: Act)
    requires Reviewed(db) && CanHappen(db, act)
    ensures Reviewed(After(db, act)) && Evolves(db, After(db, act))
  {
    EvolvesStays(db);
    match act
    case Step(op) =>
      StepKeepsReviewed(db, op);
      StepEvolves(db, op);
    case Submission(i, q, id) =>
      if Decide(db, i, q).Accepted? {
        SubmissionKeepsReviewed(db, i, q, id);
        SubmissionEvolves(db, i, q, id);
      }
  }

  lemma NextState(states: seq<Db>, acts: seq<Act>, k: nat)
    requires IsRun(states, acts) && k < |acts| && Reviewed(states[k])
    ensures Reviewed(states[k + 1]) && Evolves(states[k], states[k + 1])
  {
    assert CanHappen(states[k], acts[k]);
    ActKeepsReviewed(states[k], acts[k]);
  }

  /** Over any interleaving of submissions and publications every state satisfies the review
      invariants. */
  lemma {:induction false} InterleavingsKeepReviewed(states: seq<Db>, acts: seq<Act>, k: nat)
    requires IsRun(states, acts) && Reviewed(states[0]) && k < |states|
    ensures Reviewed(states[k])
  {
    if k > 0 {
      InterleavingsKeepReviewed(states, acts, k - 1);
      NextState(states, acts, k - 1);
    }
  }

  /** Later states have evolved from earlier ones: what a reader relies on. */
  lemma {:induction false} InterleavingsEvolve(states: seq<Db>, acts: seq<Act>, j: nat, k: nat)
    requires IsRun(states, acts) && Reviewed(states[0]) && j <= k < |states|
    ensures Evolves(states[j], states[k])
    decreases k
  {
    if j == k {
      EvolvesStays(states[j]);
    } else {
      InterleavingsEvolve(states, acts, j, k - 1);
      InterleavingsKeepReviewed(states, acts, k - 1);
      NextState(states, acts, k - 1);
      EvolvesChains(states[j], states[k - 1], states[k]);
    }
  }

  // ---------------------------------------------------------------- replay

  /** A request whose client action is on record is answered with that review, unchanged, in every later
      state, whatever closed or superseded its target. */
  lemma RecordedActionReplays(db: Db, later: Db, i: Id, q: Request)
    requires Evolves(db, later) && ByAction(db.reviews, i, q.action).Some?
    ensures Decide(later, i, q) == Decide(db, i, q) == Existing(ByAction(db.reviews, i, q.action).value)
  {
    assert later.reviews == db.reviews + later.reviews[|db.reviews|..];
    FirstInPrefix(db.reviews, later.reviews[|db.reviews|..], x => OfAction(x, i, q.action));
  }

  /** After an accepted submission its own replay is of that kind. */
  lemma AcceptedIsRecorded(db: Db, i: Id, q: Request, id: Id)
    requires Decide(db, i, q).Accepted?
    ensures Decide(Recorded(db, i, q, id), i, q) == Existing(NewRow(i, q, id))
  {
    FirstInPrefix(db.reviews, [NewRow(i, q, id)], x => OfAction(x, i, q.action));
  }

  /** The guards a replayed request has to pass again: the incident open, still pointing to the named
      run, and for an evidence request no terminal decision on the hypothesis yet. */
  predicate StillApplies(db: Db, i: Id, q: Request) {
    && i in db.incidents && IsOpen(db.incidents[i]) && db.incidents[i].pointer == Some(q.run)
    && (q.decision.RequestEvidence? ==> TerminalFor(db.reviews, q.hypothesis, q.run).None?)
  }

  /** A request answered with a review recorded under another action leaves no record of its own. Its
      replay in a later state, while its action is still unused, gives the same review exactly when it
      still passes those guards. */
  lemma SharedAnswerReplaysExactly(db: Db, later: Db, i: Id, q: Request, x: ReviewRow)
    requires Reviewed(db) && Reviewed(later) && Evolves(db, later) && Decide(db, i, q) == Existing(x) && x.action != q.action
    requires ByAction(later.reviews, i, q.action).None?
    ensures Decide(later, i, q) == Existing(x) <==> StillApplies(later, i, q)
  {
    NotRecordedBefore(db, later, i, q);
    JudgedAgain(db, later, q, x);
    if later.incidents[i].pointer == Some(q.run) {
      assert IncidentOk(later, i);
      ChildStays(db, later, q.run, q.hypothesis);
    }
  }

  lemma NotRecordedBefore(db: Db, later: Db, i: Id, q: Request)
    requires db.reviews <= later.reviews && ByAction(later.reviews, i, q.action).None?
    ensures ByAction(db.reviews, i, q.action).None?
  {
    assert later.reviews == db.reviews + later.reviews[|db.reviews|..];
    FirstInPrefix(db.reviews, later.reviews[|db.reviews|..], y => OfAction(y, i, q.action));
  }

  lemma ChildStays(db: Db, later: Db, run: Id, h: Id)
    requires Evolves(db, later) && run in db.runs && HasHypothesis(db, run, h)
    ensures HasHypothesis(later, run, h)
  {
    var k :| 0 <= k < |db.children| && db.children[k].run == run && db.children[k].kind.HypothesisChild? && db.children[k].id == h;
    RowStays(db, later, run, db.children[k]);
    var n :| 0 <= n < |later.children| && later.children[n] == db.children[k];
  }

  lemma RowStays(db: Db, later: Db, run: Id, c: Child)
    requires Evolves(db, later) && run in db.runs && c in db.children && c.run == run
    ensures c in later.children
  {
    WhereMembers(db.children, (x: Child) => x.run == run, c);
    assert ChildrenOf(later, run) == ChildrenOf(db, run);
    WhereMembers(later.children, (x: Child) => x.run == run, c);
  }

  /** The decision rules give the same existing review again, unless a terminal decision has meanwhile
      overtaken an evidence request. */
  lemma JudgedAgain(db: Db, later: Db, q: Request, x: ReviewRow)
    requires Evolves(db, later) && q.run in db.runs && Judge(db, q) == Existing(x)
    ensures Judge(later, q) == Existing(x) <==> (q.decision.RequestEvidence? ==> TerminalFor(later.reviews, q.hypothesis, q.run).None?)
  {
    if TerminalFor(db.reviews, q.hypothesis, q.run).Some? {
      TerminalStays(db.reviews, later.reviews, q.hypothesis, q.run);
    } else {
      var id := if q.requested.Some? then q.requested.value else "";
      EvidenceStays(db, later, q.run, q.hypothesis, id);
      assert later.reviews == db.reviews + later.reviews[|db.reviews|..];
      FirstInPrefix(db.reviews, later.reviews[|db.reviews|..], y => Requests(y, q.run, id));
    }
  }

  lemma EvidenceStays(db: Db, later: Db, run: Id, h: Id, id: Id)
    requires Evolves(db, later) && run in db.runs && MissingEvidence(db, run, h, id)
    ensures MissingEvidence(later, run, h, id)
  {
    var k :| 0 <= k < |db.children| && db.children[k].run == run && db.children[k].hypothesis == h
             && db.children[k].kind == EvidenceChild(true) && db.children[k].id == id;
    RowStays(db, later, run, db.children[k]);
    var n :| 0 <= n < |later.children| && later.children[n] == db.children[k];
  }

  // ---------------------------------------------------------------- a replay that is not the same

  /** A run with two hypotheses. */
  function TwoHypotheses(): Db {
    Db(map["i" := IncidentRow(Investigating, Some("r"), Some("g"), None)],
       map[],
       map["r" := RunRow("i", 1, Current, {}, None)],
       [Child("g", "r", "i", "g", HypothesisChild(1)), Child("h", "r", "i", "h", HypothesisChild(2))],
       [], [])
  }

  lemma FirstOfFew(x: ReviewRow, y: ReviewRow, test: ReviewRow -> bool)
    ensures First([], test) == None
    ensures First([x], test) == if test(x) then Some(x) else None
    ensures First([x, y], test) == if test(x) then Some(x) else if test(y) then Some(y) else None
  {
    assert [x][1..] == [] && [x, y][1..] == [y] && [y][1..] == [];
  }

  /** Two operators reject the same hypothesis; the second is answered with the first's review. When the
      other hypothesis is rejected too the incident closes, and the second operator's replay fails. */
  lemma SharedAnswerLost()
    ensures var start := TwoHypotheses();
            var first, second := Request("r", "g", Reject, "a", None), Request("r", "g", Reject, "b", None);
            var other := Request("r", "h", Reject, "c", None);
            var one := Recorded(start, "i", first, "x");
            var two := Recorded(one, "i", other, "y");
            && Decide(start, "i", first).Accepted? && Decide(one, "i", second) == Existing(NewRow("i", first, "x"))
            && Decide(one, "i", other).Accepted? && Decide(two, "i", second) == Refused(IncidentClosed)
  {
    var start := TwoHypotheses();
    var first, second := Request("r", "g", Reject, "a", None), Request("r", "g", Reject, "b", None);
    var other := Request("r", "h", Reject, "c", None);
    var x, y := NewRow("i", first, "x"), NewRow("i", other, "y");
    assert "a"[0] != "b"[0] && "a"[0] != "c"[0] && "b"[0] != "c"[0] && "g"[0] != "h"[0];
    assert HasHypothesis(start, "r", "g") by {
      assert start.children[0].id == "g";
    }
    assert HasHypothesis(start, "r", "h") by {
      assert start.children[1].id == "h";
    }
    var one := Recorded(start, "i", first, "x");
    assert one.reviews == [x];
    var two := Recorded(one, "i", other, "y");
    assert two.reviews == [x, y];
    FirstRejection(start, one, x, first);
    SecondRejection(one, two, x, y, second, other);
  }

  lemma FirstRejection(start: Db, one: Db, x: ReviewRow, first: Request)
    requires start == TwoHypotheses() && first == Request("r", "g", Reject, "a", None) && x == NewRow("i", first, "x")
    requires one == Recorded(start, "i", first, "x") && one.reviews == [x] && HasHypothesis(start, "r", "g")
    ensures Decide(start, "i", first).Accepted? && one.incidents == start.incidents && one.runs == start.runs
  {
    FirstOfFew(x, x, z => OfAction(z, "i", "a"));
    FirstOfFew(x, x, z => Terminal(z, "g", "r"));
    FirstOfFew(x, x, z => Terminal(z, "h", "r"));
    assert start.children[1] == Child("h", "r", "i", "h", HypothesisChild(2));
    assert "g"[0] != "h"[0];
    assert !RejectedIn([x], start.children[1].id, "r");
    assert !AllRejected(start.children, [x], "r");
  }

  /** The state after the first rejection, with the second operator's requests. */
  ghost predicate AfterFirst(one: Db, x: ReviewRow, second: Request, other: Request) {
    && one.reviews == [x] && one.children == TwoHypotheses().children && one.runs == TwoHypotheses().runs
    && one.incidents == TwoHypotheses().incidents && HasHypothesis(one, "r", "g") && HasHypothesis(one, "r", "h")
    && second == Request("r", "g", Reject, "b", None) && other == Request("r", "h", Reject, "c", None)
    && x == ReviewRow("x", "i", "r", "g", Reject, "a", None)
  }

  lemma SecondRejection(one: Db, two: Db, x: ReviewRow, y: ReviewRow, second: Request, other: Request)
    requires AfterFirst(one, x, second, other) && y == NewRow("i", other, "y")
    requires two == Recorded(one, "i", other, "y") && two.reviews == [x, y]
    ensures Decide(one, "i", second) == Existing(x) && Decide(one, "i", other).Accepted? && Decide(two, "i", second) == Refused(IncidentClosed)
  {
    SharedAnswer(one, x, second, other);
    BothRejected(one, two, x, y, second, other);
  }

  lemma SharedAnswer(one: Db, x: ReviewRow, second: Request, other: Request)
    requires AfterFirst(one, x, second, other)
    ensures Decide(one, "i", second) == Existing(x) && Decide(one, "i", other).Accepted?
  {
    assert "a"[0] != "b"[0] && "a"[0] != "c"[0] && "g"[0] != "h"[0];
    FirstOfFew(x, x, z => OfAction(z, "i", "b"));
    FirstOfFew(x, x, z => OfAction(z, "i", "c"));
    FirstOfFew(x, x, z => Terminal(z, "g", "r"));
    FirstOfFew(x, x, z => Terminal(z, "h", "r"));
  }

  lemma BothRejected(one: Db, two: Db, x: ReviewRow, y: ReviewRow, second: Request, other: Request)
    requires AfterFirst(one, x, second, other) && y == NewRow("i", other, "y")
    requires two == Recorded(one, "i", other, "y") && two.reviews == [x, y]
    ensures Decide(two, "i", second) == Refused(IncidentClosed)
  {
    assert "a"[0] != "b"[0] && "b"[0] != "c"[0] && "g"[0] != "h"[0];
    FirstOfFew(x, y, z => OfAction(z, "i", "b"));
    FirstOfFew(x, y, z => Terminal(z, "g", "r"));
    FirstOfFew(x, y, z => Terminal(z, "h", "r"));
    assert one.children[0].kind.HypothesisChild?;
    assert AllRejected(one.children, [x, y], "r");
  }

  // ---------------------------------------------------------------- checks and write in different states

  /** A write whose checks were made on an earlier state: only the client action is looked up again. */
  function WrittenLate(db: Db, i: Id, q: Request, id: Id): Db
    requires i in db.incidents
  {
    if ByAction(db.reviews, i, q.action).Some? then db else Recorded(db, i, q, id)
  }

  predicate OneTerminal(reviews: seq<ReviewRow>, h: Id, run: Id) {
    forall j, k :: 0 <= j < k < |reviews| ==> !(Terminal(reviews[j], h, run) && Terminal(reviews[k], h, run))
  }

  /** If other submissions commit between a submission's checks and its write, the hypothesis keeps a
      single terminal decision exactly when, at the time of the write, the action was already recorded,
      the decision is not terminal, or no terminal decision had been recorded. */
  lemma LateWriteKeepsOneTerminalExactly(db: Db, i: Id, q: Request, id: Id)
    requires i in db.incidents && Unique(db.reviews)
    ensures OneTerminal(WrittenLate(db, i, q, id).reviews, q.hypothesis, q.run) <==>
              || ByAction(db.reviews, i, q.action).Some?
              || q.decision.RequestEvidence?
              || TerminalFor(db.reviews, q.hypothesis, q.run).None?
  {
    var x, h, run := NewRow(i, q, id), q.hypothesis, q.run;
    var longer := db.reviews + [x];
    forall j, k | 0 <= j < k < |db.reviews| ensures !(Terminal(db.reviews[j], h, run) && Terminal(db.reviews[k], h, run)) {
      assert Apart(db.reviews[j], db.reviews[k]);
    }
    assert longer[|db.reviews|] == x && forall k :: 0 <= k < |db.reviews| ==> longer[k] == db.reviews[k];
    if TerminalFor(db.reviews, h, run).Some? {
      var k :| 0 <= k < |db.reviews| && db.reviews[k] == TerminalFor(db.reviews, h, run).value;
      assert Terminal(longer[k], h, run);
    }
  }

  /** Both submissions are accepted on the same state; written one after the other they leave two
      terminal decisions on one hypothesis. */
  lemma LateWriteDoubles()
    ensures var start := TwoHypotheses();
            var first, second := Request("r", "g", Reject, "a", None), Request("r", "g", Confirm, "b", None);
            var one := Recorded(start, "i", first, "x");
            && Decide(start, "i", first).Accepted? && Decide(start, "i", second).Accepted?
            && !OneTerminal(WrittenLate(one, "i", second, "y").reviews, "g", "r")
  {
    var start := TwoHypotheses();
    var first, second := Request("r", "g", Reject, "a", None), Request("r", "g", Confirm, "b", None);
    var x, y := NewRow("i", first, "x"), NewRow("i", second, "y");
    assert "a"[0] != "b"[0];
    assert HasHypothesis(start, "r", "g") by {
      assert start.children[0].id == "g";
    }
    var one := Recorded(start, "i", first, "x");
    assert one.reviews == [x];
    FirstOfFew(x, x, z => OfAction(z, "i", "b"));
    var two := WrittenLate(one, "i", second, "y");
    assert two.reviews == [x, y] && Terminal(two.reviews[0], "g", "r") && Terminal(two.reviews[1], "g", "r");
  }

  // ---------------------------------------------------------------- closed incidents and recomputation

  /** Closure is not final. Recomputing a closed incident whose attached events have changed reopens it,
      and the confirmed hypothesis of the earlier run stays on record although the incident now points
      to another run. */
  lemma RecomputeReopens(db: Db, op: Op)
    requires Reviewed(db) && op.Publish? && Enabled(db, op) && db.incidents[op.incident].status.Resolved?
    ensures var row := Apply(db, op).incidents[op.incident];
            && IsOpen(row) && row.confirmed == db.incidents[op.incident].confirmed && row.confirmed.Some?
            && !HasHypothesis(db, op.run, row.confirmed.value) && row.pointer == Some(op.run)
  {
    assert ClosureOk(db, op.incident);
    forall k | 0 <= k < |db.children| ensures db.children[k].run != op.run {
      assert ChildOk(db, db.children[k]);
    }
  }
}
