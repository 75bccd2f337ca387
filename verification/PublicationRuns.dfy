/** Whole runs of the publication protocol: any sequence of requests with any failures, ingestion
    batches, and how many revisions an incident can accumulate. */
module PublicationRuns {
  import opened AnalysisDatabase
  import opened Common
  import opened Contracts
  import opened Publication
  import opened Sorting

  // ---------------------------------------------------------------- any sequence of requests

  /** A request: an incident opens, an event is attached, or an incident is analysed. The last flag of
      an analysis says whether the caller's own commit fails. */
  datatype Request =
    | Opening(incident: Id)
    | Attaching(incident: Id, event: Id)
    | Analysing(incident: Id, run: Id, analysis: Analysis, verdict: bool, faults: Faults)

  /** What every request leaves: sound tables that only grew. */
  ghost predicate Progressed(start: Db, session: Session)
    reads session
  {
    && Sound(session.db) && session.committed == session.db && Evolves(start, session.committed)
  }

  ghost predicate PublishedStep(before: Db, i: Id, run: Id, rows: Option<Rows>, after: Db) {
    exists n :: Enabled(before, Publish(i, run, n, rows)) && after == Apply(before, Publish(i, run, n, rows))
  }

  ghost predicate FailedStep(before: Db, i: Id, run: Id, after: Db) {
    exists n :: Enabled(before, Fail(i, run, n)) && after == Apply(before, Fail(i, run, n))
  }

  /** What one request does to the committed database: an analysis of unchanged inputs does nothing; one
      whose inputs changed is published only if the engine's output is acceptable, and is published when
      every sub-step succeeds too. */
  ghost predicate Handled(before: Db, request: Request, after: Db) {
    match request
    case Opening(i) => after == if i in before.incidents then before else Apply(before, OpenIncident(i))
    case Attaching(i, e) => after == if i in before.incidents then Apply(before, Attach(i, e)) else before
    case Analysing(i, run, analysis, verdict, faults) =>
      if i !in before.incidents || run in before.runs then after == before
      else if exists r :: before.incidents[i].pointer == Some(r) && r in before.runs && before.runs[r].inputs == AttachedTo(before, i) then after == before
      else
        && (after == before || FailedStep(before, i, run, after)
            || (Acceptable(i, run, analysis, verdict) && PublishedStep(before, i, run, RowsOf(analysis), after)))
        && (Acceptable(i, run, analysis, verdict) && (forall p: Point :: !faults(p)) ==> PublishedStep(before, i, run, RowsOf(analysis), after))
        && (!Acceptable(i, run, analysis, verdict) && (forall p: Point :: !faults(p)) ==> FailedStep(before, i, run, after))
  }

  /** One request, ended by a commit or a rollback. A failing analysis raises; the request then ends
      with whatever was committed. */
  method Handle(session: Session, request: Request, ghost start: Db)
    requires Progressed(start, session)
    modifies session
    ensures Progressed(start, session) && Evolves(old(session.committed), session.committed)
    ensures Handled(old(session.committed), request, session.committed)
  {
    EvolvesStays(session.db);
    match request {
      case Opening(i) =>
        if i !in session.db.incidents {
          Advance(start, session.db, OpenIncident(i));
          session.db := Apply(session.db, OpenIncident(i));
          session.Commit();
        }
      case Attaching(i, e) =>
        if i in session.db.incidents {
          Advance(start, session.db, Attach(i, e));
          session.db := Apply(session.db, Attach(i, e));
          session.Commit();
        }
      case Analysing(i, run, analysis, verdict, faults) =>
        if i in session.db.incidents && run !in session.db.runs {
          ghost var before := session.db;
          var ending := session.RunAndPublish(i, run, analysis, verdict, faults);
          Concluded(start, before, i, run, RowsOf(analysis), session.db);
          if ending.Unchanged? || ending.PublishedAs? {
            if faults(AtCommit) {
              session.Rollback();
            } else {
              session.Commit();
            }
          }
        }
    }
  }

  lemma Advance(start: Db, db: Db, op: Op)
    requires Sound(db) && Evolves(start, db) && Enabled(db, op)
    ensures Sound(Apply(db, op)) && Evolves(start, Apply(db, op)) && Evolves(db, Apply(db, op))
  {
    StepKeepsSound(db, op);
    StepEvolves(db, op);
    EvolvesChains(start, db, Apply(db, op));
  }

  /** An analysis leaves the database as it was, or takes one publication or one failure step. */
  ghost predicate OneStep(before: Db, i: Id, run: Id, rows: Option<Rows>, after: Db) {
    after == before || PublishedStep(before, i, run, rows, after) || FailedStep(before, i, run, after)
  }

  lemma Concluded(start: Db, before: Db, i: Id, run: Id, rows: Option<Rows>, after: Db)
    requires Sound(before) && Evolves(start, before) && OneStep(before, i, run, rows, after)
    ensures Sound(after) && Evolves(start, after) && Evolves(before, after)
  {
    EvolvesStays(before);
    if PublishedStep(before, i, run, rows, after) {
      var n :| Enabled(before, Publish(i, run, n, rows)) && after == Apply(before, Publish(i, run, n, rows));
      Advance(start, before, Publish(i, run, n, rows));
    } else if FailedStep(before, i, run, after) {
      var n :| Enabled(before, Fail(i, run, n)) && after == Apply(before, Fail(i, run, n));
      Advance(start, before, Fail(i, run, n));
    }
  }

  function Empty(): Db {
    Db(map[], map[], map[], [], [], [])
  }

  lemma EmptyIsSound()
    ensures Sound(Empty())
  {
  }

  /** Safety over every run: whatever the requests and wherever anything fails, the committed database
      satisfies every invariant, and everything published at any earlier time is still there unchanged.
      A database with no rows is a legal start. */
  method HandleAll(session: Session, requests: seq<Request>, ghost start: Db) returns (ghost trace: seq<Db>)
    requires Progressed(start, session)
    modifies session
    ensures Progressed(start, session) && Evolves(old(session.committed), session.committed)
    ensures TraceOf(trace, requests, |requests|) && trace[0] == old(session.committed) && trace[|requests|] == session.committed
  {
    EvolvesStays(session.committed);
    trace := [session.committed];
    for k := 0 to |requests|
      invariant Progressed(start, session) && Evolves(old(session.committed), session.committed)
      invariant TraceOf(trace, requests, k) && trace[0] == old(session.committed) && trace[k] == session.committed
    {
      ghost var before := session.committed;
      Handle(session, requests[k], start);
      EvolvesChains(old(session.committed), before, session.committed);
      TraceGrows(trace, requests, k, session.committed);
      trace := trace + [session.committed];
    }
  }

  /** The committed databases before and after each of the first `n` requests. */
  ghost predicate TraceOf(trace: seq<Db>, requests: seq<Request>, n: nat) {
    |trace| == n + 1 && n <= |requests| && forall k {:trigger requests[k]} :: 0 <= k < n ==> Handled(trace[k], requests[k], trace[k + 1])
  }

  lemma TraceGrows(trace: seq<Db>, requests: seq<Request>, n: nat, next: Db)
    requires TraceOf(trace, requests, n) && n < |requests| && Handled(trace[n], requests[n], next)
    ensures TraceOf(trace + [next], requests, n + 1)
  {
    var longer := trace + [next];
    forall k | 0 <= k < n + 1 ensures Handled(longer[k], requests[k], longer[k + 1]) {
      assert longer[k] == trace[k];
      assert k < n ==> longer[k + 1] == trace[k + 1] && Handled(trace[k], requests[k], trace[k + 1]);
    }
  }

  // ---------------------------------------------------------------- what the invariants say

  /** At most one current run per incident, exactly the run the incident points to. */
  lemma OneCurrentRun(db: Db, i: Id, r: Id)
    requires Sound(db) && i in db.incidents && r in db.runs && db.runs[r].incident == i
    ensures db.runs[r].state.Current? <==> db.incidents[i].pointer == Some(r)
  {
    assert RunOk(db, r) && IncidentOk(db, i);
  }

  /** A failure leaves every run, row and pointer as they were, and its own run without rows. */
  lemma FailureTouchesNothing(db: Db, i: Id, run: Id, n: nat)
    requires Sound(db) && Enabled(db, Fail(i, run, n))
    ensures var next := Apply(db, Fail(i, run, n));
            && next.incidents == db.incidents && next.children == db.children
            && (forall r :: r in db.runs ==> next.runs[r] == db.runs[r])
            && next.runs.Keys == db.runs.Keys + {run} && next.runs[run].state.Failed? && ChildrenOf(next, run) == []
  {
    forall c | c in db.children ensures c.run != run {
      assert ChildOk(db, c);
    }
    WhereNone(db.children, (c: Child) => c.run == run);
  }

  /** A publication's rows are exactly the rows the engine produced, and the top hypothesis is a best
      ranked one of them. */
  lemma PublicationIsComplete(db: Db, i: Id, run: Id, n: nat, rows: Rows)
    requires Sound(db) && Enabled(db, Publish(i, run, n, Some(rows)))
    ensures var next := Apply(db, Publish(i, run, n, Some(rows)));
            && ChildrenOf(next, run) == rows.children && next.runs[run].snapshot == rows.snapshot
            && next.incidents[i].pointer == Some(run) && next.incidents[i].top.Some?
            && exists h :: h in rows.children && h.kind.HypothesisChild? && next.incidents[i].top == Some(h.id)
                 && forall c :: c in rows.children && c.kind.HypothesisChild? ==> h.kind.rank <= c.kind.rank
  {
    var keep := (c: Child) => c.run == run;
    forall c | c in db.children ensures c.run != run {
      assert ChildOk(db, c);
    }
    WhereConcat(db.children, rows.children, keep);
    WhereNone(db.children, keep);
    WhereAll(rows.children, keep);
    var c :| c in rows.children && c.kind == ExplanationChild(Template);
    assert Resolves(rows.children, c);
    assert TopOf(rows.children).Some?;
  }

  // ---------------------------------------------------------------- how many revisions

  function PublishedRuns(db: Db, i: Id): set<Id> {
    set r | r in db.runs && db.runs[r].incident == i && Published(db.runs[r])
  }

  /** A set whose members have distinct sizes in a range of `count` numbers has at most `count`. */
  lemma {:induction false} Pigeonhole(items: set<Id>, size: Id -> nat, low: nat, count: nat)
    requires forall x :: x in items ==> low <= size(x) < low + count
    requires forall x, y :: x in items && y in items && x != y ==> size(x) != size(y)
    ensures |items| <= count
  {
    if count == 0 {
      assert items == {};
    } else if exists x :: x in items && size(x) == low + count - 1 {
      var x :| x in items && size(x) == low + count - 1;
      Pigeonhole(items - {x}, size, low, count - 1);
    } else {
      Pigeonhole(items, size, low, count - 1);
    }
  }

  /** Consecutive revisions saw strictly growing sets of attached events; so an incident has at most one
      published revision more than attached events, and at most as many when none was published before
      any event was attached. */
  lemma RevisionsBounded(db: Db, i: Id)
    requires Sound(db)
    ensures |PublishedRuns(db, i)| <= |AttachedTo(db, i)| + 1
    ensures (forall r :: r in PublishedRuns(db, i) ==> db.runs[r].inputs != {}) ==> |PublishedRuns(db, i)| <= |AttachedTo(db, i)|
  {
    var items := PublishedRuns(db, i);
    var size := (r: Id) => if r in db.runs then |db.runs[r].inputs| else 0;
    forall r | r in items ensures 0 <= size(r) <= |AttachedTo(db, i)| {
      assert RunOk(db, r);
      SubsetSize(db.runs[r].inputs, AttachedTo(db, i));
    }
    forall r, s | r in items && s in items && r != s ensures size(r) != size(s) {
      assert PairOk(db, r, s) && PairOk(db, s, r);
      if db.runs[r].revision < db.runs[s].revision {
        ProperSubsetSize(db.runs[r].inputs, db.runs[s].inputs);
      } else {
        ProperSubsetSize(db.runs[s].inputs, db.runs[r].inputs);
      }
    }
    Pigeonhole(items, size, 0, |AttachedTo(db, i)| + 1);
    if forall r :: r in items ==> db.runs[r].inputs != {} {
      Pigeonhole(items, size, 1, |AttachedTo(db, i)|);
    }
  }

  lemma SubsetSize<T>(a: set<T>, b: set<T>)
    requires a <= b
    ensures |a| <= |b|
  {
    assert b == a + (b - a);
  }

  lemma ProperSubsetSize<T>(a: set<T>, b: set<T>)
    requires a < b
    ensures |a| < |b|
  {
    assert b == a + (b - a);
    var x :| x in b - a;
    assert |b - a| > 0;
  }

  // ---------------------------------------------------------------- ingestion batches

  /** What detection and the incident manager do with one event: they change incidents and attachments
      and name the affected incident, if any. */
  type Stage = (Db, CanonicalEvent) -> (Db, Option<Id>)

  /** The manager never touches runs, their rows, reviews or the log's past, never detaches an event, and
      names an incident that exists. */
  ghost predicate Manages(stage: Stage) {
    forall db, e :: Sound(db) ==>
      && Sound(stage(db, e).0) && stage(db, e).0.runs == db.runs && stage(db, e).0.children == db.children
      && Evolves(db, stage(db, e).0)
      && (stage(db, e).1.Some? ==> stage(db, e).1.value in stage(db, e).0.incidents)
  }

  function Noted(affected: seq<Id>, i: Option<Id>): seq<Id> {
    if i.None? || i.value in affected then affected else affected + [i.value]
  }

  /** The database after the staging pass, and the affected incidents in order of first effect. */
  function Staged(db: Db, events: seq<CanonicalEvent>, stage: Stage): (Db, seq<Id>) {
    if events == [] then (db, [])
    else
      var (before, affected) := Staged(db, events[..|events| - 1], stage);
      var (after, i) := stage(before, events[|events| - 1]);
      (after, Noted(affected, i))
  }

  /** The analyses a batch will meet: fresh run ids, engine outcomes, verdicts and faults per incident. */
  datatype Plan = Plan(runId: nat -> Id, analysis: Id -> Analysis, verdict: Id -> bool, faults: Id -> Faults)

  ghost predicate FreshIds(plan: Plan, db: Db) {
    && (forall n {:trigger plan.runId(n)} :: plan.runId(n) !in db.runs)
    && (forall m, n {:trigger plan.runId(m), plan.runId(n)} :: m != n ==> plan.runId(m) != plan.runId(n))
  }

  /** The runs added are at most one for each of the first `n` affected incidents. */
  ghost predicate AddedAtMostOneEach(before: Db, after: Db, affected: seq<Id>, plan: Plan, n: nat)
    requires n <= |affected|
  {
    forall r :: r in after.runs && r !in before.runs ==> AddedFor(after, affected, plan, n, r)
  }

  ghost predicate AddedFor(after: Db, affected: seq<Id>, plan: Plan, n: nat, r: Id)
    requires n <= |affected| && r in after.runs
  {
    exists k {:trigger plan.runId(k)} :: 0 <= k < n && r == plan.runId(k) && after.runs[r].incident == affected[k]
  }

  method StageAll(session: Session, ordered: seq<CanonicalEvent>, stage: Stage) returns (affected: seq<Id>)
    requires Sound(session.db) && Manages(stage)
    modifies session`db
    ensures (session.db, affected) == Staged(old(session.db), ordered, stage)
    ensures Sound(session.db) && session.db.runs == old(session.db).runs && Evolves(old(session.db), session.db)
    ensures Distinct(affected) && forall i :: i in affected ==> i in session.db.incidents
  {
    affected := [];
    EvolvesStays(session.db);
    for k := 0 to |ordered|
      invariant Evolves(old(session.db), session.db)
      invariant (session.db, affected) == Staged(old(session.db), ordered[..k], stage)
      invariant Sound(session.db) && session.db.runs == old(session.db).runs
      invariant Distinct(affected) && forall i :: i in affected ==> i in session.db.incidents
    {
      assert ordered[..k + 1][..k] == ordered[..k];
      var (after, i) := stage(session.db, ordered[k]);
      EvolvesChains(old(session.db), session.db, after);
      session.db := after;
      if i.Some? && i.value !in affected {
        DistinctAppends(affected, i.value);
      }
      affected := Noted(affected, i);
    }
    assert ordered[..|ordered|] == ordered;
  }

  /** Nothing in the plan fails: no fault, and every engine outcome acceptable. */
  ghost predicate Untroubled(plan: Plan, affected: seq<Id>) {
    && (forall i, p: Point :: !plan.faults(i)(p))
    && forall k {:trigger plan.runId(k)} :: 0 <= k < |affected| ==>
         Acceptable(affected[k], plan.runId(k), plan.analysis(affected[k]), plan.verdict(affected[k]))
  }

  lemma NothingFails(plan: Plan, affected: seq<Id>, k: nat, prior: Option<Id>)
    requires Untroubled(plan, affected) && k < |affected|
    ensures var i := affected[k];
            && Acceptable(i, plan.runId(k), plan.analysis(i), plan.verdict(i)) && Smooth(prior, plan.analysis(i), plan.faults(i))
            && !plan.faults(i)(AtFingerprint) && !plan.faults(i)(AtCreateRun)
  {
  }

  /** The run the incident points to, which is current, saw every event attached now and no other. */
  ghost predicate SawEverything(db: Db, i: Id) {
    i in db.incidents
    && exists r :: db.incidents[i].pointer == Some(r) && r in db.runs && db.runs[r].state.Current? && db.runs[r].inputs == AttachedTo(db, i)
  }

  /** A batch: stage every event in (timestamp, id) order, then analyse each affected incident once.
      A raising analysis ends the batch. Input order plays no part: only the sorted events are used.
      A completed batch leaves the current run of every affected incident with the fingerprint of its
      attached events, and a batch in which nothing fails is completed. However it ends, everything
      published before is still there unchanged. */
  method ProcessBatch(session: Session, events: seq<CanonicalEvent>, stage: Stage, plan: Plan)
    returns (ghost affected: seq<Id>, completed: bool)
    requires Sound(session.db) && Sound(session.committed) && session.db == session.committed && Manages(stage) && FreshIds(plan, session.db)
    modifies session
    ensures affected == Staged(old(session.db), SortBy(events, EarlierEvent), stage).1 && Distinct(affected)
    ensures Sound(session.db) && Sound(session.committed)
    ensures Evolves(old(session.db), session.db) && Evolves(old(session.db), session.committed)
    ensures AddedAtMostOneEach(old(session.db), session.db, affected, plan, |affected|)
    ensures completed ==> forall i :: i in affected ==> SawEverything(session.db, i)
    ensures Untroubled(plan, affected) ==> completed
  {
    completed := false;
    EvolvesStays(session.db);
    var ordered := SortBy(events, EarlierEvent);
    var incidents := StageAll(session, ordered, stage);
    affected := incidents;
    for k := 0 to |incidents|
      invariant Sound(session.db) && session.committed == old(session.committed) && Evolves(old(session.db), session.db)
      invariant forall i :: i in incidents ==> i in session.db.incidents
      invariant forall j :: 0 <= j < k ==> UpToDate(session.db, incidents[j])
      invariant old(session.db).runs.Keys <= session.db.runs.Keys
      invariant AddedAtMostOneEach(old(session.db), session.db, incidents, plan, k)
    {
      var i, run := incidents[k], plan.runId(k);
      ghost var before := session.db;
      assert run !in session.db.runs by {
        assert run !in old(session.db).runs;
        assert run in session.db.runs ==> AddedFor(session.db, incidents, plan, k, run);
      }
      var ending := session.RunAndPublish(i, run, plan.analysis(i), plan.verdict(i), plan.faults(i));
      if Untroubled(plan, affected) {
        NothingFails(plan, affected, k, before.incidents[i].pointer);
      }
      if ending.Aborted? {
        return;
      }
      EvolvesStays(before);
      Concluded(old(session.db), before, i, run, RowsOf(plan.analysis(i)), session.db);
      OneMore(old(session.db), before, session.db, incidents, plan, k, RowsOf(plan.analysis(i)));
      if ending.FailedAs? {
        return;
      }
      BroughtUpToDate(before, session.db, incidents, k, run, RowsOf(plan.analysis(i)));
    }
    completed := true;
    forall i | i in affected ensures SawEverything(session.db, i) {
      var j :| 0 <= j < |incidents| && incidents[j] == i;
      assert UpToDate(session.db, i) && IncidentOk(session.db, i);
    }
  }

  lemma BroughtUpToDate(before: Db, after: Db, incidents: seq<Id>, k: nat, run: Id, rows: Option<Rows>)
    requires Sound(before) && k < |incidents| && forall i :: i in incidents ==> i in before.incidents
    requires forall j :: 0 <= j < k ==> UpToDate(before, incidents[j])
    requires (after == before && UpToDate(before, incidents[k])) || PublishedStep(before, incidents[k], run, rows, after)
    ensures forall i :: i in incidents ==> i in after.incidents
    ensures forall j :: 0 <= j <= k ==> UpToDate(after, incidents[j])
  {
    forall j | 0 <= j <= k ensures UpToDate(after, incidents[j]) {
      StaysUpToDate(before, after, incidents[k], run, rows, incidents[j]);
    }
  }

  /** A publication brings its own incident up to date and leaves every other incident as it was. */
  lemma StaysUpToDate(before: Db, after: Db, i: Id, run: Id, rows: Option<Rows>, j: Id)
    requires Sound(before) && i in before.incidents && j in before.incidents && (j != i ==> UpToDate(before, j))
    requires (after == before && UpToDate(before, i)) || PublishedStep(before, i, run, rows, after)
    ensures j in after.incidents && UpToDate(after, j)
  {
  }

  lemma OneMore(start: Db, before: Db, after: Db, affected: seq<Id>, plan: Plan, k: nat, rows: Option<Rows>)
    requires k < |affected| && Sound(before) && OneStep(before, affected[k], plan.runId(k), rows, after)
    requires AddedAtMostOneEach(start, before, affected, plan, k) && plan.runId(k) !in before.runs
    ensures AddedAtMostOneEach(start, after, affected, plan, k + 1)
    ensures AddedAtMostOneEach(start, after, affected, plan, |affected|)
  {
    var run := plan.runId(k);
    forall r | r in after.runs && r !in start.runs ensures AddedFor(after, affected, plan, k + 1, r) && AddedFor(after, affected, plan, |affected|, r) {
      assert r == run || r in before.runs;
      if r in before.runs {
        SameIncident(before, after, affected[k], run, rows, r);
        assert AddedFor(before, affected, plan, k, r);
        var j :| 0 <= j < k && r == plan.runId(j) && before.runs[r].incident == affected[j];
        assert r == plan.runId(j) && after.runs[r].incident == affected[j];
      } else {
        assert r == plan.runId(k) && after.runs[r].incident == affected[k];
      }
    }
  }

  lemma SameIncident(before: Db, after: Db, i: Id, run: Id, rows: Option<Rows>, r: Id)
    requires Sound(before) && OneStep(before, i, run, rows, after) && r in before.runs
    ensures r in after.runs && after.runs[r].incident == before.runs[r].incident
  {
    EvolvesStays(before);
    Concluded(before, before, i, run, rows, after);
    assert RunEvolves(before.runs[r], after.runs[r]);
  }

  /** A batch gives an incident at most one new revision. */
  lemma OneRevisionPerIncident(before: Db, after: Db, affected: seq<Id>, plan: Plan, r: Id, s: Id)
    requires Distinct(affected) && AddedAtMostOneEach(before, after, affected, plan, |affected|)
    requires r in after.runs && r !in before.runs && s in after.runs && s !in before.runs && after.runs[r].incident == after.runs[s].incident
    ensures r == s
  {
    assert AddedFor(after, affected, plan, |affected|, r) && AddedFor(after, affected, plan, |affected|, s);
    var j :| 0 <= j < |affected| && r == plan.runId(j) && after.runs[r].incident == affected[j];
    var k :| 0 <= k < |affected| && s == plan.runId(k) && after.runs[s].incident == affected[k];
    assert affected[j] == affected[k];
  }

  /** The staging pass, and so every publication after it, is the same whatever the order of the input. */
  lemma BatchIgnoresOrder(db: Db, one: seq<CanonicalEvent>, other: seq<CanonicalEvent>, stage: Stage)
    requires IdsIdentify(one) && multiset(one) == multiset(other)
    ensures Staged(db, SortBy(one, EarlierEvent), stage) == Staged(db, SortBy(other, EarlierEvent), stage)
  {
    StampLessIsTotal();
    forall x, y | x in one && y in one ensures x == y || EarlierEvent(x, y) || EarlierEvent(y, x) {
      var i :| 0 <= i < |one| && one[i] == x;
      var j :| 0 <= j < |one| && one[j] == y;
    }
    SortIgnoresOrder(one, other, EarlierEvent);
  }
}
