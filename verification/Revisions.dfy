/** How many revisions an incident can accumulate, for every history of a registered engine. */
module Revisions {
  import opened AnalysisDatabase
  import opened Common
  import opened Publication
  import opened PublicationRuns

  /** What the registered engine does for an incident with these attached events, in this run. */
  type Engine = (Id, set<Id>, Id) -> Analysis

  /** Every analysis request of the history asks the registered engine. */
  ghost predicate Wired(engine: Engine, trace: seq<Db>, requests: seq<Request>, n: nat)
    requires TraceOf(trace, requests, n)
  {
    forall k {:trigger requests[k]} :: 0 <= k < n && requests[k].Analysing? ==>
      requests[k].analysis == engine(requests[k].incident, AttachedTo(trace[k], requests[k].incident), requests[k].run)
  }

  /** A history: requests handled one after another from a database with no rows. */
  ghost predicate History(engine: Engine, requests: seq<Request>, trace: seq<Db>) {
    TraceOf(trace, requests, |requests|) && trace[0] == Empty() && Wired(engine, trace, requests, |requests|)
  }

  /** The engine has acceptable output for some incident with no attached event. */
  ghost predicate PublishesUnattached(engine: Engine) {
    exists i, run :: Acceptable(i, run, engine(i, {}, run), true)
  }

  ghost predicate WithinAttached(db: Db) {
    forall i :: |PublishedRuns(db, i)| <= |AttachedTo(db, i)|
  }

  /** Every published run saw an event. */
  ghost predicate SawEvents(db: Db) {
    forall r :: r in db.runs && Published(db.runs[r]) ==> db.runs[r].inputs != {}
  }

  lemma HandledStays(engine: Engine, before: Db, request: Request, after: Db)
    requires Sound(before) && SawEvents(before) && Handled(before, request, after) && !PublishesUnattached(engine)
    requires request.Analysing? ==> request.analysis == engine(request.incident, AttachedTo(before, request.incident), request.run)
    ensures Sound(after) && SawEvents(after)
  {
    match request
    case Opening(i) =>
      if i !in before.incidents {
        StepKeepsSound(before, OpenIncident(i));
      }
    case Attaching(i, e) =>
      if i in before.incidents {
        StepKeepsSound(before, Attach(i, e));
      }
    case Analysing(i, run, analysis, verdict, faults) =>
      if FailedStep(before, i, run, after) {
        var n :| Enabled(before, Fail(i, run, n)) && after == Apply(before, Fail(i, run, n));
        StepKeepsSound(before, Fail(i, run, n));
      } else if after != before {
        assert Acceptable(i, run, analysis, true);
        var n :| Enabled(before, Publish(i, run, n, RowsOf(analysis))) && after == Apply(before, Publish(i, run, n, RowsOf(analysis)));
        StepKeepsSound(before, Publish(i, run, n, RowsOf(analysis)));
        PublishedSaw(engine, before, i, run, n, analysis);
      }
  }

  lemma PublishedSaw(engine: Engine, before: Db, i: Id, run: Id, n: nat, analysis: Analysis)
    requires Sound(before) && SawEvents(before) && !PublishesUnattached(engine)
    requires Enabled(before, Publish(i, run, n, RowsOf(analysis))) && Acceptable(i, run, analysis, true)
    requires analysis == engine(i, AttachedTo(before, i), run)
    ensures SawEvents(Apply(before, Publish(i, run, n, RowsOf(analysis))))
  {
    var after := Apply(before, Publish(i, run, n, RowsOf(analysis)));
    forall r | r in after.runs && Published(after.runs[r]) ensures after.runs[r].inputs != {} {
      if r != run {
        RunsAfterPublish(before, i, run, n, RowsOf(analysis), r);
      }
    }
  }

  lemma {:induction false} HistoryStays(engine: Engine, requests: seq<Request>, trace: seq<Db>, k: nat)
    requires History(engine, requests, trace) && !PublishesUnattached(engine) && k <= |requests|
    ensures Sound(trace[k]) && SawEvents(trace[k])
  {
    if k == 0 {
      EmptyIsSound();
    } else {
      HistoryStays(engine, requests, trace, k - 1);
      assert Handled(trace[k - 1], requests[k - 1], trace[k - 1 + 1]);
      HandledStays(engine, trace[k - 1], requests[k - 1], trace[k]);
    }
  }

  lemma SawEventsBounds(db: Db)
    requires Sound(db) && SawEvents(db)
    ensures WithinAttached(db)
  {
    forall i ensures |PublishedRuns(db, i)| <= |AttachedTo(db, i)| {
      RevisionsBounded(db, i);
    }
  }

  // ---------------------------------------------------------------- the exact condition

  const NO_FAULTS: Faults := _ => false

  /** An incident is opened and analysed before any event is attached. */
  function Early(i: Id, run: Id, analysis: Analysis): seq<Request> {
    [Opening(i), Analysing(i, run, analysis, true, NO_FAULTS)]
  }

  ghost function EarlyTrace(i: Id, run: Id, analysis: Analysis): seq<Db> {
    var start := Apply(Empty(), OpenIncident(i));
    [Empty(), start, Apply(start, Publish(i, run, 1, RowsOf(analysis)))]
  }

  lemma EarlyIsHistory(engine: Engine, i: Id, run: Id)
    requires Acceptable(i, run, engine(i, {}, run), true)
    ensures History(engine, Early(i, run, engine(i, {}, run)), EarlyTrace(i, run, engine(i, {}, run)))
  {
    var analysis := engine(i, {}, run);
    var requests, trace := Early(i, run, analysis), EarlyTrace(i, run, analysis);
    assert Handled(trace[0], requests[0], trace[0 + 1]);
    assert Enabled(trace[1], Publish(i, run, 1, RowsOf(analysis)));
    assert PublishedStep(trace[1], i, run, RowsOf(analysis), trace[2]);
    assert Handled(trace[1], requests[1], trace[1 + 1]);
  }

  /** Then the incident has one published revision and no attached event. */
  lemma EarlyExceeds(i: Id, run: Id, analysis: Analysis)
    ensures var db := EarlyTrace(i, run, analysis)[2];
            |PublishedRuns(db, i)| == 1 && |AttachedTo(db, i)| == 0
  {
    var db := EarlyTrace(i, run, analysis)[2];
    assert PublishedRuns(db, i) == {run};
  }

  /** In every history published revisions are at most the attached events, exactly when the engine has
      no acceptable output for an incident with no attached event. */
  lemma RevisionsBoundedExactly(engine: Engine)
    ensures (forall requests, trace :: History(engine, requests, trace) ==> WithinAttached(trace[|requests|])) <==> !PublishesUnattached(engine)
  {
    if PublishesUnattached(engine) {
      var i, run :| Acceptable(i, run, engine(i, {}, run), true);
      EarlyIsHistory(engine, i, run);
      EarlyExceeds(i, run, engine(i, {}, run));
    } else {
      forall requests, trace | History(engine, requests, trace) ensures WithinAttached(trace[|requests|]) {
        HistoryStays(engine, requests, trace, |requests|);
        SawEventsBounds(trace[|requests|]);
      }
    }
  }

  /** Without a registered engine the excess happens: one published revision, no attached event. */
  lemma WithoutEngineExceeds()
    ensures var engine: Engine := (_, _, _) => NoEngine;
            && History(engine, Early("i", "r", NoEngine), EarlyTrace("i", "r", NoEngine))
            && !WithinAttached(EarlyTrace("i", "r", NoEngine)[2])
  {
    EarlyIsHistory((_, _, _) => NoEngine, "i", "r");
    EarlyExceeds("i", "r", NoEngine);
  }
}
