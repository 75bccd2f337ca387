/** The orchestrator's publication unit: a building run, a savepoint around everything else, and what
    is left of it when any sub-step fails. */
module Publication {
  import opened AnalysisDatabase
  import opened Common

  // ---------------------------------------------------------------- failure injection

  /** The sub-steps at which the database, the engine or the process can fail. */
  datatype Point =
    | AtFingerprint
    | AtCreateRun
    | AtAnalysis
    | AtValidation
    | AtMetadata
    | AtRow(n: nat)
    | AtFallbackAudit
    | AtFlush
    | AtSupersede
    | AtMarkCurrent
    | AtPointer
    | AtPublishAudit
    | AtRelease
    | AtMarkFailed
    | AtFailAudit
    | AtFailFlush
    | AtFailCommit
    | AtCommit

  type Faults = Point -> bool

  /** What the analysis engine does for this incident: none registered, an exception, or rows. */
  datatype Analysis = NoEngine | Raises | Produces(rows: Rows)

  function RowsOf(a: Analysis): Option<Rows> {
    match a case Produces(rows) => Some(rows) case _ => None
  }

  /** The engine does not raise, and what it produces passes the publisher's checks. */
  ghost predicate Acceptable(i: Id, run: Id, analysis: Analysis, verdict: bool) {
    !analysis.Raises? && (analysis.Produces? ==> verdict && RowsValid(run, i, analysis.rows))
  }

  /** No sub-step of storing the rows fails. */
  predicate StoresSmoothly(rows: Rows, faults: Faults) {
    && !faults(AtMetadata) && !faults(AtFlush) && (rows.fallback ==> !faults(AtFallbackAudit))
    && forall n: nat :: n < |rows.children| ==> !faults(AtRow(n))
  }

  /** No sub-step of the swap fails. */
  predicate SwapsSmoothly(prior: Option<Id>, faults: Faults) {
    (prior.Some? ==> !faults(AtSupersede)) && !faults(AtMarkCurrent) && !faults(AtPointer) && !faults(AtPublishAudit)
  }

  /** No sub-step of the savepoint that this analysis goes through fails. */
  predicate Smooth(prior: Option<Id>, analysis: Analysis, faults: Faults) {
    && !faults(AtAnalysis) && (analysis.Produces? ==> !faults(AtValidation) && StoresSmoothly(analysis.rows, faults))
    && SwapsSmoothly(prior, faults) && !faults(AtRelease)
  }

  /** No sub-step of recording a failure fails. */
  predicate RecordsSmoothly(faults: Faults) {
    !faults(AtMarkFailed) && !faults(AtFailAudit) && !faults(AtFailFlush)
  }

  /** How a publication request ends. */
  datatype Ending =
    | Unchanged(run: Id)     // fingerprint matched: nothing to do
    | PublishedAs(run: Id)   // new current run, to be committed by the caller
    | FailedAs(run: Id)      // a failed run and its audit row are committed, the error is raised again
    | Aborted                // the error is raised and the whole transaction rolled back

  class Session {
    var db: Db
    var committed: Db

    constructor (start: Db)
      ensures db == start && committed == start
    {
      db, committed := start, start;
    }

    // -------------------------------------------------------------- repository operations

    method CreateRun(run: Id, row: RunRow)
      modifies this`db
      ensures db == old(db).(runs := old(db).runs[run := row])
    {
      db := db.(runs := db.runs[run := row]);
    }

    method AddChild(c: Child)
      modifies this`db
      ensures db == old(db).(children := old(db).children + [c])
    {
      db := db.(children := db.children + [c]);
    }

    method AppendAudit(row: AuditRow)
      modifies this`db
      ensures db == old(db).(audit := old(db).audit + [row])
    {
      db := db.(audit := db.audit + [row]);
    }

    method Supersede(run: Id)
      requires run in db.runs
      modifies this`db
      ensures db == old(db).(runs := old(db).runs[run := old(db).runs[run].(state := Superseded)])
    {
      db := db.(runs := db.runs[run := db.runs[run].(state := Superseded)]);
    }

    /** The unique index allows one current run per incident: marking a second one is refused. */
    method MarkCurrent(run: Id) returns (ok: bool)
      requires run in db.runs
      modifies this`db
      ensures ok <==> forall r :: r in old(db).runs && r != run && old(db).runs[r].state.Current? ==>
                                    old(db).runs[r].incident != old(db).runs[run].incident
      ensures db == if ok then old(db).(runs := old(db).runs[run := old(db).runs[run].(state := Current)]) else old(db)
    {
      ok := !exists r :: r in db.runs && r != run && db.runs[r].state.Current? && db.runs[r].incident == db.runs[run].incident;
      if ok {
        db := db.(runs := db.runs[run := db.runs[run].(state := Current)]);
      }
    }

    method SetCurrentRun(i: Id, run: Id, top: Option<Id>)
      requires i in db.incidents
      modifies this`db
      ensures db == old(db).(incidents := old(db).incidents[i := old(db).incidents[i].(status := Investigating, pointer := Some(run), top := top)])
    {
      db := db.(incidents := db.incidents[i := db.incidents[i].(status := Investigating, pointer := Some(run), top := top)]);
    }

    method Rollback()
      modifies this`db
      ensures db == committed
    {
      db := committed;
    }

    method Commit()
      modifies this`committed
      ensures committed == db
    {
      committed := db;
    }

    // -------------------------------------------------------------- the publication unit

    /** Insert every child row; false as soon as one insertion fails. */
    method InsertChildren(rows: seq<Child>, faults: Faults) returns (ok: bool)
      modifies this`db
      ensures ok ==> db == old(db).(children := old(db).children + rows)
      ensures ok <==> forall n: nat :: n < |rows| ==> !faults(AtRow(n))
    {
      for n := 0 to |rows|
        invariant db == old(db).(children := old(db).children + rows[..n])
        invariant forall k: nat :: k < n ==> !faults(AtRow(k))
      {
        if faults(AtRow(n)) {
          return false;
        }
        AddChild(rows[n]);
        assert rows[..n + 1] == rows[..n] + [rows[n]];
      }
      assert rows[..|rows|] == rows;
      ok := true;
    }

    /** Store the rows and the run's metadata. */
    method StoreRows(run: Id, rows: Rows, faults: Faults) returns (ok: bool)
      requires run in db.runs
      modifies this`db
      ensures ok ==> db == old(db).(
                runs := old(db).runs[run := old(db).runs[run].(snapshot := rows.snapshot)],
                children := old(db).children + rows.children,
                audit := old(db).audit + if rows.fallback then [FallbackAudit(run)] else [])
      ensures ok <==> StoresSmoothly(rows, faults)
    {
      if faults(AtMetadata) {
        return false;
      }
      db := db.(runs := db.runs[run := db.runs[run].(snapshot := rows.snapshot)]);
      var inserted := InsertChildren(rows.children, faults);
      if !inserted {
        return false;
      }
      if rows.fallback {
        if faults(AtFallbackAudit) {
          return false;
        }
        AppendAudit(FallbackAudit(run));
      }
      ok := !faults(AtFlush);
    }

    /** Supersede the prior run, mark the new one, swap the pointer, append the audit row. */
    method SwapCurrent(i: Id, run: Id, top: Option<Id>, faults: Faults) returns (ok: bool)
      requires i in db.incidents && run in db.runs && db.runs[run].incident == i
      requires db.incidents[i].pointer.Some? ==> db.incidents[i].pointer.value in db.runs && db.incidents[i].pointer.value != run
      requires forall r :: r in db.runs && r != run && db.runs[r].incident == i && db.runs[r].state.Current? ==> db.incidents[i].pointer == Some(r)
      modifies this`db
      ensures ok ==> db == Swapped(old(db), i, run, top)
      ensures ok <==> SwapsSmoothly(old(db).incidents[i].pointer, faults)
    {
      var prior := db.incidents[i].pointer;
      if prior.Some? {
        if faults(AtSupersede) {
          return false;
        }
        Supersede(prior.value);
      }
      if faults(AtMarkCurrent) {
        return false;
      }
      var unique := MarkCurrent(run);
      assert unique;
      if faults(AtPointer) {
        return false;
      }
      SetCurrentRun(i, run, top);
      if faults(AtPublishAudit) {
        return false;
      }
      AppendAudit(PublishedAudit(run, db.runs[run].revision, prior));
      ok := true;
    }

    /** The body of the savepoint. */
    method AtomicPublish(i: Id, run: Id, analysis: Analysis, verdict: bool, faults: Faults) returns (ok: bool)
      requires i in db.incidents && run in db.runs && db.runs[run].incident == i && db.runs[run].snapshot.None?
      requires db.incidents[i].pointer.Some? ==> db.incidents[i].pointer.value in db.runs && db.incidents[i].pointer.value != run
      requires forall r :: r in db.runs && r != run && db.runs[r].incident == i && db.runs[r].state.Current? ==> db.incidents[i].pointer == Some(r)
      modifies this`db
      ensures ok <==> Acceptable(i, run, analysis, verdict) && Smooth(old(db).incidents[i].pointer, analysis, faults)
      ensures ok ==> db == Swapped(Stored(old(db), run, RowsOf(analysis)), i, run, TopId(RowsOf(analysis)))
    {
      if faults(AtAnalysis) || analysis.Raises? {
        return false;
      }
      var top: Option<Id> := None;
      if analysis.Produces? {
        if faults(AtValidation) || !verdict || !RowsValid(run, i, analysis.rows) {
          return false;
        }
        var stored := StoreRows(run, analysis.rows, faults);
        if !stored {
          return false;
        }
        top := TopId(RowsOf(analysis));
      }
      ok := SwapCurrent(i, run, top, faults);
      if ok && faults(AtRelease) {
        ok := false;
      }
    }

    /** Record the failure: the run becomes failed, an audit row says so. */
    method PersistFailedRun(run: Id, faults: Faults) returns (ok: bool)
      requires run in db.runs
      modifies this`db
      ensures ok ==> db == old(db).(
                runs := old(db).runs[run := old(db).runs[run].(state := Failed)],
                audit := old(db).audit + [FailedAudit(run, old(db).runs[run].revision)])
      ensures ok <==> RecordsSmoothly(faults)
    {
      if faults(AtMarkFailed) {
        return false;
      }
      db := db.(runs := db.runs[run := db.runs[run].(state := Failed)]);
      if faults(AtFailAudit) {
        return false;
      }
      AppendAudit(FailedAudit(run, db.runs[run].revision));
      ok := !faults(AtFailFlush);
    }

    /** The largest revision of the incident's runs, plus one. */
    method GetNextRevision(i: Id) returns (n: nat)
      ensures NextRevision(db, i, n)
    {
      n := 1;
      var pending := db.runs.Keys;
      while pending != {}
        invariant pending <= db.runs.Keys && n >= 1
        invariant forall r :: r in db.runs && r !in pending && db.runs[r].incident == i ==> db.runs[r].revision < n
        invariant n == 1 || exists r :: r in db.runs && db.runs[r].incident == i && db.runs[r].revision == n - 1
        decreases pending
      {
        var r :| r in pending;
        pending := pending - {r};
        if db.runs[r].incident == i && db.runs[r].revision >= n {
          n := db.runs[r].revision + 1;
        }
      }
    }

    /** One analysis and publication. Whatever fails, the working database is afterwards exactly the old
        one, the old one with the published run, or the old one with a failed run; in the last case it
        has been committed. An aborted request leaves the last committed database. `verdict` is the
        publisher's verdict on the rows. Which ending it is follows from the inputs alone. */
    method RunAndPublish(i: Id, run: Id, analysis: Analysis, verdict: bool, faults: Faults) returns (ending: Ending)
      requires Sound(db) && i in db.incidents && run !in db.runs
      modifies this
      ensures match ending
              case Unchanged(r) =>
                && db == old(db) && committed == old(committed) && db.incidents[i].pointer == Some(r)
                && r in db.runs && db.runs[r].inputs == AttachedTo(db, i)
              case PublishedAs(r) =>
                exists n :: r == run && NextRevision(old(db), i, n)
                  && Enabled(old(db), Publish(i, run, n, RowsOf(analysis)))
                  && db == Apply(old(db), Publish(i, run, n, RowsOf(analysis))) && committed == old(committed)
              case FailedAs(r) =>
                exists n :: r == run && NextRevision(old(db), i, n)
                  && Enabled(old(db), Fail(i, run, n)) && db == committed == Apply(old(db), Fail(i, run, n))
              case Aborted => db == committed == old(committed)
      ensures var smooth := Acceptable(i, run, analysis, verdict) && Smooth(old(db).incidents[i].pointer, analysis, faults);
              var pointer := old(db).incidents[i].pointer;
              var seen := pointer.Some? && pointer.value in old(db).runs && old(db).runs[pointer.value].inputs == AttachedTo(old(db), i);
              && (ending.Unchanged? <==> !faults(AtFingerprint) && seen)
              && (ending.PublishedAs? <==> !faults(AtFingerprint) && !seen && !faults(AtCreateRun) && smooth)
              && (ending.FailedAs? <==> !faults(AtFingerprint) && !seen && !faults(AtCreateRun) && !smooth
                                        && RecordsSmoothly(faults) && !faults(AtFailCommit))
    {
      if faults(AtFingerprint) {
        Rollback();
        return Aborted;
      }
      if UpToDate(db, i) {
        return Unchanged(db.incidents[i].pointer.value);
      }
      var n := GetNextRevision(i);
      if faults(AtCreateRun) {
        Rollback();
        return Aborted;
      }
      var row := RunRow(i, n, Building, AttachedTo(db, i), None);
      CreateRun(run, row);
      var savepoint := db;
      BuildingFits(old(db), i, run, row, savepoint);
      var ok := AtomicPublish(i, run, analysis, verdict, faults);
      if ok {
        PublishedIs(old(db), i, run, n, RowsOf(analysis));
        return PublishedAs(run);
      }
      db := savepoint;
      var recorded := PersistFailedRun(run, faults);
      if !recorded || faults(AtFailCommit) {
        Rollback();
        return Aborted;
      }
      FailedIs(old(db), i, run, n);
      Commit();
      ending := FailedAs(run);
    }
  }

  // ---------------------------------------------------------------- the unit as a value

  function TopId(rows: Option<Rows>): Option<Id> {
    match TopOf(Children(rows)) case None => None case Some(h) => Some(h.id)
  }

  /** The database after the rows and metadata are stored. */
  function Stored(db: Db, run: Id, rows: Option<Rows>): Db
    requires run in db.runs
  {
    match rows
    case None => db
    case Some(r) => db.(
      runs := db.runs[run := db.runs[run].(snapshot := r.snapshot)],
      children := db.children + r.children,
      audit := db.audit + if r.fallback then [FallbackAudit(run)] else [])
  }

  /** The database after the swap. */
  function Swapped(db: Db, i: Id, run: Id, top: Option<Id>): Db
    requires i in db.incidents && run in db.runs
  {
    var prior := db.incidents[i].pointer;
    var runs := SupersedePrior(db.runs, prior);
    db.(runs := runs[run := runs[run].(state := Current)],
        incidents := db.incidents[i := db.incidents[i].(status := Investigating, pointer := Some(run), top := top)],
        audit := db.audit + [PublishedAudit(run, runs[run].revision, prior)])
  }

  lemma BuildingFits(db: Db, i: Id, run: Id, row: RunRow, with: Db)
    requires Sound(db) && i in db.incidents && run !in db.runs
    requires row.incident == i && row.snapshot.None? && with == db.(runs := db.runs[run := row])
    ensures with.incidents == db.incidents && run in with.runs && with.runs[run].incident == i && with.runs[run].snapshot.None?
    ensures with.incidents[i].pointer.Some? ==> with.incidents[i].pointer.value in with.runs && with.incidents[i].pointer.value != run
    ensures forall r :: r in with.runs && r != run && with.runs[r].incident == i && with.runs[r].state.Current? ==> with.incidents[i].pointer == Some(r)
  {
    assert IncidentOk(db, i);
    forall r | r in with.runs && r != run && with.runs[r].incident == i && with.runs[r].state.Current? ensures with.incidents[i].pointer == Some(r) {
      assert RunOk(db, r);
    }
  }

  /** The sub-steps add up to one publication step. */
  lemma PublishedIs(db: Db, i: Id, run: Id, n: nat, rows: Option<Rows>)
    requires Sound(db) && i in db.incidents && run !in db.runs
    ensures var with := db.(runs := db.runs[run := RunRow(i, n, Building, AttachedTo(db, i), None)]);
            Swapped(Stored(with, run, rows), i, run, TopId(rows)) == Apply(db, Publish(i, run, n, rows))
  {
    assert IncidentOk(db, i);
    var with := db.(runs := db.runs[run := RunRow(i, n, Building, AttachedTo(db, i), None)]);
    var stored := Stored(with, run, rows);
    var swapped, next := Swapped(stored, i, run, TopId(rows)), Apply(db, Publish(i, run, n, rows));
    assert swapped.runs == next.runs;
    assert swapped.children == next.children;
    assert swapped.audit == next.audit;
  }

  lemma FailedIs(db: Db, i: Id, run: Id, n: nat)
    requires run !in db.runs
    ensures var row := RunRow(i, n, Building, AttachedTo(db, i), None);
            db.(runs := db.runs[run := row][run := row.(state := Failed)], audit := db.audit + [FailedAudit(run, n)])
              == Apply(db, Fail(i, run, n))
  {
  }
}
