/** The tables the publication protocol, its readers and human review share, the steps that change
    them, and what every reachable database satisfies. A run's input fingerprint is represented by the
    set of attached event ids it hashes: with fixed catalogues and immutable events the hash is an
    injective function of that set. */
module AnalysisDatabase {
  import opened Common

  type Id = string

  datatype RunState = Building | Current | Superseded | Failed

  datatype RunRow = RunRow(incident: Id, revision: nat, state: RunState, inputs: set<Id>, snapshot: Option<string>)

  datatype Generator = Template | Llm

  datatype ChildKind = HypothesisChild(rank: nat) | EvidenceChild(missing: bool) | RecommendationChild | ExplanationChild(generator: Generator)

  /** A row of the hypothesis, evidence, recommendation or explanation table. A hypothesis row names
      itself as its hypothesis. */
  datatype Child = Child(id: Id, run: Id, incident: Id, hypothesis: Id, kind: ChildKind)

  datatype IncidentStatus = Open | Investigating | Resolved | Rejected

  datatype IncidentRow = IncidentRow(status: IncidentStatus, pointer: Option<Id>, top: Option<Id>, confirmed: Option<Id>)

  datatype Decision = Confirm | Reject | RequestEvidence

  datatype ReviewRow = ReviewRow(id: Id, incident: Id, run: Id, hypothesis: Id, decision: Decision, action: Id, requested: Option<Id>)

  datatype AuditRow =
    | PublishedAudit(run: Id, revision: nat, prior: Option<Id>)
    | FailedAudit(run: Id, revision: nat)
    | FallbackAudit(run: Id)
    | ReviewAudit(review: Id)
    | StatusAudit(review: Id)

  datatype Db = Db(
    incidents: map<Id, IncidentRow>,
    attached: map<Id, set<Id>>,
    runs: map<Id, RunRow>,
    children: seq<Child>,
    reviews: seq<ReviewRow>,
    audit: seq<AuditRow>)

  function ChildrenOf(db: Db, run: Id): seq<Child> {
    Where(db.children, (c: Child) => c.run == run)
  }

  predicate Published(r: RunRow) {
    r.state.Current? || r.state.Superseded?
  }

  /** The set of events attached to an incident. */
  function AttachedTo(db: Db, i: Id): set<Id> {
    if i in db.attached then db.attached[i] else {}
  }

  // ---------------------------------------------------------------- invariants

  predicate HasHypothesis(db: Db, run: Id, h: Id) {
    exists k :: 0 <= k < |db.children| && db.children[k].run == run && db.children[k].kind.HypothesisChild? && db.children[k].id == h
  }

  /** No building run is left behind; a current run is the one its incident points to, so an incident
      has at most one; an incident with a published run has a current one; a published run saw only
      events that are attached. */
  ghost predicate RunOk(db: Db, r: Id)
    requires r in db.runs
  {
    var row := db.runs[r];
    && row.incident in db.incidents && !row.state.Building?
    && (row.state.Current? ==> db.incidents[row.incident].pointer == Some(r))
    && (Published(row) ==> db.incidents[row.incident].pointer.Some? && row.inputs <= AttachedTo(db, row.incident))
  }

  /** Runs of one incident differ in revision; the current one is later than every superseded one; and
      of two published ones the later saw strictly more events. */
  ghost predicate PairOk(db: Db, r: Id, s: Id)
    requires r in db.runs && s in db.runs
  {
    var a, b := db.runs[r], db.runs[s];
    a.incident == b.incident && r != s ==>
      && a.revision != b.revision
      && (a.state.Superseded? && b.state.Current? ==> a.revision < b.revision)
      && (Published(a) && Published(b) && a.revision < b.revision ==> a.inputs < b.inputs)
  }

  /** The run pointed to is a current one of the incident, the top hypothesis one of that run's. */
  ghost predicate IncidentOk(db: Db, i: Id)
    requires i in db.incidents
  {
    var row := db.incidents[i];
    && (row.pointer.Some? ==>
          row.pointer.value in db.runs && db.runs[row.pointer.value].incident == i && db.runs[row.pointer.value].state.Current?)
    && (row.top.Some? ==> row.pointer.Some? && HasHypothesis(db, row.pointer.value, row.top.value))
  }

  /** Only published runs own rows, and a row names its run's incident. */
  ghost predicate ChildOk(db: Db, c: Child) {
    c.run in db.runs && Published(db.runs[c.run]) && c.incident == db.runs[c.run].incident
  }

  ghost predicate Sound(db: Db) {
    && (forall r {:trigger RunOk(db, r)} :: r in db.runs ==> RunOk(db, r))
    && (forall r, s {:trigger PairOk(db, r, s)} :: r in db.runs && s in db.runs ==> PairOk(db, r, s))
    && (forall i {:trigger IncidentOk(db, i)} :: i in db.incidents ==> IncidentOk(db, i))
    && (forall c {:trigger ChildOk(db, c)} :: c in db.children ==> ChildOk(db, c))
  }

  // ---------------------------------------------------------------- steps

  /** The rows of one publication. */
  datatype Rows = Rows(children: seq<Child>, snapshot: Option<string>, fallback: bool)

  /** The lowest-ranked hypothesis among the rows. */
  function TopOf(children: seq<Child>): (r: Option<Child>)
    ensures r.Some? ==> r.value in children && r.value.kind.HypothesisChild?
    ensures r.None? ==> forall c :: c in children ==> !c.kind.HypothesisChild?
    ensures r.Some? ==> forall c :: c in children && c.kind.HypothesisChild? ==> r.value.kind.rank <= c.kind.rank
  {
    if children == [] then None
    else
      assert children == [children[0]] + children[1..];
      var rest := TopOf(children[1..]);
      if !children[0].kind.HypothesisChild? then rest
      else if rest.Some? && rest.value.kind.rank < children[0].kind.rank then rest
      else Some(children[0])
  }

  /** The row's hypothesis is among the rows. */
  predicate Resolves(children: seq<Child>, c: Child) {
    exists h :: h in children && h.kind.HypothesisChild? && h.id == c.hypothesis
  }

  /** What publication relies on: rows all of this run and incident, every hypothesis reference
      resolved, a template explanation. */
  predicate RowsValid(run: Id, incident: Id, rows: Rows) {
    && (forall c :: c in rows.children ==> c.run == run && c.incident == incident)
    && (forall c {:trigger Resolves(rows.children, c)} :: c in rows.children ==> Resolves(rows.children, c))
    && (exists c :: c in rows.children && c.kind == ExplanationChild(Template))
  }

  /** `max(revision) + 1` over all runs of the incident, failed ones included. */
  ghost predicate NextRevision(db: Db, i: Id, n: nat) {
    && n >= 1
    && (forall r :: r in db.runs && db.runs[r].incident == i ==> db.runs[r].revision < n)
    && (n == 1 || exists r :: r in db.runs && db.runs[r].incident == i && db.runs[r].revision == n - 1)
  }

  datatype Op =
    | OpenIncident(incident: Id)
    | Attach(incident: Id, event: Id)
    | Publish(incident: Id, run: Id, revision: nat, rows: Option<Rows>)
    | Fail(incident: Id, run: Id, revision: nat)

  /** A step can be taken: the run id is new, the revision is the next one, the rows passed validation
      and the fingerprint differs from the current run's. */
  ghost predicate Enabled(db: Db, op: Op) {
    match op
    case OpenIncident(i) => i !in db.incidents
    case Attach(i, _) => i in db.incidents
    case Publish(i, run, revision, rows) =>
      && i in db.incidents && run !in db.runs && NextRevision(db, i, revision)
      && !UpToDate(db, i) && (rows.Some? ==> RowsValid(run, i, rows.value))
    case Fail(i, run, revision) => i in db.incidents && run !in db.runs && NextRevision(db, i, revision)
  }

  /** The incident's current run already has the fingerprint of its attached events. */
  predicate UpToDate(db: Db, i: Id)
    requires i in db.incidents
  {
    db.incidents[i].pointer.Some? && db.incidents[i].pointer.value in db.runs
    && db.runs[db.incidents[i].pointer.value].inputs == AttachedTo(db, i)
  }

  function Children(rows: Option<Rows>): seq<Child> {
    match rows case None => [] case Some(r) => r.children
  }

  function SupersedePrior(runs: map<Id, RunRow>, prior: Option<Id>): map<Id, RunRow> {
    if prior.Some? && prior.value in runs then runs[prior.value := runs[prior.value].(state := Superseded)] else runs
  }

  /** The effect of a step. */
  function Apply(db: Db, op: Op): Db {
    match op
    case OpenIncident(i) =>
      db.(incidents := db.incidents[i := IncidentRow(Open, None, None, None)])
    case Attach(i, e) =>
      db.(attached := db.attached[i := AttachedTo(db, i) + {e}])
    case Publish(i, run, revision, rows) =>
      if i !in db.incidents then db
      else
        var prior := db.incidents[i].pointer;
        var top := TopOf(Children(rows));
        var row := RunRow(i, revision, Current, AttachedTo(db, i), match rows case None => None case Some(r) => r.snapshot);
        Db(
          db.incidents[i := db.incidents[i].(status := Investigating, pointer := Some(run), top := match top case None => None case Some(h) => Some(h.id))],
          db.attached,
          SupersedePrior(db.runs, prior)[run := row],
          db.children + Children(rows),
          db.reviews,
          db.audit + (if rows.Some? && rows.value.fallback then [FallbackAudit(run)] else []) + [PublishedAudit(run, revision, prior)])
    case Fail(i, run, revision) =>
      db.(runs := db.runs[run := RunRow(i, revision, Failed, AttachedTo(db, i), None)],
          audit := db.audit + [FailedAudit(run, revision)])
  }

  // ---------------------------------------------------------------- every step keeps the invariants

  lemma HypothesisKept(db: Db, next: Db, run: Id, h: Id)
    requires db.children <= next.children && HasHypothesis(db, run, h)
    ensures HasHypothesis(next, run, h)
  {
    var k :| 0 <= k < |db.children| && db.children[k].run == run && db.children[k].kind.HypothesisChild? && db.children[k].id == h;
    assert next.children[k] == db.children[k];
  }

  /** Adding incidents and attachments disturbs nothing. */
  lemma GrowthKeepsSound(db: Db, next: Db)
    requires Sound(db) && next.runs == db.runs && next.children == db.children
    requires forall i :: i in db.incidents ==> i in next.incidents && next.incidents[i] == db.incidents[i]
    requires forall i :: i in next.incidents && i !in db.incidents ==> next.incidents[i].pointer.None? && next.incidents[i].top.None?
    requires forall i :: AttachedTo(db, i) <= AttachedTo(next, i)
    ensures Sound(next)
  {
    forall r | r in next.runs ensures RunOk(next, r) {
      assert RunOk(db, r);
    }
    forall r, s | r in next.runs && s in next.runs ensures PairOk(next, r, s) {
      assert PairOk(db, r, s);
    }
    forall i | i in next.incidents ensures IncidentOk(next, i) {
      if i in db.incidents {
        assert IncidentOk(db, i);
      }
    }
    forall c | c in next.children ensures ChildOk(next, c) {
      assert ChildOk(db, c);
    }
  }

  lemma FailKeepsSound(db: Db, i: Id, run: Id, revision: nat)
    requires Sound(db) && Enabled(db, Fail(i, run, revision))
    ensures Sound(Apply(db, Fail(i, run, revision)))
  {
    var next := Apply(db, Fail(i, run, revision));
    forall r | r in next.runs ensures RunOk(next, r) {
      if r != run {
        assert RunOk(db, r);
      }
    }
    forall r, s | r in next.runs && s in next.runs ensures PairOk(next, r, s) {
      if r != run && s != run {
        assert PairOk(db, r, s);
      }
    }
    forall j | j in next.incidents ensures IncidentOk(next, j) {
      assert IncidentOk(db, j);
    }
    forall c | c in next.children ensures ChildOk(next, c) {
      assert ChildOk(db, c);
    }
  }

  /** An incident is up to date exactly when a current run of it saw every attached event. */
  lemma UpToDateExactly(db: Db, i: Id)
    requires Sound(db) && i in db.incidents
    ensures UpToDate(db, i) <==>
              exists r :: r in db.runs && db.runs[r].incident == i && db.runs[r].state.Current?
                     && forall e :: e in AttachedTo(db, i) ==> e in db.runs[r].inputs
  {
    assert IncidentOk(db, i);
    if UpToDate(db, i) {
      assert db.runs[db.incidents[i].pointer.value].incident == i;
    }
    forall r | r in db.runs && db.runs[r].incident == i && db.runs[r].state.Current? && forall e :: e in AttachedTo(db, i) ==> e in db.runs[r].inputs
      ensures UpToDate(db, i)
    {
      assert RunOk(db, r);
    }
  }

  /** Every published run of an incident that is not up to date saw strictly fewer events than are
      attached now. */
  lemma EarlierInputs(db: Db, i: Id, r: Id)
    requires Sound(db) && i in db.incidents && !UpToDate(db, i)
    requires r in db.runs && db.runs[r].incident == i && Published(db.runs[r])
    ensures db.runs[r].inputs < AttachedTo(db, i)
  {
    assert RunOk(db, r) && IncidentOk(db, i);
    var s := db.incidents[i].pointer.value;
    assert RunOk(db, s) && PairOk(db, r, s);
  }

  /** The runs after a publication: the prior current one superseded, the new one current. */
  lemma RunsAfterPublish(db: Db, i: Id, run: Id, revision: nat, rows: Option<Rows>, r: Id)
    requires Sound(db) && Enabled(db, Publish(i, run, revision, rows)) && r in db.runs
    ensures var next := Apply(db, Publish(i, run, revision, rows));
            && r in next.runs && r != run
            && next.runs[r] == db.runs[r].(state := if db.runs[r].incident == i && db.runs[r].state.Current? then Superseded else db.runs[r].state)
  {
    assert RunOk(db, r) && IncidentOk(db, i);
  }

  lemma PublishKeepsRun(db: Db, i: Id, run: Id, revision: nat, rows: Option<Rows>, r: Id)
    requires Sound(db) && Enabled(db, Publish(i, run, revision, rows)) && r in Apply(db, Publish(i, run, revision, rows)).runs
    ensures RunOk(Apply(db, Publish(i, run, revision, rows)), r)
  {
    if r != run {
      RunsAfterPublish(db, i, run, revision, rows, r);
      assert RunOk(db, r);
    }
  }

  lemma PublishKeepsPair(db: Db, i: Id, run: Id, revision: nat, rows: Option<Rows>, r: Id, s: Id)
    requires Sound(db) && Enabled(db, Publish(i, run, revision, rows))
    requires r in Apply(db, Publish(i, run, revision, rows)).runs && s in Apply(db, Publish(i, run, revision, rows)).runs
    ensures PairOk(Apply(db, Publish(i, run, revision, rows)), r, s)
  {
    if r != run {
      RunsAfterPublish(db, i, run, revision, rows, r);
      if db.runs[r].incident == i && Published(db.runs[r]) {
        EarlierInputs(db, i, r);
      }
    }
    if s != run {
      RunsAfterPublish(db, i, run, revision, rows, s);
    }
    if r != run && s != run {
      assert PairOk(db, r, s);
    }
  }

  lemma PublishKeepsIncident(db: Db, i: Id, run: Id, revision: nat, rows: Option<Rows>, j: Id)
    requires Sound(db) && Enabled(db, Publish(i, run, revision, rows)) && j in Apply(db, Publish(i, run, revision, rows)).incidents
    ensures IncidentOk(Apply(db, Publish(i, run, revision, rows)), j)
  {
    var next := Apply(db, Publish(i, run, revision, rows));
    if j != i {
      assert IncidentOk(db, j);
      if db.incidents[j].pointer.Some? {
        RunsAfterPublish(db, i, run, revision, rows, db.incidents[j].pointer.value);
      }
      if db.incidents[j].top.Some? {
        HypothesisKept(db, next, db.incidents[j].pointer.value, db.incidents[j].top.value);
      }
    } else if TopOf(Children(rows)).Some? {
      assert TopOf(Children(rows)).value.run == run;
      AddedHypothesis(next, db.children, Children(rows), TopOf(Children(rows)).value);
    }
  }

  lemma AddedHypothesis(next: Db, before: seq<Child>, added: seq<Child>, h: Child)
    requires next.children == before + added && h in added && h.kind.HypothesisChild?
    ensures HasHypothesis(next, h.run, h.id)
  {
    var k :| 0 <= k < |added| && added[k] == h;
    assert next.children[|before| + k] == h;
  }

  lemma PublishKeepsChild(db: Db, i: Id, run: Id, revision: nat, rows: Option<Rows>, c: Child)
    requires Sound(db) && Enabled(db, Publish(i, run, revision, rows)) && c in Apply(db, Publish(i, run, revision, rows)).children
    ensures ChildOk(Apply(db, Publish(i, run, revision, rows)), c)
  {
    if c in db.children {
      assert ChildOk(db, c);
      RunsAfterPublish(db, i, run, revision, rows, c.run);
    } else {
      assert c in Children(rows);
    }
  }

  lemma PublishKeepsSound(db: Db, i: Id, run: Id, revision: nat, rows: Option<Rows>)
    requires Sound(db) && Enabled(db, Publish(i, run, revision, rows))
    ensures Sound(Apply(db, Publish(i, run, revision, rows)))
  {
    var next := Apply(db, Publish(i, run, revision, rows));
    forall r | r in next.runs ensures RunOk(next, r) {
      PublishKeepsRun(db, i, run, revision, rows, r);
    }
    forall r, s | r in next.runs && s in next.runs ensures PairOk(next, r, s) {
      PublishKeepsPair(db, i, run, revision, rows, r, s);
    }
    forall j | j in next.incidents ensures IncidentOk(next, j) {
      PublishKeepsIncident(db, i, run, revision, rows, j);
    }
    forall c | c in next.children ensures ChildOk(next, c) {
      PublishKeepsChild(db, i, run, revision, rows, c);
    }
  }

  /** Every step keeps every invariant. */
  lemma StepKeepsSound(db: Db, op: Op)
    requires Sound(db) && Enabled(db, op)
    ensures Sound(Apply(db, op))
  {
    match op
    case OpenIncident(i) => GrowthKeepsSound(db, Apply(db, op));
    case Attach(i, e) => GrowthKeepsSound(db, Apply(db, op));
    case Publish(i, run, revision, rows) => PublishKeepsSound(db, i, run, revision, rows);
    case Fail(i, run, revision) => FailKeepsSound(db, i, run, revision);
  }

  // ---------------------------------------------------------------- what never changes

  /** A run keeps its identity; once superseded or failed it stays so, and once published it stays
      published. */
  ghost predicate RunEvolves(a: RunRow, b: RunRow) {
    && b == a.(state := b.state)
    && (a.state != b.state ==> a.state.Current? && b.state.Superseded?)
  }

  /** How a database may change: rows are only added, published runs keep their rows. */
  ghost predicate Evolves(a: Db, b: Db) {
    && (forall i :: i in a.incidents ==> i in b.incidents)
    && (forall i :: AttachedTo(a, i) <= AttachedTo(b, i))
    && (forall r :: r in a.runs ==> r in b.runs && RunEvolves(a.runs[r], b.runs[r]))
    && (forall r :: r in a.runs ==> ChildrenOf(b, r) == ChildrenOf(a, r))
    && a.reviews <= b.reviews && a.audit <= b.audit
  }

  /** Every step leaves the rows of every earlier run as they were. */
  lemma StepEvolves(db: Db, op: Op)
    requires Sound(db) && Enabled(db, op)
    ensures Evolves(db, Apply(db, op))
  {
    var next := Apply(db, op);
    forall r | r in db.runs ensures ChildrenOf(next, r) == ChildrenOf(db, r) {
      if op.Publish? {
        var keep := (c: Child) => c.run == r;
        WhereConcat(db.children, Children(op.rows), keep);
        WhereNone(Children(op.rows), keep);
      }
    }
    forall r | r in db.runs ensures r in next.runs && RunEvolves(db.runs[r], next.runs[r]) {
      if op.Publish? {
        RunsAfterPublish(db, op.incident, op.run, op.revision, op.rows, r);
      }
    }
  }

  lemma EvolvesChains(a: Db, b: Db, c: Db)
    requires Evolves(a, b) && Evolves(b, c)
    ensures Evolves(a, c)
  {
    forall r | r in a.runs ensures r in c.runs && RunEvolves(a.runs[r], c.runs[r]) && ChildrenOf(c, r) == ChildrenOf(a, r) {
      assert RunEvolves(a.runs[r], b.runs[r]) && RunEvolves(b.runs[r], c.runs[r]);
      assert ChildrenOf(b, r) == ChildrenOf(a, r);
    }
    forall i ensures AttachedTo(a, i) <= AttachedTo(c, i) {
      assert AttachedTo(a, i) <= AttachedTo(b, i) <= AttachedTo(c, i);
    }
  }

  lemma EvolvesStays(a: Db)
    ensures Evolves(a, a)
  {
  }
}
