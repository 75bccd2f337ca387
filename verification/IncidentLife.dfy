/** One incident table, two writers: the incident manager routes events to open incidents, publications
    and reviews close and reopen them. The manager's desk and the analysis database are followed together. */
module IncidentLife {
  import opened Common
  import opened Contracts
  import opened Attachment
  import I = Incidents
  import D = AnalysisDatabase
  import R = Reviews
  import PublicationRuns

  type Id = string

  datatype State = State(db: D.Db, desk: I.Desk)

  /** The statuses the manager's query lists. */
  predicate OpenStatus(status: D.IncidentStatus) {
    status.Open? || status.Investigating?
  }

  function EventsOf(desk: I.Desk, i: Id): set<Id> {
    set p | p in desk.attachments && p.0 == i :: p.1
  }

  /** Database and desk speak of the same incidents, statuses and attached events. */
  ghost predicate Matches(db: D.Db, desk: I.Desk) {
    && db.incidents.Keys == desk.incidents.Keys
    && (forall i :: i in desk.incidents ==> (desk.incidents[i].open <==> OpenStatus(db.incidents[i].status)))
    && (forall i :: D.AttachedTo(db, i) == EventsOf(desk, i))
    && (forall p :: p in desk.attachments ==> p.0 in desk.incidents)
  }

  /** The database once the manager has left its desk like that: new incidents are open, the attached
      events are the desk's. */
  function Follow(db: D.Db, desk: I.Desk): D.Db {
    db.(incidents := map i | i in desk.incidents :: if i in db.incidents then db.incidents[i] else D.IncidentRow(D.Open, None, None, None),
        attached := map i | i in desk.incidents :: EventsOf(desk, i))
  }

  /** The desk once the incidents' statuses are those of the database. */
  function Refreshed(desk: I.Desk, db: D.Db): I.Desk {
    desk.(incidents := map i | i in desk.incidents ::
            if i in db.incidents then desk.incidents[i].(open := OpenStatus(db.incidents[i].status)) else desk.incidents[i])
  }

  // ---------------------------------------------------------------- how the manager's desk grows

  /** Incidents, decisions and attachments are only added; a standing incident keeps its status, a new one
      is open. */
  ghost predicate Grows(before: I.Desk, after: I.Desk) {
    && (forall i :: i in before.incidents ==> i in after.incidents && after.incidents[i].open == before.incidents[i].open)
    && (forall i :: i in after.incidents && i !in before.incidents ==> after.incidents[i].open)
    && before.attachments <= after.attachments && I.Kept(before.evaluations, after.evaluations)
    && (forall p :: p in after.attachments && p !in before.attachments ==> p.0 in after.incidents)
  }

  lemma GrowsChains(a: I.Desk, b: I.Desk, c: I.Desk)
    requires Grows(a, b) && Grows(b, c)
    ensures Grows(a, c)
  {
    forall i | i in a.incidents ensures i in c.incidents && c.incidents[i].open == a.incidents[i].open {
      assert i in b.incidents;
    }
    forall p | p in c.attachments && p !in a.attachments ensures p.0 in c.incidents {
      if p in b.attachments {
        assert p.0 in b.incidents;
      }
    }
  }

  lemma RoutedGrows(scores: I.Scores, e: CanonicalEvent, own: seq<AnomalyRecord>, before: I.Desk, after: I.Desk, best: Option<Id>)
    requires I.Routed(scores, e.id, I.BumpBy(e, own), before, after, best)
    ensures Grows(before, after) && after.incidents.Keys == before.incidents.Keys
  {
    forall i | i in before.incidents ensures i in after.incidents && after.incidents[i].open == before.incidents[i].open {
      assert I.RowMoved(e.id, I.BumpBy(e, own), before, after, i);
    }
    forall p | p in after.attachments && p !in before.attachments ensures p.0 in after.incidents {
      assert I.NewlyAttached(before, after, p);
      assert p in I.DecisionsOf(I.OpenIds(before), e.id);
    }
  }

  /** Deciding one event for one incident touches no other. */
  ghost predicate OnlyAt(before: I.Desk, after: I.Desk, i: Id) {
    && after.incidents.Keys == before.incidents.Keys
    && (forall j :: j in before.incidents && j != i ==> after.incidents[j] == before.incidents[j])
    && (forall p :: p in after.attachments && p !in before.attachments ==> p.0 == i)
    && Grows(before, after)
  }

  lemma DecidedOnlyAt(d: I.Desk, i: Id, e: CanonicalEvent, anomalies: seq<AnomalyRecord>, v: Evaluation)
    requires i in d.incidents
    ensures OnlyAt(d, I.Decided(d, i, e, anomalies, v), i)
  {
  }

  lemma OnlyAtChains(a: I.Desk, b: I.Desk, c: I.Desk, i: Id)
    requires OnlyAt(a, b, i) && OnlyAt(b, c, i)
    ensures OnlyAt(a, c, i)
  {
    GrowsChains(a, b, c);
  }

  lemma OnlyAtItself(d: I.Desk, i: Id)
    ensures OnlyAt(d, d, i)
  {
  }

  lemma {:induction false} LookbackOnlyAt(recall: I.Recall, d: I.Desk, i: Id, considered: seq<I.Considered>)
    requires i in d.incidents
    ensures OnlyAt(d, I.LookedBack(recall, d, i, considered), i)
  {
    if considered == [] {
      OnlyAtItself(d, i);
    } else {
      var init, x := considered[..|considered| - 1], considered[|considered| - 1];
      LookbackOnlyAt(recall, d, i, init);
      var before := I.LookedBack(recall, d, i, init);
      DecidedOnlyAt(before, i, x.0, x.1, recall(before.incidents[i], x));
      OnlyAtChains(d, before, I.Decided(before, i, x.0, x.1, recall(before.incidents[i], x)), i);
    }
  }

  /** A new open incident, and nothing else about the others. */
  ghost predicate Added(before: I.Desk, after: I.Desk, i: Id) {
    && Grows(before, after) && i in after.incidents && (forall j :: j in before.incidents ==> after.incidents[j] == before.incidents[j])
    && (forall p :: p in after.attachments && p !in before.attachments ==> p.0 == i)
  }

  lemma CreatedIsAdded(before: I.Desk, i: Id, e: CanonicalEvent)
    requires i !in before.incidents
    ensures Added(before, before.(incidents := before.incidents[i := I.Opened(e)]), i)
  {
  }

  lemma AddedThenOnlyAt(before: I.Desk, created: I.Desk, after: I.Desk, i: Id)
    requires Added(before, created, i) && OnlyAt(created, after, i) && i !in before.incidents
    ensures Added(before, after, i)
  {
    GrowsChains(before, created, after);
  }

  /** Opening an incident adds it, open, and leaves every other as it was. */
  lemma OpenedIsAdded(w: I.World, before: I.Desk, after: I.Desk, i: Id, e: CanonicalEvent, opening: seq<AnomalyRecord>)
    requires I.OpenedFrom(w, before, after, i, e, opening) && i !in before.incidents
    ensures Added(before, after, i)
  {
    var context := OpeningContext(w.k, e);
    var considered :| I.LookbackAnswer(w, context, e, considered)
      && after == I.LookedBack(I.RecallScore(w, context), I.OpenedWith(before, i, e, opening, I.OpeningScore(w, e, opening)), i, considered);
    OpeningIsAdded(I.RecallScore(w, context), before, i, e, opening, I.OpeningScore(w, e, opening), considered);
  }

  lemma OpeningIsAdded(recall: I.Recall, before: I.Desk, i: Id, e: CanonicalEvent, opening: seq<AnomalyRecord>, v: Evaluation,
                       considered: seq<I.Considered>)
    requires i !in before.incidents
    ensures Added(before, I.LookedBack(recall, I.OpenedWith(before, i, e, opening, v), i, considered), i)
  {
    var created := before.(incidents := before.incidents[i := I.Opened(e)]);
    var decided := I.OpenedWith(before, i, e, opening, v);
    CreatedIsAdded(before, i, e);
    DecidedOnlyAt(created, i, e, opening, v);
    AddedThenOnlyAt(before, created, decided, i);
    LookbackOnlyAt(recall, decided, i, considered);
    AddedThenOnlyAt(before, decided, I.LookedBack(recall, decided, i, considered), i);
  }

  lemma ProcessedGrows(w: I.World, own: seq<AnomalyRecord>, e: CanonicalEvent, newId: Id, before: I.Desk, routed: I.Desk, after: I.Desk, r: Option<Id>)
    requires I.Processed(w, own, e, newId, before, routed, after, r) && newId !in before.incidents
    ensures Grows(before, after) && (r.Some? ==> r.value in after.incidents)
  {
    var scores, opening := I.LiveScores(w, before, e, own), I.Opening(w.s, own);
    if (exists i :: I.Attachable(before, scores, i)) || opening == [] || e.entityId !in w.entities {
      RoutedGrows(scores, e, own, before, after, r);
    } else {
      RoutedGrows(scores, e, own, before, routed, None);
      OpenedIsAdded(w, routed, after, newId, e, opening);
      GrowsChains(before, routed, after);
    }
  }

  // ---------------------------------------------------------------- the database follows

  lemma FollowMatches(db: D.Db, before: I.Desk, after: I.Desk)
    requires Matches(db, before) && Grows(before, after)
    ensures Matches(Follow(db, after), after)
  {
    var next := Follow(db, after);
    forall p | p in after.attachments ensures p.0 in after.incidents {
      if p in before.attachments {
        assert p.0 in before.incidents;
      }
    }
    forall i ensures D.AttachedTo(next, i) == EventsOf(after, i) {
      if i !in after.incidents {
        assert forall p :: p in after.attachments ==> p.0 != i;
      }
    }
  }

  lemma FollowGrows(db: D.Db, before: I.Desk, after: I.Desk)
    requires Matches(db, before) && Grows(before, after)
    ensures var next := Follow(db, after);
            && next.runs == db.runs && next.children == db.children && next.reviews == db.reviews && next.audit == db.audit
            && (forall i :: i in db.incidents ==> i in next.incidents && next.incidents[i] == db.incidents[i])
            && (forall i :: i in next.incidents && i !in db.incidents ==> next.incidents[i] == D.IncidentRow(D.Open, None, None, None))
            && (forall i :: D.AttachedTo(db, i) <= D.AttachedTo(next, i))
  {
    var next := Follow(db, after);
    FollowMatches(db, before, after);
    forall i, x | x in D.AttachedTo(db, i) ensures x in D.AttachedTo(next, i) {
      assert (i, x) in before.attachments;
    }
  }

  /** What the manager does with one event, on the database: nothing an analysis or a review recorded
      changes, and the incident it names exists. These are the demands of batch processing. */
  lemma FollowIsManaged(db: D.Db, before: I.Desk, after: I.Desk)
    requires D.Sound(db) && Matches(db, before) && Grows(before, after)
    ensures var next := Follow(db, after);
            D.Sound(next) && next.runs == db.runs && next.children == db.children && D.Evolves(db, next) && next.incidents.Keys == after.incidents.Keys
  {
    FollowGrows(db, before, after);
    D.GrowthKeepsSound(db, Follow(db, after));
  }

  /** The staging function does with an event what the manager does at some desk that matches the
      database, or nothing. */
  ghost predicate StagedBy(stage: PublicationRuns.Stage, db: D.Db, e: CanonicalEvent) {
    || stage(db, e) == (db, None)
    || exists w: I.World, own, newId, before, routed, after, r ::
         && Matches(db, before) && newId !in before.incidents && I.Processed(w, own, e, newId, before, routed, after, r)
         && stage(db, e) == (Follow(db, after), r)
  }

  /** So the manager is such a stage as batch processing asks for. */
  lemma ManagerManages(stage: PublicationRuns.Stage)
    requires forall db, e :: D.Sound(db) ==> StagedBy(stage, db, e)
    ensures PublicationRuns.Manages(stage)
  {
    forall db, e | D.Sound(db)
      ensures D.Sound(stage(db, e).0) && stage(db, e).0.runs == db.runs && stage(db, e).0.children == db.children
      ensures D.Evolves(db, stage(db, e).0) && (stage(db, e).1.Some? ==> stage(db, e).1.value in stage(db, e).0.incidents)
    {
      assert StagedBy(stage, db, e);
      if stage(db, e) == (db, None) {
        D.EvolvesStays(db);
      } else {
        var w: I.World, own, newId, before, routed, after, r :|
          && Matches(db, before) && newId !in before.incidents && I.Processed(w, own, e, newId, before, routed, after, r)
          && stage(db, e) == (Follow(db, after), r);
        ProcessedGrows(w, own, e, newId, before, routed, after, r);
        FollowIsManaged(db, before, after);
      }
    }
  }

  // ---------------------------------------------------------------- both writers

  /** One event for the manager, or one publication, failure or review submission. */
  datatype Move = Event(w: I.World, own: seq<AnomalyRecord>, e: CanonicalEvent, newId: Id) | Administration(act: R.Act)

  ghost predicate Managed(m: Move, a: State, b: State)
    requires m.Event?
  {
    && m.newId !in a.desk.incidents && b.db == Follow(a.db, b.desk)
    && exists routed, r :: I.Processed(m.w, m.own, m.e, m.newId, a.desk, routed, b.desk, r)
  }

  ghost predicate Administered(act: R.Act, a: State, b: State) {
    && R.CanHappen(a.db, act) && (act.Step? ==> act.op.Publish? || act.op.Fail?)
    && b.db == R.After(a.db, act) && b.desk == Refreshed(a.desk, b.db)
  }

  ghost predicate Moves(m: Move, a: State, b: State) {
    match m
    case Event(_, _, _, _) => Managed(m, a, b)
    case Administration(act) => Administered(act, a, b)
  }

  ghost predicate Alive(s: State) {
    R.Reviewed(s.db) && Matches(s.db, s.desk)
  }

  lemma FollowKeepsReviewed(db: D.Db, before: I.Desk, after: I.Desk)
    requires R.Reviewed(db) && Matches(db, before) && Grows(before, after)
    ensures R.Reviewed(Follow(db, after)) && D.Evolves(db, Follow(db, after))
  {
    var next := Follow(db, after);
    FollowGrows(db, before, after);
    FollowIsManaged(db, before, after);
    forall k | 0 <= k < |next.reviews| ensures R.ReviewOk(next, next.reviews[k]) {
      assert R.ReviewOk(db, db.reviews[k]);
    }
    forall i | i in next.incidents ensures R.ClosureOk(next, i) {
      if i in db.incidents {
        assert R.ClosureOk(db, i);
      }
    }
  }

  /** Publications, failures and reviews keep the incidents and what is attached to them. */
  lemma ActKeepsIncidents(db: D.Db, act: R.Act)
    requires R.CanHappen(db, act) && (act.Step? ==> act.op.Publish? || act.op.Fail?)
    ensures R.After(db, act).incidents.Keys == db.incidents.Keys && R.After(db, act).attached == db.attached
  {
    if act.Submission? {
      if R.Decide(db, act.incident, act.request).Accepted? {
        assert act.incident in db.incidents;
      }
    }
  }

  lemma RefreshedMatches(db: D.Db, next: D.Db, desk: I.Desk)
    requires Matches(db, desk) && next.incidents.Keys == db.incidents.Keys && next.attached == db.attached
    ensures Matches(next, Refreshed(desk, next))
    ensures Refreshed(desk, next).evaluations == desk.evaluations && Refreshed(desk, next).attachments == desk.attachments
  {
    assert Refreshed(desk, next).incidents.Keys == desk.incidents.Keys;
    forall i ensures D.AttachedTo(next, i) == EventsOf(Refreshed(desk, next), i) {
      assert D.AttachedTo(next, i) == D.AttachedTo(db, i);
    }
  }

  /** What neither writer undoes: decisions, attachments, incidents, and what was published or reviewed. */
  ghost predicate OnlyAdds(a: State, b: State) {
    && I.Kept(a.desk.evaluations, b.desk.evaluations) && a.desk.attachments <= b.desk.attachments
    && a.desk.incidents.Keys <= b.desk.incidents.Keys && D.Evolves(a.db, b.db)
  }

  lemma MoveKeeps(m: Move, a: State, b: State)
    requires Alive(a) && Moves(m, a, b)
    ensures Alive(b) && OnlyAdds(a, b)
  {
    match m
    case Event(w, own, e, newId) =>
      var routed, r :| I.Processed(w, own, e, newId, a.desk, routed, b.desk, r);
      ProcessedGrows(w, own, e, newId, a.desk, routed, b.desk, r);
      FollowMatches(a.db, a.desk, b.desk);
      FollowKeepsReviewed(a.db, a.desk, b.desk);
    case Administration(act) =>
      R.ActKeepsReviewed(a.db, act);
      ActKeepsIncidents(a.db, act);
      RefreshedMatches(a.db, b.db, a.desk);
  }

  // ---------------------------------------------------------------- whole lives

  ghost predicate Life(states: seq<State>, moves: seq<Move>) {
    |states| == |moves| + 1 && forall k :: 0 <= k < |moves| ==> MoveAt(states, moves, k)
  }

  ghost predicate MoveAt(states: seq<State>, moves: seq<Move>, k: nat)
    requires |states| == |moves| + 1 && k < |moves|
  {
    Moves(moves[k], states[k], states[k + 1])
  }

  /** Whatever both writers do, in any order, the database satisfies the publication and review invariants
      and the desk matches it. */
  lemma {:induction false} LifeKeepsAlive(states: seq<State>, moves: seq<Move>, k: nat)
    requires Life(states, moves) && Alive(states[0]) && k < |states|
    ensures Alive(states[k])
  {
    if k > 0 {
      LifeKeepsAlive(states, moves, k - 1);
      assert MoveAt(states, moves, k - 1);
      MoveKeeps(moves[k - 1], states[k - 1], states[k]);
    }
  }

  lemma OnlyAddsChains(a: State, b: State, c: State)
    requires OnlyAdds(a, b) && OnlyAdds(b, c)
    ensures OnlyAdds(a, c)
  {
    D.EvolvesChains(a.db, b.db, c.db);
  }

  lemma OnlyAddsItself(a: State)
    ensures OnlyAdds(a, a)
  {
    D.EvolvesStays(a.db);
  }

  lemma {:induction false} LifeOnlyAdds(states: seq<State>, moves: seq<Move>, j: nat, k: nat)
    requires Life(states, moves) && Alive(states[0]) && j <= k < |states|
    ensures OnlyAdds(states[j], states[k])
    decreases k
  {
    if j == k {
      OnlyAddsItself(states[j]);
    } else {
      LifeOnlyAdds(states, moves, j, k - 1);
      LifeKeepsAlive(states, moves, k - 1);
      assert MoveAt(states, moves, k - 1);
      MoveKeeps(moves[k - 1], states[k - 1], states[k]);
      OnlyAddsChains(states[j], states[k - 1], states[k]);
    }
  }

  // ---------------------------------------------------------------- what closing and reopening mean for routing

  /** An incident the event cannot change: closed, or one that decided the event before. */
  ghost predicate Barred(s: State, i: Id, event: Id) {
    i in s.db.incidents && (!OpenStatus(s.db.incidents[i].status) || (i, event) in s.desk.evaluations)
  }

  ghost predicate Untouched(before: I.Desk, after: I.Desk, i: Id) {
    && i in before.incidents && i in after.incidents && after.incidents[i] == before.incidents[i]
    && forall e :: (i, e) in after.attachments <==> (i, e) in before.attachments
  }

  lemma RoutedUntouched(scores: I.Scores, e: CanonicalEvent, own: seq<AnomalyRecord>, before: I.Desk, after: I.Desk, best: Option<Id>, i: Id)
    requires I.Routed(scores, e.id, I.BumpBy(e, own), before, after, best) && i in before.incidents
    requires !before.incidents[i].open || (i, e.id) in before.evaluations
    ensures Untouched(before, after, i)
  {
    assert I.RowMoved(e.id, I.BumpBy(e, own), before, after, i);
    assert (i, e.id) !in I.DecisionsOf(I.OpenIds(before), e.id) || (i, e.id) in before.evaluations;
    forall x ensures (i, x) in after.attachments <==> (i, x) in before.attachments {
      assert I.NewlyAttached(before, after, (i, x)) ==> (i, x) in I.DecisionsOf(I.OpenIds(before), e.id);
    }
  }

  lemma AddedUntouched(before: I.Desk, after: I.Desk, newId: Id, i: Id)
    requires Added(before, after, newId) && i in before.incidents && i != newId
    ensures Untouched(before, after, i)
  {
  }

  /** The manager's next event leaves a closed incident, and one that decided the event before, exactly as
      it was: in particular an incident that was closed and reopened never counts an event twice. */
  lemma BarredIsUntouched(m: Move, a: State, b: State, i: Id)
    requires Alive(a) && m.Event? && Moves(m, a, b) && Barred(a, i, m.e.id)
    ensures Untouched(a.desk, b.desk, i) && b.db.incidents[i] == a.db.incidents[i]
  {
    var routed, r :| I.Processed(m.w, m.own, m.e, m.newId, a.desk, routed, b.desk, r);
    MoveKeeps(m, a, b);
    ProcessedUntouched(m.w, m.own, m.e, m.newId, a.desk, routed, b.desk, r, i);
  }

  lemma ProcessedUntouched(w: I.World, own: seq<AnomalyRecord>, e: CanonicalEvent, newId: Id, before: I.Desk, routed: I.Desk, after: I.Desk,
                           r: Option<Id>, i: Id)
    requires I.Processed(w, own, e, newId, before, routed, after, r) && newId !in before.incidents && i in before.incidents
    requires !before.incidents[i].open || (i, e.id) in before.evaluations
    ensures Untouched(before, after, i)
  {
    var scores, opening := I.LiveScores(w, before, e, own), I.Opening(w.s, own);
    if (exists j :: I.Attachable(before, scores, j)) || opening == [] || e.entityId !in w.entities {
      RoutedUntouched(scores, e, own, before, after, r, i);
    } else {
      RoutedUntouched(scores, e, own, before, routed, None, i);
      RoutedGrows(scores, e, own, before, routed, None);
      OpenedIsAdded(w, routed, after, newId, e, opening);
      AddedUntouched(routed, after, newId, i);
    }
  }

  /** Over a whole life: once an incident has decided an event, no later submission of that event to the
      manager changes the incident's row or attachments, whatever closed and reopened it in between. */
  lemma DecidedForLife(states: seq<State>, moves: seq<Move>, j: nat, k: nat, i: Id)
    requires Life(states, moves) && Alive(states[0]) && j <= k < |moves| && moves[k].Event?
    requires i in states[j].desk.incidents && (i, moves[k].e.id) in states[j].desk.evaluations
    ensures Untouched(states[k].desk, states[k + 1].desk, i)
  {
    LifeOnlyAdds(states, moves, j, k);
    LifeKeepsAlive(states, moves, k);
    assert MoveAt(states, moves, k);
    BarredIsUntouched(moves[k], states[k], states[k + 1], i);
  }

  /** A publication reopens its incident for the manager, whatever its status was. */
  lemma PublicationReopens(m: Move, a: State, b: State)
    requires Alive(a) && m.Administration? && m.act.Step? && m.act.op.Publish? && Moves(m, a, b)
    ensures I.IsOpen(b.desk, m.act.op.incident)
  {
    ActKeepsIncidents(a.db, m.act);
  }

  /** A confirming review takes its incident off the manager's list. */
  lemma ConfirmationCloses(m: Move, a: State, b: State)
    requires Alive(a) && m.Administration? && m.act.Submission? && m.act.request.decision.Confirm? && Moves(m, a, b)
    requires R.Decide(a.db, m.act.incident, m.act.request).Accepted?
    ensures m.act.incident in b.desk.incidents && !I.IsOpen(b.desk, m.act.incident)
  {
    ActKeepsIncidents(a.db, m.act);
  }
}
