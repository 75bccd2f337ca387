/** What the incident manager reads off its tables, told from the events and anomalies. */
module IncidentLaws {
  import opened Attachment
  import opened Common
  import opened Contracts
  import opened Incidents
  import opened Sorting
  import opened TypedGraph

  // ---------------------------------------------------------------- opening

  /** One of the anomalies is about this event and may open an incident. */
  ghost predicate CanOpen(s: Settings, anomalies: seq<AnomalyRecord>, e: CanonicalEvent) {
    exists a :: a in anomalies && a.eventId == e.id && a.score > s.openThreshold && a.canOpenIncident && !a.contextOnly
  }

  lemma OpeningExactly(s: Settings, anomalies: seq<AnomalyRecord>, e: CanonicalEvent)
    ensures Opening(s, Own(anomalies, e)) != [] <==> CanOpen(s, anomalies, e)
  {
    var own, may := (a: AnomalyRecord) => a.eventId == e.id, (a: AnomalyRecord) => a.score > s.openThreshold && a.canOpenIncident && !a.contextOnly;
    forall a ensures a in Opening(s, Own(anomalies, e)) <==> a in anomalies && own(a) && may(a) {
      WhereMembers(anomalies, own, a);
      WhereMembers(Own(anomalies, e), may, a);
    }
    if Opening(s, Own(anomalies, e)) != [] {
      assert Opening(s, Own(anomalies, e))[0] in Opening(s, Own(anomalies, e));
    }
  }

  /** Some open incident takes the event. */
  ghost predicate Taken(d: Desk, scores: Scores) {
    exists i :: i in d.incidents && d.incidents[i].open && scores(i).attached
  }

  lemma TakenExactly(d: Desk, scores: Scores)
    ensures (exists i :: Attachable(d, scores, i)) <==> Taken(d, scores)
  {
    if i :| Attachable(d, scores, i) {
      assert i in d.incidents && d.incidents[i].open && scores(i).attached;
    }
    if i :| i in d.incidents && d.incidents[i].open && scores(i).attached {
      assert Attachable(d, scores, i);
    }
  }

  lemma RoutedKeepsIds(scores: Scores, event: Id, bump: Bump, before: Desk, after: Desk, best: Option<Id>)
    requires Routed(scores, event, bump, before, after, best)
    ensures after.incidents.Keys == before.incidents.Keys
  {
  }

  /** An event opens an incident exactly when no open incident takes it, one of its own anomalies may
      open one, and its entity is known. */
  lemma OpensExactly(w: World, anomalies: seq<AnomalyRecord>, e: CanonicalEvent, newId: Id, before: Desk, routed: Desk, after: Desk, r: Option<Id>)
    requires Processed(w, Own(anomalies, e), e, newId, before, routed, after, r) && newId !in before.incidents
    ensures newId in after.incidents <==>
              !Taken(before, LiveScores(w, before, e, Own(anomalies, e))) && CanOpen(w.s, anomalies, e) && e.entityId in w.entities
  {
    var own := Own(anomalies, e);
    var scores, opening := LiveScores(w, before, e, own), Opening(w.s, own);
    OpeningExactly(w.s, anomalies, e);
    TakenExactly(before, scores);
    if Taken(before, scores) || opening == [] || e.entityId !in w.entities {
      RoutedKeepsIds(scores, e.id, BumpBy(e, own), before, after, r);
    } else {
      OpenedIsListed(w, routed, after, newId, e, opening);
    }
  }

  lemma OpenedIsListed(w: World, before: Desk, after: Desk, i: Id, e: CanonicalEvent, opening: seq<AnomalyRecord>)
    requires OpenedFrom(w, before, after, i, e, opening)
    ensures i in after.incidents
  {
    var considered :| LookbackAnswer(w, OpeningContext(w.k, e), e, considered)
      && after == LookedBack(RecallScore(w, OpeningContext(w.k, e)), OpenedWith(before, i, e, opening, OpeningScore(w, e, opening)), i, considered);
    LookbackKeeps(RecallScore(w, OpeningContext(w.k, e)), OpenedWith(before, i, e, opening, OpeningScore(w, e, opening)), i, considered);
  }

  /** The lookback window holds the accepted events up to the opening one and no older than the lookback. */
  lemma WindowExactly(w: World, e: CanonicalEvent, x: CanonicalEvent)
    ensures x in Window(w, e) <==> x in w.table && x.timestamp <= e.timestamp && e.timestamp - x.timestamp <= w.s.lookback
  {
    var recent := (y: CanonicalEvent) => e.timestamp - w.s.lookback <= y.timestamp <= e.timestamp;
    SortKeepsMembers(Where(w.table, recent), EarlierEvent, x);
    WhereMembers(w.table, recent, x);
  }

  // ---------------------------------------------------------------- the context of an incident

  ghost predicate IsAttached(w: World, attachments: set<(Id, Id)>, i: Id, e: CanonicalEvent) {
    e in w.table && (i, e.id) in attachments
  }

  /** The earliest attached event of those. */
  ghost predicate EarliestAttached(w: World, attachments: set<(Id, Id)>, i: Id, keep: CanonicalEvent -> bool, e: CanonicalEvent) {
    IsAttached(w, attachments, i, e) && keep(e) && forall d :: IsAttached(w, attachments, i, d) && keep(d) ==> NoLater(e, d)
  }

  const TRACED: CanonicalEvent -> bool := (e: CanonicalEvent) => e.traceId.Some? && e.traceId.value != ""

  ghost function Familiar(k: Knowledge): CanonicalEvent -> bool {
    (e: CanonicalEvent) => k.families(e.eventType) != []
  }

  lemma {:induction false} FirstTraced(events: seq<CanonicalEvent>) returns (k: nat)
    ensures k <= |events| && forall j :: 0 <= j < k ==> !TRACED(events[j])
    ensures k < |events| ==> TRACED(events[k]) && FirstTrace(events) == events[k].traceId
    ensures k == |events| ==> FirstTrace(events) == None
  {
    k := 0;
    if events != [] && !TRACED(events[0]) {
      k := FirstTraced(events[1..]);
      assert forall j :: 0 < j < |events| ==> events[j] == events[1..][j - 1];
      k := k + 1;
    }
  }

  lemma {:induction false} FirstFamiliar(k: Knowledge, events: seq<CanonicalEvent>) returns (m: nat)
    ensures m <= |events| && forall j :: 0 <= j < m ==> !Familiar(k)(events[j])
    ensures m < |events| ==> Familiar(k)(events[m]) && FirstFamily(k, events) == Some((events[m], k.families(events[m].eventType)[0]))
    ensures m == |events| ==> FirstFamily(k, events) == None
  {
    m := 0;
    if events != [] && !Familiar(k)(events[0]) {
      m := FirstFamiliar(k, events[1..]);
      assert forall j :: 0 < j < |events| ==> events[j] == events[1..][j - 1];
      m := m + 1;
    }
  }

  lemma AttachedMembers(w: World, attachments: set<(Id, Id)>, i: Id, e: CanonicalEvent)
    ensures e in AttachedEvents(w.table, attachments, i) <==> IsAttached(w, attachments, i, e)
  {
    var keep := (x: CanonicalEvent) => (i, x.id) in attachments;
    SortKeepsMembers(Where(w.table, keep), EarlierEvent, e);
    WhereMembers(w.table, keep, e);
  }

  lemma KeptAreTold(events: seq<CanonicalEvent>, kept: seq<CanonicalEvent>)
    requires IdsIdentify(events) && forall x :: x in kept ==> x in events
    ensures TotalOn(kept, EarlierEvent)
  {
    StampLessIsTotal();
    forall x, y | x in kept && y in kept ensures x == y || EarlierEvent(x, y) || EarlierEvent(y, x) {
      if x.id == y.id {
        SameId(events, x, y);
      }
    }
  }

  lemma AttachedInTime(w: World, attachments: set<(Id, Id)>, i: Id, m: nat, n: nat)
    requires IdsIdentify(w.table) && m <= n < |AttachedEvents(w.table, attachments, i)|
    ensures NoLater(AttachedEvents(w.table, attachments, i)[m], AttachedEvents(w.table, attachments, i)[n])
  {
    var keep := (x: CanonicalEvent) => (i, x.id) in attachments;
    var kept := Where(w.table, keep);
    forall x | x in kept ensures x in w.table {
      WhereMembers(w.table, keep, x);
    }
    KeptAreTold(w.table, kept);
    SortByOrders(kept, EarlierEvent);
    SortedInTime(SortBy(kept, EarlierEvent), m, n);
  }

  lemma SameId(events: seq<CanonicalEvent>, x: CanonicalEvent, y: CanonicalEvent)
    requires IdsIdentify(events) && x in events && y in events && x.id == y.id
    ensures x == y
  {
    var i :| 0 <= i < |events| && events[i] == x;
    var j :| 0 <= j < |events| && events[j] == y;
  }

  /** The first of the listed events that qualify is the earliest attached one. */
  lemma FirstIsEarliest(w: World, attachments: set<(Id, Id)>, i: Id, keep: CanonicalEvent -> bool, m: nat)
    requires IdsIdentify(w.table) && m <= |AttachedEvents(w.table, attachments, i)|
    requires forall j :: 0 <= j < m ==> !keep(AttachedEvents(w.table, attachments, i)[j])
    requires m < |AttachedEvents(w.table, attachments, i)| ==> keep(AttachedEvents(w.table, attachments, i)[m])
    ensures var events := AttachedEvents(w.table, attachments, i);
            if m < |events| then EarliestAttached(w, attachments, i, keep, events[m])
            else forall d :: IsAttached(w, attachments, i, d) ==> !keep(d)
  {
    var events := AttachedEvents(w.table, attachments, i);
    forall d | IsAttached(w, attachments, i, d) && keep(d) ensures m < |events| && NoLater(events[m], d) {
      AttachedMembers(w, attachments, i, d);
      var j :| 0 <= j < |events| && events[j] == d;
      AttachedInTime(w, attachments, i, m, j);
    }
    if m < |events| {
      assert events[m] in events;
      AttachedMembers(w, attachments, i, events[m]);
    }
  }

  /** The context an event is scored in: the trace of the earliest attached event that has one, and the
      family and time of the earliest whose family is known, or else the incident's start. */
  ghost predicate ContextTells(w: World, d: Desk, i: Id, row: IncidentRow, c: Context) {
    && (match c.trace
        case None => forall e :: IsAttached(w, d.attachments, i, e) ==> !TRACED(e)
        case Some(t) => exists e :: EarliestAttached(w, d.attachments, i, TRACED, e) && e.traceId == Some(t))
    && (match c.family
        case None => c.openingAt == row.startedAt && forall e :: IsAttached(w, d.attachments, i, e) ==> w.k.families(e.eventType) == []
        case Some(f) =>
          exists e :: EarliestAttached(w, d.attachments, i, Familiar(w.k), e) && w.k.families(e.eventType)[0] == f && c.openingAt == e.timestamp)
  }

  lemma ContextExactly(w: World, d: Desk, i: Id, row: IncidentRow)
    requires IdsIdentify(w.table)
    ensures ContextTells(w, d, i, row, ContextFor(w.k, row, AttachedEvents(w.table, d.attachments, i)))
  {
    var events := AttachedEvents(w.table, d.attachments, i);
    var m := FirstTraced(events);
    FirstIsEarliest(w, d.attachments, i, TRACED, m);
    var n := FirstFamiliar(w.k, events);
    FirstIsEarliest(w, d.attachments, i, Familiar(w.k), n);
  }

  /** A live event is scored against each incident's own row and context. */
  lemma ScoredInContext(w: World, d: Desk, e: CanonicalEvent, anomalies: seq<AnomalyRecord>, i: Id)
    requires IdsIdentify(w.table) && i in d.incidents
    ensures exists c :: ContextTells(w, d, i, d.incidents[i], c)
                        && LiveScores(w, d, e, anomalies)(i)
                           == Assess(w.s, w.k, Target(d.incidents[i].primary, d.incidents[i].startedAt, d.incidents[i].lastEventAt), c, e, anomalies, false)
  {
    ContextExactly(w, d, i, d.incidents[i]);
  }

  /** A decision other than the selected incident's is stored as excluded, with the reason added; every
      other decision is stored as it is. */
  lemma StoredExactly(selected: Option<Id>, i: Id, v: Evaluation)
    ensures var stored := Settled(selected, i, v);
            && stored.score == v.score
            && (stored.attached <==> v.attached && (selected == None || selected == Some(i)))
            && (stored.attached == v.attached ==> stored == v)
            && (stored.attached != v.attached ==> forall x :: x in stored.reasons <==> x in v.reasons || x == BetterIncidentMatch)
  {
  }

  // ---------------------------------------------------------------- the aggregates of an incident

  /** An anomaly that counts: it may open an incident and is no mere context. */
  ghost predicate Counts(a: AnomalyRecord) {
    a.canOpenIncident && !a.contextOnly
  }

  ghost predicate HasCounting(x: Entry) {
    exists a :: a in x.anomalies && Counts(a)
  }

  /** `v` is the greatest score that counts, or zero when none exceeds it. */
  ghost predicate GreatestScore(entries: seq<Entry>, v: real) {
    && v >= 0.0 && (forall x, a :: x in entries && a in x.anomalies && Counts(a) ==> a.score <= v)
    && (v > 0.0 ==> exists x, a :: x in entries && a in x.anomalies && Counts(a) && a.score == v)
  }

  /** To the nearest hundredth, ties to the even one. */
  ghost predicate NearestCent(x: real, r: real) {
    exists units: int :: IsUnits(units, r) && -0.5 <= 100.0 * x - units as real <= 0.5
                         && (units % 2 != 0 ==> -0.5 < 100.0 * x - units as real < 0.5)
  }

  ghost predicate IsUnits(units: int, r: real) {
    r == units as real / 100.0
  }

  lemma RoundTwoIsNearest(x: real)
    ensures NearestCent(x, RoundTwo(x))
  {
    var floor := (100.0 * x).Floor;
    var rest := 100.0 * x - floor as real;
    var units := if rest < 0.5 || (rest == 0.5 && floor % 2 == 0) then floor else floor + 1;
    assert IsUnits(units, RoundTwo(x));
  }

  lemma ActionableMembers(anomalies: seq<AnomalyRecord>, a: AnomalyRecord)
    ensures a in Actionable(anomalies) <==> a in anomalies && Counts(a)
  {
    WhereMembers(anomalies, (x: AnomalyRecord) => x.canOpenIncident && !x.contextOnly, a);
  }

  lemma {:induction false} TopIsGreatest(anomalies: seq<AnomalyRecord>)
    ensures TopScore(anomalies) >= 0.0 && forall a :: a in anomalies ==> a.score <= TopScore(anomalies)
    ensures TopScore(anomalies) > 0.0 ==> exists a :: a in anomalies && a.score == TopScore(anomalies)
  {
    if anomalies != [] {
      assert anomalies == [anomalies[0]] + anomalies[1..];
      TopIsGreatest(anomalies[1..]);
    }
  }

  lemma {:induction false} AllActionableMembers(entries: seq<Entry>, a: AnomalyRecord)
    ensures a in AllActionable(entries) <==> exists x :: x in entries && a in x.anomalies && Counts(a)
  {
    if entries != [] {
      var n := |entries| - 1;
      assert entries == entries[..n] + [entries[n]];
      AllActionableMembers(entries[..n], a);
      ActionableMembers(entries[n].anomalies, a);
    }
  }

  lemma SeverityTells(opening: CanonicalEvent, entries: seq<Entry>, open: bool)
    ensures exists v :: GreatestScore(entries, v) && NearestCent(v, Recomputed(opening, entries, open).severity)
  {
    var all := AllActionable(entries);
    TopIsGreatest(all);
    forall a ensures a in all <==> exists x :: x in entries && a in x.anomalies && Counts(a) {
      AllActionableMembers(entries, a);
    }
    assert GreatestScore(entries, TopScore(all));
    RoundTwoIsNearest(TopScore(all));
  }

  lemma {:induction false} TimesTell(start: int, entries: seq<Entry>)
    ensures EarliestOf(start, entries) <= start <= LatestOf(start, entries)
    ensures forall x :: x in entries ==> EarliestOf(start, entries) <= x.event.timestamp <= LatestOf(start, entries)
    ensures EarliestOf(start, entries) == start || exists x :: x in entries && x.event.timestamp == EarliestOf(start, entries)
    ensures LatestOf(start, entries) == start || exists x :: x in entries && x.event.timestamp == LatestOf(start, entries)
  {
    if entries != [] {
      var n := |entries| - 1;
      assert entries == entries[..n] + [entries[n]];
      TimesTell(start, entries[..n]);
    }
  }

  lemma {:induction false} TouchedMembers(entries: seq<Entry>, y: Node)
    ensures y in Touched(entries) <==> exists x :: x in entries && x.event.entityId == y && HasCounting(x)
  {
    if entries != [] {
      var n := |entries| - 1;
      var last := entries[n];
      assert entries == entries[..n] + [last];
      TouchedMembers(entries[..n], y);
      forall a ensures a in Actionable(last.anomalies) <==> a in last.anomalies && Counts(a) {
        ActionableMembers(last.anomalies, a);
      }
      assert Actionable(last.anomalies) != [] <==> HasCounting(last) by {
        if Actionable(last.anomalies) != [] {
          assert Actionable(last.anomalies)[0] in Actionable(last.anomalies);
        }
      }
    }
  }

  /** The times of an incident are those of its earliest and latest events, and its entities the opening
      one first and every one with an anomaly that counts, each once. */
  lemma RowTells(opening: CanonicalEvent, entries: seq<Entry>, open: bool, y: Node)
    ensures var row := Recomputed(opening, entries, open);
            && row.primary == opening.entityId && row.open == open
            && row.startedAt <= opening.timestamp <= row.lastEventAt
            && (forall x :: x in entries ==> row.startedAt <= x.event.timestamp <= row.lastEventAt)
            && (row.startedAt == opening.timestamp || exists x :: x in entries && x.event.timestamp == row.startedAt)
            && (row.lastEventAt == opening.timestamp || exists x :: x in entries && x.event.timestamp == row.lastEventAt)
            && (y in row.affected <==> y == opening.entityId || exists x :: x in entries && x.event.entityId == y && HasCounting(x))
            && Distinct(row.affected) && row.affected != [] && row.affected[0] == opening.entityId
  {
    TimesTell(opening.timestamp, entries);
    TouchedMembers(entries, y);
    DedupeKeepsHead(opening.entityId, Touched(entries));
  }

  lemma {:induction false} DedupeKeepsHead(x: Node, rest: seq<Node>)
    ensures Dedupe([x] + rest) != [] && Dedupe([x] + rest)[0] == x
  {
    var all := [x] + rest;
    if rest == [] {
      assert all[..0] == [];
    } else {
      assert all[..|all| - 1] == [x] + rest[..|rest| - 1];
      DedupeKeepsHead(x, rest[..|rest| - 1]);
    }
  }

  ghost function CountingAt(x: Entry): int -> bool {
    i => 0 <= i < |x.anomalies| && Counts(x.anomalies[i])
  }

  /** Every attached event adds the number of its anomalies that count. */
  lemma CountTells(entries: seq<Entry>, x: Entry)
    ensures CountOf([]) == 0
    ensures CountOf(entries + [x]) == CountOf(entries) + |Places(|x.anomalies|, CountingAt(x))|
  {
    assert (entries + [x])[..|entries|] == entries;
    WherePlaces(x.anomalies, (a: AnomalyRecord) => a.canOpenIncident && !a.contextOnly, CountingAt(x), |x.anomalies|);
    assert x.anomalies[..|x.anomalies|] == x.anomalies;
  }
}
