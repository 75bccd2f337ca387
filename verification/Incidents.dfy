/** The incident manager: a first-write-wins decision log, attachments, a lookback on opening, and
    running aggregates that always equal a recomputation from the attached events. */
module Incidents {
  import opened Attachment
  import opened Common
  import opened Contracts
  import opened Sorting
  import opened TypedGraph

  type Id = string

  datatype IncidentRow = IncidentRow(
    primary: Node,
    startedAt: int,
    lastEventAt: int,
    severity: real,
    anomalyCount: nat,
    affected: seq<Node>,
    open: bool)

  /** An attached event with the anomalies it was evaluated with. */
  datatype Entry = Entry(incident: Id, event: CanonicalEvent, anomalies: seq<AnomalyRecord>)

  // ---------------------------------------------------------------- the recomputation

  function Actionable(anomalies: seq<AnomalyRecord>): seq<AnomalyRecord> {
    Where(anomalies, (a: AnomalyRecord) => a.canOpenIncident && !a.contextOnly)
  }

  /** Python's `round(x, 2)`: to the nearest hundredth, ties to the even one. */
  function RoundTwo(x: real): real {
    var floor := (100.0 * x).Floor;
    var rest := 100.0 * x - floor as real;
    var units := if rest < 0.5 || (rest == 0.5 && floor % 2 == 0) then floor else floor + 1;
    units as real / 100.0
  }

  function Max(x: real, y: real): real {
    if x >= y then x else y
  }

  /** The largest score, or zero. */
  function TopScore(anomalies: seq<AnomalyRecord>): real {
    if anomalies == [] then 0.0 else Max(anomalies[0].score, TopScore(anomalies[1..]))
  }

  function CountOf(entries: seq<Entry>): nat {
    if entries == [] then 0 else CountOf(entries[..|entries| - 1]) + |Actionable(entries[|entries| - 1].anomalies)|
  }

  function AllActionable(entries: seq<Entry>): seq<AnomalyRecord> {
    if entries == [] then [] else AllActionable(entries[..|entries| - 1]) + Actionable(entries[|entries| - 1].anomalies)
  }

  function EarliestOf(start: int, entries: seq<Entry>): int {
    if entries == [] then start
    else
      var before, t := EarliestOf(start, entries[..|entries| - 1]), entries[|entries| - 1].event.timestamp;
      if t < before then t else before
  }

  function LatestOf(start: int, entries: seq<Entry>): int {
    if entries == [] then start
    else
      var before, t := LatestOf(start, entries[..|entries| - 1]), entries[|entries| - 1].event.timestamp;
      if t > before then t else before
  }

  function Touched(entries: seq<Entry>): seq<Node> {
    if entries == [] then []
    else
      var before, last := Touched(entries[..|entries| - 1]), entries[|entries| - 1];
      if Actionable(last.anomalies) != [] then before + [last.event.entityId] else before
  }

  /** An incident row recomputed from its opening event and its attached events: the earliest and latest
      times, the number of actionable anomalies, their highest score rounded once, and the opening
      entity followed by every entity with an actionable anomaly, each once. */
  function Recomputed(opening: CanonicalEvent, entries: seq<Entry>, open: bool): IncidentRow {
    IncidentRow(opening.entityId, EarliestOf(opening.timestamp, entries), LatestOf(opening.timestamp, entries),
                RoundTwo(TopScore(AllActionable(entries))), CountOf(entries), Dedupe([opening.entityId] + Touched(entries)), open)
  }

  lemma RoundTwoMonotone(x: real, y: real)
    requires x <= y
    ensures RoundTwo(x) <= RoundTwo(y)
  {
    assert (100.0 * x).Floor <= (100.0 * y).Floor;
  }

  lemma {:induction false} TopScoreConcat(a: seq<AnomalyRecord>, b: seq<AnomalyRecord>)
    ensures TopScore(a + b) == Max(TopScore(a), TopScore(b)) && TopScore(a) >= 0.0
  {
    if a == [] {
      assert a + b == b;
      TopScoreNonNegative(b);
    } else {
      assert (a + b)[1..] == a[1..] + b;
      TopScoreConcat(a[1..], b);
    }
  }

  lemma {:induction false} TopScoreNonNegative(a: seq<AnomalyRecord>)
    ensures TopScore(a) >= 0.0
  {
    if a != [] {
      TopScoreNonNegative(a[1..]);
    }
  }

  /** The row after one more attached event, as the manager updates it field by field. */
  function Bumped(row: IncidentRow, e: CanonicalEvent, anomalies: seq<AnomalyRecord>): IncidentRow {
    var timed := row.(
      startedAt := if e.timestamp < row.startedAt then e.timestamp else row.startedAt,
      lastEventAt := if e.timestamp > row.lastEventAt then e.timestamp else row.lastEventAt);
    var actionable := Actionable(anomalies);
    if actionable == [] then timed
    else timed.(
      anomalyCount := row.anomalyCount + |actionable|,
      affected := if e.entityId in row.affected then row.affected else row.affected + [e.entityId],
      severity := if RoundTwo(TopScore(actionable)) > row.severity then RoundTwo(TopScore(actionable)) else row.severity)
  }

  /** Updating field by field keeps the row equal to the recomputation. */
  lemma BumpedIsRecomputed(opening: CanonicalEvent, entries: seq<Entry>, open: bool, x: Entry)
    ensures Bumped(Recomputed(opening, entries, open), x.event, x.anomalies) == Recomputed(opening, entries + [x], open)
  {
    var longer, actionable := entries + [x], Actionable(x.anomalies);
    assert longer[..|entries|] == entries && longer[|longer| - 1] == x;
    SeverityStep(AllActionable(entries), actionable);
    var base := [opening.entityId] + Touched(entries);
    if actionable == [] {
      assert AllActionable(longer) == AllActionable(entries);
    } else {
      assert [opening.entityId] + Touched(longer) == base + [x.event.entityId];
      assert (base + [x.event.entityId])[..|base|] == base;
    }
  }

  lemma SeverityStep(a: seq<AnomalyRecord>, b: seq<AnomalyRecord>)
    ensures RoundTwo(TopScore(a + b)) == Max(RoundTwo(TopScore(a)), RoundTwo(TopScore(b)))
  {
    TopScoreConcat(a, b);
    if TopScore(a) >= TopScore(b) {
      RoundTwoMonotone(TopScore(b), TopScore(a));
    } else {
      RoundTwoMonotone(TopScore(a), TopScore(b));
    }
  }

  // ---------------------------------------------------------------- the tables

  function EntriesOf(log: seq<Entry>, i: Id): seq<Entry> {
    Where(log, (x: Entry) => x.incident == i)
  }

  function PairsOf(log: seq<Entry>): seq<(Id, Id)> {
    Mapped(log, (x: Entry) => (x.incident, x.event.id))
  }

  lemma EntriesAppend(log: seq<Entry>, x: Entry, i: Id)
    ensures EntriesOf(log + [x], i) == if x.incident == i then EntriesOf(log, i) + [x] else EntriesOf(log, i)
  {
    WhereConcat(log, [x], (y: Entry) => y.incident == i);
    assert [x][1..] == [];
    assert EntriesOf([x], i) == if x.incident == i then [x] else [];
  }

  /** The repository's field updates for one attached event. */
  method UpdateRow(before: IncidentRow, e: CanonicalEvent, anomalies: seq<AnomalyRecord>) returns (row: IncidentRow)
    ensures row == Bumped(before, e, anomalies)
  {
    row := before;
    if e.timestamp < row.startedAt {
      row := row.(startedAt := e.timestamp);
    }
    if e.timestamp > row.lastEventAt {
      row := row.(lastEventAt := e.timestamp);
    }
    var actionable := Actionable(anomalies);
    if actionable != [] {
      row := row.(anomalyCount := row.anomalyCount + |actionable|);
      if e.entityId !in row.affected {
        row := row.(affected := row.affected + [e.entityId]);
      }
      var rounded := RoundTwo(TopScore(actionable));
      if rounded > row.severity {
        row := row.(severity := rounded);
      }
    }
  }

  ghost predicate RowOk(incidents: map<Id, IncidentRow>, openings: map<Id, CanonicalEvent>, log: seq<Entry>, i: Id)
    requires i in incidents && i in openings
  {
    incidents[i] == Recomputed(openings[i], EntriesOf(log, i), incidents[i].open)
  }

  /** Attached rows are exactly the attached evaluations, each attached pair is in the log once, and
      every incident row equals the recomputation from its log entries. */
  ghost predicate Consistent(incidents: map<Id, IncidentRow>, evaluations: map<(Id, Id), Evaluation>, attachments: set<(Id, Id)>,
                             openings: map<Id, CanonicalEvent>, log: seq<Entry>) {
    && openings.Keys == incidents.Keys
    && (forall p :: p in evaluations ==> p.0 in incidents)
    && (forall p :: p in attachments <==> p in evaluations && evaluations[p].attached)
    && Distinct(PairsOf(log)) && ToSet(PairsOf(log)) == attachments
    && (forall i {:trigger RowOk(incidents, openings, log, i)} :: i in incidents ==> RowOk(incidents, openings, log, i))
  }

  /** Aggregates do not depend on the status. */
  lemma StatusKeepsRows(before: map<Id, IncidentRow>, after: map<Id, IncidentRow>, openings: map<Id, CanonicalEvent>, log: seq<Entry>, i: Id, open: bool)
    requires i in before && after == before[i := before[i].(open := open)] && openings.Keys == before.Keys
    requires forall j {:trigger RowOk(before, openings, log, j)} :: j in before ==> RowOk(before, openings, log, j)
    ensures forall j {:trigger RowOk(after, openings, log, j)} :: j in after ==> RowOk(after, openings, log, j)
  {
    forall j | j in after ensures RowOk(after, openings, log, j) {
      assert RowOk(before, openings, log, j);
    }
  }

  lemma LogGrows(log: seq<Entry>, x: Entry, attachments: set<(Id, Id)>)
    requires Distinct(PairsOf(log)) && ToSet(PairsOf(log)) == attachments && (x.incident, x.event.id) !in attachments
    ensures Distinct(PairsOf(log + [x])) && ToSet(PairsOf(log + [x])) == attachments + {(x.incident, x.event.id)}
  {
    assert PairsOf(log + [x]) == PairsOf(log) + [(x.incident, x.event.id)];
    DistinctAppends(PairsOf(log), (x.incident, x.event.id));
    ToSetAppends(PairsOf(log), (x.incident, x.event.id));
  }

  lemma RowFollows(before: map<Id, IncidentRow>, openings: map<Id, CanonicalEvent>, log: seq<Entry>, x: Entry, after: map<Id, IncidentRow>, i: Id)
    requires i in before && i in openings && x.incident in before && RowOk(before, openings, log, i)
    requires after == before[x.incident := Bumped(before[x.incident], x.event, x.anomalies)]
    ensures RowOk(after, openings, log + [x], i)
  {
    EntriesAppend(log, x, i);
    if i == x.incident {
      BumpedIsRecomputed(openings[i], EntriesOf(log, i), before[i].open, x);
    }
  }

  /** Recording an attachment keeps the tables consistent. */
  lemma AttachmentRecorded(incidents: map<Id, IncidentRow>, evaluations: map<(Id, Id), Evaluation>, attachments: set<(Id, Id)>,
                           openings: map<Id, CanonicalEvent>, log: seq<Entry>, x: Entry, v: Evaluation)
    requires Consistent(incidents, evaluations, attachments, openings, log)
    requires x.incident in incidents && (x.incident, x.event.id) !in evaluations && v.attached
    ensures Consistent(incidents[x.incident := Bumped(incidents[x.incident], x.event, x.anomalies)],
                       evaluations[(x.incident, x.event.id) := v], attachments + {(x.incident, x.event.id)}, openings, log + [x])
  {
    var after := incidents[x.incident := Bumped(incidents[x.incident], x.event, x.anomalies)];
    LogGrows(log, x, attachments);
    forall i | i in after ensures RowOk(after, openings, log + [x], i) {
      assert RowOk(incidents, openings, log, i);
      RowFollows(incidents, openings, log, x, after, i);
    }
  }

  /** Opening an incident keeps the tables consistent. */
  lemma OpeningRecorded(incidents: map<Id, IncidentRow>, evaluations: map<(Id, Id), Evaluation>, attachments: set<(Id, Id)>,
                        openings: map<Id, CanonicalEvent>, log: seq<Entry>, i: Id, e: CanonicalEvent)
    requires Consistent(incidents, evaluations, attachments, openings, log) && i !in incidents
    ensures Consistent(incidents[i := Opened(e)], evaluations, attachments, openings[i := e], log)
  {
    var after := incidents[i := Opened(e)];
    forall j | j in after ensures RowOk(after, openings[i := e], log, j) {
      if j != i {
        assert RowOk(incidents, openings, log, j);
      } else {
        forall x | x in log ensures x.incident != i {
          var k :| 0 <= k < |log| && log[k] == x;
          assert PairsOf(log)[k] in ToSet(PairsOf(log));
        }
        WhereNone(log, (x: Entry) => x.incident == i);
        OpenedIsRecomputed(e);
      }
    }
  }

  /** The row an incident is created with. */
  function Opened(e: CanonicalEvent): IncidentRow {
    IncidentRow(e.entityId, e.timestamp, e.timestamp, 0.0, 0, [e.entityId], true)
  }

  lemma OpenedIsRecomputed(e: CanonicalEvent)
    ensures Opened(e) == Recomputed(e, [], true)
  {
    var touched := Touched([]);
    assert [e.entityId] + touched == [e.entityId] && [e.entityId][..0] == [];
    assert Dedupe([e.entityId]) == [e.entityId];
    assert AllActionable([]) == [] && RoundTwo(0.0) == 0.0;
  }

  // ---------------------------------------------------------------- context and lookback

  /** The attached events of an incident, in time order. */
  function AttachedEvents(table: seq<CanonicalEvent>, attachments: set<(Id, Id)>, i: Id): seq<CanonicalEvent> {
    SortBy(Where(table, (e: CanonicalEvent) => (i, e.id) in attachments), EarlierEvent)
  }

  function FirstTrace(events: seq<CanonicalEvent>): Option<string> {
    if events == [] then None
    else if events[0].traceId.Some? && events[0].traceId.value != "" then events[0].traceId
    else FirstTrace(events[1..])
  }

  /** The first event of a known family, with that family. */
  function FirstFamily(k: Knowledge, events: seq<CanonicalEvent>): Option<(CanonicalEvent, string)> {
    if events == [] then None
    else if k.families(events[0].eventType) != [] then Some((events[0], k.families(events[0].eventType)[0]))
    else FirstFamily(k, events[1..])
  }

  function ContextFor(k: Knowledge, row: IncidentRow, events: seq<CanonicalEvent>): Context {
    match FirstFamily(k, events)
    case None => Context(None, FirstTrace(events), row.startedAt)
    case Some((e, family)) => Context(Some(family), FirstTrace(events), e.timestamp)
  }

  function TargetOf(row: IncidentRow): Target {
    Target(row.primary, row.startedAt, row.lastEventAt)
  }

  /** What the manager reads besides its own tables: the accepted events and their anomalies, the known
      entities, the catalogue and the settings. */
  datatype World = World(table: seq<CanonicalEvent>, anomaliesOf: Id -> seq<AnomalyRecord>, entities: set<Node>, k: Knowledge, s: Settings)

  /** The accepted events of the lookback window, in time order; the end is inclusive. */
  function Window(w: World, e: CanonicalEvent): seq<CanonicalEvent> {
    SortBy(Where(w.table, (x: CanonicalEvent) => e.timestamp - w.s.lookback <= x.timestamp <= e.timestamp), EarlierEvent)
  }

  datatype NormalKey = NormalKey(entity: Node, signal: Option<string>, rule: string)

  function KeyFor(x: CanonicalEvent, m: RuleMatch): NormalKey {
    NormalKey(x.entityId, x.signalName, m.rule)
  }

  /** An event without anomalies that some evidence rule of the context matches under this key. */
  ghost predicate NormalFor(w: World, c: Context, e: CanonicalEvent, x: CanonicalEvent, key: NormalKey) {
    && x.id != e.id && w.anomaliesOf(x.id) == []
    && exists m :: m in w.k.rules(x, c.family, c.openingAt) && KeyFor(x, m) == key
  }

  /** Position `m` holds the normal event to keep for the key among the first `n`: one with the latest
      time, the first of those. */
  ghost predicate Picked(w: World, c: Context, e: CanonicalEvent, window: seq<CanonicalEvent>, n: nat, key: NormalKey, m: nat)
    requires n <= |window|
  {
    && m < n && NormalFor(w, c, e, window[m], key)
    && forall j :: 0 <= j < n && NormalFor(w, c, e, window[j], key) ==>
         window[j].timestamp < window[m].timestamp || (window[j].timestamp == window[m].timestamp && m <= j)
  }

  ghost predicate PickedFrom(w: World, c: Context, e: CanonicalEvent, window: seq<CanonicalEvent>, n: nat, latest: map<NormalKey, CanonicalEvent>, key: NormalKey, m: nat)
    requires n <= |window|
  {
    Picked(w, c, e, window, n, key, m) && key in latest && latest[key] == window[m]
  }

  /** `latest` holds, for every key with a normal event among the first `n` of the window, the one to
      keep; `at` says where. */
  ghost predicate LatestNormal(w: World, c: Context, e: CanonicalEvent, window: seq<CanonicalEvent>, n: nat,
                               latest: map<NormalKey, CanonicalEvent>, at: map<NormalKey, nat>)
    requires n <= |window|
  {
    && latest.Keys == at.Keys && (forall key :: key in at ==> PickedFrom(w, c, e, window, n, latest, key, at[key]))
    && (forall j, key :: 0 <= j < n && NormalFor(w, c, e, window[j], key) ==> key in latest)
  }

  ghost predicate KeepsLatest(w: World, c: Context, e: CanonicalEvent, window: seq<CanonicalEvent>, n: nat, latest: map<NormalKey, CanonicalEvent>)
    requires n <= |window|
  {
    exists at :: LatestNormal(w, c, e, window, n, latest, at)
  }

  ghost predicate Keyed(x: CanonicalEvent, matches: seq<RuleMatch>, key: NormalKey) {
    exists m :: m in matches && KeyFor(x, m) == key
  }

  /** The dictionary update for the rule matches of one normal event. */
  method NoteNormal(w: World, c: Context, e: CanonicalEvent, window: seq<CanonicalEvent>, n: nat, before: map<NormalKey, CanonicalEvent>,
                    ghost placed: map<NormalKey, nat>)
    returns (latest: map<NormalKey, CanonicalEvent>)
    requires n < |window| && window[n].id != e.id && w.anomaliesOf(window[n].id) == [] && LatestNormal(w, c, e, window, n, before, placed)
    ensures KeepsLatest(w, c, e, window, n + 1, latest)
  {
    var x := window[n];
    var matches := w.k.rules(x, c.family, c.openingAt);
    latest := before;
    ghost var at: map<NormalKey, nat> := placed;
    for j := 0 to |matches|
      invariant Noting(w, c, e, window, n, matches[..j], latest, at)
    {
      var key := KeyFor(x, matches[j]);
      NotedNext(w, c, e, window, n, matches, j, latest, at);
      if key !in latest || x.timestamp > latest[key].timestamp {
        latest, at := latest[key := x], at[key := n];
      }
    }
    assert matches[..|matches|] == matches;
    NotedAll(w, c, e, window, n, latest, at);
  }

  /** Midway through the matches of event `n`: the keys met so far take it into account. */
  ghost predicate Noting(w: World, c: Context, e: CanonicalEvent, window: seq<CanonicalEvent>, n: nat, met: seq<RuleMatch>,
                         latest: map<NormalKey, CanonicalEvent>, at: map<NormalKey, nat>)
    requires n < |window|
  {
    && latest.Keys == at.Keys
    && (forall key :: key in at ==> PickedFrom(w, c, e, window, if Keyed(window[n], met, key) then n + 1 else n, latest, key, at[key]))
    && (forall j, key :: 0 <= j < n && NormalFor(w, c, e, window[j], key) ==> key in latest)
    && (forall m :: m in met ==> KeyFor(window[n], m) in latest)
  }

  /** The event to keep once event `n` is taken into account. */
  lemma PickedNext(w: World, c: Context, e: CanonicalEvent, window: seq<CanonicalEvent>, n: nat, key: NormalKey, m: Option<nat>)
    requires n < |window| && NormalFor(w, c, e, window[n], key)
    requires m.Some? ==> m.value <= n && (Picked(w, c, e, window, n, key, m.value) || Picked(w, c, e, window, n + 1, key, m.value))
    requires m.None? ==> forall j :: 0 <= j < n ==> !NormalFor(w, c, e, window[j], key)
    ensures Picked(w, c, e, window, n + 1, key, if m.None? || window[n].timestamp > window[m.value].timestamp then n else m.value)
  {
  }

  lemma NotedNext(w: World, c: Context, e: CanonicalEvent, window: seq<CanonicalEvent>, n: nat, matches: seq<RuleMatch>, j: nat,
                  latest: map<NormalKey, CanonicalEvent>, at: map<NormalKey, nat>)
    requires n < |window| && j < |matches| && matches == w.k.rules(window[n], c.family, c.openingAt)
    requires window[n].id != e.id && w.anomaliesOf(window[n].id) == [] && Noting(w, c, e, window, n, matches[..j], latest, at)
    ensures var x := window[n];
            var key := KeyFor(x, matches[j]);
            if key !in latest || x.timestamp > latest[key].timestamp
            then Noting(w, c, e, window, n, matches[..j + 1], latest[key := x], at[key := n])
            else Noting(w, c, e, window, n, matches[..j + 1], latest, at)
  {
    var x := window[n];
    var key := KeyFor(x, matches[j]);
    assert NormalFor(w, c, e, x, key) by {
      assert matches[j] in matches;
    }
    PickedNext(w, c, e, window, n, key, if key in at then Some(at[key]) else None);
    if key !in latest || x.timestamp > latest[key].timestamp {
      NotedWith(w, c, e, window, n, matches, j, key, n, latest, at, latest[key := x], at[key := n]);
    } else {
      NotedWith(w, c, e, window, n, matches, j, key, at[key], latest, at, latest, at);
    }
  }

  lemma NotedWith(w: World, c: Context, e: CanonicalEvent, window: seq<CanonicalEvent>, n: nat, matches: seq<RuleMatch>, j: nat, key: NormalKey, m: nat,
                  latest: map<NormalKey, CanonicalEvent>, at: map<NormalKey, nat>, latest': map<NormalKey, CanonicalEvent>, at': map<NormalKey, nat>)
    requires n < |window| && j < |matches| && key == KeyFor(window[n], matches[j]) && Noting(w, c, e, window, n, matches[..j], latest, at)
    requires Picked(w, c, e, window, n + 1, key, m) && latest' == latest[key := window[m]] && at' == at[key := m]
    ensures Noting(w, c, e, window, n, matches[..j + 1], latest', at')
  {
    assert matches[..j + 1] == matches[..j] + [matches[j]];
    forall k | k in at' ensures PickedFrom(w, c, e, window, if Keyed(window[n], matches[..j + 1], k) then n + 1 else n, latest', k, at'[k]) {
      KeyedNext(window[n], matches, j, k);
      assert k != key ==> PickedFrom(w, c, e, window, if Keyed(window[n], matches[..j], k) then n + 1 else n, latest, k, at[k]);
    }
  }

  lemma KeyedNext(x: CanonicalEvent, matches: seq<RuleMatch>, j: nat, key: NormalKey)
    requires j < |matches|
    ensures Keyed(x, matches[..j + 1], key) <==> key == KeyFor(x, matches[j]) || Keyed(x, matches[..j], key)
  {
    assert matches[..j + 1] == matches[..j] + [matches[j]];
    if Keyed(x, matches[..j], key) {
      var m :| m in matches[..j] && KeyFor(x, m) == key;
      assert m in matches[..j + 1];
    }
    if key == KeyFor(x, matches[j]) {
      assert matches[j] in matches[..j + 1];
    }
  }

  lemma NotedAll(w: World, c: Context, e: CanonicalEvent, window: seq<CanonicalEvent>, n: nat,
                 latest: map<NormalKey, CanonicalEvent>, at: map<NormalKey, nat>)
    requires n < |window| && Noting(w, c, e, window, n, w.k.rules(window[n], c.family, c.openingAt), latest, at)
    ensures LatestNormal(w, c, e, window, n + 1, latest, at)
  {
    var matches := w.k.rules(window[n], c.family, c.openingAt);
    forall key ensures NormalFor(w, c, e, window[n], key) ==> Keyed(window[n], matches, key) && key in latest {
    }
    forall key | key in at ensures PickedFrom(w, c, e, window, n + 1, latest, key, at[key]) {
    }
  }

  /** An event considered on opening, with the anomalies it will be evaluated with. */
  type Considered = (CanonicalEvent, seq<AnomalyRecord>)

  predicate ConsideredEarlier(a: Considered, b: Considered) {
    EarlierEvent(a.0, b.0)
  }

  /** What the lookback considers, in time order: every windowed event with anomalies, and for every key
      of a normal evidence rule a latest matching event; each with exactly its recorded anomalies. */
  ghost predicate LookbackAnswer(w: World, c: Context, e: CanonicalEvent, r: seq<Considered>) {
    var window := Window(w, e);
    && (forall x :: x in r ==> x.0 in window && x.0.id != e.id && x.1 == w.anomaliesOf(x.0.id))
    && (forall j :: 0 <= j < |window| && window[j].id != e.id && w.anomaliesOf(window[j].id) != [] ==>
          (window[j], w.anomaliesOf(window[j].id)) in r)
    && (exists latest, at :: LatestNormal(w, c, e, window, |window|, latest, at)
          && (forall key :: key in latest ==> (latest[key], []) in r)
          && (forall x :: x in r && x.1 == [] ==> x.0 in latest.Values))
    && (IdsIdentify(w.table) ==> Ordered(r, ConsideredEarlier))
  }

  method ValuesOf(latest: map<NormalKey, CanonicalEvent>) returns (r: seq<Considered>)
    ensures forall x :: x in r <==> x.1 == [] && x.0 in latest.Values
  {
    r := [];
    var pending := latest.Keys;
    while pending != {}
      invariant pending <= latest.Keys
      invariant forall x :: x in r <==> x.1 == [] && exists key :: key in latest.Keys - pending && latest[key] == x.0
      decreases pending
    {
      var key :| key in pending;
      pending := pending - {key};
      r := r + [(latest[key], [])];
    }
  }

  /** The anomalous ones among the first `n` events of the window. */
  ghost predicate AnomalousUpTo(w: World, e: CanonicalEvent, window: seq<CanonicalEvent>, n: nat, anomalous: seq<Considered>)
    requires n <= |window|
  {
    && (forall x :: x in anomalous ==> x.0 in window && x.0.id != e.id && x.1 == w.anomaliesOf(x.0.id) != [])
    && (forall j :: 0 <= j < n && window[j].id != e.id && w.anomaliesOf(window[j].id) != [] ==>
          (window[j], w.anomaliesOf(window[j].id)) in anomalous)
  }

  /** An event that is the opening one or has anomalies is no normal evidence. */
  lemma NotNormal(w: World, c: Context, e: CanonicalEvent, window: seq<CanonicalEvent>, n: nat, latest: map<NormalKey, CanonicalEvent>, at: map<NormalKey, nat>)
    requires n < |window| && LatestNormal(w, c, e, window, n, latest, at) && (window[n].id == e.id || w.anomaliesOf(window[n].id) != [])
    ensures LatestNormal(w, c, e, window, n + 1, latest, at)
  {
  }

  /** One pass over the window: the anomalous events, and the normal one to keep for each rule key. */
  method Classify(w: World, c: Context, e: CanonicalEvent, window: seq<CanonicalEvent>)
    returns (anomalous: seq<Considered>, latest: map<NormalKey, CanonicalEvent>, ghost at: map<NormalKey, nat>)
    ensures LatestNormal(w, c, e, window, |window|, latest, at) && AnomalousUpTo(w, e, window, |window|, anomalous)
  {
    anomalous, latest, at := [], map[], map[];
    for n := 0 to |window|
      invariant LatestNormal(w, c, e, window, n, latest, at)
      invariant AnomalousUpTo(w, e, window, n, anomalous)
    {
      var x := window[n];
      if x.id == e.id {
        NotNormal(w, c, e, window, n, latest, at);
        continue;
      }
      if w.anomaliesOf(x.id) != [] {
        NotNormal(w, c, e, window, n, latest, at);
        anomalous := anomalous + [(x, w.anomaliesOf(x.id))];
        continue;
      }
      latest := NoteNormal(w, c, e, window, n, latest, at);
      at :| LatestNormal(w, c, e, window, n + 1, latest, at);
    }
  }

  method LookbackCandidates(w: World, c: Context, e: CanonicalEvent) returns (r: seq<Considered>)
    ensures LookbackAnswer(w, c, e, r)
  {
    var anomalous, latest;
    ghost var at;
    anomalous, latest, at := Classify(w, c, e, Window(w, e));
    var normal := ValuesOf(latest);
    r := SortBy(anomalous + normal, ConsideredEarlier);
    LookbackComplete(w, c, e, anomalous, normal, latest, at);
  }

  lemma LookbackComplete(w: World, c: Context, e: CanonicalEvent, anomalous: seq<Considered>, normal: seq<Considered>,
                         latest: map<NormalKey, CanonicalEvent>, at: map<NormalKey, nat>)
    requires LatestNormal(w, c, e, Window(w, e), |Window(w, e)|, latest, at)
    requires forall x :: x in normal <==> x.1 == [] && x.0 in latest.Values
    requires AnomalousUpTo(w, e, Window(w, e), |Window(w, e)|, anomalous)
    ensures LookbackAnswer(w, c, e, SortBy(anomalous + normal, ConsideredEarlier))
  {
    var items := anomalous + normal;
    forall x ensures x in SortBy(items, ConsideredEarlier) <==> x in anomalous || x in normal {
      SortKeepsMembers(items, ConsideredEarlier, x);
    }
    forall x | x in normal ensures Recorded(w, e, x) {
      NormalIsRecorded(w, c, e, latest, at, x);
    }
    if IdsIdentify(w.table) {
      ConsideredTotal(w, e, items);
      SortByOrders(items, ConsideredEarlier);
    }
    LookbackAnswered(w, c, e, anomalous, normal, latest, at, SortBy(items, ConsideredEarlier));
  }

  lemma NormalIsRecorded(w: World, c: Context, e: CanonicalEvent, latest: map<NormalKey, CanonicalEvent>, at: map<NormalKey, nat>, x: Considered)
    requires LatestNormal(w, c, e, Window(w, e), |Window(w, e)|, latest, at) && x.1 == [] && x.0 in latest.Values
    ensures Recorded(w, e, x)
  {
    var key :| key in latest && latest[key] == x.0;
    assert PickedFrom(w, c, e, Window(w, e), |Window(w, e)|, latest, key, at[key]);
  }

  lemma LookbackAnswered(w: World, c: Context, e: CanonicalEvent, anomalous: seq<Considered>, normal: seq<Considered>,
                         latest: map<NormalKey, CanonicalEvent>, at: map<NormalKey, nat>, r: seq<Considered>)
    requires LatestNormal(w, c, e, Window(w, e), |Window(w, e)|, latest, at) && AnomalousUpTo(w, e, Window(w, e), |Window(w, e)|, anomalous)
    requires forall x :: x in r <==> x in anomalous || x in normal
    requires forall x :: x in normal <==> x.1 == [] && x.0 in latest.Values
    requires forall x :: x in normal ==> Recorded(w, e, x)
    requires IdsIdentify(w.table) ==> Ordered(r, ConsideredEarlier)
    ensures LookbackAnswer(w, c, e, r)
  {
    forall key | key in latest ensures (latest[key], []) in r {
      assert latest[key] in latest.Values;
      assert (latest[key], []) in normal;
    }
  }

  /** A windowed event other than the opening one, with the anomalies recorded for it. */
  ghost predicate Recorded(w: World, e: CanonicalEvent, x: Considered) {
    x.0 in Window(w, e) && x.0.id != e.id && x.1 == w.anomaliesOf(x.0.id)
  }

  /** Windowed events with their recorded anomalies are told apart by their time stamps. */
  lemma ConsideredTotal(w: World, e: CanonicalEvent, items: seq<Considered>)
    requires IdsIdentify(w.table) && forall x :: x in items ==> Recorded(w, e, x)
    ensures TotalOn(items, ConsideredEarlier)
  {
    StampLessIsTotal();
    forall x, y | x in items && y in items ensures x == y || ConsideredEarlier(x, y) || ConsideredEarlier(y, x) {
      InTable(w, e, x.0);
      InTable(w, e, y.0);
      if Stamp(x.0) == Stamp(y.0) {
        var i :| 0 <= i < |w.table| && w.table[i] == x.0;
        var j :| 0 <= j < |w.table| && w.table[j] == y.0;
      }
    }
  }

  lemma InTable(w: World, e: CanonicalEvent, x: CanonicalEvent)
    requires x in Window(w, e)
    ensures x in w.table
  {
    var recent := (y: CanonicalEvent) => e.timestamp - w.s.lookback <= y.timestamp <= e.timestamp;
    SortKeepsMembers(Where(w.table, recent), EarlierEvent, x);
    WhereMembers(w.table, recent, x);
  }

  /** The anomalies that are about this event. */
  function Own(anomalies: seq<AnomalyRecord>, e: CanonicalEvent): seq<AnomalyRecord> {
    Where(anomalies, (a: AnomalyRecord) => a.eventId == e.id)
  }

  /** The anomalies that may open an incident: above the threshold, eligible and not context only. */
  function Opening(s: Settings, anomalies: seq<AnomalyRecord>): seq<AnomalyRecord> {
    Where(anomalies, (a: AnomalyRecord) => a.score > s.openThreshold && a.canOpenIncident && !a.contextOnly)
  }

  predicate Better(incidents: map<Id, IncidentRow>, ids: seq<Id>, decisions: seq<Evaluation>, a: int, b: int)
    requires 0 <= a < |ids| == |decisions| && 0 <= b < |ids| && ids[a] in incidents && ids[b] in incidents
  {
    decisions[a].score > decisions[b].score
    || (decisions[a].score == decisions[b].score && incidents[ids[a]].lastEventAt > incidents[ids[b]].lastEventAt)
  }

  ghost predicate BestAt(incidents: map<Id, IncidentRow>, ids: seq<Id>, decisions: seq<Evaluation>, n: int)
    requires 0 <= n < |ids| == |decisions| && forall i :: i in ids ==> i in incidents
  {
    forall j :: 0 <= j < |ids| && decisions[j].attached ==> NotAfter(incidents, ids, decisions, n, j)
  }

  /** The `n`-th is no worse than the `j`-th, and better when it is listed later. */
  predicate NotAfter(incidents: map<Id, IncidentRow>, ids: seq<Id>, decisions: seq<Evaluation>, n: int, j: int)
    requires 0 <= n < |ids| == |decisions| && 0 <= j < |ids| && forall i :: i in ids ==> i in incidents
  {
    !Better(incidents, ids, decisions, j, n) && (j < n ==> Better(incidents, ids, decisions, n, j))
  }

  function StartOf(incidents: map<Id, IncidentRow>, i: Id): int {
    if i in incidents then incidents[i].startedAt else 0
  }

  /** Listed newest first; the query leaves the order of incidents with one start to the database, the
      model takes their ids. */
  function ListedBefore(incidents: map<Id, IncidentRow>): (Id, Id) -> bool {
    (i, j) => StartOf(incidents, i) > StartOf(incidents, j) || (StartOf(incidents, i) == StartOf(incidents, j) && StringLess(i, j))
  }

  ghost predicate NewestFirst(incidents: map<Id, IncidentRow>, ids: seq<Id>) {
    forall m, n :: 0 <= m < n < |ids| ==> StartOf(incidents, ids[m]) >= StartOf(incidents, ids[n])
  }

  lemma SortedNewestFirst(incidents: map<Id, IncidentRow>, ids: seq<Id>)
    requires Distinct(ids)
    ensures var r := SortBy(ids, ListedBefore(incidents));
            NewestFirst(incidents, r) && Distinct(r) && forall i :: i in r <==> i in ids
  {
    var before := ListedBefore(incidents);
    StringLessIsTotal();
    SortByOrders(ids, before);
    SortKeepsDistinct(ids, before);
    var r := SortBy(ids, before);
    forall m, n | 0 <= m < n < |r| ensures StartOf(incidents, r[m]) >= StartOf(incidents, r[n]) {
      OrderedPairs(r, before, m, n);
    }
    forall i ensures i in r <==> i in ids {
      SortKeepsMembers(ids, before, i);
    }
  }

  /** The evaluation of an event against an incident; one without a row attaches nothing. */
  type Scores = Id -> Evaluation

  /** The evaluations of an event against the incidents as they stand. */
  function LiveScores(w: World, d: Desk, e: CanonicalEvent, anomalies: seq<AnomalyRecord>): Scores {
    i =>
      if i !in d.incidents then Evaluation(false, 0, [])
      else Assess(w.s, w.k, TargetOf(d.incidents[i]), ContextFor(w.k, d.incidents[i], AttachedEvents(w.table, d.attachments, i)), e, anomalies, false)
  }

  predicate IsOpen(d: Desk, i: Id) {
    i in d.incidents && d.incidents[i].open
  }

  /** An open incident whose score attaches the event. */
  predicate Attachable(d: Desk, scores: Scores, i: Id) {
    IsOpen(d, i) && scores(i).attached
  }

  /** No attachable incident scores higher, or as high with a later last event, or both alike with a later
      start. */
  ghost predicate BestMatch(d: Desk, scores: Scores, i: Id) {
    && Attachable(d, scores, i)
    && forall j :: Attachable(d, scores, j) ==>
         scores(j).score < scores(i).score
         || (scores(j).score == scores(i).score && !Fresher(d.incidents[j], d.incidents[i]))
  }

  predicate Fresher(a: IncidentRow, b: IncidentRow) {
    a.lastEventAt > b.lastEventAt || (a.lastEventAt == b.lastEventAt && a.startedAt > b.startedAt)
  }

  /** The decision stored: an attached one for another incident than the selected one is excluded. */
  function Settled(selected: Option<Id>, i: Id, v: Evaluation): Evaluation {
    if selected.Some? && i != selected.value && v.attached then Evaluation(false, v.score, Dedupe(v.reasons + [BetterIncidentMatch])) else v
  }

  // ---------------------------------------------------------------- the manager's tables as a value

  /** What the manager keeps: the incident rows, the decisions and the attached pairs. */
  datatype Desk = Desk(incidents: map<Id, IncidentRow>, evaluations: map<(Id, Id), Evaluation>, attachments: set<(Id, Id)>)

  /** What attaching an event does to a row. */
  type Bump = IncidentRow -> IncidentRow

  function BumpBy(e: CanonicalEvent, anomalies: seq<AnomalyRecord>): Bump {
    row => Bumped(row, e, anomalies)
  }

  /** The first decision for a pair is kept; an attachment changes the row. */
  function DecidedBy(d: Desk, i: Id, event: Id, bump: Bump, v: Evaluation): Desk {
    if (i, event) in d.evaluations || i !in d.incidents then d
    else if v.attached then Desk(d.incidents[i := bump(d.incidents[i])], d.evaluations[(i, event) := v], d.attachments + {(i, event)})
    else d.(evaluations := d.evaluations[(i, event) := v])
  }

  function Decided(d: Desk, i: Id, e: CanonicalEvent, anomalies: seq<AnomalyRecord>, v: Evaluation): Desk {
    DecidedBy(d, i, e.id, BumpBy(e, anomalies), v)
  }

  /** The first `n` decisions of one event, stored in order. */
  function SettledAll(d: Desk, ids: seq<Id>, decisions: seq<Evaluation>, selected: Option<Id>, event: Id, bump: Bump, n: nat): Desk
    requires n <= |ids| == |decisions|
  {
    if n == 0 then d
    else DecidedBy(SettledAll(d, ids, decisions, selected, event, bump, n - 1), ids[n - 1], event, bump, Settled(selected, ids[n - 1], decisions[n - 1]))
  }

  /** The evaluation of a lookback candidate against the incident's row. */
  type Recall = (IncidentRow, Considered) -> Evaluation

  function RecallScore(w: World, context: Context): Recall {
    (row: IncidentRow, x: Considered) => Assess(w.s, w.k, TargetOf(row), context, x.0, x.1, true)
  }

  /** The lookback: each candidate is scored against the row as the earlier ones left it. */
  function LookedBack(recall: Recall, d: Desk, i: Id, considered: seq<Considered>): Desk {
    if considered == [] then d
    else
      var before, x := LookedBack(recall, d, i, considered[..|considered| - 1]), considered[|considered| - 1];
      if i !in before.incidents then before else Decided(before, i, x.0, x.1, recall(before.incidents[i], x))
  }

  /** The evaluation of the event that opens an incident. */
  function OpeningScore(w: World, e: CanonicalEvent, opening: seq<AnomalyRecord>): Evaluation {
    Assess(w.s, w.k, OpeningTarget(e), OpeningContext(w.k, e), e, opening, false)
  }

  /** A new incident with its opening event decided. */
  function OpenedWith(d: Desk, i: Id, e: CanonicalEvent, opening: seq<AnomalyRecord>, v: Evaluation): Desk {
    Decided(d.(incidents := d.incidents[i := Opened(e)]), i, e, opening, v)
  }

  class Manager {
    var incidents: map<Id, IncidentRow>
    var evaluations: map<(Id, Id), Evaluation>
    var attachments: set<(Id, Id)>
    ghost var openings: map<Id, CanonicalEvent>
    ghost var log: seq<Entry>

    ghost predicate Valid()
      reads this
    {
      Consistent(incidents, evaluations, attachments, openings, log)
    }

    ghost function State(): Desk
      reads this
    {
      Desk(incidents, evaluations, attachments)
    }

    constructor ()
      ensures Valid() && incidents == map[] && log == []
    {
      incidents, evaluations, attachments, openings, log := map[], map[], {}, map[], [];
    }

    /** A publication or a review closes or reopens the incident: the aggregates stay those of its attached
        events. */
    method NoteStatus(i: Id, open: bool)
      requires Valid() && i in incidents
      modifies this`incidents
      ensures Valid() && incidents == old(incidents)[i := old(incidents)[i].(open := open)]
    {
      ghost var before := incidents;
      incidents := incidents[i := incidents[i].(open := open)];
      StatusKeepsRows(before, incidents, openings, log, i, open);
    }

    /** Record a decision unless the pair was decided before; an attachment updates the aggregates. */
    method PersistEvaluation(i: Id, e: CanonicalEvent, anomalies: seq<AnomalyRecord>, evaluation: Evaluation)
      requires Valid() && i in incidents
      modifies this
      ensures Valid() && openings == old(openings) && incidents.Keys == old(incidents).Keys
      ensures State() == Decided(old(State()), i, e, anomalies, evaluation)
      ensures log == old(log) + (if evaluation.attached && (i, e.id) !in old(evaluations) then [Entry(i, e, anomalies)] else [])
    {
      if (i, e.id) in evaluations {
        return;
      }
      if evaluation.attached {
        AttachmentRecorded(incidents, evaluations, attachments, openings, log, Entry(i, e, anomalies), evaluation);
      }
      evaluations := evaluations[(i, e.id) := evaluation];
      if evaluation.attached {
        attachments := attachments + {(i, e.id)};
        var row := UpdateRow(incidents[i], e, anomalies);
        incidents := incidents[i := row];
        log := log + [Entry(i, e, anomalies)];
      }
    }

    /** Create the incident row. */
    method CreateIncident(i: Id, e: CanonicalEvent)
      requires Valid() && i !in incidents
      modifies this
      ensures Valid() && incidents == old(incidents)[i := Opened(e)] && openings == old(openings)[i := e]
      ensures evaluations == old(evaluations) && attachments == old(attachments) && log == old(log)
    {
      OpeningRecorded(incidents, evaluations, attachments, openings, log, i, e);
      incidents, openings := incidents[i := Opened(e)], openings[i := e];
    }

    /** The open incidents, newest first. */
    method ListOpen() returns (ids: seq<Id>)
      ensures Distinct(ids) && NewestFirst(incidents, ids) && forall i :: i in ids <==> i in incidents && incidents[i].open
    {
      ids := [];
      var pending := incidents.Keys;
      while pending != {}
        invariant pending <= incidents.Keys && Distinct(ids)
        invariant forall i :: i in ids <==> i in incidents && i !in pending && incidents[i].open
        decreases pending
      {
        var i :| i in pending;
        pending := pending - {i};
        if incidents[i].open {
          DistinctAppends(ids, i);
          ids := ids + [i];
        }
      }
      SortedNewestFirst(incidents, ids);
      ids := SortBy(ids, ListedBefore(incidents));
    }

    /** Score the event against one incident. */
    method ScoreLive(w: World, i: Id, e: CanonicalEvent, anomalies: seq<AnomalyRecord>) returns (v: Evaluation)
      requires i in incidents
      ensures v == LiveScores(w, State(), e, anomalies)(i)
    {
      v := ScoreAttachment(w.s, w.k, TargetOf(incidents[i]), ContextFor(w.k, incidents[i], AttachedEvents(w.table, attachments, i)), e, anomalies, false);
    }

    /** Score the event against every open incident. */
    method Consider(w: World, e: CanonicalEvent, anomalies: seq<AnomalyRecord>, ids: seq<Id>) returns (r: seq<Evaluation>)
      requires forall i :: i in ids ==> i in incidents
      ensures r == Mapped(ids, LiveScores(w, State(), e, anomalies))
    {
      r := [];
      for n := 0 to |ids|
        invariant r == Mapped(ids[..n], LiveScores(w, State(), e, anomalies))
      {
        var v := ScoreLive(w, ids[n], e, anomalies);
        MappedGrows(ids, n, LiveScores(w, State(), e, anomalies));
        r := r + [v];
      }
      assert ids[..|ids|] == ids;
    }

    /** Persist one decision; an attached one for another incident than the selected one as excluded. */
    method PersistUnlessExcluded(i: Id, decision: Evaluation, selected: Option<Id>, e: CanonicalEvent, anomalies: seq<AnomalyRecord>)
      requires Valid() && i in incidents
      modifies this
      ensures Valid() && openings == old(openings) && incidents.Keys == old(incidents).Keys
      ensures State() == Decided(old(State()), i, e, anomalies, Settled(selected, i, decision))
    {
      var v := decision;
      if selected.Some? && i != selected.value && v.attached {
        v := Evaluation(false, v.score, Dedupe(v.reasons + [BetterIncidentMatch]));
      }
      PersistEvaluation(i, e, anomalies, v);
    }

    /** Persist one decision per listed incident. */
    method PersistAll(ids: seq<Id>, decisions: seq<Evaluation>, selected: Option<Id>, e: CanonicalEvent, anomalies: seq<AnomalyRecord>)
      requires Valid() && |ids| == |decisions| && forall i :: i in ids ==> i in incidents
      modifies this
      ensures Valid() && openings == old(openings)
      ensures State() == SettledAll(old(State()), ids, decisions, selected, e.id, BumpBy(e, anomalies), |ids|)
    {
      for n := 0 to |ids|
        invariant Valid() && openings == old(openings) && incidents.Keys == old(incidents).Keys
        invariant State() == SettledAll(old(State()), ids, decisions, selected, e.id, BumpBy(e, anomalies), n)
      {
        PersistUnlessExcluded(ids[n], decisions[n], selected, e, anomalies);
      }
    }

    /** The attachable incident with the highest score, the most recent one among equals. */
    method SelectBest(ids: seq<Id>, decisions: seq<Evaluation>) returns (best: Option<Id>)
      requires |ids| == |decisions| && forall i :: i in ids ==> i in incidents
      ensures best.None? <==> forall n :: 0 <= n < |ids| ==> !decisions[n].attached
      ensures best.Some? ==> exists n :: 0 <= n < |ids| && ids[n] == best.value && decisions[n].attached && BestAt(incidents, ids, decisions, n)
    {
      best := None;
      var at := 0;
      for n := 0 to |ids|
        invariant best.None? <==> forall j :: 0 <= j < n ==> !decisions[j].attached
        invariant best.Some? ==> 0 <= at < n && ids[at] == best.value && decisions[at].attached
        invariant best.Some? ==> forall j :: 0 <= j < n && decisions[j].attached ==> NotAfter(incidents, ids, decisions, at, j)
      {
        if decisions[n].attached && (best.None? || Better(incidents, ids, decisions, n, at)) {
          best, at := Some(ids[n]), n;
        }
      }
    }

    /** Decide the event for every open incident; at most the best match attaches it. */
    method Route(w: World, own: seq<AnomalyRecord>, e: CanonicalEvent) returns (best: Option<Id>)
      requires Valid()
      modifies this
      ensures Valid() && openings == old(openings)
      ensures Routed(LiveScores(w, old(State()), e, own), e.id, BumpBy(e, own), old(State()), State(), best)
    {
      var ids := ListOpen();
      var decisions := Consider(w, e, own, ids);
      best := SelectBest(ids, decisions);
      ghost var before, scores := State(), LiveScores(w, State(), e, own);
      PersistAll(ids, decisions, best, e, own);
      RoutedSoFar(before, scores, ids, decisions, best, e, own);
    }

    /** Attach an event to the best matching open incident, or open one when an eligible anomaly and a
        known entity allow, or record why not. */
    method ProcessAnomalies(w: World, anomalies: seq<AnomalyRecord>, e: CanonicalEvent, newId: Id)
      returns (r: Option<Id>, ghost routed: Desk)
      requires Valid() && newId !in incidents
      modifies this
      ensures Valid()
      ensures Processed(w, Own(anomalies, e), e, newId, old(State()), routed, State(), r)
    {
      var own := Own(anomalies, e);
      r := Route(w, own, e);
      routed := State();
      if r.Some? {
        return;
      }
      var opening := Opening(w.s, own);
      if opening == [] || e.entityId !in w.entities {
        return;
      }
      OpenIncident(w, newId, e, opening);
      r := Some(newId);
    }

    /** Create the incident and decide its opening event. */
    method OpenWith(w: World, i: Id, e: CanonicalEvent, opening: seq<AnomalyRecord>)
      requires Valid() && i !in incidents
      modifies this
      ensures Valid() && openings == old(openings)[i := e]
      ensures (i, e.id) !in old(evaluations) && State() == OpenedWith(old(State()), i, e, opening, OpeningScore(w, e, opening))
    {
      assert (i, e.id) !in evaluations;
      CreateIncident(i, e);
      var v := ScoreAttachment(w.s, w.k, TargetOf(incidents[i]), OpeningContext(w.k, e), e, opening, false);
      PersistEvaluation(i, e, opening, v);
    }

    /** Open an incident: its own event first, then the lookback, each decided at most once. */
    method OpenIncident(w: World, i: Id, e: CanonicalEvent, opening: seq<AnomalyRecord>)
      requires Valid() && i !in incidents
      modifies this
      ensures Valid() && openings == old(openings)[i := e]
      ensures OpenedFrom(w, old(State()), State(), i, e, opening)
    {
      OpenWith(w, i, e, opening);
      ghost var considered := Lookback(w, i, e, OpeningContext(w.k, e));
    }

    /** Score and decide one lookback candidate. */
    method DecideEarlier(w: World, i: Id, context: Context, x: Considered)
      requires Valid() && i in incidents
      modifies this
      ensures Valid() && openings == old(openings)
      ensures State() == Decided(old(State()), i, x.0, x.1, RecallScore(w, context)(old(incidents)[i], x))
    {
      var v := ScoreAttachment(w.s, w.k, TargetOf(incidents[i]), context, x.0, x.1, true);
      PersistEvaluation(i, x.0, x.1, v);
    }

    /** Decide every listed candidate for the incident. */
    method DecideAll(w: World, i: Id, context: Context, considered: seq<Considered>)
      requires Valid() && i in incidents
      modifies this
      ensures Valid() && openings == old(openings)
      ensures State() == LookedBack(RecallScore(w, context), old(State()), i, considered)
    {
      for n := 0 to |considered|
        invariant Valid() && openings == old(openings) && i in incidents
        invariant State() == LookedBack(RecallScore(w, context), old(State()), i, considered[..n])
      {
        assert considered[..n + 1][..n] == considered[..n];
        DecideEarlier(w, i, context, considered[n]);
      }
      assert considered[..|considered|] == considered;
    }

    /** Decide every lookback candidate for the new incident. */
    method Lookback(w: World, i: Id, e: CanonicalEvent, context: Context) returns (ghost considered: seq<Considered>)
      requires Valid() && i in incidents
      modifies this
      ensures Valid() && openings == old(openings)
      ensures LookbackAnswer(w, context, e, considered) && State() == LookedBack(RecallScore(w, context), old(State()), i, considered)
    {
      var candidates := LookbackCandidates(w, context, e);
      considered := candidates;
      DecideAll(w, i, context, candidates);
    }
  }

  // ---------------------------------------------------------------- what routing and opening do

  /** The keys of the decisions of one event. */
  ghost function DecisionsOf(ids: set<Id>, event: Id): set<(Id, Id)> {
    set i | i in ids :: (i, event)
  }

  ghost function OpenIds(d: Desk): set<Id> {
    set i | i in d.incidents && d.incidents[i].open
  }

  /** The decision attaches the event and was not there before. */
  predicate NewlyAttached(before: Desk, after: Desk, p: (Id, Id)) {
    p !in before.evaluations && p in after.evaluations && after.evaluations[p].attached
  }

  /** A row changes exactly when its incident newly attaches the event, and then by the bump. */
  ghost predicate RowMoved(event: Id, bump: Bump, before: Desk, after: Desk, i: Id)
    requires i in before.incidents && i in after.incidents
  {
    after.incidents[i] == if NewlyAttached(before, after, (i, event)) then bump(before.incidents[i]) else before.incidents[i]
  }

  /** Rows and attachments change by the new attached decisions and by nothing else. */
  ghost predicate Moved(event: Id, bump: Bump, before: Desk, after: Desk) {
    && after.incidents.Keys == before.incidents.Keys
    && (forall i :: i in before.incidents ==> RowMoved(event, bump, before, after, i))
    && (forall p :: p in after.attachments <==> p in before.attachments || NewlyAttached(before, after, p))
  }

  /** One event routed: the best match is chosen among the attachable incidents, every open incident not
      yet decided gets its decision, earlier decisions stand, and rows and attachments follow the new
      decisions. */
  ghost predicate Routed(scores: Scores, event: Id, bump: Bump, before: Desk, after: Desk, best: Option<Id>) {
    && (best.None? <==> forall i :: !Attachable(before, scores, i))
    && (best.Some? ==> BestMatch(before, scores, best.value))
    && Moved(event, bump, before, after) && Kept(before.evaluations, after.evaluations)
    && after.evaluations.Keys == before.evaluations.Keys + DecisionsOf(OpenIds(before), event)
    && forall i :: IsOpen(before, i) && (i, event) !in before.evaluations ==> after.evaluations[(i, event)] == Settled(best, i, scores(i))
  }

  /** One incident opened: the lookback after the opening decision. */
  ghost predicate OpenedFrom(w: World, before: Desk, after: Desk, i: Id, e: CanonicalEvent, opening: seq<AnomalyRecord>) {
    exists considered :: LookbackAnswer(w, OpeningContext(w.k, e), e, considered)
      && after == LookedBack(RecallScore(w, OpeningContext(w.k, e)), OpenedWith(before, i, e, opening, OpeningScore(w, e, opening)), i, considered)
  }

  /** One event processed: routed, and when nothing matched and an eligible anomaly and a known entity
      allow it, an incident opened. */
  ghost predicate Processed(w: World, own: seq<AnomalyRecord>, e: CanonicalEvent, newId: Id, before: Desk, routed: Desk, after: Desk, r: Option<Id>) {
    var opening := Opening(w.s, own);
    var scores := LiveScores(w, before, e, own);
    if (exists i :: Attachable(before, scores, i)) || opening == [] || e.entityId !in w.entities
    then Routed(scores, e.id, BumpBy(e, own), before, after, r) && after == routed
    else Routed(scores, e.id, BumpBy(e, own), before, routed, None) && OpenedFrom(w, routed, after, newId, e, opening) && r == Some(newId)
  }

  lemma SelectedIsBest(d: Desk, scores: Scores, ids: seq<Id>, decisions: seq<Evaluation>, best: Option<Id>)
    requires decisions == Mapped(ids, scores) && forall i :: i in ids <==> IsOpen(d, i)
    requires NewestFirst(d.incidents, ids) && forall i :: i in ids ==> i in d.incidents
    requires best.None? <==> forall n :: 0 <= n < |ids| ==> !decisions[n].attached
    requires best.Some? ==> exists n :: 0 <= n < |ids| && ids[n] == best.value && decisions[n].attached && BestAt(d.incidents, ids, decisions, n)
    ensures best.None? <==> forall i :: !Attachable(d, scores, i)
    ensures best.Some? ==> BestMatch(d, scores, best.value)
  {
    forall i | Attachable(d, scores, i) ensures best.Some? && exists n :: 0 <= n < |ids| && ids[n] == i && decisions[n].attached {
      var n :| 0 <= n < |ids| && ids[n] == i;
      assert decisions[n] == scores(i);
    }
    if best.Some? {
      var n :| 0 <= n < |ids| && ids[n] == best.value && decisions[n].attached && BestAt(d.incidents, ids, decisions, n);
      assert ids[n] in ids && Attachable(d, scores, best.value);
      forall j | Attachable(d, scores, j)
        ensures scores(j).score < scores(best.value).score
                || (scores(j).score == scores(best.value).score && !Fresher(d.incidents[j], d.incidents[best.value]))
      {
        var m :| 0 <= m < |ids| && ids[m] == j && decisions[m].attached;
        assert NotAfter(d.incidents, ids, decisions, n, m);
        assert m > n ==> StartOf(d.incidents, ids[n]) >= StartOf(d.incidents, ids[m]);
      }
    }
  }

  lemma MappedGrows(ids: seq<Id>, n: nat, f: Scores)
    requires n < |ids|
    ensures Mapped(ids[..n + 1], f) == Mapped(ids[..n], f) + [f(ids[n])]
  {
  }

  lemma RoutedSoFar(d: Desk, scores: Scores, ids: seq<Id>, decisions: seq<Evaluation>, best: Option<Id>, e: CanonicalEvent, anomalies: seq<AnomalyRecord>)
    requires decisions == Mapped(ids, scores) && Distinct(ids) && (forall i :: i in ids <==> IsOpen(d, i)) && forall i :: i in ids ==> i in d.incidents
    requires NewestFirst(d.incidents, ids)
    requires best.None? <==> forall n :: 0 <= n < |ids| ==> !decisions[n].attached
    requires best.Some? ==> exists n :: 0 <= n < |ids| && ids[n] == best.value && decisions[n].attached && BestAt(d.incidents, ids, decisions, n)
    ensures Routed(scores, e.id, BumpBy(e, anomalies), d, SettledAll(d, ids, decisions, best, e.id, BumpBy(e, anomalies), |ids|), best)
  {
    SelectedIsBest(d, scores, ids, decisions, best);
    SettledStores(d, ids, decisions, best, e.id, BumpBy(e, anomalies), |ids|);
    assert ids[..|ids|] == ids;
    SettledMoves(d, ids, decisions, best, e.id, BumpBy(e, anomalies), |ids|);
    PersistedIsRouted(scores, e.id, BumpBy(e, anomalies), d, SettledAll(d, ids, decisions, best, e.id, BumpBy(e, anomalies), |ids|), best, ids);
  }

  /** One decision. */
  lemma DecidedKeeps(d: Desk, i: Id, event: Id, bump: Bump, v: Evaluation)
    requires i in d.incidents
    ensures var after := DecidedBy(d, i, event, bump, v);
            && after.incidents.Keys == d.incidents.Keys && (forall j :: j in d.incidents && j != i ==> after.incidents[j] == d.incidents[j])
            && after.evaluations == if (i, event) in d.evaluations then d.evaluations else d.evaluations[(i, event) := v]
  {
  }

  /** One decision, as a move. */
  lemma DecidedMoves(s: Desk, i: Id, event: Id, bump: Bump, v: Evaluation)
    requires i in s.incidents
    ensures Moved(event, bump, s, DecidedBy(s, i, event, bump, v))
  {
  }

  /** Moves of one event compose when they decide different incidents. */
  lemma MovesChain(event: Id, bump: Bump, a: Desk, b: Desk, c: Desk, i: Id)
    requires Moved(event, bump, a, b) && Moved(event, bump, b, c)
    requires Kept(a.evaluations, b.evaluations) && Kept(b.evaluations, c.evaluations)
    requires (i, event) !in a.evaluations ==> (i, event) !in b.evaluations
    requires forall p :: p in c.evaluations && p !in b.evaluations ==> p == (i, event)
    ensures Moved(event, bump, a, c)
  {
    forall j | j in a.incidents ensures RowMoved(event, bump, a, c, j) {
      assert RowMoved(event, bump, a, b, j) && RowMoved(event, bump, b, c, j);
      assert j != i ==> ((j, event) in c.evaluations <==> (j, event) in b.evaluations);
    }
  }

  /** What deciding an event for some incidents does to the desk. */
  ghost predicate Settling(event: Id, bump: Bump, before: Desk, after: Desk, ids: set<Id>) {
    && Moved(event, bump, before, after) && Kept(before.evaluations, after.evaluations)
    && after.evaluations.Keys == before.evaluations.Keys + DecisionsOf(ids, event)
  }

  lemma NoneSettles(event: Id, bump: Bump, d: Desk)
    ensures Settling(event, bump, d, d, {})
  {
    assert DecisionsOf({}, event) == {};
  }

  /** One more incident. */
  lemma OneSettles(event: Id, bump: Bump, d: Desk, before: Desk, ids: set<Id>, i: Id, v: Evaluation)
    requires Settling(event, bump, d, before, ids) && i !in ids && i in d.incidents
    ensures Settling(event, bump, d, DecidedBy(before, i, event, bump, v), ids + {i})
  {
    var after := DecidedBy(before, i, event, bump, v);
    DecidedMoves(before, i, event, bump, v);
    DecidedKeeps(before, i, event, bump, v);
    assert (i, event) !in DecisionsOf(ids, event);
    MovesChain(event, bump, d, before, after, i);
    MoreDecisions(ids, i, event);
  }

  lemma MoreDecisions(ids: set<Id>, i: Id, event: Id)
    ensures DecisionsOf(ids + {i}, event) == DecisionsOf(ids, event) + {(i, event)}
  {
  }

  lemma {:induction false} SettledMoves(d: Desk, ids: seq<Id>, decisions: seq<Evaluation>, selected: Option<Id>, event: Id, bump: Bump, n: nat)
    requires n <= |ids| == |decisions| && Distinct(ids) && forall i :: i in ids ==> i in d.incidents
    ensures Settling(event, bump, d, SettledAll(d, ids, decisions, selected, event, bump, n), ToSet(ids[..n]))
  {
    if n == 0 {
      NoneSettles(event, bump, d);
    } else {
      SettledMoves(d, ids, decisions, selected, event, bump, n - 1);
      LaterId(ids, n - 1);
      OneSettles(event, bump, d, SettledAll(d, ids, decisions, selected, event, bump, n - 1), ToSet(ids[..n - 1]), ids[n - 1],
                 Settled(selected, ids[n - 1], decisions[n - 1]));
    }
  }

  /** The `m`-th id is none of the ones before it. */
  lemma LaterId(ids: seq<Id>, m: nat)
    requires Distinct(ids) && m < |ids|
    ensures ids[m] !in ToSet(ids[..m]) && ToSet(ids[..m + 1]) == ToSet(ids[..m]) + {ids[m]} && ids[m] in ids
  {
    assert ids[..m + 1] == ids[..m] + [ids[m]];
    ToSetAppends(ids[..m], ids[m]);
  }

  predicate StoredAs(d: Desk, p: (Id, Id), v: Evaluation) {
    p in d.evaluations && d.evaluations[p] == v
  }

  /** The first `n` decisions are stored, where the event was not decided before. */
  ghost predicate Stores(before: Desk, after: Desk, ids: seq<Id>, decisions: seq<Evaluation>, selected: Option<Id>, event: Id, n: nat)
    requires n <= |ids| == |decisions|
  {
    forall j :: 0 <= j < n && (ids[j], event) !in before.evaluations ==> StoredAs(after, (ids[j], event), Settled(selected, ids[j], decisions[j]))
  }

  lemma OneStored(d: Desk, before: Desk, ids: seq<Id>, decisions: seq<Evaluation>, selected: Option<Id>, event: Id, bump: Bump, m: nat)
    requires m < |ids| == |decisions| && Stores(d, before, ids, decisions, selected, event, m)
    requires ids[m] in before.incidents && ((ids[m], event) !in d.evaluations ==> (ids[m], event) !in before.evaluations)
    ensures Stores(d, DecidedBy(before, ids[m], event, bump, Settled(selected, ids[m], decisions[m])), ids, decisions, selected, event, m + 1)
  {
    var after := DecidedBy(before, ids[m], event, bump, Settled(selected, ids[m], decisions[m]));
    DecidedKeeps(before, ids[m], event, bump, Settled(selected, ids[m], decisions[m]));
    forall j | 0 <= j < m + 1 && (ids[j], event) !in d.evaluations ensures StoredAs(after, (ids[j], event), Settled(selected, ids[j], decisions[j])) {
      assert j < m ==> StoredAs(before, (ids[j], event), Settled(selected, ids[j], decisions[j]));
    }
  }

  lemma StillUndecided(event: Id, bump: Bump, d: Desk, before: Desk, ids: set<Id>, i: Id)
    requires Settling(event, bump, d, before, ids) && i !in ids && i in d.incidents
    ensures i in before.incidents && ((i, event) !in d.evaluations ==> (i, event) !in before.evaluations)
  {
    assert (i, event) !in DecisionsOf(ids, event);
  }

  lemma {:induction false} SettledStores(d: Desk, ids: seq<Id>, decisions: seq<Evaluation>, selected: Option<Id>, event: Id, bump: Bump, n: nat)
    requires n <= |ids| == |decisions| && Distinct(ids) && forall i :: i in ids ==> i in d.incidents
    ensures Stores(d, SettledAll(d, ids, decisions, selected, event, bump, n), ids, decisions, selected, event, n)
  {
    if n > 0 {
      var m := n - 1;
      SettledStores(d, ids, decisions, selected, event, bump, m);
      SettledMoves(d, ids, decisions, selected, event, bump, m);
      LaterId(ids, m);
      StillUndecided(event, bump, d, SettledAll(d, ids, decisions, selected, event, bump, m), ToSet(ids[..m]), ids[m]);
      OneStored(d, SettledAll(d, ids, decisions, selected, event, bump, m), ids, decisions, selected, event, bump, m);
    }
  }

  lemma PersistedIsRouted(scores: Scores, event: Id, bump: Bump, before: Desk, after: Desk, best: Option<Id>, ids: seq<Id>)
    requires best.None? <==> forall i :: !Attachable(before, scores, i)
    requires best.Some? ==> BestMatch(before, scores, best.value)
    requires (forall i :: i in ids <==> IsOpen(before, i)) && Settling(event, bump, before, after, ToSet(ids))
    requires Stores(before, after, ids, Mapped(ids, scores), best, event, |ids|)
    ensures Routed(scores, event, bump, before, after, best)
  {
    assert ToSet(ids) == OpenIds(before);
    forall i | IsOpen(before, i) && (i, event) !in before.evaluations ensures after.evaluations[(i, event)] == Settled(best, i, scores(i)) {
      var n :| 0 <= n < |ids| && ids[n] == i;
      assert StoredAs(after, (ids[n], event), Settled(best, ids[n], Mapped(ids, scores)[n]));
    }
  }

  /** A lookback keeps every earlier decision, decides every candidate and concerns one incident. */
  lemma {:induction false} LookbackKeeps(recall: Recall, d: Desk, i: Id, considered: seq<Considered>)
    requires i in d.incidents
    ensures var after := LookedBack(recall, d, i, considered);
            && Kept(d.evaluations, after.evaluations) && OnlyFor(d.evaluations, after.evaluations, i)
            && after.incidents.Keys == d.incidents.Keys
            && forall j :: 0 <= j < |considered| ==> (i, considered[j].0.id) in after.evaluations
  {
    if considered != [] {
      LookbackKeeps(recall, d, i, considered[..|considered| - 1]);
    }
  }

  /** In a new incident the opening event has its own score and every anomalous event of the window is
      decided, by the lookback or as the opening event itself. */
  lemma OpeningDecidesWindow(w: World, before: Desk, after: Desk, i: Id, e: CanonicalEvent, opening: seq<AnomalyRecord>)
    requires OpenedFrom(w, before, after, i, e, opening) && i !in before.incidents && (i, e.id) !in before.evaluations
    ensures Kept(before.evaluations, after.evaluations) && OnlyFor(before.evaluations, after.evaluations, i)
    ensures after.incidents.Keys == before.incidents.Keys + {i}
    ensures (i, e.id) in after.evaluations && after.evaluations[(i, e.id)] == OpeningScore(w, e, opening)
    ensures forall x :: x in Window(w, e) && w.anomaliesOf(x.id) != [] && x.id != e.id ==> (i, x.id) in after.evaluations
  {
    var considered :| LookbackAnswer(w, OpeningContext(w.k, e), e, considered)
      && after == LookedBack(RecallScore(w, OpeningContext(w.k, e)), OpenedWith(before, i, e, opening, OpeningScore(w, e, opening)), i, considered);
    OpeningStands(RecallScore(w, OpeningContext(w.k, e)), before, i, e, opening, OpeningScore(w, e, opening), considered);
    AnomalousConsidered(w, OpeningContext(w.k, e), e, considered);
  }

  lemma OpeningStands(recall: Recall, before: Desk, i: Id, e: CanonicalEvent, opening: seq<AnomalyRecord>, v: Evaluation, considered: seq<Considered>)
    requires i !in before.incidents && (i, e.id) !in before.evaluations
    ensures var after := LookedBack(recall, OpenedWith(before, i, e, opening, v), i, considered);
            && Kept(before.evaluations, after.evaluations) && OnlyFor(before.evaluations, after.evaluations, i)
            && after.incidents.Keys == before.incidents.Keys + {i}
            && (i, e.id) in after.evaluations && after.evaluations[(i, e.id)] == v
            && forall j :: 0 <= j < |considered| ==> (i, considered[j].0.id) in after.evaluations
  {
    var created := before.(incidents := before.incidents[i := Opened(e)]);
    DecidedKeeps(created, i, e.id, BumpBy(e, opening), v);
    LookbackKeeps(recall, Decided(created, i, e, opening, v), i, considered);
  }

  /** Events decided before are never counted again: a lookback over them changes nothing. */
  lemma {:induction false} DecidedOnce(recall: Recall, d: Desk, i: Id, considered: seq<Considered>)
    requires forall j :: 0 <= j < |considered| ==> (i, considered[j].0.id) in d.evaluations
    ensures LookedBack(recall, d, i, considered) == d
  {
    if considered != [] {
      DecidedOnce(recall, d, i, considered[..|considered| - 1]);
    }
  }

  /** Nor by the live pass: an incident that decided the event before, on opening or in a lookback, keeps
      its row, its decision and its attachments. */
  lemma RoutedOnce(scores: Scores, event: Id, bump: Bump, before: Desk, after: Desk, best: Option<Id>, i: Id)
    requires Routed(scores, event, bump, before, after, best) && i in before.incidents && (i, event) in before.evaluations
    ensures after.incidents[i] == before.incidents[i] && after.evaluations[(i, event)] == before.evaluations[(i, event)]
    ensures forall e :: (i, e) in after.attachments <==> (i, e) in before.attachments
  {
    forall e ensures (i, e) in after.attachments <==> (i, e) in before.attachments {
      assert (i, e) in after.evaluations && (i, e) !in before.evaluations ==> (i, e) in DecisionsOf(OpenIds(before), event);
    }
  }

  /** When every open incident decided the event before, routing it again changes nothing at all. */
  lemma RoutedAgainIsIdle(scores: Scores, event: Id, bump: Bump, before: Desk, after: Desk, best: Option<Id>)
    requires Routed(scores, event, bump, before, after, best) && forall i :: IsOpen(before, i) ==> (i, event) in before.evaluations
    ensures after == before
  {
    assert DecisionsOf(OpenIds(before), event) <= before.evaluations.Keys;
    assert after.evaluations == before.evaluations;
    assert after.incidents == before.incidents;
    assert after.attachments == before.attachments;
  }

  /** At most one existing incident newly attaches a routed event, and it is the best match. */
  lemma OneNewAttachment(scores: Scores, event: Id, bump: Bump, before: Desk, after: Desk, best: Option<Id>, p: (Id, Id))
    requires Routed(scores, event, bump, before, after, best) && p in after.evaluations && p !in before.evaluations
    ensures p.1 == event && IsOpen(before, p.0)
    ensures after.evaluations[p].attached <==> best == Some(p.0)
  {
    assert p in DecisionsOf(OpenIds(before), event);
    assert scores(p.0).attached ==> Attachable(before, scores, p.0);
  }

  lemma AnomalousConsidered(w: World, c: Context, e: CanonicalEvent, considered: seq<Considered>)
    requires LookbackAnswer(w, c, e, considered)
    ensures forall x :: x in Window(w, e) && x.id != e.id && w.anomaliesOf(x.id) != [] ==>
              exists j :: 0 <= j < |considered| && considered[j].0 == x
  {
    forall x | x in Window(w, e) && x.id != e.id && w.anomaliesOf(x.id) != [] ensures exists j :: 0 <= j < |considered| && considered[j].0 == x {
      var n :| 0 <= n < |Window(w, e)| && Window(w, e)[n] == x;
      assert (x, w.anomaliesOf(x.id)) in considered;
      var j :| 0 <= j < |considered| && considered[j] == (x, w.anomaliesOf(x.id));
    }
  }

  /** New decisions concern one incident only. */
  ghost predicate OnlyFor(before: map<(Id, Id), Evaluation>, after: map<(Id, Id), Evaluation>, i: Id) {
    forall p :: p in after && p !in before ==> p.0 == i
  }

  /** Earlier decisions stand. */
  ghost predicate Kept(before: map<(Id, Id), Evaluation>, after: map<(Id, Id), Evaluation>) {
    forall p :: p in before ==> p in after && after[p] == before[p]
  }
}
