/** How the ranker scores one candidate over the incident bundle. */
module Scoring {
  import opened Common
  import opened CandidateGeneration
  import opened Contracts
  import opened Ranking
  import opened RcaContracts
  import opened Sorting
  import opened TypedGraph
  import TopologySearch

  // ---------------------------------------------------------------- pattern observations

  predicate ByType(p: Pattern, e: CanonicalEvent) {
    && (e.eventType in p.eventTypes || exists key :: key in p.trueKeys && IsTrue(e, key))
    && (p.minimum.Some? ==> e.signalValue.Some? && e.signalValue.value >= p.minimum.value)
    && (p.maximum.Some? ==> e.signalValue.Some? && e.signalValue.value <= p.maximum.value)
  }

  /** An anomaly of a listed type makes its event an observation outright; the flag and type tests
      are subject to the pattern's value bounds. */
  predicate Observes(p: Pattern, b: Bundle, e: CanonicalEvent) {
    HasAnomaly(b, e.id, p.anomalyTypes) || ByType(p, e)
  }

  function Observations(p: Pattern, b: Bundle): seq<CanonicalEvent> {
    SortBy(Where(b.events, e => Observes(p, b, e)), EarlierEvent)
  }

  method FindEvent(events: seq<CanonicalEvent>, id: string) returns (r: Option<CanonicalEvent>)
    ensures r.Some? ==> r.value in events && r.value.id == id
    ensures r.None? ==> !Attached(events, id)
  {
    for i := 0 to |events|
      invariant forall k :: 0 <= k < i ==> events[k].id != id
    {
      if events[i].id == id {
        return Some(events[i]);
      }
    }
    r := None;
  }

  /** Whether one of the first `n` anomalies, of a listed type, is about this event. */
  predicate HasAnomalyUpTo(b: Bundle, eventId: string, types: set<string>, n: nat)
    requires n <= |b.anomalies|
  {
    exists i :: 0 <= i < n && b.anomalies[i].eventId == eventId && b.anomalies[i].anomalyType in types
  }

  /** The two loops that collect a pattern's observations by event id, and the final sort. */
  method PatternObservations(p: Pattern, b: Bundle) returns (r: seq<CanonicalEvent>)
    requires ValidBundle(b)
    ensures r == Observations(p, b)
  {
    var observed: seq<CanonicalEvent> := [];
    for i := 0 to |b.anomalies|
      invariant Distinct(observed)
      invariant forall e :: e in observed <==> e in b.events && HasAnomalyUpTo(b, e.id, p.anomalyTypes, i)
    {
      var anomaly := b.anomalies[i];
      var event := FindEvent(b.events, anomaly.eventId);
      if event.Some? && anomaly.anomalyType in p.anomalyTypes && event.value !in observed {
        assert b.anomalies[i].eventId == event.value.id;
        DistinctConcat(observed, [event.value]);
        observed := observed + [event.value];
      }
    }
    for i := 0 to |b.events|
      invariant Distinct(observed)
      invariant forall e :: e in observed <==> e in b.events && (HasAnomaly(b, e.id, p.anomalyTypes) || (ByType(p, e) && e in b.events[..i]))
    {
      var event := b.events[i];
      assert b.events[..i + 1] == b.events[..i] + [event];
      if ByType(p, event) && event !in observed {
        DistinctConcat(observed, [event]);
        observed := observed + [event];
      }
    }
    assert b.events[..|b.events|] == b.events;
    ObservedAreObservations(p, b, observed);
    r := SortBy(observed, EarlierEvent);
  }

  lemma ObservedAreObservations(p: Pattern, b: Bundle, observed: seq<CanonicalEvent>)
    requires ValidBundle(b) && Distinct(observed)
    requires forall e :: e in observed <==> e in b.events && Observes(p, b, e)
    ensures SortBy(observed, EarlierEvent) == Observations(p, b)
  {
    var wanted := Where(b.events, e => Observes(p, b, e));
    WhereDistinct(b.events, e => Observes(p, b, e));
    forall e ensures e in wanted <==> e in observed {
      WhereMembers(b.events, e => Observes(p, b, e), e);
    }
    DistinctSameMembers(wanted, observed);
    EarlierIsTotal(b, observed);
    SortIgnoresOrder(observed, wanted, EarlierEvent);
  }

  lemma EarlierIsTotal(b: Bundle, events: seq<CanonicalEvent>)
    requires ValidBundle(b) && forall e :: e in events ==> e in b.events
    ensures TotalOn(events, EarlierEvent)
  {
    StampLessIsTotal();
  }

  // ---------------------------------------------------------------- small arithmetic

  /** Python's `round(x, 4)`: to the nearest ten-thousandth, ties to the even one. */
  function RoundFour(x: real): real {
    var floor := (10000.0 * x).Floor;
    var rest := 10000.0 * x - floor as real;
    var units := if rest < 0.5 || (rest == 0.5 && floor % 2 == 0) then floor else floor + 1;
    units as real / 10000.0
  }

  function Ratio(observed: nat, declared: nat): real {
    if declared == 0 then 0.0 else RoundFour(observed as real / declared as real)
  }

  /** `max(values, default=0.0)`. */
  function MaxOrZero(values: seq<real>): real {
    if values == [] then 0.0
    else if |values| == 1 then values[0]
    else
      var rest := MaxOrZero(values[1..]);
      if values[0] >= rest then values[0] else rest
  }

  lemma RatioInUnit(observed: nat, declared: nat)
    requires observed <= declared
    ensures 0.0 <= Ratio(observed, declared) <= 1.0
  {
    if declared > 0 {
      QuotientInUnit(observed as real, declared as real, observed as real / declared as real);
      RoundFourInUnit(observed as real / declared as real);
    }
  }

  lemma QuotientInUnit(a: real, b: real, q: real)
    requires 0.0 <= a <= b && b > 0.0 && q == a / b
    ensures 0.0 <= q <= 1.0
  {
    assert q * b == a;
    if q < 0.0 {
      NegativeScale(-q, b);
    }
    if q > 1.0 {
      NegativeScale(q - 1.0, b);
    }
  }

  lemma NegativeScale(p: real, b: real)
    requires p > 0.0 && b > 0.0
    ensures p * b > 0.0
  {
  }

  lemma RoundFourInUnit(q: real)
    requires 0.0 <= q <= 1.0
    ensures 0.0 <= RoundFour(q) <= 1.0
  {
    var y := 10000.0 * q;
    assert 0.0 <= y <= 10000.0;
    assert 0 <= y.Floor <= 10000;
    assert y.Floor == 10000 ==> y - y.Floor as real == 0.0;
  }

  lemma {:induction false} MaxOrZeroInUnit(values: seq<real>)
    requires forall i :: 0 <= i < |values| ==> 0.0 <= values[i] <= 1.0
    ensures 0.0 <= MaxOrZero(values) <= 1.0
  {
    if |values| > 1 {
      assert forall i :: 0 <= i < |values[1..]| ==> values[1..][i] == values[i + 1];
      MaxOrZeroInUnit(values[1..]);
    }
  }

  // ---------------------------------------------------------------- the eight factors

  function CountObserved(names: seq<string>, patterns: map<string, Pattern>, b: Bundle): (r: nat)
    requires forall s :: s in names ==> s in patterns
    ensures r <= |names|
  {
    if names == [] then 0
    else
      assert names == [names[0]] + names[1..];
      (if Observations(patterns[names[0]], b) != [] then 1 else 0) + CountObserved(names[1..], patterns, b)
  }

  function SymptomFactor(c: Catalogue, entry: Entry, b: Bundle): real
    requires ValidEntry(c, entry)
  {
    Ratio(CountObserved(entry.requiredSymptoms, c.symptoms, b), |entry.requiredSymptoms|)
  }

  predicate Mentions(e: CanonicalEvent, x: Node) {
    e.entityId == x || exists key :: key in e.payload && e.payload[key] == Text(x)
  }

  predicate Mentioned(b: Bundle, m: Modality, x: Node) {
    exists i :: 0 <= i < |b.events| && b.events[i].modality == m && Mentions(b.events[i], x)
  }

  function LogAlertFactor(b: Bundle, x: Node): real {
    if Mentioned(b, Log, x) && Mentioned(b, Alert, x) then 1.0
    else if Mentioned(b, Log, x) || Mentioned(b, Alert, x) then 0.6
    else 0.0
  }

  method DirectLogAlertFactor(b: Bundle, x: Node) returns (r: real)
    ensures r == LogAlertFactor(b, x)
  {
    var modalities: set<Modality> := {};
    for i := 0 to |b.events|
      invariant forall m :: m in modalities <==>
                  (m == Log || m == Alert) && exists k :: 0 <= k < i && b.events[k].modality == m && Mentions(b.events[k], x)
    {
      var event := b.events[i];
      if !event.modality.Log? && !event.modality.Alert? {
        continue;
      }
      if Mentions(event, x) {
        modalities := modalities + {event.modality};
      }
    }
    assert Mentioned(b, Log, x) <==> Log in modalities;
    assert Mentioned(b, Alert, x) <==> Alert in modalities;
    if Log in modalities && Alert in modalities {
      return 1.0;
    }
    r := if modalities != {} then 0.6 else 0.0;
    if modalities != {} {
      var m :| m in modalities;
    }
  }

  /** Stages counted so far, and the time of the last one counted. */
  datatype Chain = Chain(counted: nat, last: Option<int>)

  function Advance(chain: Chain, time: Option<int>): Chain {
    if time.Some? && (chain.last.None? || time.value >= chain.last.value) then Chain(chain.counted + 1, time) else chain
  }

  /** The stages that occurred in order: one counts when it begins no earlier than the last counted. */
  function ChainUpTo(times: seq<Option<int>>, n: nat): (r: Chain)
    requires n <= |times|
    ensures r.counted <= n
  {
    if n == 0 then Chain(0, None) else Advance(ChainUpTo(times, n - 1), times[n - 1])
  }

  lemma ChainNext(times: seq<Option<int>>, i: nat, chain: Chain, time: Option<int>)
    requires i < |times| && ChainUpTo(times, i) == chain && times[i] == time
    ensures ChainUpTo(times, i + 1) == Advance(chain, time)
  {
  }

  function StageTime(c: Catalogue, entry: Entry, b: Bundle, i: nat): Option<int>
    requires ValidEntry(c, entry) && i < |entry.expectedPropagation|
  {
    var observations := Observations(c.propagation[entry.expectedPropagation[i]], b);
    if observations == [] then None else Some(observations[0].timestamp)
  }

  /** When each stage of the expected propagation was first observed. */
  function StageTimes(c: Catalogue, entry: Entry, b: Bundle): (r: seq<Option<int>>)
    requires ValidEntry(c, entry)
    ensures |r| == |entry.expectedPropagation|
  {
    seq(|entry.expectedPropagation|, i requires 0 <= i < |entry.expectedPropagation| => StageTime(c, entry, b, i))
  }

  function Propagation(c: Catalogue, entry: Entry, b: Bundle): real
    requires ValidEntry(c, entry)
  {
    Ratio(ChainUpTo(StageTimes(c, entry, b), |entry.expectedPropagation|).counted, |entry.expectedPropagation|)
  }

  method ObserveStage(c: Catalogue, entry: Entry, b: Bundle, i: nat) returns (time: Option<int>)
    requires ValidBundle(b) && ValidEntry(c, entry) && i < |entry.expectedPropagation|
    ensures time == StageTimes(c, entry, b)[i]
  {
    var observations := PatternObservations(c.propagation[entry.expectedPropagation[i]], b);
    time := if observations == [] then None else Some(observations[0].timestamp);
  }

  method CountStages(c: Catalogue, entry: Entry, b: Bundle) returns (counted: nat)
    requires ValidBundle(b) && ValidEntry(c, entry)
    ensures counted == ChainUpTo(StageTimes(c, entry, b), |entry.expectedPropagation|).counted
  {
    ghost var times := StageTimes(c, entry, b);
    counted := 0;
    var last: Option<int> := None;
    for i := 0 to |entry.expectedPropagation|
      invariant ChainUpTo(times, i) == Chain(counted, last)
    {
      var time := ObserveStage(c, entry, b, i);
      ghost var chain := Chain(counted, last);
      ChainNext(times, i, chain, time);
      if time.None? {
        continue;
      }
      if last.None? || time.value >= last.value {
        counted := counted + 1;
        last := time;
      }
    }
  }

  method PropagationFactor(c: Catalogue, entry: Entry, b: Bundle) returns (r: real)
    requires ValidBundle(b) && ValidEntry(c, entry)
    ensures r == Propagation(c, entry, b)
  {
    var counted := CountStages(c, entry, b);
    r := Ratio(counted, |entry.expectedPropagation|);
  }

  /** Every stage counts exactly when all were observed, each beginning no earlier than the one before. */
  lemma {:induction false} FullChainExactly(times: seq<Option<int>>, n: nat)
    requires n <= |times|
    ensures ChainUpTo(times, n).counted == n <==>
              (forall i :: 0 <= i < n ==> times[i].Some?) && forall i :: 0 < i < n ==> times[i - 1].value <= times[i].value
    ensures ChainUpTo(times, n).counted == n && n > 0 ==> ChainUpTo(times, n).last == times[n - 1]
  {
    if n > 0 {
      FullChainExactly(times, n - 1);
    }
  }

  function FactorOfDistance(d: int): real {
    if d == 0 then 1.0 else if d == 1 then 0.8 else if d == 2 then 0.5 else 0.0
  }

  function PathOrCandidate(path: seq<Node>, x: Node): seq<Node> {
    if path != [] then path else [x]
  }

  predicate MetricCounts(entry: Entry, b: Bundle, impact: set<Node>, a: AnomalyRecord) {
    && a.anomalyType in entry.metricAnomalyTypes
    && exists i :: 0 <= i < |b.events| && b.events[i].id == a.eventId && b.events[i].modality.Metric? && b.events[i].entityId in impact
  }

  function MetricFactor(entry: Entry, b: Bundle, impact: set<Node>): real {
    MaxOrZero(Mapped(Where(b.anomalies, a => MetricCounts(entry, b, impact, a)), (a: AnomalyRecord) => a.score))
  }

  function Earliest(events: seq<CanonicalEvent>): Option<CanonicalEvent> {
    var sorted := SortBy(events, EarlierEvent);
    if sorted == [] then None else Some(sorted[0])
  }

  predicate IsSymptom(b: Bundle, e: CanonicalEvent) {
    exists i :: 0 <= i < |b.anomalies| && !b.anomalies[i].contextOnly && b.anomalies[i].eventId == e.id
  }

  function FirstSymptom(b: Bundle): Option<CanonicalEvent> {
    Earliest(Where(b.events, e => IsSymptom(b, e)))
  }

  predicate Signals(entry: Entry, b: Bundle, x: Node, e: CanonicalEvent) {
    if entry.changeBased then e.modality.ConfigChange? && ChangeTarget(e) == x
    else
      || HasAnomaly(b, e.id, entry.generation.anyAnomalyTypes)
      || e.eventType in entry.generation.anyLogEventTypes
      || e.eventType in entry.generation.anyEventTypes
  }

  function CandidateSignal(entry: Entry, b: Bundle, x: Node): Option<CanonicalEvent> {
    Earliest(Where(b.events, e => Signals(entry, b, x, e)))
  }

  const SECOND := 1_000_000

  function TemporalFactor(signal: Option<CanonicalEvent>, symptom: Option<CanonicalEvent>): real {
    if signal.None? || symptom.None? || signal.value.timestamp >= symptom.value.timestamp then 0.0
    else
      var gap := symptom.value.timestamp - signal.value.timestamp;
      if gap <= 60 * SECOND then 1.0
      else if gap <= 180 * SECOND then 0.7
      else if gap <= 300 * SECOND then 0.4
      else 0.0
  }

  function Quarter(check: bool): real {
    if check then 0.25 else 0.0
  }

  function ChangeFit(entry: Entry, b: Bundle, x: Node, path: seq<Node>, conflicted: bool): real {
    if !entry.changeBased then 0.0
    else match CandidateSignal(entry, b, x)
      case None => 0.0
      case Some(change) =>
        Quarter(FirstSymptom(b).Some? && change.timestamp < FirstSymptom(b).value.timestamp)
        + Quarter(ChangeTarget(change) in PathOrCandidate(path, x))
        + Quarter("config_key" in change.payload && change.payload["config_key"].Text?
                  && change.payload["config_key"].text in entry.plausibleChangeKeys)
        + Quarter(!conflicted)
  }

  function HistoricalFactor(entry: Entry, b: Bundle): real {
    MaxOrZero(Mapped(Where(b.history, (h: HistoricalMatch) => h.cause == entry.hypothesisType), (h: HistoricalMatch) => h.similarity))
  }

  /** One value for each factor of the rubric. */
  datatype Readings = Readings(
    symptom: real,
    topology: real,
    logs: real,
    propagation: real,
    metric: real,
    change: real,
    temporal: real,
    history: real)

  function Table(r: Readings): Factors {
    map[
      SymptomCompatibility := r.symptom,
      TopologyRelevance := r.topology,
      DirectLogsAlerts := r.logs,
      PropagationConsistency := r.propagation,
      MetricAnomaly := r.metric,
      ChangeCausalFit := r.change,
      TemporalProximity := r.temporal,
      HistoricalSimilarity := r.history
    ]
  }

  function TopologyFactor(path: seq<Node>): real {
    if path == [] then 0.0 else FactorOfDistance(|path| - 1)
  }

  function Read(c: Catalogue, entry: Entry, b: Bundle, x: Node, path: seq<Node>, impact: set<Node>, conflicted: bool): Readings
    requires ValidEntry(c, entry)
  {
    Readings(SymptomFactor(c, entry, b), TopologyFactor(path), LogAlertFactor(b, x), Propagation(c, entry, b), MetricFactor(entry, b, impact),
             ChangeFit(entry, b, x, path, conflicted), TemporalFactor(CandidateSignal(entry, b, x), FirstSymptom(b)), HistoricalFactor(entry, b))
  }

  /** The factor table before conflict effects. */
  function BaseFactors(c: Catalogue, entry: Entry, b: Bundle, x: Node, path: seq<Node>, impact: set<Node>, conflicted: bool): Factors
    requires ValidEntry(c, entry)
  {
    Table(Read(c, entry, b, x, path, impact, conflicted))
  }

  // ---------------------------------------------------------------- factors stay in the unit interval

  lemma MetricInUnit(entry: Entry, b: Bundle, impact: set<Node>)
    requires ValidBundle(b)
    ensures Unit(MetricFactor(entry, b, impact))
  {
    var counted := Where(b.anomalies, a => MetricCounts(entry, b, impact, a));
    forall i | 0 <= i < |counted| ensures 0.0 <= counted[i].score <= 1.0 {
      WhereMembers(b.anomalies, a => MetricCounts(entry, b, impact, a), counted[i]);
    }
    MaxOrZeroInUnit(Mapped(counted, (a: AnomalyRecord) => a.score));
  }

  lemma HistoryInUnit(entry: Entry, b: Bundle)
    requires ValidBundle(b)
    ensures Unit(HistoricalFactor(entry, b))
  {
    var alike := Where(b.history, (h: HistoricalMatch) => h.cause == entry.hypothesisType);
    forall i | 0 <= i < |alike| ensures 0.0 <= alike[i].similarity <= 1.0 {
      WhereMembers(b.history, (h: HistoricalMatch) => h.cause == entry.hypothesisType, alike[i]);
    }
    MaxOrZeroInUnit(Mapped(alike, (h: HistoricalMatch) => h.similarity));
  }

  predicate Unit(x: real) {
    0.0 <= x <= 1.0
  }

  predicate AllUnit(r: Readings) {
    && Unit(r.symptom) && Unit(r.topology) && Unit(r.logs) && Unit(r.propagation)
    && Unit(r.metric) && Unit(r.change) && Unit(r.temporal) && Unit(r.history)
  }

  lemma TableInUnit(r: Readings)
    requires AllUnit(r)
    ensures InUnit(Table(r)) && forall f :: f in Table(r) ==> !f.Unsupported?
  {
  }

  lemma CountsInUnit(c: Catalogue, entry: Entry, b: Bundle)
    requires ValidEntry(c, entry)
    ensures Unit(SymptomFactor(c, entry, b)) && Unit(Propagation(c, entry, b))
  {
    RatioInUnit(CountObserved(entry.requiredSymptoms, c.symptoms, b), |entry.requiredSymptoms|);
    RatioInUnit(ChainUpTo(StageTimes(c, entry, b), |entry.expectedPropagation|).counted, |entry.expectedPropagation|);
  }

  lemma ChecksInUnit(entry: Entry, b: Bundle, x: Node, path: seq<Node>, conflicted: bool)
    ensures Unit(ChangeFit(entry, b, x, path, conflicted))
  {
  }

  lemma StepsInUnit(b: Bundle, x: Node, path: seq<Node>, signal: Option<CanonicalEvent>, symptom: Option<CanonicalEvent>)
    ensures Unit(TopologyFactor(path)) && Unit(LogAlertFactor(b, x)) && Unit(TemporalFactor(signal, symptom))
  {
  }

  lemma ReadInUnit(c: Catalogue, entry: Entry, b: Bundle, x: Node, path: seq<Node>, impact: set<Node>, conflicted: bool)
    requires ValidBundle(b) && ValidEntry(c, entry)
    ensures AllUnit(Read(c, entry, b, x, path, impact, conflicted))
  {
    CountsInUnit(c, entry, b);
    MetricInUnit(entry, b, impact);
    HistoryInUnit(entry, b);
    ChecksInUnit(entry, b, x, path, conflicted);
    StepsInUnit(b, x, path, CandidateSignal(entry, b, x), FirstSymptom(b));
  }

  // ---------------------------------------------------------------- conflicts

  datatype AppliedConflict = AppliedConflict(pattern: ConflictPattern, sourceEventId: string)

  /** A pattern with an absent-anomaly clause is silenced by any anomaly it lists. */
  function ConflictSource(p: ConflictPattern, b: Bundle): Option<CanonicalEvent> {
    if exists i :: 0 <= i < |b.anomalies| && b.anomalies[i].anomalyType in p.pattern.absentAnomalyTypes then None
    else
      var observations := Observations(p.pattern, b);
      if observations == [] then None else Some(observations[0])
  }

  function Matched(patterns: seq<ConflictPattern>, b: Bundle): seq<AppliedConflict> {
    if patterns == [] then []
    else match ConflictSource(patterns[0], b)
      case None => Matched(patterns[1..], b)
      case Some(e) => [AppliedConflict(patterns[0], e.id)] + Matched(patterns[1..], b)
  }

  function Effects(conflicts: seq<AppliedConflict>): seq<Effect> {
    Mapped(conflicts, (k: AppliedConflict) => k.pattern.effect)
  }

  lemma {:induction false} MatchedFromCatalogue(patterns: seq<ConflictPattern>, b: Bundle, k: AppliedConflict)
    requires k in Matched(patterns, b)
    ensures k.pattern in patterns
    ensures ConflictSource(k.pattern, b).Some? && k.sourceEventId == ConflictSource(k.pattern, b).value.id
  {
    assert patterns == [patterns[0]] + patterns[1..];
    if ConflictSource(patterns[0], b).None? || k != AppliedConflict(patterns[0], ConflictSource(patterns[0], b).value.id) {
      MatchedFromCatalogue(patterns[1..], b, k);
    }
  }

  /** A conflict's source is an attached event. */
  lemma SourceIsAttached(p: ConflictPattern, b: Bundle)
    ensures ConflictSource(p, b).Some? ==> ConflictSource(p, b).value in b.events
  {
    var r := Observations(p.pattern, b);
    if r != [] {
      SortKeepsMembers(Where(b.events, e => Observes(p.pattern, b, e)), EarlierEvent, r[0]);
      WhereMembers(b.events, e => Observes(p.pattern, b, e), r[0]);
    }
  }

  /** Losing the absence of conflicts lowers the causal-fit reading and touches no other. */
  lemma ConflictLowersReading(c: Catalogue, entry: Entry, b: Bundle, x: Node, path: seq<Node>, impact: set<Node>)
    requires ValidEntry(c, entry)
    ensures var low, high := Read(c, entry, b, x, path, impact, true), Read(c, entry, b, x, path, impact, false);
            low == high.(change := low.change) && low.change <= high.change
  {
  }

  lemma TableOrdered(low: Readings, high: Readings)
    requires low == high.(change := low.change) && low.change <= high.change
    ensures Below(Table(low), Table(high)) && Table(low).Keys == Table(high).Keys
  {
  }

  /** The score after a list of conflict effects, the causal fit included. */
  function Final(c: Catalogue, entry: Entry, b: Bundle, x: Node, path: seq<Node>, impact: set<Node>, effects: seq<Effect>): Outcome<Factors, RankingError>
    requires ValidEntry(c, entry)
  {
    ApplyAll(BaseFactors(c, entry, b, x, path, impact, effects != []), effects)
  }

  /** Matching more of the catalogue's conflicts never raises a candidate's score: neither through
      the effects nor through the causal-fit check that no conflict matched. */
  lemma MoreConflictsNeverRaise(c: Catalogue, entry: Entry, b: Bundle, x: Node, path: seq<Node>, impact: set<Node>,
                                few: seq<Effect>, many: seq<Effect>)
    requires ValidBundle(b) && ValidEntry(c, entry) && Bounded(many) && Thinned(few, many)
    requires Final(c, entry, b, x, path, impact, many).Ok?
    ensures Final(c, entry, b, x, path, impact, few).Ok?
    ensures ScoreFactors(Final(c, entry, b, x, path, impact, many).value).Ok?
    ensures ScoreFactors(Final(c, entry, b, x, path, impact, few).value).Ok?
    ensures ScoreFactors(Final(c, entry, b, x, path, impact, many).value).value
              <= ScoreFactors(Final(c, entry, b, x, path, impact, few).value).value
  {
    var low, high := Read(c, entry, b, x, path, impact, many != []), Read(c, entry, b, x, path, impact, few != []);
    ReadInUnit(c, entry, b, x, path, impact, many != []);
    ReadInUnit(c, entry, b, x, path, impact, few != []);
    ThinnedOfNone(few, many);
    ConflictLowersReading(c, entry, b, x, path, impact);
    assert low == high.(change := low.change) && low.change <= high.change;
    TableInUnit(low);
    TableInUnit(high);
    TableOrdered(low, high);
    LessScored(Table(low), Table(high), few, many);
  }

  lemma LessScored(low: Factors, high: Factors, few: seq<Effect>, many: seq<Effect>)
    requires InUnit(low) && InUnit(high) && Below(low, high) && low.Keys == high.Keys && Bounded(many) && Thinned(few, many)
    requires ApplyAll(low, many).Ok? && forall f :: f in low ==> !f.Unsupported?
    ensures ApplyAll(high, few).Ok?
    ensures ScoreFactors(ApplyAll(low, many).value).Ok? && ScoreFactors(ApplyAll(high, few).value).Ok?
    ensures ScoreFactors(ApplyAll(low, many).value).value <= ScoreFactors(ApplyAll(high, few).value).value
  {
    MoreEffectsLower(low, high, many, few);
    EffectsOnlyLower(low, many);
    ScoreMonotone(ApplyAll(low, many).value, ApplyAll(high, few).value);
  }

  lemma {:induction false} ThinnedOfNone(few: seq<Effect>, many: seq<Effect>)
    requires Thinned(few, many)
    ensures |few| <= |many|
    decreases |many|
  {
    if many != [] {
      var init := many[..|many| - 1];
      if Thinned(few, init) {
        ThinnedOfNone(few, init);
      } else {
        ThinnedOfNone(few[..|few| - 1], init);
      }
    }
  }

  /** The events an entry names as origins, or else the affected entities. */
  function TopologyOrigins(entry: Entry, b: Bundle): seq<Node> {
    var named := Dedupe(Mapped(Where(b.events, (e: CanonicalEvent) => e.eventType in entry.originEventTypes), (e: CanonicalEvent) => e.entityId));
    if entry.originEventTypes != {} && named != [] then named else AffectedOrPrimary(b)
  }

  // ---------------------------------------------------------------- the topology factor's loop

  datatype Route = Route(distance: int, order: nat, origin: Node, path: seq<Node>)

  predicate Sooner(a: Route, b: Route) {
    a.distance < b.distance || (a.distance == b.distance && a.order < b.order)
  }

  /** Python's `min` over the (distance, order, ...) tuples; the orders differ, so it stops there. */
  function Least(choices: seq<Route>): (r: Route)
    requires choices != []
    ensures r in choices && forall k :: k in choices ==> !Sooner(k, r)
  {
    if |choices| == 1 then choices[0]
    else
      assert choices == [choices[0]] + choices[1..];
      var rest := Least(choices[1..]);
      if Sooner(rest, choices[0]) then rest else choices[0]
  }

  /** The origin and path the topology factor settles on: a shortest path from the first of the
      nearest origins, or nothing exactly when no origin is within the hop bound. */
  ghost predicate Nearest(edges: seq<Edge>, p: Policy, origins: seq<Node>, target: Node, origin: Option<Node>, path: seq<Node>) {
    match origin
    case None => path == [] && forall o :: o in origins ==> !Within(edges, p, o, target, p.maxHops)
    case Some(from) =>
      && PathAnswer(edges, p, from, target, Some(path))
      && exists i :: 0 <= i < |origins| && origins[i] == from && FirstNearest(edges, p, origins, target, i, |path| - 1)
  }

  ghost predicate FirstNearest(edges: seq<Edge>, p: Policy, origins: seq<Node>, target: Node, i: int, distance: int) {
    forall j, d: nat :: 0 <= j < |origins| && d <= p.maxHops && IsDistance(edges, p, origins[j], target, d) ==>
                          distance <= d && (j < i ==> distance < d)
  }

  /** The paths found from the first `n` origins, in order. */
  ghost predicate Gathered(edges: seq<Edge>, p: Policy, origins: seq<Node>, target: Node, n: nat, choices: seq<Route>)
    requires n <= |origins|
  {
    && (forall k :: k in choices ==>
          && k.order < n && k.origin == origins[k.order] && k.distance == |k.path| - 1
          && PathAnswer(edges, p, k.origin, target, Some(k.path)))
    && (forall j :: 0 <= j < n && Within(edges, p, origins[j], target, p.maxHops) ==> exists k :: k in choices && k.order == j)
  }

  method NearestOrigin(edges: seq<Edge>, p: Policy, origins: seq<Node>, target: Node) returns (origin: Option<Node>, path: seq<Node>)
    ensures Nearest(edges, p, origins, target, origin, path)
  {
    var choices: seq<Route> := [];
    for i := 0 to |origins|
      invariant Gathered(edges, p, origins, target, i, choices)
    {
      var found := TopologySearch.Path(edges, origins[i], target, p);
      if found.Some? {
        choices := Gather(edges, p, origins, target, i, choices, found.value);
      }
    }
    if choices == [] {
      return None, [];
    }
    var best := Least(choices);
    LeastIsNearest(edges, p, origins, target, choices);
    return Some(best.origin), best.path;
  }

  method Gather(edges: seq<Edge>, p: Policy, origins: seq<Node>, target: Node, i: nat, choices: seq<Route>, path: seq<Node>) returns (r: seq<Route>)
    requires i < |origins| && Gathered(edges, p, origins, target, i, choices)
    requires PathAnswer(edges, p, origins[i], target, Some(path))
    ensures Gathered(edges, p, origins, target, i + 1, r) && r != []
  {
    var found := Route(|path| - 1, i, origins[i], path);
    r := choices + [found];
    assert found in r;
    forall j | 0 <= j < i + 1 && Within(edges, p, origins[j], target, p.maxHops) ensures exists k :: k in r && k.order == j {
      if j < i {
        var k :| k in choices && k.order == j;
        assert k in r;
      }
    }
  }

  lemma LeastIsNearest(edges: seq<Edge>, p: Policy, origins: seq<Node>, target: Node, choices: seq<Route>)
    requires choices != [] && Gathered(edges, p, origins, target, |origins|, choices)
    ensures Nearest(edges, p, origins, target, Some(Least(choices).origin), Least(choices).path)
  {
    var best := Least(choices);
    forall j, d: nat | 0 <= j < |origins| && d <= p.maxHops && IsDistance(edges, p, origins[j], target, d)
      ensures best.distance <= d && (j < best.order ==> best.distance < d)
    {
      WithinGrows(edges, p, origins[j], target, d, p.maxHops);
      var k :| k in choices && k.order == j;
      ShortestIsDistance(edges, p, k.path, k.origin, target);
      assert k.distance == d by {
        assert Within(edges, p, origins[j], target, d) && Within(edges, p, origins[j], target, k.distance);
      }
    }
    assert FirstNearest(edges, p, origins, target, best.order, |best.path| - 1);
  }

  /** A generated candidate of an entry without origin event types always has a topology path: the
      generator's location check and the ranker's path query agree. */
  lemma GeneratedHasPath(entry: Entry, b: Bundle, x: Node, origin: Option<Node>, path: seq<Node>)
    requires Fits(entry, b, x) && Nearest(b.edges, entry.traversal, TopologyOrigins(entry, b), x, origin, path)
    ensures entry.originEventTypes == {} ==> origin.Some? && path != []
    ensures origin.Some? <==> exists o :: o in TopologyOrigins(entry, b) && Within(b.edges, entry.traversal, o, x, entry.traversal.maxHops)
  {
    if origin.Some? {
      assert origin.value in TopologyOrigins(entry, b);
    }
  }

  // ---------------------------------------------------------------- one candidate

  datatype CandidateScore = CandidateScore(
    candidate: Candidate,
    factors: Factors,
    score: real,
    coverage: Coverage,
    conflicts: seq<AppliedConflict>,
    origin: Option<Node>,
    path: seq<Node>)

  datatype ScoringError = UnknownType | UnsupportedConflict

  /** Whether an event meets an evidence requirement within the candidate's scope. */
  type Availability = (string, CanonicalEvent, Node) -> bool

  function CountAvailable(expected: seq<(string, string)>, b: Bundle, x: Node, available: Availability): (r: nat)
    ensures r <= |expected|
  {
    if expected == [] then 0
    else
      (if exists i :: 0 <= i < |b.events| && available(expected[0].0, b.events[i], x) then 1 else 0)
      + CountAvailable(expected[1..], b, x, available)
  }

  function EntryIndex(entries: seq<Entry>, t: string): (r: nat)
    ensures r <= |entries|
    ensures r < |entries| ==> entries[r].hypothesisType == t
    ensures forall k :: 0 <= k < r ==> entries[k].hypothesisType != t
  {
    if entries == [] || entries[0].hypothesisType == t then 0 else 1 + EntryIndex(entries[1..], t)
  }

  ghost function Impact(entry: Entry, b: Bundle, x: Node, path: seq<Node>): set<Node> {
    if entry.traversal.relation.SendsTrafficTo?
    then set y | y in TopologySearch.Universe(b.edges, x) && Within(b.edges, entry.traversal, x, y, entry.traversal.maxHops)
    else ToSet(PathOrCandidate(path, x))
  }

  lemma WithinInUniverse(edges: seq<Edge>, p: Policy, s: Node, t: Node, k: nat)
    requires Within(edges, p, s, t, k)
    ensures t in TopologySearch.Universe(edges, s)
  {
    var w :| Joins(edges, p, w, s, t) && |w| - 1 <= k;
    if |w| > 1 {
      assert Hop(edges, p, w[|w| - 2], w[|w| - 2 + 1]);
      var i :| 0 <= i < |edges| && Carries(edges[i], p, w[|w| - 2], t);
      assert edges[i] in edges;
    }
  }

  method ImpactNodes(entry: Entry, b: Bundle, x: Node, path: seq<Node>) returns (r: set<Node>)
    ensures r == Impact(entry, b, x, path)
  {
    if entry.traversal.relation.SendsTrafficTo? {
      var reachable := TopologySearch.Reachable(b.edges, x, entry.traversal);
      r := ToSet(reachable);
      forall y ensures y in r <==> y in Impact(entry, b, x, path) {
        if y in r {
          WithinInUniverse(b.edges, entry.traversal, x, y, entry.traversal.maxHops);
        }
      }
    } else {
      r := ToSet(PathOrCandidate(path, x));
    }
  }

  /** What the ranker promises about one scored candidate. */
  ghost predicate ScoredBy(c: Catalogue, entry: Entry, b: Bundle, x: Candidate, available: Availability, s: CandidateScore)
    requires ValidEntry(c, entry)
  {
    && s.candidate == x
    && Nearest(b.edges, entry.traversal, TopologyOrigins(entry, b), x.entity, s.origin, s.path)
    && s.conflicts == Matched(entry.conflictPatterns, b)
    && Final(c, entry, b, x.entity, s.path, Impact(entry, b, x.entity, s.path), Effects(s.conflicts)) == Ok(s.factors)
    && ScoreFactors(s.factors) == Ok(s.score)
    && s.coverage == Coverage(CountAvailable(entry.expectedEvidence, b, x.entity, available), |entry.expectedEvidence|)
  }

  ghost predicate Scored(c: Catalogue, b: Bundle, x: Candidate, available: Availability, s: CandidateScore)
    requires ValidCatalogue(c)
  {
    var i := EntryIndex(c.hypotheses, x.hypothesisType);
    i < |c.hypotheses| && c.hypotheses[i] in c.hypotheses && ScoredBy(c, c.hypotheses[i], b, x, available, s)
  }

  ghost predicate SomeUnsupported(effects: seq<Effect>) {
    exists i :: 0 <= i < |effects| && effects[i].factor.Unsupported?
  }

  /** Some matched conflict names a factor outside the rubric. */
  ghost predicate Unscorable(entry: Entry, b: Bundle) {
    SomeUnsupported(Effects(Matched(entry.conflictPatterns, b)))
  }

  lemma {:induction false} EffectsFailExactly(factors: Factors, effects: seq<Effect>)
    requires forall f: Factor :: f in factors <==> !f.Unsupported?
    ensures ApplyAll(factors, effects).Raised? <==> SomeUnsupported(effects)
    ensures ApplyAll(factors, effects).Ok? ==> ApplyAll(factors, effects).value.Keys == factors.Keys
  {
    if effects != [] {
      var n := |effects| - 1;
      EffectsFailExactly(factors, effects[..n]);
      if SomeUnsupported(effects[..n]) {
        var i :| 0 <= i < n && effects[..n][i].factor.Unsupported?;
        assert effects[i].factor.Unsupported?;
      }
    }
  }

  lemma TableIsComplete(r: Readings)
    ensures forall f: Factor :: f in Table(r) <==> !f.Unsupported?
  {
  }

  /** A table without foreign factors can be scored. */
  lemma CompleteScores(factors: Factors)
    requires forall f: Factor :: f in factors ==> !f.Unsupported?
    ensures ScoreFactors(factors).Ok?
  {
  }

  method FactorTable(c: Catalogue, entry: Entry, b: Bundle, x: Node, path: seq<Node>, conflicted: bool) returns (r: Factors)
    requires ValidBundle(b) && ValidEntry(c, entry)
    ensures r == BaseFactors(c, entry, b, x, path, Impact(entry, b, x, path), conflicted)
    ensures r == Table(Read(c, entry, b, x, path, Impact(entry, b, x, path), conflicted))
  {
    var impact := ImpactNodes(entry, b, x, path);
    var logs := DirectLogAlertFactor(b, x);
    var propagation := PropagationFactor(c, entry, b);
    r := Table(Readings(SymptomFactor(c, entry, b), TopologyFactor(path), logs, propagation, MetricFactor(entry, b, impact),
                        ChangeFit(entry, b, x, path, conflicted), TemporalFactor(CandidateSignal(entry, b, x), FirstSymptom(b)),
                        HistoricalFactor(entry, b)));
  }

  ghost function ScoredIn(c: Catalogue, b: Bundle, available: Availability): (Candidate, CandidateScore) -> bool
    requires ValidCatalogue(c)
  {
    (x, s) => ValidCatalogue(c) && Scored(c, b, x, available, s)
  }

  ghost predicate Refused(c: Catalogue, b: Bundle, x: Candidate) {
    var k := EntryIndex(c.hypotheses, x.hypothesisType);
    k == |c.hypotheses| || Unscorable(c.hypotheses[k], b)
  }

  /** Score one candidate. It fails exactly when its type is not in the catalogue or a matched
      conflict names a factor the rubric does not have. */
  method ScoreCandidate(c: Catalogue, b: Bundle, x: Candidate, available: Availability) returns (r: Outcome<CandidateScore, ScoringError>)
    requires ValidBundle(b) && ValidCatalogue(c)
    ensures r.Ok? ==> Scored(c, b, x, available, r.value)
    ensures r.Ok? ==> ScoredIn(c, b, available)(x, r.value)
    ensures r.Raised? <==> Refused(c, b, x)
  {
    var i := EntryIndex(c.hypotheses, x.hypothesisType);
    if i == |c.hypotheses| {
      return Raised(UnknownType);
    }
    var entry := c.hypotheses[i];
    assert entry in c.hypotheses;
    var origin, path := NearestOrigin(b.edges, entry.traversal, TopologyOrigins(entry, b), x.entity);
    var matched := Matched(entry.conflictPatterns, b);
    var base := FactorTable(c, entry, b, x.entity, path, matched != []);
    var applied := ApplyConflicts(base, Effects(matched));
    TableIsComplete(Read(c, entry, b, x.entity, path, Impact(entry, b, x.entity, path), matched != []));
    EffectsFailExactly(base, Effects(matched));
    if applied.Raised? {
      return Raised(UnsupportedConflict);
    }
    CompleteScores(applied.value);
    var score := ScoreFactors(applied.value);
    var coverage := Coverage(CountAvailable(entry.expectedEvidence, b, x.entity, available), |entry.expectedEvidence|);
    r := Ok(CandidateScore(x, applied.value, score.value, coverage, matched, origin, path));
  }

  // ---------------------------------------------------------------- the ranking

  /** Higher score first, then catalogue order, then entity id. */
  predicate Outranks(c: Catalogue, a: CandidateScore, b: CandidateScore) {
    var i, j := EntryIndex(c.hypotheses, a.candidate.hypothesisType), EntryIndex(c.hypotheses, b.candidate.hypothesisType);
    a.score > b.score
    || (a.score == b.score && (i < j || (i == j && StringLess(a.candidate.entity, b.candidate.entity))))
  }

  function Merit(c: Catalogue): (CandidateScore, CandidateScore) -> bool {
    (a, b) => Outranks(c, a, b)
  }

  ghost predicate AllScored(c: Catalogue, b: Bundle, candidates: seq<Candidate>, available: Availability, scored: seq<CandidateScore>)
    requires ValidCatalogue(c)
  {
    |scored| == |candidates| && Pairwise(ScoredIn(c, b, available), candidates, scored)
  }

  /** Score every candidate, then sort. */
  method Rank(c: Catalogue, b: Bundle, candidates: seq<Candidate>, available: Availability)
    returns (r: Outcome<seq<CandidateScore>, ScoringError>, ghost scored: seq<CandidateScore>)
    requires ValidBundle(b) && ValidCatalogue(c)
    ensures r.Ok? ==> AllScored(c, b, candidates, available, scored) && r.value == SortBy(scored, Merit(c))
    ensures r.Ok? ==> RankedAs(c, b, candidates, available, r.value)
    ensures r.Raised? <==> exists i :: 0 <= i < |candidates| && Refused(c, b, candidates[i])
  {
    var done: seq<CandidateScore> := [];
    scored := [];
    for i := 0 to |candidates|
      invariant scored == done && |done| == i
      invariant Pairwise(ScoredIn(c, b, available), candidates, done)
      invariant forall k :: 0 <= k < i ==> !Refused(c, b, candidates[k])
    {
      var s := ScoreCandidate(c, b, candidates[i], available);
      if s.Raised? {
        return Raised(s.error), scored;
      }
      PairwiseAppends(ScoredIn(c, b, available), candidates, done, s.value);
      done := done + [s.value];
      scored := done;
    }
    r := Ok(SortBy(done, Merit(c)));
  }

  /** Each candidate of the list is of its own hypothesis type, known to the catalogue. */
  ghost predicate OnePerType(c: Catalogue, scored: seq<CandidateScore>) {
    && (forall i :: 0 <= i < |scored| ==> EntryIndex(c.hypotheses, scored[i].candidate.hypothesisType) < |c.hypotheses|)
    && (forall i, j :: 0 <= i < j < |scored| ==> scored[i].candidate.hypothesisType != scored[j].candidate.hypothesisType)
  }

  lemma MeritIsTotal(c: Catalogue, scored: seq<CandidateScore>)
    requires OnePerType(c, scored)
    ensures TotalOn(scored, Merit(c))
  {
    StringLessIsTotal();
    forall x, y, z | Merit(c)(x, y) && Merit(c)(y, z) ensures Merit(c)(x, z) {
    }
    forall x, y | x in scored && y in scored ensures x == y || Merit(c)(x, y) || Merit(c)(y, x) {
      var i :| 0 <= i < |scored| && scored[i] == x;
      var j :| 0 <= j < |scored| && scored[j] == y;
      if i != j {
        IndexSeparates(c, x.candidate.hypothesisType, y.candidate.hypothesisType);
      }
    }
  }

  lemma IndexSeparates(c: Catalogue, s: string, t: string)
    requires s != t && EntryIndex(c.hypotheses, s) < |c.hypotheses|
    ensures EntryIndex(c.hypotheses, s) != EntryIndex(c.hypotheses, t)
  {
  }

  lemma ScoresSortAlike(c: Catalogue, one: seq<CandidateScore>, other: seq<CandidateScore>)
    requires OnePerType(c, one) && multiset(one) == multiset(other)
    ensures SortBy(one, Merit(c)) == SortBy(other, Merit(c))
  {
    MeritIsTotal(c, one);
    SortIgnoresOrder(one, other, Merit(c));
  }

  /** The ranking runs from the best score down. */
  lemma RankedByScore(c: Catalogue, scored: seq<CandidateScore>, i: nat, j: nat)
    requires OnePerType(c, scored) && i < j < |SortBy(scored, Merit(c))|
    ensures SortBy(scored, Merit(c))[i].score >= SortBy(scored, Merit(c))[j].score
  {
    MeritIsTotal(c, scored);
    SortByOrders(scored, Merit(c));
    OrderedPairs(SortBy(scored, Merit(c)), Merit(c), i, j);
  }

  // ---------------------------------------------------------------- a score is a function of its candidate

  /** The topology factor settles on one origin and one path. */
  lemma NearestIsDetermined(edges: seq<Edge>, p: Policy, origins: seq<Node>, target: Node,
                            o: Option<Node>, v: seq<Node>, q: Option<Node>, w: seq<Node>)
    requires Nearest(edges, p, origins, target, o, v) && Nearest(edges, p, origins, target, q, w)
    ensures o == q && v == w
  {
    if o.Some? && q.Some? {
      var i :| 0 <= i < |origins| && origins[i] == o.value && FirstNearest(edges, p, origins, target, i, |v| - 1);
      var j :| 0 <= j < |origins| && origins[j] == q.value && FirstNearest(edges, p, origins, target, j, |w| - 1);
      ShortestIsDistance(edges, p, v, o.value, target);
      ShortestIsDistance(edges, p, w, q.value, target);
      assert i == j;
      PathIsDetermined(edges, p, o.value, target, Some(v), Some(w));
    }
  }

  /** Scoring a candidate twice gives the same score, factors, conflicts, origin and path. */
  lemma ScoreIsDetermined(c: Catalogue, b: Bundle, x: Candidate, available: Availability, s: CandidateScore, t: CandidateScore)
    requires ValidCatalogue(c) && ScoredIn(c, b, available)(x, s) && ScoredIn(c, b, available)(x, t)
    ensures s == t
  {
    var entry := c.hypotheses[EntryIndex(c.hypotheses, x.hypothesisType)];
    NearestIsDetermined(b.edges, entry.traversal, TopologyOrigins(entry, b), x.entity, s.origin, s.path, t.origin, t.path);
  }

  lemma AllScoredDetermined(c: Catalogue, b: Bundle, cs: seq<Candidate>, available: Availability, one: seq<CandidateScore>, other: seq<CandidateScore>)
    requires ValidCatalogue(c) && AllScored(c, b, cs, available, one) && AllScored(c, b, cs, available, other)
    ensures one == other
  {
    forall i | 0 <= i < |cs| ensures one[i] == other[i] {
      ScoreIsDetermined(c, b, cs[i], available, one[i], other[i]);
    }
  }

  lemma ScoresItsCandidate(c: Catalogue, b: Bundle, x: Candidate, available: Availability, s: CandidateScore)
    requires ValidCatalogue(c) && ScoredIn(c, b, available)(x, s)
    ensures s.candidate == x && EntryIndex(c.hypotheses, x.hypothesisType) < |c.hypotheses|
  {
  }

  /** Candidates of different types get scores of different types, all in the catalogue. */
  lemma ScoredOnePerType(c: Catalogue, b: Bundle, cs: seq<Candidate>, available: Availability, scored: seq<CandidateScore>)
    requires ValidCatalogue(c) && AllScored(c, b, cs, available, scored) && TypesDiffer(cs)
    ensures OnePerType(c, scored)
  {
    forall i | 0 <= i < |cs| ensures scored[i].candidate == cs[i] && EntryIndex(c.hypotheses, cs[i].hypothesisType) < |c.hypotheses| {
      ScoresItsCandidate(c, b, cs[i], available, scored[i]);
    }
  }

  /** What is generated from a valid catalogue is such a list. */
  lemma GeneratedOnePerType(c: Catalogue, b: Bundle, available: Availability, scored: seq<CandidateScore>)
    requires ValidCatalogue(c) && AllScored(c, b, Candidates(c, b), available, scored)
    ensures OnePerType(c, scored)
  {
    GeneratedCandidates(c, b);
    ScoredOnePerType(c, b, Candidates(c, b), available, scored);
  }

  // ---------------------------------------------------------------- the ranking ignores the order of candidates

  /** A result of ranking a list of candidates. */
  ghost predicate RankedAs(c: Catalogue, b: Bundle, cs: seq<Candidate>, available: Availability, r: seq<CandidateScore>)
    requires ValidCatalogue(c)
  {
    exists scored :: AllScored(c, b, cs, available, scored) && r == SortBy(scored, Merit(c))
  }

  /** A candidate and a score but for the label, which numbers the candidates in generation order. */
  function Unlabelled(x: Candidate): Candidate {
    x.(id := "")
  }

  function Plain(s: CandidateScore): CandidateScore {
    s.(candidate := Unlabelled(s.candidate))
  }

  /** The label plays no part in a score. */
  lemma LabelIsIdle(c: Catalogue, b: Bundle, x: Candidate, available: Availability, s: CandidateScore)
    requires ValidCatalogue(c) && ScoredIn(c, b, available)(x, s)
    ensures ScoredIn(c, b, available)(Unlabelled(x), Plain(s))
  {
    var entry := c.hypotheses[EntryIndex(c.hypotheses, x.hypothesisType)];
    assert ScoredBy(c, entry, b, x, available, s);
    assert ScoredBy(c, entry, b, Unlabelled(x), available, Plain(s));
  }

  lemma PlainScored(c: Catalogue, b: Bundle, cs: seq<Candidate>, available: Availability, scored: seq<CandidateScore>)
    requires ValidCatalogue(c) && AllScored(c, b, cs, available, scored)
    ensures AllScored(c, b, Mapped(cs, Unlabelled), available, Mapped(scored, Plain))
  {
    var good := ScoredIn(c, b, available);
    forall i | 0 <= i < |cs| ensures good(Mapped(cs, Unlabelled)[i], Mapped(scored, Plain)[i]) {
      assert good(cs[i], scored[i]);
      LabelIsIdle(c, b, cs[i], available, scored[i]);
    }
  }

  /** The scores of a permuted list are the permuted scores. */
  lemma PermutedScores(c: Catalogue, b: Bundle, one: seq<Candidate>, other: seq<Candidate>, available: Availability,
                       s: seq<CandidateScore>, t: seq<CandidateScore>)
    requires ValidCatalogue(c) && TypesDiffer(one) && TypesDiffer(other) && forall x :: x in one <==> x in other
    requires AllScored(c, b, one, available, s) && AllScored(c, b, other, available, t)
    ensures multiset(s) == multiset(t)
  {
    ScoredOnePerType(c, b, one, available, s);
    ScoredOnePerType(c, b, other, available, t);
    forall x ensures x in s <==> x in t {
      if x in s {
        ScoredElsewhere(c, b, one, other, available, s, t, x);
      }
      if x in t {
        ScoredElsewhere(c, b, other, one, available, t, s, x);
      }
    }
    DistinctSameMembers(s, t);
  }

  lemma ScoredElsewhere(c: Catalogue, b: Bundle, one: seq<Candidate>, other: seq<Candidate>, available: Availability,
                        s: seq<CandidateScore>, t: seq<CandidateScore>, x: CandidateScore)
    requires ValidCatalogue(c) && (forall y :: y in one ==> y in other) && x in s
    requires AllScored(c, b, one, available, s) && AllScored(c, b, other, available, t)
    ensures x in t
  {
    var i :| 0 <= i < |s| && s[i] == x;
    ScoresItsCandidate(c, b, one[i], available, s[i]);
    assert one[i] in other;
    var j :| 0 <= j < |other| && other[j] == one[i];
    ScoreIsDetermined(c, b, one[i], available, s[i], t[j]);
  }

  lemma MeritIsPlain(c: Catalogue, x: CandidateScore, y: CandidateScore)
    ensures Merit(c)(Plain(x), Plain(y)) <==> Merit(c)(x, y)
  {
  }

  /** Sorting commutes with dropping the labels. */
  lemma SortCommutes(items: seq<CandidateScore>, c: Catalogue)
    ensures Mapped(SortBy(items, Merit(c)), Plain) == SortBy(Mapped(items, Plain), Merit(c))
  {
    forall x, y ensures Merit(c)(Plain(x), Plain(y)) <==> Merit(c)(x, y) {
      MeritIsPlain(c, x, y);
    }
    SortMaps(items, Merit(c), Plain);
  }

  /** With at most one candidate per hypothesis type, ranking a list of candidates gives the same result
      in whatever order they come, but for labels if they were numbered anew. */
  lemma RankIgnoresOrder(c: Catalogue, b: Bundle, one: seq<Candidate>, other: seq<Candidate>, available: Availability,
                         r: seq<CandidateScore>, q: seq<CandidateScore>)
    requires ValidCatalogue(c) && TypesDiffer(one) && multiset(Mapped(one, Unlabelled)) == multiset(Mapped(other, Unlabelled))
    requires RankedAs(c, b, one, available, r) && RankedAs(c, b, other, available, q)
    ensures Mapped(r, Plain) == Mapped(q, Plain)
    ensures multiset(one) == multiset(other) ==> r == q
  {
    var s :| AllScored(c, b, one, available, s) && r == SortBy(s, Merit(c));
    var t :| AllScored(c, b, other, available, t) && q == SortBy(t, Merit(c));
    PlainScored(c, b, one, available, s);
    PlainScored(c, b, other, available, t);
    SortCommutes(s, c);
    SortCommutes(t, c);
    PermutedTypesDiffer(Mapped(one, Unlabelled), Mapped(other, Unlabelled));
    SameRanking(c, b, Mapped(one, Unlabelled), Mapped(other, Unlabelled), available, Mapped(s, Plain), Mapped(t, Plain));
    if multiset(one) == multiset(other) {
      PermutedTypesDiffer(one, other);
      SameRanking(c, b, one, other, available, s, t);
    }
  }

  lemma SameRanking(c: Catalogue, b: Bundle, one: seq<Candidate>, other: seq<Candidate>, available: Availability,
                    s: seq<CandidateScore>, t: seq<CandidateScore>)
    requires ValidCatalogue(c) && TypesDiffer(one) && TypesDiffer(other) && multiset(one) == multiset(other)
    requires AllScored(c, b, one, available, s) && AllScored(c, b, other, available, t)
    ensures SortBy(s, Merit(c)) == SortBy(t, Merit(c))
  {
    forall x ensures x in one <==> x in other {
      assert x in multiset(one) <==> x in multiset(other);
    }
    PermutedScores(c, b, one, other, available, s, t);
    ScoredOnePerType(c, b, one, available, s);
    ScoresSortAlike(c, s, t);
  }

  lemma PermutedTypesDiffer(one: seq<Candidate>, other: seq<Candidate>)
    requires TypesDiffer(one) && multiset(one) == multiset(other)
    ensures TypesDiffer(other)
  {
    forall i, j | 0 <= i < j < |other| ensures other[i].hypothesisType != other[j].hypothesisType {
      assert other[i] in multiset(other) && other[j] in multiset(other);
      var k :| 0 <= k < |one| && one[k] == other[i];
      var l :| 0 <= l < |one| && one[l] == other[j];
      if k == l {
        TwiceCounts(other, i, j);
        DistinctCount(one, other[i]);
      }
    }
  }

  /** Whether ranking is refused does not depend on the order either. */
  lemma RefusalIgnoresOrder(c: Catalogue, b: Bundle, one: seq<Candidate>, other: seq<Candidate>, i: nat)
    requires multiset(Mapped(one, Unlabelled)) == multiset(Mapped(other, Unlabelled)) && i < |one| && Refused(c, b, one[i])
    ensures exists j :: 0 <= j < |other| && Refused(c, b, other[j])
  {
    assert Mapped(one, Unlabelled)[i] in multiset(Mapped(other, Unlabelled));
    var j :| 0 <= j < |other| && Mapped(other, Unlabelled)[j] == Unlabelled(one[i]);
    assert Refused(c, b, other[j]);
  }

  // ---------------------------------------------------------------- a foreign conflict factor

  /** A catalogue the validator accepts, whose conflict pattern names no factor of the rubric. */
  function ForeignCatalogue(): Catalogue {
    var pattern := ConflictPattern("p", Effect(Unsupported("luck"), Cap, 0.5), Pattern({}, {"ALERT"}, {}, None, None, {}), "s");
    Catalogue(map[], map[], [Entry("t", {"service"}, Policy(SendsTrafficTo, Forward, 1), GenerationRule(PrimaryEntity, false, {}, {}, {}),
                                   false, {}, {}, {}, [], [], [], [pattern], "s", [], [])])
  }

  /** A bundle with one event that matches it. */
  function OneAlert(): Bundle {
    Bundle(Incident("i", "a", ["a"]), [CanonicalEvent("e", 0, "a", Alert, "ALERT", None, None, None, "alertmanager", None, map[])], [], [],
           [TopologyNode("a", "service")], [], [])
  }

  /** The ranker refuses the candidate. */
  lemma ForeignFactorRefused()
    ensures ValidCatalogue(ForeignCatalogue()) && ValidBundle(OneAlert())
    ensures Refused(ForeignCatalogue(), OneAlert(), Candidate("candidate_001", "t", "a"))
  {
    var c, b := ForeignCatalogue(), OneAlert();
    var pattern := c.hypotheses[0].conflictPatterns[0];
    WhereMembers(b.events, e => Observes(pattern.pattern, b, e), b.events[0]);
    SortKeepsMembers(Where(b.events, e => Observes(pattern.pattern, b, e)), EarlierEvent, b.events[0]);
    assert ConflictSource(pattern, b).Some?;
    assert Effects(Matched([pattern], b))[0].factor.Unsupported?;
  }
}
