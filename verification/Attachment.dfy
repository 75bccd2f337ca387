/** How well an event fits an incident. Scores are kept in hundredths; each contribution of the source
    is a whole number of them, so its final rounding to two places only undoes float noise. */
module Attachment {
  import opened Common
  import opened Contracts
  import opened TypedGraph

  datatype Reason =
    | AfterIncidentWindow
    | SameEntity
    | OneTrafficHop
    | TwoTrafficHops
    | SharedTrace
    | CompatibleSymptom
    | Incompatible(code: string)
    | DifferentTrace
    | WithinSixtySeconds
    | RuleReason(code: string)
    | BetterIncidentMatch

  datatype Evaluation = Evaluation(attached: bool, score: int, reasons: seq<Reason>)

  datatype RuleMatch = RuleMatch(rule: string, reason: Option<string>)

  /** The symptom catalogue and the topology, as lookups. */
  datatype Knowledge = Knowledge(
    families: string -> seq<string>,
    incompatibility: (string, seq<string>) -> Option<string>,
    rules: (CanonicalEvent, Option<string>, int) -> seq<RuleMatch>,
    trafficDistance: (Node, Node) -> Option<nat>)

  datatype Settings = Settings(threshold: real, openThreshold: real, idleWindow: nat, lookback: nat)

  const SECOND := 1_000_000
  const DEFAULTS := Settings(0.40, 0.75, 300 * SECOND, 300 * SECOND)

  datatype Context = Context(family: Option<string>, trace: Option<string>, openingAt: int)

  /** The incident fields attachment looks at. */
  datatype Target = Target(primary: Node, startedAt: int, lastEventAt: int)

  // ---------------------------------------------------------------- the contributions, one by one

  function TopologyPoints(k: Knowledge, t: Target, e: CanonicalEvent): int {
    if e.entityId == t.primary then 40
    else match k.trafficDistance(t.primary, e.entityId)
      case Some(d) => if d == 1 then 30 else if d == 2 then 15 else 0
      case None => 0
  }

  predicate SharesTrace(c: Context, e: CanonicalEvent) {
    c.trace.Some? && e.traceId == c.trace
  }

  predicate OtherTrace(c: Context, e: CanonicalEvent) {
    c.trace.Some? && e.traceId.Some? && e.traceId != c.trace
  }

  function FamilyClash(k: Knowledge, c: Context, e: CanonicalEvent): Option<string> {
    if c.family.None? then None else k.incompatibility(c.family.value, k.families(e.eventType))
  }

  predicate FamilyMatch(k: Knowledge, c: Context, e: CanonicalEvent) {
    c.family.Some? && c.family.value in k.families(e.eventType)
  }

  function FamilyPoints(k: Knowledge, c: Context, e: CanonicalEvent): int {
    if FamilyMatch(k, c, e) then 20 else if FamilyClash(k, c, e).Some? then -25 else 0
  }

  predicate Near(t: Target, c: Context, e: CanonicalEvent, lookback: bool) {
    var anchor := if lookback then c.openingAt else t.startedAt;
    -60 * SECOND <= e.timestamp - anchor <= 60 * SECOND
  }

  function Points(condition: bool, n: int): int {
    if condition then n else 0
  }

  function Sum(k: Knowledge, t: Target, c: Context, e: CanonicalEvent, lookback: bool): int {
    TopologyPoints(k, t, e) + Points(SharesTrace(c, e), 40) + FamilyPoints(k, c, e)
    - Points(OtherTrace(c, e), 20) + Points(Near(t, c, e, lookback), 10)
  }

  /** The sum of the contributions, capped. */
  function Score(k: Knowledge, t: Target, c: Context, e: CanonicalEvent, lookback: bool): (r: int)
    ensures -100 <= r <= 100
  {
    var sum := Sum(k, t, c, e, lookback);
    if sum < -100 then -100 else if sum > 100 then 100 else sum
  }

  predicate Related(k: Knowledge, t: Target, c: Context, e: CanonicalEvent) {
    TopologyPoints(k, t, e) > 0 || SharesTrace(c, e)
  }

  predicate TooLate(s: Settings, t: Target, e: CanonicalEvent, lookback: bool) {
    !lookback && e.timestamp > t.lastEventAt + s.idleWindow
  }

  /** An event attaches when it carries a signal, is related and scores at least the threshold. */
  predicate Attaches(s: Settings, k: Knowledge, t: Target, c: Context, e: CanonicalEvent, anomalies: seq<AnomalyRecord>, lookback: bool) {
    && !TooLate(s, t, e, lookback)
    && (anomalies != [] || k.rules(e, c.family, c.openingAt) != [])
    && Related(k, t, c, e)
    && Score(k, t, c, e, lookback) as real / 100.0 >= s.threshold
  }

  /** An incompatible event keeps its topology points but not the topology reasons. */
  function WithoutHops(reasons: seq<Reason>): (r: seq<Reason>)
    ensures forall x :: x in r <==> x in reasons && !x.OneTrafficHop? && !x.TwoTrafficHops?
  {
    if reasons == [] then []
    else
      assert reasons == [reasons[0]] + reasons[1..];
      (if reasons[0].OneTrafficHop? || reasons[0].TwoTrafficHops? then [] else [reasons[0]]) + WithoutHops(reasons[1..])
  }

  function RuleReasons(matches: seq<RuleMatch>): (r: seq<Reason>)
    ensures forall x :: x in r ==> x.RuleReason?
  {
    if matches == [] then []
    else (if matches[0].reason.Some? && matches[0].reason.value != "" then [RuleReason(matches[0].reason.value)] else []) + RuleReasons(matches[1..])
  }

  function Said(condition: bool, reason: Reason): seq<Reason> {
    if condition then [reason] else []
  }

  function TopologyReasons(k: Knowledge, t: Target, e: CanonicalEvent): seq<Reason> {
    if e.entityId == t.primary then [SameEntity]
    else match k.trafficDistance(t.primary, e.entityId)
      case Some(d) => if d == 1 then [OneTrafficHop] else if d == 2 then [TwoTrafficHops] else []
      case None => []
  }

  /** The reasons up to the symptom family. */
  function FamilyReasons(k: Knowledge, t: Target, c: Context, e: CanonicalEvent): seq<Reason> {
    var base := TopologyReasons(k, t, e) + Said(SharesTrace(c, e), SharedTrace);
    if FamilyMatch(k, c, e) then base + [CompatibleSymptom]
    else match FamilyClash(k, c, e)
      case Some(code) => WithoutHops(base + [Incompatible(code)])
      case None => base
  }

  /** All reasons, in the order the rules are tried. */
  function Reasons(k: Knowledge, t: Target, c: Context, e: CanonicalEvent, lookback: bool): seq<Reason> {
    FamilyReasons(k, t, c, e) + Said(OtherTrace(c, e), DifferentTrace)
    + Said(Near(t, c, e, lookback) && lookback && e.timestamp < c.openingAt, WithinSixtySeconds)
    + RuleReasons(k.rules(e, c.family, c.openingAt))
  }

  lemma FamilyReasonsTell(k: Knowledge, t: Target, c: Context, e: CanonicalEvent)
    ensures var said := FamilyReasons(k, t, c, e);
            && (SameEntity in said <==> e.entityId == t.primary) && (SharedTrace in said <==> SharesTrace(c, e))
            && (CompatibleSymptom in said <==> FamilyMatch(k, c, e)) && DifferentTrace !in said
  {
  }

  /** The reasons tell the contributions: every one but the symptom penalty, the live proximity point and
      the hops of an incompatible event can be read off them. */
  lemma ReasonsTell(k: Knowledge, t: Target, c: Context, e: CanonicalEvent, lookback: bool)
    ensures var told := Dedupe(Reasons(k, t, c, e, lookback));
            && (SameEntity in told <==> e.entityId == t.primary) && (SharedTrace in told <==> SharesTrace(c, e))
            && (CompatibleSymptom in told <==> FamilyMatch(k, c, e)) && (DifferentTrace in told <==> OtherTrace(c, e))
  {
    FamilyReasonsTell(k, t, c, e);
  }

  /** The hop reasons are shown unless the event is incompatible. */
  ghost predicate HopsShown(k: Knowledge, t: Target, c: Context, e: CanonicalEvent, said: seq<Reason>) {
    var shown := e.entityId != t.primary && (FamilyMatch(k, c, e) || FamilyClash(k, c, e).None?);
    && (OneTrafficHop in said <==> shown && k.trafficDistance(t.primary, e.entityId) == Some(1))
    && (TwoTrafficHops in said <==> shown && k.trafficDistance(t.primary, e.entityId) == Some(2))
  }

  lemma FamilyReasonsShowHops(k: Knowledge, t: Target, c: Context, e: CanonicalEvent)
    ensures HopsShown(k, t, c, e, FamilyReasons(k, t, c, e))
  {
    var base := TopologyReasons(k, t, e) + Said(SharesTrace(c, e), SharedTrace);
    assert OneTrafficHop in base <==> e.entityId != t.primary && k.trafficDistance(t.primary, e.entityId) == Some(1);
    assert TwoTrafficHops in base <==> e.entityId != t.primary && k.trafficDistance(t.primary, e.entityId) == Some(2);
  }

  /** The reasons after the symptom family. */
  function LaterReasons(k: Knowledge, t: Target, c: Context, e: CanonicalEvent, lookback: bool): seq<Reason> {
    Said(OtherTrace(c, e), DifferentTrace)
    + Said(Near(t, c, e, lookback) && lookback && e.timestamp < c.openingAt, WithinSixtySeconds)
    + RuleReasons(k.rules(e, c.family, c.openingAt))
  }

  lemma LaterReasonsNameNoHops(k: Knowledge, t: Target, c: Context, e: CanonicalEvent, lookback: bool)
    ensures OneTrafficHop !in LaterReasons(k, t, c, e, lookback) && TwoTrafficHops !in LaterReasons(k, t, c, e, lookback)
  {
  }

  lemma HopsStayShown(k: Knowledge, t: Target, c: Context, e: CanonicalEvent, said: seq<Reason>, rest: seq<Reason>)
    requires HopsShown(k, t, c, e, said) && OneTrafficHop !in rest && TwoTrafficHops !in rest
    ensures HopsShown(k, t, c, e, Dedupe(said + rest))
  {
  }

  lemma Regrouped(a: seq<Reason>, b: seq<Reason>, c: seq<Reason>, d: seq<Reason>, said: seq<Reason>, rest: seq<Reason>)
    requires said == a + b + c + d && rest == b + c + d
    ensures said == a + rest
  {
  }

  lemma ReasonsShowHops(k: Knowledge, t: Target, c: Context, e: CanonicalEvent, lookback: bool)
    ensures HopsShown(k, t, c, e, Dedupe(Reasons(k, t, c, e, lookback)))
  {
    FamilyReasonsShowHops(k, t, c, e);
    LaterReasonsNameNoHops(k, t, c, e, lookback);
    Regrouped(FamilyReasons(k, t, c, e), Said(OtherTrace(c, e), DifferentTrace),
              Said(Near(t, c, e, lookback) && lookback && e.timestamp < c.openingAt, WithinSixtySeconds), RuleReasons(k.rules(e, c.family, c.openingAt)),
              Reasons(k, t, c, e, lookback), LaterReasons(k, t, c, e, lookback));
    HopsStayShown(k, t, c, e, FamilyReasons(k, t, c, e), LaterReasons(k, t, c, e, lookback));
  }

  /** The running score, reasons and relationship after the entity and trace tests. */
  method ScoreRelationship(k: Knowledge, t: Target, c: Context, e: CanonicalEvent) returns (score: int, reasons: seq<Reason>, related: bool)
    ensures score == TopologyPoints(k, t, e) + Points(SharesTrace(c, e), 40)
    ensures reasons == TopologyReasons(k, t, e) + Said(SharesTrace(c, e), SharedTrace)
    ensures related == Related(k, t, c, e)
    ensures related <==> e.entityId == t.primary || k.trafficDistance(t.primary, e.entityId) in {Some(1), Some(2)}
                         || (c.trace.Some? && e.traceId == c.trace)
  {
    score, reasons, related := 0, [], false;
    if e.entityId == t.primary {
      score, reasons, related := score + 40, reasons + [SameEntity], true;
    } else {
      var distance := k.trafficDistance(t.primary, e.entityId);
      if distance == Some(1) {
        score, reasons, related := score + 30, reasons + [OneTrafficHop], true;
      } else if distance == Some(2) {
        score, reasons, related := score + 15, reasons + [TwoTrafficHops], true;
      }
    }
    if c.trace.Some? && e.traceId == c.trace {
      score, reasons, related := score + 40, reasons + [SharedTrace], true;
    }
  }

  /** The running score and reasons after the symptom and trace conflicts and the time test. */
  method ScoreSymptoms(k: Knowledge, t: Target, c: Context, e: CanonicalEvent, lookback: bool, start: int, said: seq<Reason>)
    returns (score: int, reasons: seq<Reason>)
    requires said == TopologyReasons(k, t, e) + Said(SharesTrace(c, e), SharedTrace)
    ensures score == start + FamilyPoints(k, c, e) - Points(OtherTrace(c, e), 20) + Points(Near(t, c, e, lookback), 10)
    ensures reasons == FamilyReasons(k, t, c, e) + Said(OtherTrace(c, e), DifferentTrace)
                       + Said(Near(t, c, e, lookback) && lookback && e.timestamp < c.openingAt, WithinSixtySeconds)
  {
    score, reasons := start, said;
    var clash := FamilyClash(k, c, e);
    if FamilyMatch(k, c, e) {
      score, reasons := score + 20, reasons + [CompatibleSymptom];
    } else if clash.Some? {
      score, reasons := score - 25, WithoutHops(reasons + [Incompatible(clash.value)]);
    }
    if c.trace.Some? && e.traceId.Some? && e.traceId != c.trace {
      score, reasons := score - 20, reasons + [DifferentTrace];
    }
    var anchor := if lookback then c.openingAt else t.startedAt;
    if -60 * SECOND <= e.timestamp - anchor <= 60 * SECOND {
      score := score + 10;
      if lookback && e.timestamp < c.openingAt {
        reasons := reasons + [WithinSixtySeconds];
      }
    }
  }

  /** The event comes in time for the incident. */
  predicate InTime(s: Settings, t: Target, e: CanonicalEvent, lookback: bool) {
    lookback || e.timestamp <= t.lastEventAt + s.idleWindow
  }

  method ScoreAttachment(s: Settings, k: Knowledge, t: Target, c: Context, e: CanonicalEvent, anomalies: seq<AnomalyRecord>, lookback: bool)
    returns (r: Evaluation)
    ensures r == Assess(s, k, t, c, e, anomalies, lookback)
    ensures !InTime(s, t, e, lookback) ==> r == Evaluation(false, 0, [AfterIncidentWindow])
    ensures InTime(s, t, e, lookback) ==>
              var distance := k.trafficDistance(t.primary, e.entityId);
              var anchor := if lookback then c.openingAt else t.startedAt;
              var place := if e.entityId == t.primary then 40 else if distance == Some(1) then 30 else if distance == Some(2) then 15 else 0;
              var trace := if c.trace.None? || e.traceId.None? then 0 else if e.traceId == c.trace then 40 else -20;
              var family := if c.family.None? then 0
                            else if c.family.value in k.families(e.eventType) then 20
                            else if k.incompatibility(c.family.value, k.families(e.eventType)).Some? then -25
                            else 0;
              var time := if anchor - 60_000_000 <= e.timestamp <= anchor + 60_000_000 then 10 else 0;
              && (-100 <= place + trace + family + time <= 100 ==> r.score == place + trace + family + time)
              && (place + trace + family + time > 100 ==> r.score == 100)
              && (r.attached <==> (anomalies != [] || k.rules(e, c.family, c.openingAt) != []) && (place > 0 || trace > 0) && r.score as real / 100.0 >= s.threshold)
  {
    if !lookback && e.timestamp > t.lastEventAt + s.idleWindow {
      return Evaluation(false, 0, [AfterIncidentWindow]);
    }
    var score, reasons, related := ScoreRelationship(k, t, c, e);
    score, reasons := ScoreSymptoms(k, t, c, e, lookback, score, reasons);
    var matches := k.rules(e, c.family, c.openingAt);
    reasons := reasons + RuleReasons(matches);
    var significant := anomalies != [] || matches != [];
    score := if score < -100 then -100 else if score > 100 then 100 else score;
    var attach := significant && related && score as real / 100.0 >= s.threshold;
    r := Evaluation(attach, score, Dedupe(reasons));
  }

  /** The evaluation as a value. */
  function Assess(s: Settings, k: Knowledge, t: Target, c: Context, e: CanonicalEvent, anomalies: seq<AnomalyRecord>, lookback: bool): Evaluation {
    if TooLate(s, t, e, lookback) then Evaluation(false, 0, [AfterIncidentWindow])
    else Evaluation(Attaches(s, k, t, c, e, anomalies, lookback), Score(k, t, c, e, lookback), Dedupe(Reasons(k, t, c, e, lookback)))
  }

  // ---------------------------------------------------------------- what moves a score, and by how much

  /** `p` scores at least as much as `q`, and `gap` points more unless one of them is at a cap. */
  predicate Leads(p: Evaluation, q: Evaluation, gap: nat) {
    p.score >= q.score && (-100 < p.score < 100 && -100 < q.score < 100 ==> p.score == q.score + gap)
  }

  lemma SumsLead(s: Settings, k: Knowledge, t: Target, c: Context, e: CanonicalEvent, f: CanonicalEvent, anomalies: seq<AnomalyRecord>, lookback: bool,
                 gap: nat)
    requires InTime(s, t, e, lookback) && InTime(s, t, f, lookback) && Sum(k, t, c, e, lookback) == Sum(k, t, c, f, lookback) + gap
    ensures Leads(Assess(s, k, t, c, e, anomalies, lookback), Assess(s, k, t, c, f, anomalies, lookback), gap)
  {
  }

  /** On the primary entity rather than one hop away. */
  lemma FirstHopCosts(s: Settings, k: Knowledge, t: Target, c: Context, e: CanonicalEvent, anomalies: seq<AnomalyRecord>, lookback: bool, one: Node)
    requires InTime(s, t, e, lookback) && one != t.primary && k.trafficDistance(t.primary, one) == Some(1)
    ensures Leads(Assess(s, k, t, c, e.(entityId := t.primary), anomalies, lookback), Assess(s, k, t, c, e.(entityId := one), anomalies, lookback), 10)
  {
    SumsLead(s, k, t, c, e.(entityId := t.primary), e.(entityId := one), anomalies, lookback, 10);
  }

  /** One hop away rather than two. */
  lemma SecondHopCosts(s: Settings, k: Knowledge, t: Target, c: Context, e: CanonicalEvent, anomalies: seq<AnomalyRecord>, lookback: bool, one: Node, two: Node)
    requires InTime(s, t, e, lookback) && t.primary !in {one, two} && k.trafficDistance(t.primary, one) == Some(1) && k.trafficDistance(t.primary, two) == Some(2)
    ensures Leads(Assess(s, k, t, c, e.(entityId := one), anomalies, lookback), Assess(s, k, t, c, e.(entityId := two), anomalies, lookback), 15)
  {
    SumsLead(s, k, t, c, e.(entityId := one), e.(entityId := two), anomalies, lookback, 15);
  }

  /** Two hops away rather than further or not at all. */
  lemma UnrelatedCosts(s: Settings, k: Knowledge, t: Target, c: Context, e: CanonicalEvent, anomalies: seq<AnomalyRecord>, lookback: bool, two: Node, other: Node)
    requires InTime(s, t, e, lookback) && t.primary !in {two, other} && k.trafficDistance(t.primary, two) == Some(2) && k.trafficDistance(t.primary, other) !in {Some(1), Some(2)}
    ensures Leads(Assess(s, k, t, c, e.(entityId := two), anomalies, lookback), Assess(s, k, t, c, e.(entityId := other), anomalies, lookback), 15)
  {
    SumsLead(s, k, t, c, e.(entityId := two), e.(entityId := other), anomalies, lookback, 15);
  }

  /** Of the incident's own trace rather than of none. */
  lemma SharedTraceGains(s: Settings, k: Knowledge, t: Target, c: Context, e: CanonicalEvent, anomalies: seq<AnomalyRecord>, lookback: bool)
    requires InTime(s, t, e, lookback) && c.trace.Some?
    ensures Leads(Assess(s, k, t, c, e.(traceId := c.trace), anomalies, lookback), Assess(s, k, t, c, e.(traceId := None), anomalies, lookback), 40)
  {
    SumsLead(s, k, t, c, e.(traceId := c.trace), e.(traceId := None), anomalies, lookback, 40);
  }

  /** Of another trace rather than of none. */
  lemma OtherTraceCosts(s: Settings, k: Knowledge, t: Target, c: Context, e: CanonicalEvent, anomalies: seq<AnomalyRecord>, lookback: bool, other: string)
    requires InTime(s, t, e, lookback) && c.trace.Some? && c.trace != Some(other)
    ensures Leads(Assess(s, k, t, c, e.(traceId := None), anomalies, lookback), Assess(s, k, t, c, e.(traceId := Some(other)), anomalies, lookback), 20)
  {
    SumsLead(s, k, t, c, e.(traceId := None), e.(traceId := Some(other)), anomalies, lookback, 20);
  }

  /** Of a type in the incident's symptom family rather than one that has nothing to do with it. */
  lemma FamilyGains(s: Settings, k: Knowledge, t: Target, c: Context, e: CanonicalEvent, anomalies: seq<AnomalyRecord>, lookback: bool, kin: string, stranger: string)
    requires InTime(s, t, e, lookback) && c.family.Some? && c.family.value in k.families(kin)
    requires c.family.value !in k.families(stranger) && k.incompatibility(c.family.value, k.families(stranger)).None?
    ensures Leads(Assess(s, k, t, c, e.(eventType := kin), anomalies, lookback), Assess(s, k, t, c, e.(eventType := stranger), anomalies, lookback), 20)
  {
    SumsLead(s, k, t, c, e.(eventType := kin), e.(eventType := stranger), anomalies, lookback, 20);
  }

  /** Of a type incompatible with that family rather than one that has nothing to do with it. */
  lemma ClashCosts(s: Settings, k: Knowledge, t: Target, c: Context, e: CanonicalEvent, anomalies: seq<AnomalyRecord>, lookback: bool, stranger: string, foe: string)
    requires InTime(s, t, e, lookback) && c.family.Some? && c.family.value !in k.families(stranger) && c.family.value !in k.families(foe)
    requires k.incompatibility(c.family.value, k.families(stranger)).None? && k.incompatibility(c.family.value, k.families(foe)).Some?
    ensures Leads(Assess(s, k, t, c, e.(eventType := stranger), anomalies, lookback), Assess(s, k, t, c, e.(eventType := foe), anomalies, lookback), 25)
  {
    SumsLead(s, k, t, c, e.(eventType := stranger), e.(eventType := foe), anomalies, lookback, 25);
  }

  /** Within a minute of the incident's start, or of its opening event in a lookback, rather than not. */
  lemma ProximityGains(s: Settings, k: Knowledge, t: Target, c: Context, e: CanonicalEvent, anomalies: seq<AnomalyRecord>, lookback: bool,
                       near: int, far: int)
    requires InTime(s, t, e.(timestamp := near), lookback) && InTime(s, t, e.(timestamp := far), lookback)
    requires var anchor := if lookback then c.openingAt else t.startedAt;
             anchor - 60_000_000 <= near <= anchor + 60_000_000 && !(anchor - 60_000_000 <= far <= anchor + 60_000_000)
    ensures Leads(Assess(s, k, t, c, e.(timestamp := near), anomalies, lookback),
                  Assess(s, k, t, c, e.(timestamp := far), anomalies, lookback), 10)
  {
    SumsLead(s, k, t, c, e.(timestamp := near), e.(timestamp := far), anomalies, lookback, 10);
  }

  /** At the default settings an anomalous live event within a minute of the incident's start, without
      a trace and with no family to compare, attaches exactly on the primary entity or one hop from it. */
  lemma UntracedAttachesExactly(k: Knowledge, t: Target, c: Context, e: CanonicalEvent, anomalies: seq<AnomalyRecord>)
    requires anomalies != [] && t.startedAt <= t.lastEventAt
    requires t.startedAt - 60_000_000 <= e.timestamp <= t.startedAt + 60_000_000
    requires e.traceId == None && c.family == None
    ensures Assess(DEFAULTS, k, t, c, e, anomalies, false).attached <==>
              e.entityId == t.primary || k.trafficDistance(t.primary, e.entityId) == Some(1)
  {
  }

  // ---------------------------------------------------------------- the opening event

  /** The context and target an incident is opened with. */
  function OpeningContext(k: Knowledge, e: CanonicalEvent): Context {
    Context(if k.families(e.eventType) == [] then None else Some(k.families(e.eventType)[0]), e.traceId, e.timestamp)
  }

  function OpeningTarget(e: CanonicalEvent): Target {
    Target(e.entityId, e.timestamp, e.timestamp)
  }

  /** Points of the opening event: its own entity and time always count, a trace and a known symptom
      family when it has them. */
  function OpeningPoints(k: Knowledge, e: CanonicalEvent): int {
    var sum := 50 + Points(e.traceId.Some?, 40) + Points(k.families(e.eventType) != [], 20);
    if sum > 100 then 100 else sum
  }

  /** An incident attaches its own opening event exactly when the threshold is within the opening
      event's points. */
  lemma OpeningAttachesExactly(s: Settings, k: Knowledge, e: CanonicalEvent, anomalies: seq<AnomalyRecord>)
    requires anomalies != []
    ensures Attaches(s, k, OpeningTarget(e), OpeningContext(k, e), e, anomalies, false) <==> OpeningPoints(k, e) as real / 100.0 >= s.threshold
  {
    assert Score(k, OpeningTarget(e), OpeningContext(k, e), e, false) == OpeningPoints(k, e);
  }

  /** With a threshold of at most one half the opening event always attaches. */
  lemma OpeningAlwaysAttaches(s: Settings, k: Knowledge, e: CanonicalEvent, anomalies: seq<AnomalyRecord>)
    requires anomalies != [] && s.threshold <= 0.50
    ensures Attaches(s, k, OpeningTarget(e), OpeningContext(k, e), e, anomalies, false)
  {
    OpeningAttachesExactly(s, k, e, anomalies);
    assert OpeningPoints(k, e) as real / 100.0 >= 0.50;
  }

  /** A stricter threshold misses the opening event: 50 points are fewer than 0.90, without a trace and with
      no family known for its type. */
  lemma OpeningMissed(k: Knowledge, anomalies: seq<AnomalyRecord>)
    requires anomalies != [] && k.families("ALERT") == []
    ensures var e := CanonicalEvent("e", 0, "a", Alert, "ALERT", None, None, None, "alertmanager", Some("1"), map[]);
            && OpeningPoints(k, e) == 50
            && !Attaches(DEFAULTS.(threshold := 0.90), k, OpeningTarget(e), OpeningContext(k, e), e, anomalies, false)
  {
    var e := CanonicalEvent("e", 0, "a", Alert, "ALERT", None, None, None, "alertmanager", Some("1"), map[]);
    OpeningAttachesExactly(DEFAULTS.(threshold := 0.90), k, e, anomalies);
  }
}
