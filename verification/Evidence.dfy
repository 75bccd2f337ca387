/** Evidence collection: which items a hypothesis gets, and the coverage counted from them. */
module Evidence {
  import opened Common
  import opened Contracts
  import opened RcaContracts
  import opened Sorting
  import opened TypedGraph

  datatype Kind = Observed | Correlated | Conflicting | Missing

  /** The hypothesis evidence is collected for. */
  datatype Subject = Subject(runId: string, incidentId: string, hypothesisId: string, hypothesisType: string, entity: Node)

  datatype Item = Item(
    id: string,
    runId: string,
    incidentId: string,
    hypothesisId: string,
    kind: Kind,
    source: Option<string>,
    reasonCode: string)

  datatype ConflictEffect = ConflictEffect(code: string, sourceEventId: Option<string>)

  /** The parts of a catalogue entry evidence depends on. `applied` holds the effects the ranker
      applied, when it applied any; otherwise the entry's own pattern ids are matched. */
  datatype EvidenceEntry = EvidenceEntry(expected: seq<(string, string)>, applied: Option<seq<ConflictEffect>>, patternIds: seq<string>)

  /** The matcher table and the text functions, which the model keeps abstract. */
  datatype Rules = Rules(
    matches: (string, CanonicalEvent) -> bool,
    inScope: (string, CanonicalEvent, Node) -> bool,
    observedCode: string -> string,
    missingCode: string -> string,
    identify: (string, string, Kind, string, Option<string>) -> string)

  // ---------------------------------------------------------------- accepted events

  function Upsert(kept: seq<CanonicalEvent>, e: CanonicalEvent): seq<CanonicalEvent> {
    if kept == [] then [e]
    else if kept[0].id == e.id then [e] + kept[1..]
    else [kept[0]] + Upsert(kept[1..], e)
  }

  /** A dictionary by event id: the last event of each id, in the place of the first. */
  function ById(events: seq<CanonicalEvent>): seq<CanonicalEvent> {
    if events == [] then [] else Upsert(ById(events[..|events| - 1]), events[|events| - 1])
  }

  function Accepted(events: seq<CanonicalEvent>): seq<CanonicalEvent> {
    SortBy(ById(events), EarlierEvent)
  }

  ghost predicate IdsDiffer(events: seq<CanonicalEvent>) {
    forall i, j :: 0 <= i < j < |events| ==> events[i].id != events[j].id
  }

  lemma {:induction false} UpsertIds(kept: seq<CanonicalEvent>, e: CanonicalEvent)
    requires IdsDiffer(kept)
    ensures IdsDiffer(Upsert(kept, e))
    ensures forall x :: x in Upsert(kept, e) <==> x == e || (x in kept && x.id != e.id)
  {
    if kept != [] {
      var head, tail := kept[0], kept[1..];
      assert kept == [head] + tail;
      assert forall x :: x in tail ==> x.id != head.id;
      if head.id != e.id {
        UpsertIds(tail, e);
        var rest := Upsert(tail, e);
        forall x | x in rest ensures x.id != head.id {
        }
        PrependIds(head, rest);
      } else {
        PrependIds(e, tail);
      }
    }
  }

  lemma PrependIds(head: CanonicalEvent, rest: seq<CanonicalEvent>)
    requires IdsDiffer(rest) && forall x :: x in rest ==> x.id != head.id
    ensures IdsDiffer([head] + rest)
  {
  }

  lemma {:induction false} ByIdMembers(events: seq<CanonicalEvent>)
    requires IdsIdentify(events)
    ensures IdsDiffer(ById(events))
    ensures forall x :: x in ById(events) <==> x in events
  {
    if events != [] {
      var init, last := events[..|events| - 1], events[|events| - 1];
      assert events == init + [last];
      assert IdsIdentify(init);
      ByIdMembers(init);
      UpsertIds(ById(init), last);
      forall x | x in init && x.id == last.id ensures x == last {
        var i :| 0 <= i < |init| && init[i] == x;
        assert events[i].id == events[|events| - 1].id;
      }
    }
  }

  /** Neither the order nor any repetition of the incident's events matters. */
  lemma AcceptedIgnoresOrder(one: seq<CanonicalEvent>, other: seq<CanonicalEvent>)
    requires IdsIdentify(one) && IdsIdentify(other) && forall x :: x in one <==> x in other
    ensures Accepted(one) == Accepted(other)
  {
    ByIdMembers(one);
    ByIdMembers(other);
    DistinctSameMembers(ById(one), ById(other));
    StampLessIsTotal();
    forall x, y | x in ById(one) && y in ById(one) ensures x == y || EarlierEvent(x, y) || EarlierEvent(y, x) {
      var i :| 0 <= i < |ById(one)| && ById(one)[i] == x;
      var j :| 0 <= j < |ById(one)| && ById(one)[j] == y;
    }
    SortIgnoresOrder(ById(one), ById(other), EarlierEvent);
  }

  // ---------------------------------------------------------------- matching

  /** Python's `max(..., key=(timestamp, event_id))`: the first of the latest. */
  function Latest(events: seq<CanonicalEvent>): (r: Option<CanonicalEvent>)
    ensures r.None? <==> events == []
    ensures r.Some? ==> r.value in events
  {
    if events == [] then None
    else
      assert events == [events[0]] + events[1..];
      match Latest(events[1..])
      case None => Some(events[0])
      case Some(later) => if EarlierEvent(events[0], later) then Some(later) else Some(events[0])
  }

  function ScopedMatch(rules: Rules, requirement: string, events: seq<CanonicalEvent>, x: Node): Option<CanonicalEvent> {
    Latest(Where(events, e => rules.matches(requirement, e) && rules.inScope(requirement, e, x)))
  }

  function AnyMatch(rules: Rules, requirement: string, events: seq<CanonicalEvent>): Option<CanonicalEvent> {
    Latest(Where(events, e => rules.matches(requirement, e)))
  }

  /** Some event meets the requirement within the hypothesis' scope. */
  predicate Meets(rules: Rules, requirement: string, events: seq<CanonicalEvent>, x: Node) {
    exists i :: 0 <= i < |events| && rules.matches(requirement, events[i]) && rules.inScope(requirement, events[i], x)
  }

  lemma MatchExactly(rules: Rules, requirement: string, events: seq<CanonicalEvent>, x: Node)
    ensures ScopedMatch(rules, requirement, events, x).Some? <==> Meets(rules, requirement, events, x)
  {
    var keep := e => rules.matches(requirement, e) && rules.inScope(requirement, e, x);
    var found := Where(events, keep);
    if Meets(rules, requirement, events, x) {
      var i :| 0 <= i < |events| && rules.matches(requirement, events[i]) && rules.inScope(requirement, events[i], x);
      WhereMembers(events, keep, events[i]);
    }
    if found != [] {
      WhereMembers(events, keep, found[0]);
    }
  }

  /** The requirements, each once, in order of first appearance, with the template given last. */
  function Replaced(pairs: seq<(string, string)>, p: (string, string)): seq<(string, string)> {
    if pairs == [] then [p]
    else if pairs[0].0 == p.0 then [p] + pairs[1..]
    else [pairs[0]] + Replaced(pairs[1..], p)
  }

  function ExpectedEvidence(raw: seq<(string, string)>): seq<(string, string)> {
    if raw == [] then [] else Replaced(ExpectedEvidence(raw[..|raw| - 1]), raw[|raw| - 1])
  }

  ghost predicate KeysDiffer(pairs: seq<(string, string)>) {
    forall i, j :: 0 <= i < j < |pairs| ==> pairs[i].0 != pairs[j].0
  }

  ghost predicate HasKey(pairs: seq<(string, string)>, key: string) {
    exists i :: 0 <= i < |pairs| && pairs[i].0 == key
  }

  lemma {:induction false} ReplacedKeys(pairs: seq<(string, string)>, p: (string, string), key: string)
    ensures HasKey(Replaced(pairs, p), key) <==> HasKey(pairs, key) || key == p.0
  {
    if pairs == [] {
      assert [p][0].0 == p.0;
    } else if pairs[0].0 == p.0 {
      HasKeySplits(pairs, key);
      HasKeySplits([p] + pairs[1..], key);
      assert ([p] + pairs[1..])[1..] == pairs[1..];
    } else {
      ReplacedKeys(pairs[1..], p, key);
      HasKeySplits(pairs, key);
      HasKeySplits(Replaced(pairs, p), key);
      assert Replaced(pairs, p)[1..] == Replaced(pairs[1..], p);
    }
  }

  lemma HasKeySplits(pairs: seq<(string, string)>, key: string)
    requires pairs != []
    ensures HasKey(pairs, key) <==> pairs[0].0 == key || HasKey(pairs[1..], key)
  {
    if HasKey(pairs, key) {
      var i :| 0 <= i < |pairs| && pairs[i].0 == key;
      if i > 0 {
        assert pairs[1..][i - 1].0 == key;
      }
    }
    if HasKey(pairs[1..], key) {
      var i :| 0 <= i < |pairs[1..]| && pairs[1..][i].0 == key;
      assert pairs[i + 1].0 == key;
    }
  }

  lemma {:induction false} ReplacedDiffer(pairs: seq<(string, string)>, p: (string, string))
    requires KeysDiffer(pairs)
    ensures KeysDiffer(Replaced(pairs, p))
  {
    if pairs != [] && pairs[0].0 != p.0 {
      assert forall i, j :: 0 <= i < j < |pairs[1..]| ==> pairs[1..][i].0 == pairs[i + 1].0 && pairs[1..][j].0 == pairs[j + 1].0;
      ReplacedDiffer(pairs[1..], p);
      var rest := Replaced(pairs[1..], p);
      forall j | 0 <= j < |rest| ensures rest[j].0 != pairs[0].0 {
        ReplacedKeys(pairs[1..], p, rest[j].0);
        assert HasKey(rest, rest[j].0);
        if HasKey(pairs[1..], rest[j].0) {
          var k :| 0 <= k < |pairs[1..]| && pairs[1..][k].0 == rest[j].0;
          assert pairs[0].0 != pairs[k + 1].0;
        }
      }
    }
  }

  /** Repeating a requirement in a catalogue list neither adds one nor drops one. */
  lemma {:induction false} ExpectedKeys(raw: seq<(string, string)>, key: string)
    ensures KeysDiffer(ExpectedEvidence(raw))
    ensures HasKey(ExpectedEvidence(raw), key) <==> HasKey(raw, key)
  {
    if raw != [] {
      var init, last := raw[..|raw| - 1], raw[|raw| - 1];
      ExpectedKeys(init, key);
      ReplacedDiffer(ExpectedEvidence(init), last);
      ReplacedKeys(ExpectedEvidence(init), last, key);
      assert HasKey(raw, key) <==> HasKey(init, key) || last.0 == key by {
        if HasKey(init, key) {
          var i :| 0 <= i < |init| && init[i].0 == key;
          assert raw[i].0 == key;
        }
        if HasKey(raw, key) {
          var i :| 0 <= i < |raw| && raw[i].0 == key;
          if i < |init| {
            assert init[i].0 == key;
          }
        }
      }
    }
  }

  /** Of a requirement listed twice the template given last is kept, in the place of the first. */
  lemma LastTemplateKept(key: string, first: string, last: string)
    ensures ExpectedEvidence([(key, first), (key, last)]) == [(key, last)]
  {
    var raw := [(key, first), (key, last)];
    assert raw[..1] == [(key, first)] && raw[..1][..0] == [];
    assert ExpectedEvidence(raw[..1]) == [(key, first)];
  }

  // ---------------------------------------------------------------- the items

  function MakeItem(rules: Rules, s: Subject, kind: Kind, code: string, source: Option<CanonicalEvent>): Item {
    var sourceId := match source case None => None case Some(e) => Some(e.id);
    Item(rules.identify(s.runId, s.hypothesisId, kind, code, sourceId), s.runId, s.incidentId, s.hypothesisId, kind, sourceId, code)
  }

  const CONFIG_DIFF := "config_diff"

  /** The items of the requirements that were met, in catalogue order. */
  function MetUpTo(rules: Rules, s: Subject, accepted: seq<CanonicalEvent>, expected: seq<(string, string)>, n: nat): seq<Item>
    requires n <= |expected|
  {
    if n == 0 then []
    else
      var before := MetUpTo(rules, s, accepted, expected, n - 1);
      var requirement := expected[n - 1].0;
      match ScopedMatch(rules, requirement, accepted, s.entity)
      case None => before
      case Some(e) =>
        before + [MakeItem(rules, s, if requirement == CONFIG_DIFF then Correlated else Observed, rules.observedCode(requirement), Some(e))]
  }

  /** The requirements nothing met, in catalogue order. */
  function UnmetUpTo(rules: Rules, s: Subject, accepted: seq<CanonicalEvent>, expected: seq<(string, string)>, n: nat): (r: seq<string>)
    requires n <= |expected|
    ensures |r| <= n
  {
    if n == 0 then []
    else
      var before := UnmetUpTo(rules, s, accepted, expected, n - 1);
      if ScopedMatch(rules, expected[n - 1].0, accepted, s.entity).None? then before + [expected[n - 1].0] else before
  }

  predicate HasKind(items: seq<Item>, kind: Kind) {
    exists i :: 0 <= i < |items| && items[i].kind == kind
  }

  function LastAlert(accepted: seq<CanonicalEvent>): Option<CanonicalEvent> {
    if accepted == [] then None
    else if accepted[|accepted| - 1].modality.Alert? then Some(accepted[|accepted| - 1])
    else LastAlert(accepted[..|accepted| - 1])
  }

  /** A related signal, noted when nothing else correlates; it satisfies no requirement. */
  function Association(rules: Rules, s: Subject, accepted: seq<CanonicalEvent>, met: seq<Item>): seq<Item> {
    if HasKind(met, Correlated) then []
    else if s.hypothesisType == "dos_or_traffic_surge" then
      (match LastAlert(accepted)
       case None => []
       case Some(e) => [MakeItem(rules, s, Correlated, "TRAFFIC_ALERT_CORRELATED", Some(e))])
    else if s.hypothesisType == "database_connection_exhaustion" then
      (match AnyMatch(rules, "downstream_latency", accepted)
       case None => []
       case Some(e) => [MakeItem(rules, s, Correlated, "DEPENDENCY_PATH_LATENCY", Some(e))])
    else []
  }

  function FindById(events: seq<CanonicalEvent>, id: Option<string>): (r: Option<CanonicalEvent>)
    ensures r.Some? ==> id.Some? && r.value in events && r.value.id == id.value
    ensures r.None? && id.Some? ==> !Attached(events, id.value)
  {
    if id.None? || events == [] then None
    else
      assert events == [events[0]] + events[1..];
      if events[0].id == id.value then Some(events[0]) else FindById(events[1..], id)
  }

  predicate NormalUtilization(rules: Rules, e: CanonicalEvent) {
    rules.matches("db_utilization", e) && e.signalValue.Some? && e.signalValue.value < 0.75
  }

  function PatternSource(rules: Rules, code: string, accepted: seq<CanonicalEvent>): Option<CanonicalEvent> {
    if code == "STABLE_RAW_INGRESS" then AnyMatch(rules, "stable_raw_ingress", accepted)
    else if code == "NORMAL_DB_UTILIZATION" then Latest(Where(accepted, e => NormalUtilization(rules, e)))
    else if code == "AUTHORIZED_SCANNER_MATCH" then AnyMatch(rules, "scanner_authorization", accepted)
    else None
  }

  /** The event an effect cites, or else the one its pattern finds. */
  function EffectSource(rules: Rules, effect: ConflictEffect, accepted: seq<CanonicalEvent>): Option<CanonicalEvent> {
    var cited := FindById(accepted, effect.sourceEventId);
    if cited.Some? then cited else PatternSource(rules, effect.code, accepted)
  }

  function EffectsOf(entry: EvidenceEntry): seq<ConflictEffect> {
    match entry.applied
    case Some(effects) => effects
    case None => Mapped(entry.patternIds, (id: string) => ConflictEffect(id, None))
  }

  function ConflictsUpTo(rules: Rules, s: Subject, accepted: seq<CanonicalEvent>, effects: seq<ConflictEffect>, n: nat): seq<Item>
    requires n <= |effects|
  {
    if n == 0 then []
    else
      var before := ConflictsUpTo(rules, s, accepted, effects, n - 1);
      var effect := effects[n - 1];
      var source := EffectSource(rules, effect, accepted);
      if effect.code == "" || source.None? then before
      else before + [MakeItem(rules, s, Conflicting, effect.code, source)]
  }

  /** The configuration hypothesis always exposes its alternative when an alert allows one. */
  function Alternative(rules: Rules, s: Subject, accepted: seq<CanonicalEvent>, conflicts: seq<Item>): seq<Item> {
    if s.hypothesisType == "configuration_regression" && !HasKind(conflicts, Conflicting) && LastAlert(accepted).Some?
    then [MakeItem(rules, s, Conflicting, "ALTERNATIVE_CAUSE_SIGNAL", LastAlert(accepted))]
    else []
  }

  function MissingItems(rules: Rules, s: Subject, unmet: seq<string>): seq<Item> {
    Mapped(unmet, (requirement: string) => MakeItem(rules, s, Missing, rules.missingCode(requirement), None))
  }

  /** The items that cite an event, before the final sort. */
  function Sourced(rules: Rules, s: Subject, accepted: seq<CanonicalEvent>, entry: EvidenceEntry): seq<Item> {
    var expected := ExpectedEvidence(entry.expected);
    var effects := EffectsOf(entry);
    var met := MetUpTo(rules, s, accepted, expected, |expected|);
    var conflicts := ConflictsUpTo(rules, s, accepted, effects, |effects|);
    met + Association(rules, s, accepted, met) + conflicts + Alternative(rules, s, accepted, conflicts)
  }

  /** The items that stand for a requirement nothing met. */
  function Lacking(rules: Rules, s: Subject, accepted: seq<CanonicalEvent>, entry: EvidenceEntry): seq<Item> {
    var expected := ExpectedEvidence(entry.expected);
    MissingItems(rules, s, UnmetUpTo(rules, s, accepted, expected, |expected|))
  }

  function KindOrder(kind: Kind): nat {
    match kind
    case Observed => 0
    case Correlated => 1
    case Conflicting => 2
    case Missing => 3
  }

  predicate ItemLess(a: Item, b: Item) {
    var i, j := KindOrder(a.kind), KindOrder(b.kind);
    i < j || (i == j && (StringLess(a.reasonCode, b.reasonCode) || (a.reasonCode == b.reasonCode && StringLess(a.id, b.id))))
  }

  /** The items of a hypothesis. */
  function Collected(rules: Rules, s: Subject, accepted: seq<CanonicalEvent>, entry: EvidenceEntry): seq<Item> {
    SortBy(Sourced(rules, s, accepted, entry) + Lacking(rules, s, accepted, entry), ItemLess)
  }

  // ---------------------------------------------------------------- the loops

  method MeetRequirements(rules: Rules, s: Subject, accepted: seq<CanonicalEvent>, expected: seq<(string, string)>)
    returns (collected: seq<Item>, unmet: seq<string>)
    ensures collected == MetUpTo(rules, s, accepted, expected, |expected|)
    ensures unmet == UnmetUpTo(rules, s, accepted, expected, |expected|)
  {
    collected, unmet := [], [];
    for i := 0 to |expected|
      invariant collected == MetUpTo(rules, s, accepted, expected, i)
      invariant unmet == UnmetUpTo(rules, s, accepted, expected, i)
    {
      var requirement := expected[i].0;
      var event := ScopedMatch(rules, requirement, accepted, s.entity);
      if event.None? {
        unmet := unmet + [requirement];
        continue;
      }
      var kind := if requirement == CONFIG_DIFF then Correlated else Observed;
      collected := collected + [MakeItem(rules, s, kind, rules.observedCode(requirement), event)];
    }
  }

  method CollectConflicts(rules: Rules, s: Subject, accepted: seq<CanonicalEvent>, effects: seq<ConflictEffect>) returns (conflicts: seq<Item>)
    ensures conflicts == ConflictsUpTo(rules, s, accepted, effects, |effects|)
  {
    conflicts := [];
    for i := 0 to |effects|
      invariant conflicts == ConflictsUpTo(rules, s, accepted, effects, i)
    {
      var effect := effects[i];
      if effect.code == "" {
        continue;
      }
      var source := EffectSource(rules, effect, accepted);
      if source.None? {
        continue;
      }
      conflicts := conflicts + [MakeItem(rules, s, Conflicting, effect.code, source)];
    }
  }

  method CollectEvidence(rules: Rules, s: Subject, events: seq<CanonicalEvent>, entry: EvidenceEntry) returns (items: seq<Item>)
    ensures items == Collected(rules, s, Accepted(events), entry)
  {
    var kept: seq<CanonicalEvent> := [];
    for i := 0 to |events|
      invariant kept == ById(events[..i])
    {
      assert events[..i + 1][..i] == events[..i];
      kept := Upsert(kept, events[i]);
    }
    assert events[..|events|] == events;
    var accepted := SortBy(kept, EarlierEvent);
    var expected := ExpectedEvidence(entry.expected);
    var met, unmet := MeetRequirements(rules, s, accepted, expected);
    var association := Association(rules, s, accepted, met);
    var conflicts := CollectConflicts(rules, s, accepted, EffectsOf(entry));
    var alternative := Alternative(rules, s, accepted, conflicts);
    items := SortBy(met + association + conflicts + alternative + MissingItems(rules, s, unmet), ItemLess);
  }

  // ---------------------------------------------------------------- coverage

  function CountKind(items: seq<Item>, kind: Kind): (r: nat)
    ensures r <= |items|
  {
    if items == [] then 0 else (if items[0].kind == kind then 1 else 0) + CountKind(items[1..], kind)
  }

  /** Coverage counted from the items: what was expected less what is missing. */
  function CalculateCoverage(entry: EvidenceEntry, items: seq<Item>): Coverage {
    var expected, missing := |ExpectedEvidence(entry.expected)|, CountKind(items, Missing);
    Coverage(if missing <= expected then expected - missing else 0, expected)
  }

  lemma {:induction false} CountConcat(a: seq<Item>, b: seq<Item>, kind: Kind)
    ensures CountKind(a + b, kind) == CountKind(a, kind) + CountKind(b, kind)
  {
    if a == [] {
      assert a + b == b;
    } else {
      assert (a + b)[1..] == a[1..] + b;
      CountConcat(a[1..], b, kind);
    }
  }

  lemma CountCons(x: Item, items: seq<Item>, kind: Kind)
    ensures CountKind([x] + items, kind) == (if x.kind == kind then 1 else 0) + CountKind(items, kind)
  {
    assert ([x] + items)[1..] == items;
  }

  lemma {:induction false} CountInsert(x: Item, items: seq<Item>, less: (Item, Item) -> bool, kind: Kind)
    ensures CountKind(Insert(x, items, less), kind) == (if x.kind == kind then 1 else 0) + CountKind(items, kind)
  {
    if items != [] && less(items[0], x) {
      CountInsert(x, items[1..], less, kind);
      CountCons(items[0], Insert(x, items[1..], less), kind);
    } else {
      CountCons(x, items, kind);
    }
  }

  lemma {:induction false} CountSorted(items: seq<Item>, less: (Item, Item) -> bool, kind: Kind)
    ensures CountKind(SortBy(items, less), kind) == CountKind(items, kind)
  {
    if items != [] {
      CountSorted(items[1..], less, kind);
      CountInsert(items[0], SortBy(items[1..], less), less, kind);
    }
  }

  lemma {:induction false} NoneOfKind(items: seq<Item>, kind: Kind)
    requires forall i :: 0 <= i < |items| ==> items[i].kind != kind
    ensures CountKind(items, kind) == 0
  {
    if items != [] {
      assert forall i :: 0 <= i < |items[1..]| ==> items[1..][i] == items[i + 1];
      NoneOfKind(items[1..], kind);
    }
  }

  lemma {:induction false} AllOfKind(items: seq<Item>, kind: Kind)
    requires forall i :: 0 <= i < |items| ==> items[i].kind == kind
    ensures CountKind(items, kind) == |items|
  {
    if items != [] {
      assert forall i :: 0 <= i < |items[1..]| ==> items[1..][i] == items[i + 1];
      AllOfKind(items[1..], kind);
    }
  }

  /** An item of the hypothesis that cites an event. */
  predicate Cites(s: Subject, item: Item) {
    InSubject(s, item) && !item.kind.Missing? && item.source.Some?
  }

  predicate InSubject(s: Subject, item: Item) {
    item.runId == s.runId && item.incidentId == s.incidentId && item.hypothesisId == s.hypothesisId
  }

  lemma {:induction false} MetCite(rules: Rules, s: Subject, accepted: seq<CanonicalEvent>, expected: seq<(string, string)>, n: nat, item: Item)
    requires n <= |expected| && item in MetUpTo(rules, s, accepted, expected, n)
    ensures Cites(s, item)
  {
    if item in MetUpTo(rules, s, accepted, expected, n - 1) {
      MetCite(rules, s, accepted, expected, n - 1, item);
    }
  }

  lemma {:induction false} ConflictsCite(rules: Rules, s: Subject, accepted: seq<CanonicalEvent>, effects: seq<ConflictEffect>, n: nat, item: Item)
    requires n <= |effects| && item in ConflictsUpTo(rules, s, accepted, effects, n)
    ensures Cites(s, item)
  {
    if item in ConflictsUpTo(rules, s, accepted, effects, n - 1) {
      ConflictsCite(rules, s, accepted, effects, n - 1, item);
    }
  }

  lemma SourcedCite(rules: Rules, s: Subject, accepted: seq<CanonicalEvent>, entry: EvidenceEntry, item: Item)
    requires item in Sourced(rules, s, accepted, entry)
    ensures Cites(s, item)
  {
    var expected, effects := ExpectedEvidence(entry.expected), EffectsOf(entry);
    var met := MetUpTo(rules, s, accepted, expected, |expected|);
    var conflicts := ConflictsUpTo(rules, s, accepted, effects, |effects|);
    if item in met {
      MetCite(rules, s, accepted, expected, |expected|, item);
    } else if item in conflicts {
      ConflictsCite(rules, s, accepted, effects, |effects|, item);
    } else {
      assert item in Association(rules, s, accepted, met) || item in Alternative(rules, s, accepted, conflicts);
    }
  }

  /** How many of the first `n` requirements some event meets in scope. */
  function CountMet(rules: Rules, s: Subject, events: seq<CanonicalEvent>, expected: seq<(string, string)>, n: nat): (r: nat)
    requires n <= |expected|
    ensures r <= n
  {
    if n == 0 then 0
    else CountMet(rules, s, events, expected, n - 1) + if Meets(rules, expected[n - 1].0, events, s.entity) then 1 else 0
  }

  lemma {:induction false} UnmetCount(rules: Rules, s: Subject, accepted: seq<CanonicalEvent>, expected: seq<(string, string)>, n: nat)
    requires n <= |expected|
    ensures |UnmetUpTo(rules, s, accepted, expected, n)| == n - CountMet(rules, s, accepted, expected, n)
  {
    if n > 0 {
      UnmetCount(rules, s, accepted, expected, n - 1);
      MatchExactly(rules, expected[n - 1].0, accepted, s.entity);
    }
  }

  /** The coverage counted from the final sorted list is the number of distinct expected requirements
      that some accepted event meets in scope, out of all distinct ones. Neither conflict effects nor
      associations appear on the right: they cannot change it. */
  lemma CoverageIsAvailability(rules: Rules, s: Subject, accepted: seq<CanonicalEvent>, entry: EvidenceEntry)
    ensures var expected := ExpectedEvidence(entry.expected);
            CalculateCoverage(entry, Collected(rules, s, accepted, entry))
              == Coverage(CountMet(rules, s, accepted, expected, |expected|), |expected|)
  {
    var expected := ExpectedEvidence(entry.expected);
    var sourced, lacking := Sourced(rules, s, accepted, entry), Lacking(rules, s, accepted, entry);
    forall i | 0 <= i < |sourced| ensures sourced[i].kind != Missing {
      SourcedCite(rules, s, accepted, entry, sourced[i]);
    }
    NoneOfKind(sourced, Missing);
    AllOfKind(lacking, Missing);
    CountConcat(sourced, lacking, Missing);
    CountSorted(sourced + lacking, ItemLess, Missing);
    UnmetCount(rules, s, accepted, expected, |expected|);
  }

  lemma CollectedSplits(rules: Rules, s: Subject, accepted: seq<CanonicalEvent>, entry: EvidenceEntry, item: Item)
    ensures item in Collected(rules, s, accepted, entry) <==>
              item in Sourced(rules, s, accepted, entry) || item in Lacking(rules, s, accepted, entry)
  {
    SortKeepsMembers(Sourced(rules, s, accepted, entry) + Lacking(rules, s, accepted, entry), ItemLess, item);
  }

  /** Every item belongs to the hypothesis it was collected for, and the missing ones are exactly
      those without a source event. */
  lemma ItemsAreScoped(rules: Rules, s: Subject, accepted: seq<CanonicalEvent>, entry: EvidenceEntry, item: Item)
    requires item in Collected(rules, s, accepted, entry)
    ensures InSubject(s, item) && (item.kind.Missing? <==> item.source.None?)
  {
    CollectedSplits(rules, s, accepted, entry, item);
    if item in Sourced(rules, s, accepted, entry) {
      SourcedCite(rules, s, accepted, entry, item);
    }
  }

  /** Permuting or duplicating the incident's events changes nothing that is collected. */
  lemma EvidenceIgnoresOrder(rules: Rules, s: Subject, one: seq<CanonicalEvent>, other: seq<CanonicalEvent>, entry: EvidenceEntry)
    requires IdsIdentify(one) && IdsIdentify(other) && forall x :: x in one <==> x in other
    ensures Collected(rules, s, Accepted(one), entry) == Collected(rules, s, Accepted(other), entry)
  {
    AcceptedIgnoresOrder(one, other);
  }

  /** Every applied effect with a code and an accepted source event gets a conflicting item. */
  lemma AppliedEffectsAppear(rules: Rules, s: Subject, accepted: seq<CanonicalEvent>, entry: EvidenceEntry, i: nat)
    requires i < |EffectsOf(entry)| && EffectsOf(entry)[i].code != ""
    requires EffectsOf(entry)[i].sourceEventId.Some? && Attached(accepted, EffectsOf(entry)[i].sourceEventId.value)
    ensures exists item :: item in Collected(rules, s, accepted, entry) && item.kind.Conflicting? && item.reasonCode == EffectsOf(entry)[i].code
  {
    var effects := EffectsOf(entry);
    var item := MakeItem(rules, s, Conflicting, effects[i].code, EffectSource(rules, effects[i], accepted));
    EffectListed(rules, s, accepted, effects, |effects|, i);
    CollectedSplits(rules, s, accepted, entry, item);
  }

  lemma {:induction false} EffectListed(rules: Rules, s: Subject, accepted: seq<CanonicalEvent>, effects: seq<ConflictEffect>, n: nat, i: nat)
    requires i < n <= |effects| && effects[i].code != "" && EffectSource(rules, effects[i], accepted).Some?
    ensures MakeItem(rules, s, Conflicting, effects[i].code, EffectSource(rules, effects[i], accepted)) in ConflictsUpTo(rules, s, accepted, effects, n)
  {
    if i < n - 1 {
      EffectListed(rules, s, accepted, effects, n - 1, i);
    }
  }
}
