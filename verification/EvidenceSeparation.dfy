/** Which catalogue entries can make evidence ids collide at all, whatever events an incident has. */
module EvidenceSeparation {
  import opened Common
  import opened Contracts
  import opened Evidence
  import opened EvidenceIds
  import opened RcaContracts
  import opened Sorting
  import opened TypedGraph

  // ---------------------------------------------------------------- the condition

  /** The event meets the requirement within the scope of a hypothesis about `x`. */
  predicate MeetsAs(rules: Rules, requirement: string, x: Node, e: CanonicalEvent) {
    rules.matches(requirement, e) && rules.inScope(requirement, e, x)
  }

  /** Some event meets both requirements. */
  ghost predicate Joint(rules: Rules, x: Node, one: string, other: string) {
    exists e :: MeetsAs(rules, one, x, e) && MeetsAs(rules, other, x, e)
  }

  /** Some event is found by the pattern of the code. */
  ghost predicate Findable(rules: Rules, code: string) {
    exists e :: PatternSource(rules, code, [e]).Some?
  }

  /** Two requirements that would be shown as the same evidence. */
  ghost predicate SharedCode(rules: Rules, x: Node, one: string, other: string) {
    rules.observedCode(one) == rules.observedCode(other) && (one == CONFIG_DIFF <==> other == CONFIG_DIFF) && Joint(rules, x, one, other)
  }

  /** Two conflict effects that would be. */
  ghost predicate SharedEffect(rules: Rules, one: ConflictEffect, other: ConflictEffect) {
    one.code != "" && one.code == other.code
    && ((one.sourceEventId.Some? && one.sourceEventId == other.sourceEventId) || Findable(rules, one.code))
  }

  ghost predicate RequirementsSeparate(rules: Rules, x: Node, expected: seq<(string, string)>) {
    forall i, j :: 0 <= i < j < |expected| ==> !SharedCode(rules, x, expected[i].0, expected[j].0)
  }

  ghost predicate MissingSeparate(rules: Rules, expected: seq<(string, string)>) {
    forall i, j :: 0 <= i < j < |expected| ==> rules.missingCode(expected[i].0) != rules.missingCode(expected[j].0)
  }

  ghost predicate EffectsSeparate(rules: Rules, effects: seq<ConflictEffect>) {
    forall i, j :: 0 <= i < j < |effects| ==> !SharedEffect(rules, effects[i], effects[j])
  }

  ghost predicate Separate(rules: Rules, x: Node, entry: EvidenceEntry) {
    var expected := ExpectedEvidence(entry.expected);
    RequirementsSeparate(rules, x, expected) && MissingSeparate(rules, expected) && EffectsSeparate(rules, EffectsOf(entry))
  }

  // ---------------------------------------------------------------- it suffices

  lemma ScopedMatchMeets(rules: Rules, requirement: string, events: seq<CanonicalEvent>, x: Node)
    ensures var r := ScopedMatch(rules, requirement, events, x);
            r.Some? ==> r.value in events && MeetsAs(rules, requirement, x, r.value)
  {
    var r := ScopedMatch(rules, requirement, events, x);
    if r.Some? {
      WhereMembers(events, e => rules.matches(requirement, e) && rules.inScope(requirement, e, x), r.value);
    }
  }

  lemma OneOfEachId(events: seq<CanonicalEvent>, a: CanonicalEvent, b: CanonicalEvent)
    requires IdsDiffer(events) && a in events && b in events && a.id == b.id
    ensures a == b
  {
    var i :| 0 <= i < |events| && events[i] == a;
    var j :| 0 <= j < |events| && events[j] == b;
  }

  lemma SeparateMet(rules: Rules, s: Subject, accepted: seq<CanonicalEvent>, expected: seq<(string, string)>)
    requires IdsDiffer(accepted) && RequirementsSeparate(rules, s.entity, expected)
    ensures NoMetClash(rules, s, accepted, expected, |expected|)
  {
    forall i, j | 0 <= i < j < |expected| ensures !MetClash(rules, s, accepted, expected, i, j) {
      var a, b := ScopedMatch(rules, expected[i].0, accepted, s.entity), ScopedMatch(rules, expected[j].0, accepted, s.entity);
      ScopedMatchMeets(rules, expected[i].0, accepted, s.entity);
      ScopedMatchMeets(rules, expected[j].0, accepted, s.entity);
      if a.Some? && b.Some? && a.value.id == b.value.id {
        OneOfEachId(accepted, a.value, b.value);
        assert Joint(rules, s.entity, expected[i].0, expected[j].0);
        assert !SharedCode(rules, s.entity, expected[i].0, expected[j].0);
      }
    }
  }

  /** The unmet requirements are some of the expected ones, in their order. */
  lemma {:induction false} UnmetAt(rules: Rules, s: Subject, accepted: seq<CanonicalEvent>, expected: seq<(string, string)>, n: nat, k: nat) returns (at: nat)
    requires n <= |expected| && k < |UnmetUpTo(rules, s, accepted, expected, n)|
    ensures at < n && expected[at].0 == UnmetUpTo(rules, s, accepted, expected, n)[k]
    ensures |UnmetUpTo(rules, s, accepted, expected, at)| == k
  {
    if k < |UnmetUpTo(rules, s, accepted, expected, n - 1)| {
      at := UnmetAt(rules, s, accepted, expected, n - 1, k);
    } else {
      at := n - 1;
    }
  }

  lemma {:induction false} UnmetGrows(rules: Rules, s: Subject, accepted: seq<CanonicalEvent>, expected: seq<(string, string)>, m: nat, n: nat)
    requires m <= n <= |expected|
    ensures |UnmetUpTo(rules, s, accepted, expected, m)| <= |UnmetUpTo(rules, s, accepted, expected, n)|
  {
    if m < n {
      UnmetGrows(rules, s, accepted, expected, m, n - 1);
    }
  }

  lemma SeparateUnmet(rules: Rules, s: Subject, accepted: seq<CanonicalEvent>, expected: seq<(string, string)>, i: nat, j: nat)
    requires MissingSeparate(rules, expected) && i < j < |UnmetUpTo(rules, s, accepted, expected, |expected|)|
    ensures !UnmetClash(rules, UnmetUpTo(rules, s, accepted, expected, |expected|), i, j)
  {
    var k := UnmetAt(rules, s, accepted, expected, |expected|, i);
    var l := UnmetAt(rules, s, accepted, expected, |expected|, j);
    if l <= k {
      UnmetGrows(rules, s, accepted, expected, l, k);
    }
  }

  lemma LatestAlone(rules: Rules, requirement: string, events: seq<CanonicalEvent>)
    ensures var r := AnyMatch(rules, requirement, events);
            r.Some? ==> r.value in events && AnyMatch(rules, requirement, [r.value]).Some?
  {
    var r := AnyMatch(rules, requirement, events);
    if r.Some? {
      WhereMembers(events, e => rules.matches(requirement, e), r.value);
      WhereMembers([r.value], e => rules.matches(requirement, e), r.value);
    }
  }

  /** What a code's pattern finds among events it finds by itself. */
  lemma FoundAlone(rules: Rules, code: string, events: seq<CanonicalEvent>)
    ensures var r := PatternSource(rules, code, events);
            r.Some? ==> r.value in events && PatternSource(rules, code, [r.value]).Some?
  {
    LatestAlone(rules, "stable_raw_ingress", events);
    LatestAlone(rules, "scanner_authorization", events);
    var normal := Latest(Where(events, e => NormalUtilization(rules, e)));
    if normal.Some? {
      WhereMembers(events, e => NormalUtilization(rules, e), normal.value);
      WhereMembers([normal.value], e => NormalUtilization(rules, e), normal.value);
    }
  }

  lemma SeparateEffects(rules: Rules, accepted: seq<CanonicalEvent>, effects: seq<ConflictEffect>)
    requires EffectsSeparate(rules, effects)
    ensures NoEffectClash(rules, accepted, effects, |effects|)
  {
    forall i, j | 0 <= i < j < |effects| ensures !EffectClash(rules, accepted, effects, i, j) {
      assert !SharedEffect(rules, effects[i], effects[j]);
      FoundAlone(rules, effects[i].code, accepted);
    }
  }

  // ---------------------------------------------------------------- it is needed

  lemma AloneMeets(rules: Rules, requirement: string, x: Node, e: CanonicalEvent)
    requires MeetsAs(rules, requirement, x, e)
    ensures ScopedMatch(rules, requirement, [e], x) == Some(e)
  {
    MatchExactly(rules, requirement, [e], x);
    assert [e][0] == e;
    ScopedMatchMeets(rules, requirement, [e], x);
  }

  lemma SharedCodeClashes(rules: Rules, s: Subject, entry: EvidenceEntry, i: nat, j: nat)
    requires i < j < |ExpectedEvidence(entry.expected)|
    requires SharedCode(rules, s.entity, ExpectedEvidence(entry.expected)[i].0, ExpectedEvidence(entry.expected)[j].0)
    ensures exists e :: !NoClash(rules, s, [e], entry)
  {
    var expected := ExpectedEvidence(entry.expected);
    var e :| MeetsAs(rules, expected[i].0, s.entity, e) && MeetsAs(rules, expected[j].0, s.entity, e);
    AloneMeets(rules, expected[i].0, s.entity, e);
    AloneMeets(rules, expected[j].0, s.entity, e);
    assert MetClash(rules, s, [e], expected, i, j);
    assert !NoClash(rules, s, [e], entry);
  }

  lemma {:induction false} NothingMet(rules: Rules, s: Subject, expected: seq<(string, string)>, n: nat)
    requires n <= |expected|
    ensures var unmet := UnmetUpTo(rules, s, [], expected, n);
            |unmet| == n && forall k :: 0 <= k < n ==> unmet[k] == expected[k].0
  {
    if n > 0 {
      NothingMet(rules, s, expected, n - 1);
      MatchExactly(rules, expected[n - 1].0, [], s.entity);
    }
  }

  lemma SharedMissingClashes(rules: Rules, s: Subject, entry: EvidenceEntry)
    requires !MissingSeparate(rules, ExpectedEvidence(entry.expected))
    ensures !NoClash(rules, s, [], entry)
  {
    var expected := ExpectedEvidence(entry.expected);
    var i, j :| 0 <= i < j < |expected| && rules.missingCode(expected[i].0) == rules.missingCode(expected[j].0);
    NothingMet(rules, s, expected, |expected|);
    assert UnmetClash(rules, UnmetUpTo(rules, s, [], expected, |expected|), i, j);
  }

  function EventOf(id: string): CanonicalEvent {
    CanonicalEvent(id, 0, "", Log, "", None, None, None, "", None, map[])
  }

  lemma SharedEffectClashes(rules: Rules, s: Subject, entry: EvidenceEntry, i: nat, j: nat)
    requires i < j < |EffectsOf(entry)| && SharedEffect(rules, EffectsOf(entry)[i], EffectsOf(entry)[j])
    ensures exists e :: !NoClash(rules, s, [e], entry)
  {
    var effects := EffectsOf(entry);
    var e;
    if effects[i].sourceEventId.Some? && effects[i].sourceEventId == effects[j].sourceEventId {
      e := EventOf(effects[i].sourceEventId.value);
    } else {
      e :| PatternSource(rules, effects[i].code, [e]).Some?;
      FoundAlone(rules, effects[i].code, [e]);
    }
    assert EffectClash(rules, [e], effects, i, j);
    assert !NoClash(rules, s, [e], entry);
  }

  // ---------------------------------------------------------------- the theorem

  /** No two evidence items of a hypothesis can clash, whatever events its incident has, exactly when no
      event meets two of its requirements under one reason code, no two requirements have the same missing
      code, and no two conflict effects of one code can find one event. */
  lemma SeparatesExactly(rules: Rules, s: Subject, entry: EvidenceEntry)
    ensures (forall accepted :: IdsDiffer(accepted) ==> NoClash(rules, s, accepted, entry)) <==> Separate(rules, s.entity, entry)
  {
    if Separate(rules, s.entity, entry) {
      forall accepted | IdsDiffer(accepted) ensures NoClash(rules, s, accepted, entry) {
        SeparateNeverClashes(rules, s, accepted, entry);
      }
    } else {
      SharedClashes(rules, s, entry);
    }
  }

  lemma SeparateNeverClashes(rules: Rules, s: Subject, accepted: seq<CanonicalEvent>, entry: EvidenceEntry)
    requires IdsDiffer(accepted) && Separate(rules, s.entity, entry)
    ensures NoClash(rules, s, accepted, entry)
  {
    var expected := ExpectedEvidence(entry.expected);
    SeparateMet(rules, s, accepted, expected);
    SeparateEffects(rules, accepted, EffectsOf(entry));
    var unmet := UnmetUpTo(rules, s, accepted, expected, |expected|);
    forall i, j | 0 <= i < j < |unmet| ensures !UnmetClash(rules, unmet, i, j) {
      SeparateUnmet(rules, s, accepted, expected, i, j);
    }
  }

  lemma SharedClashes(rules: Rules, s: Subject, entry: EvidenceEntry)
    requires !Separate(rules, s.entity, entry)
    ensures exists accepted :: IdsDiffer(accepted) && !NoClash(rules, s, accepted, entry)
  {
    var expected, effects := ExpectedEvidence(entry.expected), EffectsOf(entry);
    if !RequirementsSeparate(rules, s.entity, expected) {
      var i, j :| 0 <= i < j < |expected| && SharedCode(rules, s.entity, expected[i].0, expected[j].0);
      SharedCodeClashes(rules, s, entry, i, j);
      var e :| !NoClash(rules, s, [e], entry);
      assert IdsDiffer([e]);
    } else if !MissingSeparate(rules, expected) {
      SharedMissingClashes(rules, s, entry);
      assert IdsDiffer([]);
    } else {
      var i, j :| 0 <= i < j < |effects| && SharedEffect(rules, effects[i], effects[j]);
      SharedEffectClashes(rules, s, entry, i, j);
      var e :| !NoClash(rules, s, [e], entry);
      assert IdsDiffer([e]);
    }
  }

  // ---------------------------------------------------------------- a colliding entry

  /** The two timeout requirements, whose observed items have one reason code. */
  const TIMEOUTS := [("timeout_log", "Obtain the log."), ("dependency_timeout", "Obtain the log.")]

  /** A log of a timeout, met by both. */
  const TIMEOUT := CanonicalEvent("e", 0, "a", Log, "UPSTREAM_CONNECTION_TIMEOUT", None, None, None, "syslog", None, map["dependency_id" := Text("db")])

  ghost predicate TimeoutRules(rules: Rules) {
    && rules.observedCode("timeout_log") == rules.observedCode("dependency_timeout")
    && MeetsAs(rules, "timeout_log", "a", TIMEOUT) && MeetsAs(rules, "dependency_timeout", "a", TIMEOUT)
  }

  lemma TwoExpected(raw: seq<(string, string)>)
    requires |raw| == 2 && raw[0].0 != raw[1].0
    ensures ExpectedEvidence(raw) == raw
  {
    var first := [raw[0]];
    assert raw[..1] == first && first[..0] == [] && first[1..] == [];
    assert ExpectedEvidence(first) == Replaced([], raw[0]) == first;
    assert ExpectedEvidence(raw) == Replaced(first, raw[1]) == first + Replaced([], raw[1]);
  }

  /** An entry that expects both gets two items with one id from that log. */
  lemma TimeoutsCollide(rules: Rules, s: Subject)
    requires Identifies(rules) && TimeoutRules(rules) && s.entity == "a"
    ensures !UniqueIds(Collected(rules, s, [TIMEOUT], EvidenceEntry(TIMEOUTS, None, [])))
  {
    var entry := EvidenceEntry(TIMEOUTS, None, []);
    var expected := ExpectedEvidence(TIMEOUTS);
    assert "timeout_log"[0] != "dependency_timeout"[0];
    TwoExpected(TIMEOUTS);
    AloneMeets(rules, "timeout_log", "a", TIMEOUT);
    AloneMeets(rules, "dependency_timeout", "a", TIMEOUT);
    assert "timeout_log" != CONFIG_DIFF && "dependency_timeout" != CONFIG_DIFF;
    assert MetClash(rules, s, [TIMEOUT], expected, 0, 1);
    IdsDistinctExactly(rules, s, [TIMEOUT], entry);
  }
}
