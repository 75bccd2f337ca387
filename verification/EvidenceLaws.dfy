/** Which items a hypothesis gets, told from the incident's events, the catalogue entry and the
    ranker's effects. */
module EvidenceLaws {
  import opened Common
  import opened Contracts
  import opened Evidence
  import opened RcaContracts
  import opened Sorting
  import opened TypedGraph

  // ---------------------------------------------------------------- the events considered

  /** The event is the last of its id in the list. */
  ghost predicate LastOfId(events: seq<CanonicalEvent>, x: CanonicalEvent) {
    exists i :: 0 <= i < |events| && events[i] == x && forall j :: i < j < |events| ==> events[j].id != x.id
  }

  lemma LastOfIdAppends(events: seq<CanonicalEvent>, e: CanonicalEvent, x: CanonicalEvent)
    ensures LastOfId(events + [e], x) <==> x == e || (LastOfId(events, x) && x.id != e.id)
  {
    var all := events + [e];
    assert all[|events|] == e;
    if LastOfId(events, x) && x.id != e.id {
      var i :| 0 <= i < |events| && events[i] == x && forall j :: i < j < |events| ==> events[j].id != x.id;
      assert all[i] == x && forall j :: i < j < |all| ==> all[j].id != x.id;
    }
    if LastOfId(all, x) && x != e {
      var i :| 0 <= i < |all| && all[i] == x && forall j :: i < j < |all| ==> all[j].id != x.id;
      assert events[i] == x && forall j :: i < j < |events| ==> events[j].id == all[j].id;
    }
  }

  lemma {:induction false} KeptAreLast(events: seq<CanonicalEvent>, x: CanonicalEvent)
    ensures IdsDiffer(ById(events))
    ensures x in ById(events) <==> LastOfId(events, x)
  {
    if events != [] {
      var init, last := events[..|events| - 1], events[|events| - 1];
      assert events == init + [last];
      KeptAreLast(init, x);
      UpsertIds(ById(init), last);
      LastOfIdAppends(init, last, x);
    }
  }

  /** Of the events of one id the last listed is considered; the others are not. */
  lemma AcceptedExactly(events: seq<CanonicalEvent>, x: CanonicalEvent)
    ensures x in Accepted(events) <==> LastOfId(events, x)
  {
    KeptAreLast(events, x);
    SortKeepsMembers(ById(events), EarlierEvent, x);
  }

  /** Ids tell the considered events apart. */
  ghost predicate ToldApart(accepted: seq<CanonicalEvent>) {
    forall d, e :: d in accepted && e in accepted && d.id == e.id ==> d == e
  }

  lemma AcceptedToldApart(events: seq<CanonicalEvent>)
    ensures ToldApart(Accepted(events))
  {
    forall d, e | d in Accepted(events) && e in Accepted(events) && d.id == e.id ensures d == e {
      AcceptedExactly(events, d);
      AcceptedExactly(events, e);
    }
  }

  // ---------------------------------------------------------------- the latest of some

  ghost predicate LatestOf(accepted: seq<CanonicalEvent>, keep: CanonicalEvent -> bool, e: CanonicalEvent) {
    e in accepted && keep(e) && forall d :: d in accepted && keep(d) ==> NoLater(d, e)
  }

  lemma NoLaterChains(d: CanonicalEvent, e: CanonicalEvent, f: CanonicalEvent)
    requires NoLater(d, e) && NoLater(e, f)
    ensures NoLater(d, f)
  {
    StringLessIsTotal();
  }

  lemma EarlierIsNoLater(d: CanonicalEvent, e: CanonicalEvent)
    ensures EarlierEvent(d, e) ==> NoLater(d, e)
    ensures !EarlierEvent(d, e) ==> NoLater(e, d)
  {
    StringLessIsTotal();
  }

  lemma {:induction false} LatestIsLast(events: seq<CanonicalEvent>, d: CanonicalEvent)
    requires d in events
    ensures Latest(events).Some? && NoLater(d, Latest(events).value)
  {
    var first, rest := events[0], events[1..];
    assert events == [first] + rest;
    EarlierIsNoLater(first, first);
    if rest != [] {
      var later := Latest(rest).value;
      EarlierIsNoLater(first, later);
      if d in rest {
        LatestIsLast(rest, d);
        if !EarlierEvent(first, later) {
          NoLaterChains(d, later, first);
        }
      }
    }
  }

  lemma LatestKept(accepted: seq<CanonicalEvent>, keep: CanonicalEvent -> bool)
    requires ToldApart(accepted)
    ensures var r := Latest(Where(accepted, keep));
            && (r.None? <==> forall e :: e in accepted ==> !keep(e))
            && (forall e :: LatestOf(accepted, keep, e) <==> r == Some(e))
  {
    var kept := Where(accepted, keep);
    var r := Latest(kept);
    forall e ensures e in kept <==> e in accepted && keep(e) {
      WhereMembers(accepted, keep, e);
    }
    forall d | d in kept ensures r.Some? && NoLater(d, r.value) {
      LatestIsLast(kept, d);
    }
    if r.None? {
      forall e | e in accepted ensures !keep(e) {
        assert e !in kept;
      }
    }
    forall e ensures LatestOf(accepted, keep, e) <==> r == Some(e) {
      if LatestOf(accepted, keep, e) {
        assert e in kept && NoLater(e, r.value) && NoLater(r.value, e);
        StringLessTrichotomy(e.id, r.value.id);
      }
    }
  }

  // ---------------------------------------------------------------- where an item comes from

  ghost predicate Bears(rules: Rules, s: Subject, item: Item, kind: Kind, code: string, source: Option<string>) {
    item == Item(rules.identify(s.runId, s.hypothesisId, kind, code, source), s.runId, s.incidentId, s.hypothesisId, kind, source, code)
  }

  ghost function Meeting(rules: Rules, key: string, x: Node): CanonicalEvent -> bool {
    e => rules.matches(key, e) && rules.inScope(key, e, x)
  }

  ghost function Matching(rules: Rules, key: string): CanonicalEvent -> bool {
    e => rules.matches(key, e)
  }

  const ALERTS: CanonicalEvent -> bool := (e: CanonicalEvent) => e.modality.Alert?

  /** A listed requirement was met: the item cites the latest event that meets it. */
  ghost predicate FromRequirement(rules: Rules, s: Subject, accepted: seq<CanonicalEvent>, entry: EvidenceEntry, item: Item) {
    exists key, e ::
      && HasKey(entry.expected, key) && LatestOf(accepted, Meeting(rules, key, s.entity), e)
      && Bears(rules, s, item, if key == "config_diff" then Correlated else Observed, rules.observedCode(key), Some(e.id))
  }

  /** A listed requirement was not met. */
  ghost predicate FromGap(rules: Rules, s: Subject, accepted: seq<CanonicalEvent>, entry: EvidenceEntry, item: Item) {
    exists key ::
      && HasKey(entry.expected, key) && (forall e :: e in accepted ==> !(rules.matches(key, e) && rules.inScope(key, e, s.entity)))
      && Bears(rules, s, item, Missing, rules.missingCode(key), None)
  }

  /** The event a conflict rests on: the one the effect names, or else the latest its pattern finds. */
  ghost predicate RestsOn(rules: Rules, effect: ConflictEffect, accepted: seq<CanonicalEvent>, e: CanonicalEvent) {
    if exists d :: d in accepted && Some(d.id) == effect.sourceEventId then e in accepted && Some(e.id) == effect.sourceEventId
    else if effect.code == "STABLE_RAW_INGRESS" then LatestOf(accepted, Matching(rules, "stable_raw_ingress"), e)
    else if effect.code == "NORMAL_DB_UTILIZATION" then
      LatestOf(accepted, (d: CanonicalEvent) => rules.matches("db_utilization", d) && d.signalValue.Some? && d.signalValue.value < 0.75, e)
    else if effect.code == "AUTHORIZED_SCANNER_MATCH" then LatestOf(accepted, Matching(rules, "scanner_authorization"), e)
    else false
  }

  /** The effects to show: those the ranker applied, or else the entry's own patterns. */
  ghost predicate Effective(entry: EvidenceEntry, effect: ConflictEffect) {
    match entry.applied
    case Some(effects) => effect in effects
    case None => effect.code in entry.patternIds && effect.sourceEventId == None
  }

  ghost predicate FromConflict(rules: Rules, s: Subject, accepted: seq<CanonicalEvent>, entry: EvidenceEntry, item: Item) {
    exists effect, e ::
      && Effective(entry, effect) && effect.code != "" && RestsOn(rules, effect, accepted, e)
      && Bears(rules, s, item, Conflicting, effect.code, Some(e.id))
  }

  /** Two hypotheses show a related signal when no change is shown as correlated. */
  ghost predicate FromAssociation(rules: Rules, s: Subject, accepted: seq<CanonicalEvent>, entry: EvidenceEntry, item: Item) {
    && !(HasKey(entry.expected, "config_diff") && exists e :: e in accepted && rules.matches("config_diff", e) && rules.inScope("config_diff", e, s.entity))
    && exists e ::
         || (s.hypothesisType == "dos_or_traffic_surge" && LatestOf(accepted, ALERTS, e)
             && Bears(rules, s, item, Correlated, "TRAFFIC_ALERT_CORRELATED", Some(e.id)))
         || (s.hypothesisType == "database_connection_exhaustion" && LatestOf(accepted, Matching(rules, "downstream_latency"), e)
             && Bears(rules, s, item, Correlated, "DEPENDENCY_PATH_LATENCY", Some(e.id)))
  }

  /** The configuration hypothesis shows the latest alert as its alternative when no conflict is shown. */
  ghost predicate FromAlternative(rules: Rules, s: Subject, accepted: seq<CanonicalEvent>, entry: EvidenceEntry, item: Item) {
    && s.hypothesisType == "configuration_regression"
    && (forall effect, e :: Effective(entry, effect) && effect.code != "" ==> !RestsOn(rules, effect, accepted, e))
    && exists e :: LatestOf(accepted, ALERTS, e) && Bears(rules, s, item, Conflicting, "ALTERNATIVE_CAUSE_SIGNAL", Some(e.id))
  }

  // ---------------------------------------------------------------- the collected lists hold just these

  lemma ScopedMatchIs(rules: Rules, key: string, accepted: seq<CanonicalEvent>, x: Node, e: CanonicalEvent)
    requires ToldApart(accepted)
    ensures ScopedMatch(rules, key, accepted, x) == Some(e) <==> LatestOf(accepted, Meeting(rules, key, x), e)
  {
    LatestKept(accepted, e => rules.matches(key, e) && rules.inScope(key, e, x));
    SameLatest(accepted, e => rules.matches(key, e) && rules.inScope(key, e, x), Meeting(rules, key, x), e);
  }

  lemma SameLatest(accepted: seq<CanonicalEvent>, one: CanonicalEvent -> bool, other: CanonicalEvent -> bool, e: CanonicalEvent)
    requires forall d :: one(d) <==> other(d)
    ensures LatestOf(accepted, one, e) <==> LatestOf(accepted, other, e)
  {
  }

  lemma ScopedMatchNone(rules: Rules, key: string, accepted: seq<CanonicalEvent>, x: Node)
    requires ToldApart(accepted)
    ensures ScopedMatch(rules, key, accepted, x).None? <==> forall e :: e in accepted ==> !(rules.matches(key, e) && rules.inScope(key, e, x))
  {
    LatestKept(accepted, e => rules.matches(key, e) && rules.inScope(key, e, x));
  }

  lemma AnyMatchIs(rules: Rules, key: string, accepted: seq<CanonicalEvent>, e: CanonicalEvent)
    requires ToldApart(accepted)
    ensures AnyMatch(rules, key, accepted) == Some(e) <==> LatestOf(accepted, Matching(rules, key), e)
  {
    LatestKept(accepted, e => rules.matches(key, e));
    SameLatest(accepted, e => rules.matches(key, e), Matching(rules, key), e);
  }

  /** The item a met requirement gets. */
  ghost predicate MetBy(rules: Rules, s: Subject, accepted: seq<CanonicalEvent>, key: string, item: Item) {
    var found := ScopedMatch(rules, key, accepted, s.entity);
    found.Some? && item == MakeItem(rules, s, if key == CONFIG_DIFF then Correlated else Observed, rules.observedCode(key), found)
  }

  /** A list that grows step by step holds what some step added. */
  lemma {:induction false} Accumulated(holds: int -> bool, adds: int -> bool, n: nat)
    requires !holds(0) && forall m :: 0 <= m < n ==> (holds(m + 1) <==> holds(m) || adds(m))
    ensures holds(n) <==> exists i :: 0 <= i < n && adds(i)
  {
    if n > 0 {
      Accumulated(holds, adds, n - 1);
      assert holds(n - 1 + 1) <==> holds(n - 1) || adds(n - 1);
    }
  }

  ghost function MetAt(rules: Rules, s: Subject, accepted: seq<CanonicalEvent>, expected: seq<(string, string)>, item: Item): int -> bool {
    i => 0 <= i < |expected| && MetBy(rules, s, accepted, expected[i].0, item)
  }

  ghost function MetHolds(rules: Rules, s: Subject, accepted: seq<CanonicalEvent>, expected: seq<(string, string)>, item: Item): int -> bool {
    i => 0 <= i <= |expected| && item in MetUpTo(rules, s, accepted, expected, i)
  }

  lemma MetNext(rules: Rules, s: Subject, accepted: seq<CanonicalEvent>, expected: seq<(string, string)>, m: nat, item: Item)
    requires m < |expected|
    ensures var holds := MetHolds(rules, s, accepted, expected, item);
            holds(m + 1) <==> holds(m) || MetAt(rules, s, accepted, expected, item)(m)
  {
  }

  lemma MetExactly(rules: Rules, s: Subject, accepted: seq<CanonicalEvent>, expected: seq<(string, string)>, n: nat, item: Item)
    requires n <= |expected|
    ensures MetHolds(rules, s, accepted, expected, item)(n) <==> exists i :: 0 <= i < n && MetAt(rules, s, accepted, expected, item)(i)
  {
    var holds, adds := MetHolds(rules, s, accepted, expected, item), MetAt(rules, s, accepted, expected, item);
    forall m | 0 <= m < n ensures holds(m + 1) <==> holds(m) || adds(m) {
      MetNext(rules, s, accepted, expected, m, item);
    }
    Accumulated(holds, adds, n);
  }

  ghost function UnmetAt(rules: Rules, s: Subject, accepted: seq<CanonicalEvent>, expected: seq<(string, string)>, key: string): int -> bool {
    i => 0 <= i < |expected| && expected[i].0 == key && ScopedMatch(rules, key, accepted, s.entity).None?
  }

  ghost function UnmetHolds(rules: Rules, s: Subject, accepted: seq<CanonicalEvent>, expected: seq<(string, string)>, key: string): int -> bool {
    i => 0 <= i <= |expected| && key in UnmetUpTo(rules, s, accepted, expected, i)
  }

  lemma UnmetNext(rules: Rules, s: Subject, accepted: seq<CanonicalEvent>, expected: seq<(string, string)>, m: nat, key: string)
    requires m < |expected|
    ensures var holds := UnmetHolds(rules, s, accepted, expected, key);
            holds(m + 1) <==> holds(m) || UnmetAt(rules, s, accepted, expected, key)(m)
  {
  }

  lemma UnmetExactly(rules: Rules, s: Subject, accepted: seq<CanonicalEvent>, expected: seq<(string, string)>, n: nat, key: string)
    requires n <= |expected|
    ensures UnmetHolds(rules, s, accepted, expected, key)(n) <==> exists i :: 0 <= i < n && UnmetAt(rules, s, accepted, expected, key)(i)
  {
    var holds, adds := UnmetHolds(rules, s, accepted, expected, key), UnmetAt(rules, s, accepted, expected, key);
    forall m | 0 <= m < n ensures holds(m + 1) <==> holds(m) || adds(m) {
      UnmetNext(rules, s, accepted, expected, m, key);
    }
    Accumulated(holds, adds, n);
  }

  /** The item an effect gets. */
  ghost predicate ConflictBy(rules: Rules, s: Subject, accepted: seq<CanonicalEvent>, effect: ConflictEffect, item: Item) {
    var source := EffectSource(rules, effect, accepted);
    effect.code != "" && source.Some? && item == MakeItem(rules, s, Conflicting, effect.code, source)
  }

  lemma ConflictsNext(rules: Rules, s: Subject, accepted: seq<CanonicalEvent>, effects: seq<ConflictEffect>, m: nat, item: Item)
    requires m < |effects|
    ensures item in ConflictsUpTo(rules, s, accepted, effects, m + 1) <==>
              item in ConflictsUpTo(rules, s, accepted, effects, m) || ConflictBy(rules, s, accepted, effects[m], item)
  {
  }

  lemma ConflictsExactly(rules: Rules, s: Subject, accepted: seq<CanonicalEvent>, effects: seq<ConflictEffect>, n: nat, item: Item)
    requires n <= |effects|
    ensures item in ConflictsUpTo(rules, s, accepted, effects, n) <==> exists i :: 0 <= i < n && ConflictBy(rules, s, accepted, effects[i], item)
  {
    var holds := i => 0 <= i <= |effects| && item in ConflictsUpTo(rules, s, accepted, effects, i);
    var adds := i => 0 <= i < |effects| && ConflictBy(rules, s, accepted, effects[i], item);
    forall m | 0 <= m < n ensures holds(m + 1) <==> holds(m) || adds(m) {
      ConflictsNext(rules, s, accepted, effects, m, item);
    }
    Accumulated(holds, adds, n);
    assert forall i :: 0 <= i < n ==> (adds(i) <==> ConflictBy(rules, s, accepted, effects[i], item));
  }

  lemma EffectsAreEffective(entry: EvidenceEntry, effect: ConflictEffect)
    ensures effect in EffectsOf(entry) <==> Effective(entry, effect)
  {
    if entry.applied.None? && Effective(entry, effect) {
      var i :| 0 <= i < |entry.patternIds| && entry.patternIds[i] == effect.code;
      assert EffectsOf(entry)[i] == effect;
    }
  }

  lemma {:induction false} FoundById(accepted: seq<CanonicalEvent>, id: Option<string>, e: CanonicalEvent)
    requires ToldApart(accepted)
    ensures FindById(accepted, id) == Some(e) <==> e in accepted && Some(e.id) == id
  {
    if e in accepted && Some(e.id) == id {
      var i :| 0 <= i < |accepted| && accepted[i] == e;
      assert Attached(accepted, e.id);
    }
  }

  lemma EffectSourceIs(rules: Rules, effect: ConflictEffect, accepted: seq<CanonicalEvent>, e: CanonicalEvent)
    requires ToldApart(accepted)
    ensures EffectSource(rules, effect, accepted) == Some(e) <==> RestsOn(rules, effect, accepted, e)
  {
    var cited := FindById(accepted, effect.sourceEventId);
    FoundById(accepted, effect.sourceEventId, e);
    if d :| d in accepted && Some(d.id) == effect.sourceEventId {
      FoundById(accepted, effect.sourceEventId, d);
    }
    AnyMatchIs(rules, "stable_raw_ingress", accepted, e);
    AnyMatchIs(rules, "scanner_authorization", accepted, e);
    var normal := (d: CanonicalEvent) => rules.matches("db_utilization", d) && d.signalValue.Some? && d.signalValue.value < 0.75;
    LatestKept(accepted, d => NormalUtilization(rules, d));
    SameLatest(accepted, d => NormalUtilization(rules, d), normal, e);
  }

  // ---------------------------------------------------------------- the last alert

  /** Listed in time order. */
  ghost predicate InTime(accepted: seq<CanonicalEvent>) {
    forall i, j :: 0 <= i < j < |accepted| ==> NoLater(accepted[i], accepted[j])
  }

  lemma AcceptedInTime(events: seq<CanonicalEvent>)
    ensures InTime(Accepted(events))
  {
    var kept := ById(events);
    forall x, y | x in kept && y in kept ensures x == y || EarlierEvent(x, y) || EarlierEvent(y, x) {
      KeptAreLast(events, x);
      KeptAreLast(events, y);
      StringLessTrichotomy(x.id, y.id);
    }
    StampLessIsTotal();
    SortByOrders(kept, EarlierEvent);
    forall i, j | 0 <= i < j < |Accepted(events)| ensures NoLater(Accepted(events)[i], Accepted(events)[j]) {
      OrderedPairs(Accepted(events), EarlierEvent, i, j);
    }
  }

  lemma {:induction false} LastAlertPlace(accepted: seq<CanonicalEvent>) returns (i: nat)
    ensures LastAlert(accepted).None? ==> forall e :: e in accepted ==> !e.modality.Alert?
    ensures LastAlert(accepted).Some? ==> i < |accepted| && LastAlert(accepted) == Some(accepted[i]) && accepted[i].modality.Alert?
    ensures LastAlert(accepted).Some? ==> forall j :: i < j < |accepted| ==> !accepted[j].modality.Alert?
  {
    i := 0;
    if accepted != [] {
      i := |accepted| - 1;
      assert accepted == accepted[..i] + [accepted[i]];
      if !accepted[i].modality.Alert? {
        i := LastAlertPlace(accepted[..i]);
      }
    }
  }

  lemma LastAlertIs(accepted: seq<CanonicalEvent>, e: CanonicalEvent)
    requires ToldApart(accepted) && InTime(accepted)
    ensures LastAlert(accepted) == Some(e) <==> LatestOf(accepted, ALERTS, e)
  {
    var i := LastAlertPlace(accepted);
    if LastAlert(accepted).Some? {
      forall d | d in accepted && ALERTS(d) ensures NoLater(d, accepted[i]) {
        var j :| 0 <= j < |accepted| && accepted[j] == d;
        StringLessTrichotomy(d.id, d.id);
      }
      if LatestOf(accepted, ALERTS, e) {
        assert NoLater(accepted[i], e) && NoLater(e, accepted[i]);
        StringLessTrichotomy(e.id, accepted[i].id);
      }
    }
  }

  // ---------------------------------------------------------------- every item, and no other

  lemma RequirementItems(rules: Rules, s: Subject, accepted: seq<CanonicalEvent>, entry: EvidenceEntry, item: Item)
    requires ToldApart(accepted)
    ensures var expected := ExpectedEvidence(entry.expected);
            item in MetUpTo(rules, s, accepted, expected, |expected|) <==> FromRequirement(rules, s, accepted, entry, item)
  {
    var expected := ExpectedEvidence(entry.expected);
    MetExactly(rules, s, accepted, expected, |expected|, item);
    if i :| 0 <= i < |expected| && MetAt(rules, s, accepted, expected, item)(i) {
      var key := expected[i].0;
      var e := ScopedMatch(rules, key, accepted, s.entity).value;
      ExpectedKeys(entry.expected, key);
      assert HasKey(expected, key);
      ScopedMatchIs(rules, key, accepted, s.entity, e);
      assert HasKey(entry.expected, key) && LatestOf(accepted, Meeting(rules, key, s.entity), e);
    }
    if key, e :| HasKey(entry.expected, key) && LatestOf(accepted, Meeting(rules, key, s.entity), e)
                 && Bears(rules, s, item, if key == "config_diff" then Correlated else Observed, rules.observedCode(key), Some(e.id)) {
      ExpectedKeys(entry.expected, key);
      var i :| 0 <= i < |expected| && expected[i].0 == key;
      ScopedMatchIs(rules, key, accepted, s.entity, e);
      assert MetAt(rules, s, accepted, expected, item)(i);
    }
  }

  lemma GapKeys(rules: Rules, s: Subject, accepted: seq<CanonicalEvent>, entry: EvidenceEntry, key: string)
    requires ToldApart(accepted)
    ensures var expected := ExpectedEvidence(entry.expected);
            key in UnmetUpTo(rules, s, accepted, expected, |expected|) <==>
              HasKey(entry.expected, key) && forall e :: e in accepted ==> !(rules.matches(key, e) && rules.inScope(key, e, s.entity))
  {
    var expected := ExpectedEvidence(entry.expected);
    UnmetExactly(rules, s, accepted, expected, |expected|, key);
    ExpectedKeys(entry.expected, key);
    ScopedMatchNone(rules, key, accepted, s.entity);
    if HasKey(expected, key) && ScopedMatch(rules, key, accepted, s.entity).None? {
      var i :| 0 <= i < |expected| && expected[i].0 == key;
      assert UnmetAt(rules, s, accepted, expected, key)(i);
    }
  }

  lemma MissingExactly(rules: Rules, s: Subject, unmet: seq<string>, item: Item)
    ensures item in MissingItems(rules, s, unmet) <==> exists key :: key in unmet && Bears(rules, s, item, Missing, rules.missingCode(key), None)
  {
    if item in MissingItems(rules, s, unmet) {
      var i :| 0 <= i < |unmet| && MissingItems(rules, s, unmet)[i] == item;
      assert unmet[i] in unmet && Bears(rules, s, item, Missing, rules.missingCode(unmet[i]), None);
    }
    if key :| key in unmet && Bears(rules, s, item, Missing, rules.missingCode(key), None) {
      var i :| 0 <= i < |unmet| && unmet[i] == key;
      assert MissingItems(rules, s, unmet)[i] == item;
    }
  }

  lemma GapItems(rules: Rules, s: Subject, accepted: seq<CanonicalEvent>, entry: EvidenceEntry, item: Item)
    requires ToldApart(accepted)
    ensures item in Lacking(rules, s, accepted, entry) <==> FromGap(rules, s, accepted, entry, item)
  {
    var expected := ExpectedEvidence(entry.expected);
    MissingExactly(rules, s, UnmetUpTo(rules, s, accepted, expected, |expected|), item);
    forall key
      ensures key in UnmetUpTo(rules, s, accepted, expected, |expected|) <==>
                HasKey(entry.expected, key) && forall e :: e in accepted ==> !(rules.matches(key, e) && rules.inScope(key, e, s.entity))
    {
      GapKeys(rules, s, accepted, entry, key);
    }
  }

  lemma ConflictItems(rules: Rules, s: Subject, accepted: seq<CanonicalEvent>, entry: EvidenceEntry, item: Item)
    requires ToldApart(accepted)
    ensures var effects := EffectsOf(entry);
            item in ConflictsUpTo(rules, s, accepted, effects, |effects|) <==> FromConflict(rules, s, accepted, entry, item)
  {
    var effects := EffectsOf(entry);
    ConflictsExactly(rules, s, accepted, effects, |effects|, item);
    if i :| 0 <= i < |effects| && ConflictBy(rules, s, accepted, effects[i], item) {
      var e := EffectSource(rules, effects[i], accepted).value;
      EffectsAreEffective(entry, effects[i]);
      EffectSourceIs(rules, effects[i], accepted, e);
      assert Effective(entry, effects[i]) && RestsOn(rules, effects[i], accepted, e);
    }
    if effect, e :| Effective(entry, effect) && effect.code != "" && RestsOn(rules, effect, accepted, e)
                    && Bears(rules, s, item, Conflicting, effect.code, Some(e.id)) {
      EffectsAreEffective(entry, effect);
      EffectSourceIs(rules, effect, accepted, e);
      var i :| 0 <= i < |effects| && effects[i] == effect;
      assert ConflictBy(rules, s, accepted, effects[i], item);
    }
  }

  lemma NoCorrelated(rules: Rules, s: Subject, accepted: seq<CanonicalEvent>, entry: EvidenceEntry)
    requires ToldApart(accepted)
    ensures var expected := ExpectedEvidence(entry.expected);
            HasKind(MetUpTo(rules, s, accepted, expected, |expected|), Correlated) <==>
              HasKey(entry.expected, "config_diff")
              && exists e :: e in accepted && rules.matches("config_diff", e) && rules.inScope("config_diff", e, s.entity)
  {
    var expected := ExpectedEvidence(entry.expected);
    var met := MetUpTo(rules, s, accepted, expected, |expected|);
    ScopedMatchNone(rules, "config_diff", accepted, s.entity);
    if HasKind(met, Correlated) {
      var i :| 0 <= i < |met| && met[i].kind == Correlated;
      assert met[i] in met;
      RequirementItems(rules, s, accepted, entry, met[i]);
    }
    if HasKey(entry.expected, "config_diff") && ScopedMatch(rules, "config_diff", accepted, s.entity).Some? {
      var e := ScopedMatch(rules, "config_diff", accepted, s.entity).value;
      var item := MakeItem(rules, s, Correlated, rules.observedCode("config_diff"), Some(e));
      ScopedMatchIs(rules, "config_diff", accepted, s.entity, e);
      RequirementItems(rules, s, accepted, entry, item);
      var i :| 0 <= i < |met| && met[i] == item;
    }
  }

  lemma AssociationItems(rules: Rules, s: Subject, accepted: seq<CanonicalEvent>, entry: EvidenceEntry, item: Item)
    requires ToldApart(accepted) && InTime(accepted)
    ensures var expected := ExpectedEvidence(entry.expected);
            item in Association(rules, s, accepted, MetUpTo(rules, s, accepted, expected, |expected|)) <==> FromAssociation(rules, s, accepted, entry, item)
  {
    NoCorrelated(rules, s, accepted, entry);
    forall e ensures LastAlert(accepted) == Some(e) <==> LatestOf(accepted, ALERTS, e) {
      LastAlertIs(accepted, e);
    }
    forall e ensures AnyMatch(rules, "downstream_latency", accepted) == Some(e) <==> LatestOf(accepted, Matching(rules, "downstream_latency"), e) {
      AnyMatchIs(rules, "downstream_latency", accepted, e);
    }
  }

  lemma NoConflict(rules: Rules, s: Subject, accepted: seq<CanonicalEvent>, entry: EvidenceEntry)
    requires ToldApart(accepted)
    ensures var effects := EffectsOf(entry);
            HasKind(ConflictsUpTo(rules, s, accepted, effects, |effects|), Conflicting) <==>
              exists effect, e :: Effective(entry, effect) && effect.code != "" && RestsOn(rules, effect, accepted, e)
  {
    var effects := EffectsOf(entry);
    var conflicts := ConflictsUpTo(rules, s, accepted, effects, |effects|);
    if HasKind(conflicts, Conflicting) {
      var i :| 0 <= i < |conflicts| && conflicts[i].kind == Conflicting;
      assert conflicts[i] in conflicts;
      ConflictItems(rules, s, accepted, entry, conflicts[i]);
    }
    if effect, e :| Effective(entry, effect) && effect.code != "" && RestsOn(rules, effect, accepted, e) {
      var item := MakeItem(rules, s, Conflicting, effect.code, Some(e));
      assert Bears(rules, s, item, Conflicting, effect.code, Some(e.id));
      ConflictItems(rules, s, accepted, entry, item);
      var i :| 0 <= i < |conflicts| && conflicts[i] == item;
    }
  }

  lemma AlternativeItems(rules: Rules, s: Subject, accepted: seq<CanonicalEvent>, entry: EvidenceEntry, item: Item)
    requires ToldApart(accepted) && InTime(accepted)
    ensures var effects := EffectsOf(entry);
            item in Alternative(rules, s, accepted, ConflictsUpTo(rules, s, accepted, effects, |effects|)) <==> FromAlternative(rules, s, accepted, entry, item)
  {
    NoConflict(rules, s, accepted, entry);
    forall e ensures LastAlert(accepted) == Some(e) <==> LatestOf(accepted, ALERTS, e) {
      LastAlertIs(accepted, e);
    }
  }

  /** Every item comes from one of the five, and each of the five gives its item. */
  lemma ItemsExactly(rules: Rules, s: Subject, events: seq<CanonicalEvent>, entry: EvidenceEntry, item: Item)
    ensures var accepted := Accepted(events);
            item in Collected(rules, s, accepted, entry) <==>
              || FromRequirement(rules, s, accepted, entry, item) || FromAssociation(rules, s, accepted, entry, item)
              || FromConflict(rules, s, accepted, entry, item) || FromAlternative(rules, s, accepted, entry, item)
              || FromGap(rules, s, accepted, entry, item)
  {
    var accepted := Accepted(events);
    AcceptedToldApart(events);
    AcceptedInTime(events);
    CollectedSplits(rules, s, accepted, entry, item);
    RequirementItems(rules, s, accepted, entry, item);
    AssociationItems(rules, s, accepted, entry, item);
    ConflictItems(rules, s, accepted, entry, item);
    AlternativeItems(rules, s, accepted, entry, item);
    GapItems(rules, s, accepted, entry, item);
  }

  /** By kind, then by code, then by id, `x` is not after `y`. */
  ghost predicate InOrder(x: Item, y: Item) {
    && (y.kind == Observed ==> x.kind == Observed)
    && (y.kind == Correlated ==> x.kind == Observed || x.kind == Correlated)
    && (y.kind == Conflicting ==> x.kind != Missing)
    && (x.kind == y.kind ==> !StringLess(y.reasonCode, x.reasonCode))
    && (x.kind == y.kind && x.reasonCode == y.reasonCode ==> !StringLess(y.id, x.id))
  }

  lemma NotLessInOrder(x: Item, y: Item)
    requires !ItemLess(y, x)
    ensures InOrder(x, y)
  {
  }

  /** Observed items come first, then correlated, conflicting and missing ones, and among those of a kind
      the codes ascend and then the ids. */
  lemma ItemsOrdered(rules: Rules, s: Subject, accepted: seq<CanonicalEvent>, entry: EvidenceEntry, i: nat, j: nat)
    requires forall x, y :: x in Collected(rules, s, accepted, entry) && y in Collected(rules, s, accepted, entry) && x.id == y.id ==> x == y
    requires i < j < |Collected(rules, s, accepted, entry)|
    ensures InOrder(Collected(rules, s, accepted, entry)[i], Collected(rules, s, accepted, entry)[j])
  {
    var all := Sourced(rules, s, accepted, entry) + Lacking(rules, s, accepted, entry);
    forall x ensures x in all <==> x in SortBy(all, ItemLess) {
      SortKeepsMembers(all, ItemLess, x);
    }
    SortedInOrder(all, i, j);
  }

  lemma SortedInOrder(all: seq<Item>, i: nat, j: nat)
    requires forall x, y :: x in all && y in all && x.id == y.id ==> x == y
    requires i < j < |SortBy(all, ItemLess)|
    ensures InOrder(SortBy(all, ItemLess)[i], SortBy(all, ItemLess)[j])
  {
    ItemLessIsTotal(all);
    SortByOrders(all, ItemLess);
    OrderedPairs(SortBy(all, ItemLess), ItemLess, i, j);
    NotLessInOrder(SortBy(all, ItemLess)[i], SortBy(all, ItemLess)[j]);
  }

  lemma ItemLessIsTotal(items: seq<Item>)
    requires forall x, y :: x in items && y in items && x.id == y.id ==> x == y
    ensures TotalOn(items, ItemLess)
  {
    StringLessIsTotal();
  }
}
