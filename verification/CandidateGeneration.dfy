/** Catalogue-driven candidate generation. */
module CandidateGeneration {
  import opened Common
  import opened Contracts
  import opened RcaContracts
  import opened Sorting
  import opened TypedGraph
  import TopologySearch

  // ---------------------------------------------------------------- payload lookups

  /** `payload.get(key) is True`. */
  predicate IsTrue(e: CanonicalEvent, key: string) {
    key in e.payload && e.payload[key] == Flag(true)
  }

  /** `str(payload.get("target_entity_id") or event.entity_id)`. */
  function ChangeTarget(e: CanonicalEvent): Node {
    if "target_entity_id" !in e.payload then e.entityId
    else match e.payload["target_entity_id"]
      case Text(t) => if t == "" then e.entityId else t
      case Flag(b) => if b then "True" else e.entityId
  }

  /** `payload.get("dependency_id")` when it is a string. */
  function Dependency(e: CanonicalEvent): Option<Node> {
    if "dependency_id" in e.payload && e.payload["dependency_id"].Text?
    then Some(e.payload["dependency_id"].text) else None
  }

  // ---------------------------------------------------------------- which events speak for an entry

  predicate HasAnomaly(b: Bundle, eventId: string, types: set<string>) {
    exists i :: 0 <= i < |b.anomalies| && b.anomalies[i].eventId == eventId && b.anomalies[i].anomalyType in types
  }

  predicate SpeaksFor(rules: GenerationRule, b: Bundle, e: CanonicalEvent) {
    || HasAnomaly(b, e.id, rules.anyAnomalyTypes)
    || (e.modality.Log? && e.eventType in rules.anyLogEventTypes)
    || e.eventType in rules.anyEventTypes
  }

  /** The events that let an entry generate candidates, in time order; None when its rules fail. */
  function GenerationEvents(entry: Entry, b: Bundle): Option<seq<CanonicalEvent>> {
    var rules := entry.generation;
    var anomalyMatch := exists i :: 0 <= i < |b.anomalies| && b.anomalies[i].anomalyType in rules.anyAnomalyTypes;
    var logMatch := exists i :: 0 <= i < |b.events| && b.events[i].modality.Log? && b.events[i].eventType in rules.anyLogEventTypes;
    var eventMatch := exists i :: 0 <= i < |b.events| && b.events[i].eventType in rules.anyEventTypes;
    var signalRules := rules.anyAnomalyTypes != {} || rules.anyLogEventTypes != {} || rules.anyEventTypes != {};
    if rules.requiresRecentChange && !(exists i :: 0 <= i < |b.events| && b.events[i].modality.ConfigChange?) then None
    else if signalRules && !(anomalyMatch || logMatch || eventMatch) then None
    else Some(SortBy(Where(b.events, e => SpeaksFor(rules, b, e)), EarlierEvent))
  }

  function Dependencies(events: seq<CanonicalEvent>): seq<Node> {
    if events == [] then []
    else match Dependency(events[0])
      case Some(d) => [d] + Dependencies(events[1..])
      case None => Dependencies(events[1..])
  }

  function SelectEntities(entry: Entry, b: Bundle, matched: seq<CanonicalEvent>): seq<Node> {
    match entry.generation.selector
    case PrimaryEntity => [b.incident.primary]
    case ChangedEntity =>
      Mapped(SortBy(Where(b.events, (e: CanonicalEvent) => e.modality.ConfigChange?), EarlierEvent), (e: CanonicalEvent) => ChangeTarget(e))
    case EventEntity => Mapped(matched, (e: CanonicalEvent) => e.entityId)
    case ReferencedDependency => Dependencies(matched)
  }

  function AffectedOrPrimary(b: Bundle): seq<Node> {
    if b.incident.affected != [] then b.incident.affected else [b.incident.primary]
  }

  // ---------------------------------------------------------------- what a candidate must satisfy

  predicate KindFits(entry: Entry, b: Bundle, x: Node) {
    exists i :: 0 <= i < |b.nodes| && b.nodes[i].id == x && b.nodes[i].kind in entry.entityTypes
  }

  ghost predicate Located(entry: Entry, b: Bundle, x: Node) {
    exists o :: o in AffectedOrPrimary(b) && Within(b.edges, entry.traversal, o, x, entry.traversal.maxHops)
  }

  ghost predicate Fits(entry: Entry, b: Bundle, x: Node) {
    KindFits(entry, b, x) && Located(entry, b, x)
  }

  /** The first selected entity that fits. */
  ghost function FirstFit(entry: Entry, b: Bundle, selected: seq<Node>): (r: Option<Node>)
    ensures r.Some? ==> r.value in selected && Fits(entry, b, r.value)
    ensures r.None? ==> forall x :: x in selected ==> !Fits(entry, b, x)
  {
    if selected == [] then None
    else if Fits(entry, b, selected[0]) then Some(selected[0])
    else
      assert selected == [selected[0]] + selected[1..];
      FirstFit(entry, b, selected[1..])
  }

  ghost function Choice(entry: Entry, b: Bundle): Option<Node> {
    match GenerationEvents(entry, b)
    case None => None
    case Some(matched) => FirstFit(entry, b, SelectEntities(entry, b, matched))
  }

  /** One candidate, named by its number, for each of the first `n` entries that made a choice. */
  function Numbering(entries: seq<Entry>, choices: seq<Option<Node>>, n: nat, name: nat -> string): (r: seq<Candidate>)
    requires n <= |entries| == |choices|
    ensures |r| <= n
  {
    if n == 0 then []
    else
      var before := Numbering(entries, choices, n - 1, name);
      match choices[n - 1]
      case None => before
      case Some(x) => before + [Candidate(name(|before| + 1), entries[n - 1].hypothesisType, x)]
  }

  ghost function Choices(c: Catalogue, b: Bundle): (r: seq<Option<Node>>)
    ensures |r| == |c.hypotheses| && forall i :: 0 <= i < |r| ==> r[i] == Choice(c.hypotheses[i], b)
  {
    seq(|c.hypotheses|, i requires 0 <= i < |c.hypotheses| => Choice(c.hypotheses[i], b))
  }

  /** What one pass over the catalogue generates. */
  ghost function Candidates(c: Catalogue, b: Bundle): seq<Candidate> {
    Numbering(c.hypotheses, Choices(c, b), |c.hypotheses|, CandidateLabel)
  }

  // ---------------------------------------------------------------- the loops

  method KindOf(nodes: seq<TopologyNode>, x: Node) returns (kind: Option<string>)
    requires forall i, j :: 0 <= i < j < |nodes| ==> nodes[i].id != nodes[j].id
    ensures kind.None? <==> !NodeIn(nodes, x)
    ensures forall i :: 0 <= i < |nodes| && nodes[i].id == x ==> kind == Some(nodes[i].kind)
  {
    for i := 0 to |nodes|
      invariant forall k :: 0 <= k < i ==> nodes[k].id != x
    {
      if nodes[i].id == x {
        return Some(nodes[i].kind);
      }
    }
    kind := None;
  }

  method AnyOrigin(entry: Entry, b: Bundle, x: Node) returns (r: bool)
    ensures r <==> Located(entry, b, x)
  {
    var origins := AffectedOrPrimary(b);
    for i := 0 to |origins|
      invariant forall k :: 0 <= k < i ==> !Within(b.edges, entry.traversal, origins[k], x, entry.traversal.maxHops)
    {
      var reached := TopologySearch.TypedPathExists(b.edges, origins[i], x, entry.traversal);
      if reached {
        assert origins[i] in AffectedOrPrimary(b);
        return true;
      }
    }
    r := false;
  }

  method FirstFitting(entry: Entry, b: Bundle, selected: seq<Node>) returns (r: Option<Node>)
    requires ValidBundle(b)
    ensures r == FirstFit(entry, b, selected)
  {
    for i := 0 to |selected|
      invariant FirstFit(entry, b, selected) == FirstFit(entry, b, selected[i..])
    {
      assert selected[i..][1..] == selected[i + 1..];
      var x := selected[i];
      var kind := KindOf(b.nodes, x);
      if kind.None? || kind.value !in entry.entityTypes {
        continue;
      }
      var located := AnyOrigin(entry, b, x);
      if !located {
        continue;
      }
      return Some(x);
    }
    r := None;
  }

  /** One pass over the catalogue. */
  method Generate(c: Catalogue, b: Bundle) returns (generated: seq<Candidate>)
    requires ValidBundle(b)
    ensures generated == Candidates(c, b)
  {
    generated := [];
    for i := 0 to |c.hypotheses|
      invariant generated == Numbering(c.hypotheses, Choices(c, b), i, CandidateLabel)
    {
      var entry := c.hypotheses[i];
      var matched := GenerationEvents(entry, b);
      if matched.None? {
        continue;
      }
      var x := FirstFitting(entry, b, SelectEntities(entry, b, matched.value));
      if x.Some? {
        generated := generated + [Candidate(CandidateLabel(|generated| + 1), entry.hypothesisType, x.value)];
      }
    }
  }

  // ---------------------------------------------------------------- what the candidates satisfy

  /** A candidate comes from one of the first `n` entries. */
  ghost predicate Comes(entries: seq<Entry>, choices: seq<Option<Node>>, x: Candidate, n: nat)
    requires n <= |entries| == |choices|
  {
    exists i :: 0 <= i < n && entries[i].hypothesisType == x.hypothesisType && choices[i] == Some(x.entity)
  }

  ghost predicate TypesDiffer(cs: seq<Candidate>) {
    forall i, j :: 0 <= i < j < |cs| ==> cs[i].hypothesisType != cs[j].hypothesisType
  }

  ghost predicate EntriesDiffer(entries: seq<Entry>) {
    forall i, j :: 0 <= i < j < |entries| ==> entries[i].hypothesisType != entries[j].hypothesisType
  }

  lemma {:induction false} NumberedComes(entries: seq<Entry>, choices: seq<Option<Node>>, n: nat, k: nat, name: nat -> string)
    requires n <= |entries| == |choices| && k < |Numbering(entries, choices, n, name)|
    ensures var x := Numbering(entries, choices, n, name)[k];
            x.id == name(k + 1) && Comes(entries, choices, x, n)
  {
    var before := Numbering(entries, choices, n - 1, name);
    if k < |before| {
      NumberedComes(entries, choices, n - 1, k, name);
    } else {
      assert choices[n - 1] == Some(Numbering(entries, choices, n, name)[k].entity);
    }
  }

  ghost predicate HasType(cs: seq<Candidate>, t: string) {
    exists k :: 0 <= k < |cs| && cs[k].hypothesisType == t
  }

  lemma HasTypeAppends(cs: seq<Candidate>, x: Candidate, t: string)
    ensures HasType(cs + [x], t) <==> HasType(cs, t) || x.hypothesisType == t
  {
    assert (cs + [x])[|cs|] == x;
    forall k | 0 <= k < |cs| ensures (cs + [x])[k] == cs[k] {
    }
  }

  lemma EarlierTypesAreOther(entries: seq<Entry>, choices: seq<Option<Node>>, n: nat, name: nat -> string)
    requires EntriesDiffer(entries) && n < |entries| == |choices|
    ensures !HasType(Numbering(entries, choices, n, name), entries[n].hypothesisType)
  {
    var before := Numbering(entries, choices, n, name);
    forall k | 0 <= k < |before| ensures before[k].hypothesisType != entries[n].hypothesisType {
      NumberedComes(entries, choices, n, k, name);
    }
  }

  /** One more entry adds one more candidate of its type, or none. */
  ghost predicate Longer(before: seq<Candidate>, after: seq<Candidate>, chosen: bool, t: string) {
    if chosen then after != [] && after[..|after| - 1] == before && after[|after| - 1].hypothesisType == t else after == before
  }

  lemma NumberingNext(entries: seq<Entry>, choices: seq<Option<Node>>, m: nat, name: nat -> string)
    requires m < |entries| == |choices|
    ensures Longer(Numbering(entries, choices, m, name), Numbering(entries, choices, m + 1, name), choices[m].Some?, entries[m].hypothesisType)
  {
  }

  lemma LongerDiffers(before: seq<Candidate>, after: seq<Candidate>, chosen: bool, t: string)
    requires Longer(before, after, chosen, t) && TypesDiffer(before) && !HasType(before, t)
    ensures TypesDiffer(after)
  {
    if chosen {
      assert after == before + [after[|after| - 1]];
      TypesDifferAppends(before, after[|after| - 1]);
    }
  }

  lemma LongerHas(before: seq<Candidate>, after: seq<Candidate>, chosen: bool, t: string, u: string)
    requires Longer(before, after, chosen, t)
    ensures HasType(after, u) <==> HasType(before, u) || (chosen && t == u)
  {
    if chosen {
      assert after == before + [after[|after| - 1]];
      HasTypeAppends(before, after[|after| - 1], u);
    }
  }

  lemma {:induction false} NumberedTypesDiffer(entries: seq<Entry>, choices: seq<Option<Node>>, n: nat, name: nat -> string)
    requires EntriesDiffer(entries) && n <= |entries| == |choices|
    ensures TypesDiffer(Numbering(entries, choices, n, name))
  {
    if n > 0 {
      var m := n - 1;
      NumberedTypesDiffer(entries, choices, m, name);
      EarlierTypesAreOther(entries, choices, m, name);
      NumberingNext(entries, choices, m, name);
      LongerDiffers(Numbering(entries, choices, m, name), Numbering(entries, choices, n, name), choices[m].Some?, entries[m].hypothesisType);
    }
  }

  lemma TypesDifferAppends(cs: seq<Candidate>, x: Candidate)
    requires TypesDiffer(cs) && !HasType(cs, x.hypothesisType)
    ensures TypesDiffer(cs + [x])
  {
  }

  lemma {:induction false} NumberedExactly(entries: seq<Entry>, choices: seq<Option<Node>>, n: nat, i: nat, name: nat -> string)
    requires EntriesDiffer(entries) && i < n <= |entries| == |choices|
    ensures HasType(Numbering(entries, choices, n, name), entries[i].hypothesisType) <==> choices[i].Some?
  {
    var m := n - 1;
    if i < m {
      NumberedExactly(entries, choices, m, i, name);
    } else {
      EarlierTypesAreOther(entries, choices, m, name);
    }
    NumberingNext(entries, choices, m, name);
    LongerHas(Numbering(entries, choices, m, name), Numbering(entries, choices, n, name), choices[m].Some?, entries[m].hypothesisType, entries[i].hypothesisType);
  }

  /** What holds of any generated list of candidates: at most one per hypothesis type, numbered from
      one, each from an entry of the catalogue, on a known node of that entry's kinds and reached by
      that entry's own typed traversal. */
  ghost predicate WellGenerated(c: Catalogue, b: Bundle, cs: seq<Candidate>) {
    && TypesDiffer(cs)
    && forall k :: 0 <= k < |cs| ==> cs[k].id == CandidateLabel(k + 1) && Justified(c, b, cs[k])
  }

  ghost predicate Justified(c: Catalogue, b: Bundle, x: Candidate) {
    exists i :: 0 <= i < |c.hypotheses| && c.hypotheses[i].hypothesisType == x.hypothesisType && Fits(c.hypotheses[i], b, x.entity)
  }

  lemma ChoiceFits(entry: Entry, b: Bundle)
    ensures Choice(entry, b).Some? ==> Fits(entry, b, Choice(entry, b).value)
    ensures Choice(entry, b).Some? <==>
              && GenerationEvents(entry, b).Some?
              && exists x :: x in SelectEntities(entry, b, GenerationEvents(entry, b).value) && Fits(entry, b, x)
  {
  }

  lemma GeneratedCandidates(c: Catalogue, b: Bundle)
    requires ValidCatalogue(c)
    ensures WellGenerated(c, b, Candidates(c, b))
  {
    var n, cs := |c.hypotheses|, Candidates(c, b);
    NumberedTypesDiffer(c.hypotheses, Choices(c, b), n, CandidateLabel);
    forall k | 0 <= k < |cs| ensures cs[k].id == CandidateLabel(k + 1) && Justified(c, b, cs[k]) {
      NumberedComes(c.hypotheses, Choices(c, b), n, k, CandidateLabel);
      var i :| 0 <= i < n && c.hypotheses[i].hypothesisType == cs[k].hypothesisType && Choices(c, b)[i] == Some(cs[k].entity);
      ChoiceFits(c.hypotheses[i], b);
    }
  }

  /** An entry produces a candidate exactly when its rules match and some selected entity fits. */
  lemma GeneratesExactly(c: Catalogue, b: Bundle, i: nat)
    requires ValidCatalogue(c) && i < |c.hypotheses|
    ensures HasType(Candidates(c, b), c.hypotheses[i].hypothesisType)
            <==> var entry := c.hypotheses[i];
                 && GenerationEvents(entry, b).Some?
                 && exists x :: x in SelectEntities(entry, b, GenerationEvents(entry, b).value) && Fits(entry, b, x)
  {
    NumberedExactly(c.hypotheses, Choices(c, b), |c.hypotheses|, i, CandidateLabel);
    ChoiceFits(c.hypotheses[i], b);
  }

  // ---------------------------------------------------------------- an incident without events

  /** An entry that needs no signal: it looks at the primary entity whatever happened. */
  predicate Unprompted(entry: Entry) {
    && entry.generation.selector.PrimaryEntity? && !entry.generation.requiresRecentChange
    && entry.generation.anyAnomalyTypes == {} && entry.generation.anyLogEventTypes == {} && entry.generation.anyEventTypes == {}
  }

  lemma EmptyChoice(entry: Entry, b: Bundle)
    requires b.events == [] && b.anomalies == []
    ensures Choice(entry, b).Some? <==> Unprompted(entry) && Fits(entry, b, b.incident.primary)
  {
    ChoiceFits(entry, b);
    assert Where(b.events, (e: CanonicalEvent) => e.modality.ConfigChange?) == [];
    assert Where(b.events, e => SpeaksFor(entry.generation, b, e)) == [];
    if Choice(entry, b).Some? {
      var matched := GenerationEvents(entry, b).value;
      assert matched == [];
      assert Choice(entry, b).value in SelectEntities(entry, b, matched);
    }
    if Unprompted(entry) && Fits(entry, b, b.incident.primary) {
      var matched := GenerationEvents(entry, b).value;
      assert b.incident.primary in SelectEntities(entry, b, matched);
    }
  }

  /** A valid bundle without events has no anomalies, and a candidate is generated for it exactly when
      some entry needs no signal and fits the primary entity. */
  lemma EmptyGeneratesExactly(c: Catalogue, b: Bundle)
    requires ValidCatalogue(c) && ValidBundle(b) && b.events == []
    ensures Candidates(c, b) != [] <==> exists i :: 0 <= i < |c.hypotheses| && Unprompted(c.hypotheses[i]) && Fits(c.hypotheses[i], b, b.incident.primary)
  {
    forall a ensures a !in b.anomalies {
      assert !Attached(b.events, a.eventId);
    }
    NoMembers(b.anomalies);
    forall i | 0 <= i < |c.hypotheses|
      ensures HasType(Candidates(c, b), c.hypotheses[i].hypothesisType) <==> Unprompted(c.hypotheses[i]) && Fits(c.hypotheses[i], b, b.incident.primary)
    {
      EmptyChoice(c.hypotheses[i], b);
      NumberedExactly(c.hypotheses, Choices(c, b), |c.hypotheses|, i, CandidateLabel);
    }
    if Candidates(c, b) != [] {
      GeneratedCandidates(c, b);
      assert Justified(c, b, Candidates(c, b)[0]);
      var i :| 0 <= i < |c.hypotheses| && c.hypotheses[i].hypothesisType == Candidates(c, b)[0].hypothesisType
               && Fits(c.hypotheses[i], b, Candidates(c, b)[0].entity);
      assert HasType(Candidates(c, b), c.hypotheses[i].hypothesisType);
    }
  }
}
