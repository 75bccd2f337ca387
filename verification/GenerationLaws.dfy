/** Which candidate an entry of the catalogue generates, told from the bundle's records. */
module GenerationLaws {
  import opened CandidateGeneration
  import opened Common
  import opened Contracts
  import opened FactorLaws
  import opened RcaContracts
  import opened Sorting
  import opened TypedGraph
  import Scoring

  // ---------------------------------------------------------------- what the records say

  /** The entry's rules hold: a change was attached if one is required, and, if the entry lists any
      signals, one of them occurred. */
  ghost predicate Prompted(entry: Entry, b: Bundle) {
    var rules := entry.generation;
    && (rules.requiresRecentChange ==> exists e :: e in b.events && e.modality == ConfigChange)
    && (rules.anyAnomalyTypes + rules.anyLogEventTypes + rules.anyEventTypes != {} ==>
          || (exists a :: a in b.anomalies && a.anomalyType in rules.anyAnomalyTypes)
          || (exists e :: e in b.events && e.modality == Log && e.eventType in rules.anyLogEventTypes)
          || (exists e :: e in b.events && e.eventType in rules.anyEventTypes))
  }

  /** An event that is itself such a signal. */
  ghost predicate Speaks(entry: Entry, b: Bundle, e: CanonicalEvent) {
    var rules := entry.generation;
    && e in b.events
    && (Flagged(b, e, rules.anyAnomalyTypes) || (e.modality == Log && e.eventType in rules.anyLogEventTypes) || e.eventType in rules.anyEventTypes)
  }

  /** The event offers the entity, as the entry selects: a change the entity it is about, a signal its
      own entity or the dependency it names. */
  ghost predicate Offers(entry: Entry, b: Bundle, e: CanonicalEvent, x: Node) {
    match entry.generation.selector
    case PrimaryEntity => false
    case ChangedEntity => e in b.events && e.modality == ConfigChange && Targets(e, x)
    case EventEntity => Speaks(entry, b, e) && e.entityId == x
    case ReferencedDependency => Speaks(entry, b, e) && "dependency_id" in e.payload && e.payload["dependency_id"] == Text(x)
  }

  /** The entity is a known node of the entry's kinds that its traversal reaches from an affected
      entity, or from the primary one when none is affected. */
  ghost predicate Apt(entry: Entry, b: Bundle, x: Node) {
    && (exists n :: n in b.nodes && n.id == x && n.kind in entry.entityTypes)
    && exists o :: (if b.incident.affected == [] then o == b.incident.primary else o in b.incident.affected)
                   && Within(b.edges, entry.traversal, o, x, entry.traversal.maxHops)
  }

  /** What an entry chooses. */
  ghost predicate Chosen(entry: Entry, b: Bundle, choice: Option<Node>) {
    match choice
    case None => !Prompted(entry, b)
                 || (if entry.generation.selector == PrimaryEntity then !Apt(entry, b, b.incident.primary)
                     else forall e, x :: Offers(entry, b, e, x) ==> !Apt(entry, b, x))
    case Some(x) =>
      && Prompted(entry, b) && Apt(entry, b, x)
      && (if entry.generation.selector == PrimaryEntity then x == b.incident.primary
          else exists e :: Offers(entry, b, e, x) && forall d, y :: Offers(entry, b, d, y) && Apt(entry, b, y) ==> NoLater(e, d))
  }

  // ---------------------------------------------------------------- the generator's tests mean these

  lemma AptIsFits(entry: Entry, b: Bundle, x: Node)
    ensures Fits(entry, b, x) <==> Apt(entry, b, x)
  {
    if KindFits(entry, b, x) {
      var i :| 0 <= i < |b.nodes| && b.nodes[i].id == x && b.nodes[i].kind in entry.entityTypes;
      assert b.nodes[i] in b.nodes;
    }
    if n :| n in b.nodes && n.id == x && n.kind in entry.entityTypes {
      var i :| 0 <= i < |b.nodes| && b.nodes[i] == n;
    }
  }

  lemma PromptedIsMatched(entry: Entry, b: Bundle)
    ensures GenerationEvents(entry, b).Some? <==> Prompted(entry, b)
    ensures GenerationEvents(entry, b).Some? ==>
              GenerationEvents(entry, b).value == SortBy(Where(b.events, e => SpeaksFor(entry.generation, b, e)), EarlierEvent)
  {
    ChangeExactly(b);
    SignalsExactly(entry.generation, b);
  }

  lemma ChangeExactly(b: Bundle)
    ensures (exists i :: 0 <= i < |b.events| && b.events[i].modality.ConfigChange?) <==> exists e :: e in b.events && e.modality == ConfigChange
  {
    if e :| e in b.events && e.modality == ConfigChange {
      var i :| 0 <= i < |b.events| && b.events[i] == e;
    }
  }

  lemma SignalsExactly(rules: GenerationRule, b: Bundle)
    ensures (exists i :: 0 <= i < |b.anomalies| && b.anomalies[i].anomalyType in rules.anyAnomalyTypes)
              <==> exists a :: a in b.anomalies && a.anomalyType in rules.anyAnomalyTypes
    ensures (exists i :: 0 <= i < |b.events| && b.events[i].modality.Log? && b.events[i].eventType in rules.anyLogEventTypes)
              <==> exists e :: e in b.events && e.modality == Log && e.eventType in rules.anyLogEventTypes
    ensures (exists i :: 0 <= i < |b.events| && b.events[i].eventType in rules.anyEventTypes)
              <==> exists e :: e in b.events && e.eventType in rules.anyEventTypes
  {
    if a :| a in b.anomalies && a.anomalyType in rules.anyAnomalyTypes {
      var i :| 0 <= i < |b.anomalies| && b.anomalies[i] == a;
    }
    if e :| e in b.events && e.modality == Log && e.eventType in rules.anyLogEventTypes {
      var i :| 0 <= i < |b.events| && b.events[i] == e;
    }
    if e :| e in b.events && e.eventType in rules.anyEventTypes {
      var i :| 0 <= i < |b.events| && b.events[i] == e;
    }
  }

  lemma SpeaksIsSpeaksFor(entry: Entry, b: Bundle, e: CanonicalEvent)
    requires e in b.events
    ensures SpeaksFor(entry.generation, b, e) <==> Speaks(entry, b, e)
  {
    FlaggedIsHasAnomaly(b, e, entry.generation.anyAnomalyTypes);
  }

  // ---------------------------------------------------------------- the first offer that fits

  /** The entities the events offer, in the events' order. */
  function Offered(events: seq<CanonicalEvent>, offer: CanonicalEvent -> Option<Node>): seq<Node> {
    if events == [] then []
    else match offer(events[0])
      case None => Offered(events[1..], offer)
      case Some(x) => [x] + Offered(events[1..], offer)
  }

  /** The event offers an entity that fits. */
  ghost predicate OffersFit(entry: Entry, b: Bundle, offer: CanonicalEvent -> Option<Node>, e: CanonicalEvent) {
    offer(e).Some? && Fits(entry, b, offer(e).value)
  }

  lemma OfferedNext(entry: Entry, b: Bundle, events: seq<CanonicalEvent>, offer: CanonicalEvent -> Option<Node>)
    requires events != []
    ensures FirstFit(entry, b, Offered(events, offer))
         == if OffersFit(entry, b, offer, events[0]) then offer(events[0]) else FirstFit(entry, b, Offered(events[1..], offer))
  {
    var rest := Offered(events[1..], offer);
    if offer(events[0]).Some? {
      assert ([offer(events[0]).value] + rest)[1..] == rest;
    }
  }

  lemma {:induction false} FirstOffer(entry: Entry, b: Bundle, events: seq<CanonicalEvent>, offer: CanonicalEvent -> Option<Node>) returns (k: nat)
    ensures k <= |events| && forall j :: 0 <= j < k ==> !OffersFit(entry, b, offer, events[j])
    ensures k == |events| ==> FirstFit(entry, b, Offered(events, offer)) == None
    ensures k < |events| ==> OffersFit(entry, b, offer, events[k]) && FirstFit(entry, b, Offered(events, offer)) == offer(events[k])
  {
    k := 0;
    if events != [] {
      OfferedNext(entry, b, events, offer);
      if !OffersFit(entry, b, offer, events[0]) {
        k := FirstOffer(entry, b, events[1..], offer);
        forall j | 0 <= j < k + 1 ensures !OffersFit(entry, b, offer, events[j]) {
          assert j > 0 ==> events[j] == events[1..][j - 1];
        }
        k := k + 1;
      }
    }
  }

  lemma {:induction false} MappedIsOffered(events: seq<CanonicalEvent>, entity: CanonicalEvent -> Node)
    ensures Mapped(events, entity) == Offered(events, e => Some(entity(e)))
  {
    if events != [] {
      MappedIsOffered(events[1..], entity);
    }
  }

  lemma {:induction false} DependenciesAreOffered(events: seq<CanonicalEvent>)
    ensures Dependencies(events) == Offered(events, Dependency)
  {
    if events != [] {
      DependenciesAreOffered(events[1..]);
    }
  }

  lemma InTimeOrder(b: Bundle, kept: seq<CanonicalEvent>, k: nat, j: nat)
    requires ValidBundle(b) && (forall e :: e in kept ==> e in b.events) && k <= j < |SortBy(kept, EarlierEvent)|
    ensures NoLater(SortBy(kept, EarlierEvent)[k], SortBy(kept, EarlierEvent)[j])
  {
    Scoring.EarlierIsTotal(b, kept);
    SortByOrders(kept, EarlierEvent);
    SortedInTime(SortBy(kept, EarlierEvent), k, j);
  }

  /** The events kept that offer an entity that fits, and the earliest of them. */
  ghost predicate EarliestOffer(entry: Entry, b: Bundle, keep: CanonicalEvent -> bool, offer: CanonicalEvent -> Option<Node>, e: CanonicalEvent) {
    && e in b.events && keep(e) && OffersFit(entry, b, offer, e)
    && forall d :: d in b.events && keep(d) && OffersFit(entry, b, offer, d) ==> NoLater(e, d)
  }

  lemma FirstKept(entry: Entry, b: Bundle, keep: CanonicalEvent -> bool, offer: CanonicalEvent -> Option<Node>)
    requires ValidBundle(b)
    ensures var r := FirstFit(entry, b, Offered(SortBy(Where(b.events, keep), EarlierEvent), offer));
            && (r.None? ==> forall d :: d in b.events && keep(d) ==> !OffersFit(entry, b, offer, d))
            && (r.Some? ==> exists e :: EarliestOffer(entry, b, keep, offer, e) && offer(e) == r)
  {
    var kept := Where(b.events, keep);
    var sorted := SortBy(kept, EarlierEvent);
    var k := FirstOffer(entry, b, sorted, offer);
    forall e ensures (e in sorted <==> e in b.events && keep(e)) && (e in sorted <==> e in kept) {
      WhereMembers(b.events, keep, e);
      SortKeepsMembers(kept, EarlierEvent, e);
    }
    forall d | d in b.events && keep(d) && OffersFit(entry, b, offer, d) ensures k < |sorted| && NoLater(sorted[k], d) {
      assert d in sorted;
      var j :| 0 <= j < |sorted| && sorted[j] == d;
      InTimeOrder(b, kept, k, j);
    }
    if k < |sorted| {
      assert sorted[k] in sorted;
      assert EarliestOffer(entry, b, keep, offer, sorted[k]);
    }
  }

  /** Of the events that are kept, in time order, the first whose offer fits. */
  lemma FirstInTime(entry: Entry, b: Bundle, keep: CanonicalEvent -> bool, offer: CanonicalEvent -> Option<Node>)
    requires ValidBundle(b) && !entry.generation.selector.PrimaryEntity? && Prompted(entry, b)
    requires forall e, x :: Offers(entry, b, e, x) <==> e in b.events && keep(e) && offer(e) == Some(x)
    ensures Chosen(entry, b, FirstFit(entry, b, Offered(SortBy(Where(b.events, keep), EarlierEvent), offer)))
  {
    FirstKept(entry, b, keep, offer);
    FirstIsChosen(entry, b, keep, offer, FirstFit(entry, b, Offered(SortBy(Where(b.events, keep), EarlierEvent), offer)));
  }

  lemma FirstIsChosen(entry: Entry, b: Bundle, keep: CanonicalEvent -> bool, offer: CanonicalEvent -> Option<Node>, r: Option<Node>)
    requires !entry.generation.selector.PrimaryEntity? && Prompted(entry, b)
    requires forall e, x :: Offers(entry, b, e, x) <==> e in b.events && keep(e) && offer(e) == Some(x)
    requires r.None? ==> forall d :: d in b.events && keep(d) ==> !OffersFit(entry, b, offer, d)
    requires r.Some? ==> exists e :: EarliestOffer(entry, b, keep, offer, e) && offer(e) == r
    ensures Chosen(entry, b, r)
  {
    forall e, x | Offers(entry, b, e, x) ensures OffersFit(entry, b, offer, e) <==> Apt(entry, b, x) {
      AptIsFits(entry, b, x);
    }
    if r.Some? {
      var e :| EarliestOffer(entry, b, keep, offer, e) && offer(e) == r;
      assert Offers(entry, b, e, r.value);
    }
  }

  // ---------------------------------------------------------------- the choice of each selector

  lemma ChangedChoice(entry: Entry, b: Bundle)
    requires ValidBundle(b) && entry.generation.selector == ChangedEntity && Prompted(entry, b)
    ensures Chosen(entry, b, Choice(entry, b))
  {
    var keep, entity := (e: CanonicalEvent) => e.modality.ConfigChange?, (e: CanonicalEvent) => ChangeTarget(e);
    PromptedIsMatched(entry, b);
    forall e, x ensures Offers(entry, b, e, x) <==> e in b.events && keep(e) && Some(entity(e)) == Some(x) {
      TargetIsTarget(e, x);
    }
    MappedIsOffered(SortBy(Where(b.events, keep), EarlierEvent), entity);
    FirstInTime(entry, b, keep, e => Some(entity(e)));
  }

  lemma EventChoice(entry: Entry, b: Bundle)
    requires ValidBundle(b) && entry.generation.selector == EventEntity && Prompted(entry, b)
    ensures Chosen(entry, b, Choice(entry, b))
  {
    var keep, entity := e => SpeaksFor(entry.generation, b, e), (e: CanonicalEvent) => e.entityId;
    PromptedIsMatched(entry, b);
    forall e, x ensures Offers(entry, b, e, x) <==> e in b.events && keep(e) && Some(entity(e)) == Some(x) {
      if e in b.events {
        SpeaksIsSpeaksFor(entry, b, e);
      }
    }
    MappedIsOffered(SortBy(Where(b.events, keep), EarlierEvent), entity);
    FirstInTime(entry, b, keep, e => Some(entity(e)));
  }

  lemma DependencyChoice(entry: Entry, b: Bundle)
    requires ValidBundle(b) && entry.generation.selector == ReferencedDependency && Prompted(entry, b)
    ensures Chosen(entry, b, Choice(entry, b))
  {
    var keep := e => SpeaksFor(entry.generation, b, e);
    PromptedIsMatched(entry, b);
    forall e, x ensures Offers(entry, b, e, x) <==> e in b.events && keep(e) && Dependency(e) == Some(x) {
      if e in b.events {
        SpeaksIsSpeaksFor(entry, b, e);
      }
    }
    DependenciesAreOffered(SortBy(Where(b.events, keep), EarlierEvent));
    FirstInTime(entry, b, keep, Dependency);
  }

  lemma PrimaryChoice(entry: Entry, b: Bundle)
    requires entry.generation.selector == PrimaryEntity
    ensures Chosen(entry, b, Choice(entry, b))
  {
    PromptedIsMatched(entry, b);
    AptIsFits(entry, b, b.incident.primary);
  }

  lemma ChoiceIsChosen(entry: Entry, b: Bundle)
    requires ValidBundle(b)
    ensures Chosen(entry, b, Choice(entry, b))
  {
    PromptedIsMatched(entry, b);
    if Prompted(entry, b) {
      match entry.generation.selector
      case PrimaryEntity => PrimaryChoice(entry, b);
      case ChangedEntity => ChangedChoice(entry, b);
      case EventEntity => EventChoice(entry, b);
      case ReferencedDependency => DependencyChoice(entry, b);
    }
  }

  // ---------------------------------------------------------------- the numbered list

  ghost function Made(choices: seq<Option<Node>>): int -> bool {
    i => 0 <= i < |choices| && choices[i].Some?
  }

  /** One more entry adds its candidate at the end, or nothing. */
  ghost predicate Adds(before: seq<Candidate>, after: seq<Candidate>, choice: Option<Node>, t: string) {
    match choice
    case None => after == before
    case Some(x) => |after| == |before| + 1 && after[..|before|] == before && after[|before|].hypothesisType == t && after[|before|].entity == x
  }

  lemma NumberingAdds(entries: seq<Entry>, choices: seq<Option<Node>>, m: nat, name: nat -> string)
    requires m < |entries| == |choices|
    ensures Adds(Numbering(entries, choices, m, name), Numbering(entries, choices, m + 1, name), choices[m], entries[m].hypothesisType)
  {
  }

  /** The lists after each entry of the pass. */
  ghost predicate Pass(entries: seq<Entry>, choices: seq<Option<Node>>, lists: seq<seq<Candidate>>) {
    && |lists| == |choices| + 1 == |entries| + 1 && lists[0] == []
    && forall m :: 0 <= m < |entries| ==> Adds(lists[m], lists[m + 1], choices[m], entries[m].hypothesisType)
  }

  lemma {:induction false} PassCounts(entries: seq<Entry>, choices: seq<Option<Node>>, lists: seq<seq<Candidate>>, n: nat)
    requires Pass(entries, choices, lists) && n < |lists|
    ensures |lists[n]| == |Places(n, Made(choices))|
  {
    if n > 0 {
      PlacesNext(n - 1, Made(choices));
      PassCounts(entries, choices, lists, n - 1);
      assert Adds(lists[n - 1], lists[n - 1 + 1], choices[n - 1], entries[n - 1].hypothesisType);
    }
  }

  /** The candidate at a place is of this type and entity. */
  ghost predicate StandsAt(cs: seq<Candidate>, k: nat, t: string, x: Node) {
    k < |cs| && cs[k].hypothesisType == t && cs[k].entity == x
  }

  lemma StillStands(before: seq<Candidate>, after: seq<Candidate>, choice: Option<Node>, u: string, k: nat, t: string, x: Node)
    requires StandsAt(before, k, t, x) && Adds(before, after, choice, u)
    ensures StandsAt(after, k, t, x)
  {
    assert after[..|before|][k] == before[k];
  }

  /** An entry's candidate stands behind those of the entries before it. */
  lemma {:induction false} PassPlaces(entries: seq<Entry>, choices: seq<Option<Node>>, lists: seq<seq<Candidate>>, n: nat, i: nat)
    requires Pass(entries, choices, lists) && i < n < |lists| && choices[i].Some?
    ensures StandsAt(lists[n], |Places(i, Made(choices))|, entries[i].hypothesisType, choices[i].value)
  {
    assert Adds(lists[n - 1], lists[n - 1 + 1], choices[n - 1], entries[n - 1].hypothesisType);
    if i < n - 1 {
      PassPlaces(entries, choices, lists, n - 1, i);
      StillStands(lists[n - 1], lists[n], choices[n - 1], entries[n - 1].hypothesisType,
                  |Places(i, Made(choices))|, entries[i].hypothesisType, choices[i].value);
    } else {
      PassCounts(entries, choices, lists, n - 1);
    }
  }

  lemma NumberingPasses(entries: seq<Entry>, choices: seq<Option<Node>>, name: nat -> string) returns (lists: seq<seq<Candidate>>)
    requires |entries| == |choices|
    ensures Pass(entries, choices, lists) && lists[|entries|] == Numbering(entries, choices, |entries|, name)
  {
    lists := seq(|entries| + 1, m requires 0 <= m <= |entries| => Numbering(entries, choices, m, name));
    forall m | 0 <= m < |entries| ensures Adds(lists[m], lists[m + 1], choices[m], entries[m].hypothesisType) {
      NumberingAdds(entries, choices, m, name);
    }
  }

  /** The candidates are one for each entry whose rules hold and which finds a fitting entity, for the
      entity its earliest such event offers, numbered in catalogue order. */
  lemma CandidatesAreChosen(c: Catalogue, b: Bundle, choices: seq<Option<Node>>, i: nat)
    requires ValidBundle(b) && choices == Choices(c, b) && i < |c.hypotheses|
    ensures |choices| == |c.hypotheses| && Chosen(c.hypotheses[i], b, choices[i])
    ensures |Candidates(c, b)| == |Places(|choices|, Made(choices))|
    ensures choices[i].Some? ==> StandsAt(Candidates(c, b), |Places(i, Made(choices))|, c.hypotheses[i].hypothesisType, choices[i].value)
  {
    ChoiceIsChosen(c.hypotheses[i], b);
    var lists := NumberingPasses(c.hypotheses, choices, CandidateLabel);
    PassCounts(c.hypotheses, choices, lists, |choices|);
    if choices[i].Some? {
      PassPlaces(c.hypotheses, choices, lists, |choices|, i);
    }
  }
}
