/** What each factor of a score says about the incident. The laws speak of the bundle's records
    alone, so they hold a candidate's factors against the incident itself and not against the
    functions that read them. */
module FactorLaws {
  import opened Common
  import opened Contracts
  import opened RcaContracts
  import opened Ranking
  import opened Scoring
  import opened Sorting
  import opened TypedGraph
  import CandidateGeneration
  import TopologySearch

  // ---------------------------------------------------------------- records that bear on a factor

  /** Some anomaly of one of these types is about the event. */
  ghost predicate Flagged(b: Bundle, e: CanonicalEvent, types: set<string>) {
    exists a :: a in b.anomalies && a.eventId == e.id && a.anomalyType in types
  }

  /** The event is of a listed type, or sets a listed payload key, and its value is within the limits. */
  ghost predicate Fulfils(p: Pattern, e: CanonicalEvent) {
    && (e.eventType in p.eventTypes || exists key :: key in p.trueKeys * e.payload.Keys && e.payload[key] == Flag(true))
    && match e.signalValue
       case None => p.minimum == p.maximum == None
       case Some(v) => (p.minimum == None || p.minimum.value <= v) && (p.maximum == None || v <= p.maximum.value)
  }

  /** An attached event that shows the pattern. */
  ghost predicate Shows(p: Pattern, b: Bundle, e: CanonicalEvent) {
    e in b.events && (Flagged(b, e, p.anomalyTypes) || Fulfils(p, e))
  }

  ghost predicate Seen(p: Pattern, b: Bundle) {
    exists e :: Shows(p, b, e)
  }

  lemma FlaggedIsHasAnomaly(b: Bundle, e: CanonicalEvent, types: set<string>)
    ensures CandidateGeneration.HasAnomaly(b, e.id, types) <==> Flagged(b, e, types)
  {
    if CandidateGeneration.HasAnomaly(b, e.id, types) {
      var i :| 0 <= i < |b.anomalies| && b.anomalies[i].eventId == e.id && b.anomalies[i].anomalyType in types;
      assert b.anomalies[i] in b.anomalies;
    }
    if Flagged(b, e, types) {
      var a :| a in b.anomalies && a.eventId == e.id && a.anomalyType in types;
      var i :| 0 <= i < |b.anomalies| && b.anomalies[i] == a;
    }
  }

  lemma ShowsIsObserves(p: Pattern, b: Bundle, e: CanonicalEvent)
    requires e in b.events
    ensures Observes(p, b, e) <==> Shows(p, b, e)
  {
    FlaggedIsHasAnomaly(b, e, p.anomalyTypes);
    if ByType(p, e) && e.eventType !in p.eventTypes {
      var key :| key in p.trueKeys && CandidateGeneration.IsTrue(e, key);
      assert key in p.trueKeys * e.payload.Keys;
    }
    if Fulfils(p, e) && e.eventType !in p.eventTypes {
      var key :| key in p.trueKeys * e.payload.Keys && e.payload[key] == Flag(true);
      assert CandidateGeneration.IsTrue(e, key);
    }
  }

  // ---------------------------------------------------------------- the first of the events

  /** Sorting puts the earliest of the kept events first. */
  lemma SortedFirst(b: Bundle, keep: CanonicalEvent -> bool)
    requires ValidBundle(b)
    ensures var sorted := SortBy(Where(b.events, keep), EarlierEvent);
            && (sorted == [] <==> forall e :: e in b.events ==> !keep(e))
            && (sorted != [] ==> sorted[0] in b.events && keep(sorted[0]))
            && (sorted != [] ==> forall e :: e in b.events && keep(e) ==> NoLater(sorted[0], e))
  {
    var kept := Where(b.events, keep);
    var sorted := SortBy(kept, EarlierEvent);
    forall e ensures e in sorted <==> e in b.events && keep(e) {
      WhereMembers(b.events, keep, e);
      SortKeepsMembers(kept, EarlierEvent, e);
    }
    if sorted == [] {
      forall e | e in b.events ensures !keep(e) {
        assert e !in sorted;
      }
    } else {
      assert sorted[0] in sorted;
      forall e | e in kept ensures e in b.events {
        WhereMembers(b.events, keep, e);
      }
      Scoring.EarlierIsTotal(b, kept);
      SortByOrders(kept, EarlierEvent);
      forall e | e in b.events && keep(e) ensures NoLater(sorted[0], e) {
        assert e in sorted;
        var j :| 0 <= j < |sorted| && sorted[j] == e;
        if j > 0 {
          OrderedPairs(sorted, EarlierEvent, 0, j);
        } else {
          StringLessTrichotomy(e.id, e.id);
        }
      }
    }
  }

  /** A pattern's first observation is the earliest event that shows it. */
  lemma FirstShown(p: Pattern, b: Bundle)
    requires ValidBundle(b)
    ensures Observations(p, b) != [] <==> Seen(p, b)
    ensures Observations(p, b) != [] ==> Shows(p, b, Observations(p, b)[0])
    ensures Observations(p, b) != [] ==> forall e :: Shows(p, b, e) ==> NoLater(Observations(p, b)[0], e)
  {
    forall e | e in b.events ensures Observes(p, b, e) <==> Shows(p, b, e) {
      ShowsIsObserves(p, b, e);
    }
    SortedFirst(b, e => Observes(p, b, e));
    if Seen(p, b) {
      var e :| Shows(p, b, e);
      assert Observes(p, b, e);
    }
  }

  // ---------------------------------------------------------------- shares

  /** `product` units are `parts` to the nearest one, for units as large as `total`. */
  ghost predicate Closest(units: int, product: int, parts: int, total: int) {
    var off := 2 * (product - parts);
    -total <= off <= total && (units % 2 != 0 ==> -total < off < total)
  }

  ghost predicate Rounds(units: int, count: nat, total: nat) {
    Closest(units, units * total, 10000 * count, total)
  }

  /** `v` is `count / total` to the nearest ten-thousandth, ties to the even one. */
  ghost predicate IsShare(count: nat, total: nat, v: real) {
    if total == 0 then v == 0.0 else exists units :: Rounds(units, count, total) && v == units as real / 10000.0
  }

  lemma RatioIsShare(count: nat, total: nat)
    ensures IsShare(count, total, Ratio(count, total))
  {
    if total > 0 {
      RoundFourRounds(count as real / total as real, count, total);
    }
  }

  lemma RoundFourRounds(x: real, count: nat, total: nat)
    requires total > 0 && x == count as real / total as real
    ensures exists units :: Rounds(units, count, total) && RoundFour(x) == units as real / 10000.0
  {
    var floor := (10000.0 * x).Floor;
    var rest := 10000.0 * x - floor as real;
    var units := if rest < 0.5 || (rest == 0.5 && floor % 2 == 0) then floor else floor + 1;
    Scaled(rest, total, floor, count, x);
    FloorOrNext(units, floor, floor * total, 10000 * count, total);
    NextProduct(floor, total);
    assert Rounds(units, count, total);
  }

  lemma NextProduct(floor: int, total: int)
    ensures (floor + 1) * total == floor * total + total
  {
  }

  lemma FloorOrNext(units: int, floor: int, product: int, parts: int, total: int)
    requires 0 <= parts - product < total
    requires units == if 2 * (parts - product) < total || (2 * (parts - product) == total && floor % 2 == 0) then floor else floor + 1
    ensures Closest(units, if units == floor then product else product + total, parts, total)
  {
  }

  lemma Scaled(rest: real, total: nat, floor: int, count: nat, x: real)
    requires total > 0 && 0.0 <= rest < 1.0 && x * total as real == count as real && rest == 10000.0 * x - floor as real
    ensures rest < 0.5 <==> 2 * (10000 * count - floor * total) < total
    ensures rest == 0.5 <==> 2 * (10000 * count - floor * total) == total
    ensures 0 <= 10000 * count - floor * total < total
  {
    Spread(10000.0 * x, floor as real, total as real);
    Regrouped(x, total as real);
    ProductOfReals(floor, total);
    var part := rest * total as real;
    assert part == (10000 * count - floor * total) as real;
    Product(rest, total as real, part);
    Compared(part, 10000 * count - floor * total, total);
  }

  lemma Spread(y: real, z: real, t: real)
    ensures (y - z) * t == y * t - z * t
  {
  }

  lemma Regrouped(x: real, t: real)
    ensures 10000.0 * x * t == 10000.0 * (x * t)
  {
  }

  lemma ProductOfReals(m: int, n: int)
    ensures (m * n) as real == m as real * n as real
  {
  }

  lemma Compared(part: real, left: int, total: int)
    requires part == left as real
    ensures part < 0.5 * total as real <==> 2 * left < total
    ensures part == 0.5 * total as real <==> 2 * left == total
    ensures 0.0 <= part < total as real <==> 0 <= left < total
  {
  }

  lemma Product(rest: real, total: real, part: real)
    requires total > 0.0 && 0.0 <= rest < 1.0 && part == rest * total
    ensures 0.0 <= part < total
    ensures rest < 0.5 <==> part < 0.5 * total
    ensures rest == 0.5 <==> part == 0.5 * total
  {
    Spread(1.0, rest, total);
    SameSign(1.0 - rest, total, total - part);
    Spread(0.5, rest, total);
    SameSign(0.5 - rest, total, 0.5 * total - part);
  }

  lemma SameSign(x: real, total: real, y: real)
    requires total > 0.0 && y == x * total
    ensures x > 0.0 <==> y > 0.0
    ensures x == 0.0 <==> y == 0.0
  {
    if x < 0.0 {
      NegativeScale(-x, total);
    }
  }

  /** When a share of a whole reads as all of it, and when as none. */
  lemma ShareEnds(count: nat, total: nat, v: real)
    requires count <= total && IsShare(count, total, v)
    ensures v == 1.0 <==> total > 0 && 20000 * (total - count) <= total
    ensures v == 0.0 <==> 20000 * count <= total
  {
    if total > 0 {
      var units :| Rounds(units, count, total) && v == units as real / 10000.0;
      OneRounding(units, count, total);
    }
  }

  lemma OneRounding(units: int, count: nat, total: nat)
    requires total > 0 && count <= total && Rounds(units, count, total)
    ensures units == 10000 <==> 20000 * (total - count) <= total
    ensures units == 0 <==> 20000 * count <= total
  {
    if units >= 10001 {
      UnitsApart(10001, units, total);
    } else if units <= 9998 {
      UnitsApart(units, 9998, total);
    }
    if units >= 2 {
      UnitsApart(2, units, total);
    } else if units <= -1 {
      UnitsApart(units, -1, total);
    }
    OneClosest(units, units * total, count, total);
  }

  lemma OneClosest(units: int, product: int, count: int, total: int)
    requires total > 0 && 0 <= count <= total && Closest(units, product, 10000 * count, total)
    requires units >= 10001 ==> product >= 10001 * total
    requires units <= 9998 ==> product <= 9998 * total
    requires units >= 2 ==> product >= 2 * total
    requires units <= -1 ==> product <= -total
    requires units == 10000 ==> product == 10000 * total
    requires units == 9999 ==> product == 9999 * total
    requires units == 1 ==> product == total
    requires units == 0 ==> product == 0
    ensures units == 10000 <==> 20000 * (total - count) <= total
    ensures units == 0 <==> 20000 * count <= total
  {
  }

  lemma UnitsApart(low: int, high: int, total: nat)
    requires low <= high
    ensures low * total <= high * total
  {
  }

  /** More of the same whole is no smaller a share. */
  lemma ShareGrows(few: nat, many: nat, total: nat, v: real, w: real)
    requires few <= many && IsShare(few, total, v) && IsShare(many, total, w)
    ensures v <= w
  {
    if total > 0 {
      var low :| Rounds(low, few, total) && v == low as real / 10000.0;
      var high :| Rounds(high, many, total) && w == high as real / 10000.0;
      ProductsApart(high, low, total);
      StepsApart(high, low, high * total, low * total, 10000 * few, 10000 * many, total);
    }
  }

  lemma ProductsApart(high: int, low: int, total: nat)
    ensures high < low ==> low * total >= high * total + if high + 1 < low then 2 * total else total
  {
    if high + 1 < low {
      UnitsApart(high + 2, low, total);
    }
  }

  lemma StepsApart(high: int, low: int, above: int, below: int, few: int, many: int, total: int)
    requires total > 0 && few <= many && Closest(high, above, many, total) && Closest(low, below, few, total)
    requires high < low ==> below >= above + if high + 1 < low then 2 * total else total
    ensures low <= high
  {
  }

  // ---------------------------------------------------------------- required symptoms

  ghost function SymptomSeen(c: Catalogue, entry: Entry, b: Bundle): int -> bool {
    i => 0 <= i < |entry.requiredSymptoms| && entry.requiredSymptoms[i] in c.symptoms && Seen(c.symptoms[entry.requiredSymptoms[i]], b)
  }

  /** The share of the required symptoms that some attached event shows. */
  ghost predicate SymptomLaw(c: Catalogue, entry: Entry, b: Bundle, v: real) {
    IsShare(|Places(|entry.requiredSymptoms|, SymptomSeen(c, entry, b))|, |entry.requiredSymptoms|, v)
  }

  lemma {:induction false} CountAppends(names: seq<string>, s: string, patterns: map<string, Pattern>, b: Bundle)
    requires s in patterns && forall t :: t in names ==> t in patterns
    ensures CountObserved(names + [s], patterns, b) == CountObserved(names, patterns, b) + CountObserved([s], patterns, b)
  {
    if names != [] {
      assert names == [names[0]] + names[1..];
      assert (names + [s])[1..] == names[1..] + [s];
      CountAppends(names[1..], s, patterns, b);
    } else {
      assert names + [s] == [s];
    }
  }

  lemma {:induction false} CountsSeen(c: Catalogue, entry: Entry, b: Bundle, n: nat)
    requires ValidBundle(b) && ValidEntry(c, entry) && n <= |entry.requiredSymptoms|
    ensures CountObserved(entry.requiredSymptoms[..n], c.symptoms, b) == |Places(n, SymptomSeen(c, entry, b))|
  {
    if n > 0 {
      var s := entry.requiredSymptoms[n - 1];
      CountsSeen(c, entry, b, n - 1);
      assert entry.requiredSymptoms[..n] == entry.requiredSymptoms[..n - 1] + [s];
      CountAppends(entry.requiredSymptoms[..n - 1], s, c.symptoms, b);
      FirstShown(c.symptoms[s], b);
      PlacesNext(n - 1, SymptomSeen(c, entry, b));
      assert CountObserved([s][1..], c.symptoms, b) == 0;
    }
  }

  lemma SymptomsObeyLaw(c: Catalogue, entry: Entry, b: Bundle)
    requires ValidBundle(b) && ValidEntry(c, entry)
    ensures SymptomLaw(c, entry, b, SymptomFactor(c, entry, b))
  {
    CountsSeen(c, entry, b, |entry.requiredSymptoms|);
    assert entry.requiredSymptoms[..|entry.requiredSymptoms|] == entry.requiredSymptoms;
    RatioIsShare(CountObserved(entry.requiredSymptoms, c.symptoms, b), |entry.requiredSymptoms|);
  }

  ghost predicate SymptomIsSeen(c: Catalogue, entry: Entry, b: Bundle, i: nat)
    requires ValidEntry(c, entry) && i < |entry.requiredSymptoms|
  {
    Seen(c.symptoms[entry.requiredSymptoms[i]], b)
  }

  /** The factor is full exactly when a symptom is required and an attached event shows each of
      them, and zero exactly when none is shown. The rounding blurs this only for entries with
      twenty thousand symptoms or more. */
  lemma SymptomEnds(c: Catalogue, entry: Entry, b: Bundle, v: real)
    requires ValidEntry(c, entry) && SymptomLaw(c, entry, b, v) && |entry.requiredSymptoms| < 20000
    ensures v == 1.0 <==> entry.requiredSymptoms != [] && forall i :: 0 <= i < |entry.requiredSymptoms| ==> SymptomIsSeen(c, entry, b, i)
    ensures v == 0.0 <==> forall i :: 0 <= i < |entry.requiredSymptoms| ==> !SymptomIsSeen(c, entry, b, i)
  {
    var n, good := |entry.requiredSymptoms|, SymptomSeen(c, entry, b);
    PlacesBounded(n, good);
    ShareEnds(|Places(n, good)|, n, v);
    forall i | 0 <= i < n ensures good(i) <==> SymptomIsSeen(c, entry, b, i) {
    }
  }

  /** An incident that shows every required symptom another one shows has no smaller a factor. */
  lemma SymptomsNeverLower(c: Catalogue, entry: Entry, few: Bundle, many: Bundle, v: real, w: real)
    requires ValidEntry(c, entry) && SymptomLaw(c, entry, few, v) && SymptomLaw(c, entry, many, w)
    requires forall i :: 0 <= i < |entry.requiredSymptoms| && SymptomIsSeen(c, entry, few, i) ==> SymptomIsSeen(c, entry, many, i)
    ensures v <= w
  {
    var n := |entry.requiredSymptoms|;
    forall i | 0 <= i < n && SymptomSeen(c, entry, few)(i) ensures SymptomSeen(c, entry, many)(i) {
      assert SymptomIsSeen(c, entry, few, i);
    }
    MorePlaces(n, SymptomSeen(c, entry, few), SymptomSeen(c, entry, many));
    ShareGrows(|Places(n, SymptomSeen(c, entry, few))|, |Places(n, SymptomSeen(c, entry, many))|, n, v, w);
  }

  // ---------------------------------------------------------------- expected propagation

  ghost function Stage(c: Catalogue, entry: Entry, i: int): Pattern
    requires ValidEntry(c, entry) && 0 <= i < |entry.expectedPropagation|
  {
    c.propagation[entry.expectedPropagation[i]]
  }

  /** The `i`-th stage was seen, and no event shows it before the earlier stage `j` had begun. */
  ghost predicate Follows(c: Catalogue, entry: Entry, b: Bundle, j: int, i: int)
    requires ValidEntry(c, entry) && 0 <= j < i < |entry.expectedPropagation|
  {
    forall e :: Shows(Stage(c, entry, i), b, e) ==> exists d :: Shows(Stage(c, entry, j), b, d) && d.timestamp <= e.timestamp
  }

  ghost predicate InOrder(c: Catalogue, entry: Entry, b: Bundle, i: int)
    requires ValidEntry(c, entry) && 0 <= i < |entry.expectedPropagation|
  {
    Seen(Stage(c, entry, i), b) && forall j :: 0 <= j < i && Seen(Stage(c, entry, j), b) ==> Follows(c, entry, b, j, i)
  }

  ghost function StageInOrder(c: Catalogue, entry: Entry, b: Bundle): int -> bool {
    i => ValidEntry(c, entry) && 0 <= i < |entry.expectedPropagation| && InOrder(c, entry, b, i)
  }

  /** The share of the stages that were seen and began no earlier than any seen stage before them. */
  ghost predicate PropagationLaw(c: Catalogue, entry: Entry, b: Bundle, v: real) {
    IsShare(|Places(|entry.expectedPropagation|, StageInOrder(c, entry, b))|, |entry.expectedPropagation|, v)
  }

  /** No earlier time is later. */
  ghost predicate Rises(times: seq<Option<int>>, i: int)
    requires 0 <= i < |times|
  {
    times[i].Some? && forall j :: 0 <= j < i && times[j].Some? ==> times[j].value <= times[i].value
  }

  ghost function Rising(times: seq<Option<int>>): int -> bool {
    i => 0 <= i < |times| && Rises(times, i)
  }

  /** The last time counted is the latest so far, so the chain counts the times none before exceeds. */
  lemma {:induction false} ChainCountsRises(times: seq<Option<int>>, n: nat)
    requires n <= |times|
    ensures ChainUpTo(times, n).counted == |Places(n, Rising(times))|
    ensures ChainUpTo(times, n).last.None? <==> forall i :: 0 <= i < n ==> times[i].None?
    ensures ChainUpTo(times, n).last.Some? ==> exists i :: 0 <= i < n && times[i] == ChainUpTo(times, n).last
    ensures ChainUpTo(times, n).last.Some? ==> forall i :: 0 <= i < n && times[i].Some? ==> times[i].value <= ChainUpTo(times, n).last.value
  {
    if n > 0 {
      ChainCountsRises(times, n - 1);
      PlacesNext(n - 1, Rising(times));
    }
  }

  lemma StageBegins(c: Catalogue, entry: Entry, b: Bundle, i: nat)
    requires ValidBundle(b) && ValidEntry(c, entry) && i < |entry.expectedPropagation|
    ensures StageTimes(c, entry, b)[i].Some? <==> Seen(Stage(c, entry, i), b)
    ensures StageTimes(c, entry, b)[i].Some? ==> exists e :: Shows(Stage(c, entry, i), b, e) && e.timestamp == StageTimes(c, entry, b)[i].value
    ensures StageTimes(c, entry, b)[i].Some? ==> forall e :: Shows(Stage(c, entry, i), b, e) ==> StageTimes(c, entry, b)[i].value <= e.timestamp
  {
    FirstShown(Stage(c, entry, i), b);
  }

  lemma FollowsExactly(c: Catalogue, entry: Entry, b: Bundle, j: nat, i: nat)
    requires ValidBundle(b) && ValidEntry(c, entry) && j < i < |entry.expectedPropagation|
    requires Seen(Stage(c, entry, j), b) && Seen(Stage(c, entry, i), b)
    ensures Follows(c, entry, b, j, i) <==>
              StageTimes(c, entry, b)[j].Some? && StageTimes(c, entry, b)[i].Some? && StageTimes(c, entry, b)[j].value <= StageTimes(c, entry, b)[i].value
  {
    StageBegins(c, entry, b, i);
    StageBegins(c, entry, b, j);
  }

  lemma RisesInOrder(c: Catalogue, entry: Entry, b: Bundle, i: nat)
    requires ValidBundle(b) && ValidEntry(c, entry) && i < |entry.expectedPropagation|
    ensures Rises(StageTimes(c, entry, b), i) <==> InOrder(c, entry, b, i)
  {
    var times := StageTimes(c, entry, b);
    StageBegins(c, entry, b, i);
    forall j | 0 <= j < i ensures times[j].Some? <==> Seen(Stage(c, entry, j), b) {
      StageBegins(c, entry, b, j);
    }
    if times[i].Some? {
      forall j | 0 <= j < i && times[j].Some? ensures Follows(c, entry, b, j, i) <==> times[j].value <= times[i].value {
        FollowsExactly(c, entry, b, j, i);
      }
    }
  }

  lemma RisingAt(c: Catalogue, entry: Entry, b: Bundle, i: nat)
    requires ValidEntry(c, entry) && i < |entry.expectedPropagation|
    ensures Rising(StageTimes(c, entry, b))(i) <==> Rises(StageTimes(c, entry, b), i)
    ensures StageInOrder(c, entry, b)(i) <==> InOrder(c, entry, b, i)
  {
  }

  lemma PropagationObeysLaw(c: Catalogue, entry: Entry, b: Bundle)
    requires ValidBundle(b) && ValidEntry(c, entry)
    ensures PropagationLaw(c, entry, b, Propagation(c, entry, b))
  {
    var n, times := |entry.expectedPropagation|, StageTimes(c, entry, b);
    ChainCountsRises(times, n);
    forall i | 0 <= i < n ensures Rising(times)(i) <==> StageInOrder(c, entry, b)(i) {
      RisesInOrder(c, entry, b, i);
      RisingAt(c, entry, b, i);
    }
    SamePlaces(n, Rising(times), StageInOrder(c, entry, b));
    RatioIsShare(ChainUpTo(times, n).counted, n);
  }

  // ---------------------------------------------------------------- topology

  /** An attached event of a type the entry names as its origin. */
  ghost predicate OriginEvent(entry: Entry, b: Bundle, e: CanonicalEvent) {
    e in b.events && e.eventType in entry.originEventTypes
  }

  /** Where the traversal starts: where the origin events are, or else at the affected entities, or
      else at the primary one. */
  ghost predicate Origin(entry: Entry, b: Bundle, o: Node) {
    if exists e :: OriginEvent(entry, b, e) then exists e :: OriginEvent(entry, b, e) && e.entityId == o
    else if b.incident.affected == [] then o == b.incident.primary
    else o in b.incident.affected
  }

  ghost predicate OriginWithin(entry: Entry, b: Bundle, x: Node, hops: nat) {
    exists o :: Origin(entry, b, o) && Within(b.edges, entry.traversal, o, x, hops)
  }

  /** How close the nearest origin is, as the entry's own traversal goes. */
  ghost predicate TopologyLaw(entry: Entry, b: Bundle, x: Node, v: real) {
    v == if Origin(entry, b, x) then 1.0
         else if OriginWithin(entry, b, x, 1) then 0.8
         else if entry.traversal.maxHops >= 2 && OriginWithin(entry, b, x, 2) then 0.5
         else 0.0
  }

  /** The path shown with the score leads from a nearest origin by a shortest walk. */
  ghost predicate PathLaw(entry: Entry, b: Bundle, x: Node, origin: Option<Node>, path: seq<Node>) {
    match origin
    case None => path == [] && !OriginWithin(entry, b, x, entry.traversal.maxHops)
    case Some(o) =>
      && Origin(entry, b, o) && Shortest(b.edges, entry.traversal, path, o, x) && |path| - 1 <= entry.traversal.maxHops
      && forall hops: nat :: OriginWithin(entry, b, x, hops) ==> |path| - 1 <= hops
  }

  lemma OriginsAreListed(entry: Entry, b: Bundle, o: Node)
    ensures o in TopologyOrigins(entry, b) <==> Origin(entry, b, o)
  {
    var of := (e: CanonicalEvent) => e.eventType in entry.originEventTypes;
    var found := Where(b.events, of);
    var named := Mapped(found, (e: CanonicalEvent) => e.entityId);
    forall e ensures e in found <==> OriginEvent(entry, b, e) {
      WhereMembers(b.events, of, e);
    }
    assert named != [] <==> exists e :: OriginEvent(entry, b, e) by {
      if named != [] {
        assert found[0] in found;
      }
    }
    assert Dedupe(named) != [] <==> named != [] by {
      if named != [] {
        assert named[0] in Dedupe(named);
      }
      if Dedupe(named) != [] {
        assert Dedupe(named)[0] in named;
      }
    }
    assert o in named <==> exists e :: OriginEvent(entry, b, e) && e.entityId == o by {
      if o in named {
        var i :| 0 <= i < |named| && named[i] == o;
        assert found[i] in found;
      }
      if e :| OriginEvent(entry, b, e) && e.entityId == o {
        var i :| 0 <= i < |found| && found[i] == e;
        assert named[i] == o;
      }
    }
  }

  lemma SelfWithin(edges: seq<Edge>, p: Policy, s: Node, t: Node)
    ensures Within(edges, p, s, t, 0) <==> s == t
  {
    if s == t {
      assert Joins(edges, p, [s], s, t);
    }
  }

  /** A node within `k` hops lies at some distance no greater. */
  lemma {:induction false} HasDistance(edges: seq<Edge>, p: Policy, s: Node, t: Node, k: nat) returns (d: nat)
    requires Within(edges, p, s, t, k)
    ensures d <= k && IsDistance(edges, p, s, t, d)
  {
    if j: nat :| j < k && Within(edges, p, s, t, j) {
      d := HasDistance(edges, p, s, t, j);
    } else {
      d := k;
    }
  }

  lemma PathObeysLaw(entry: Entry, b: Bundle, x: Node, origin: Option<Node>, path: seq<Node>)
    requires Scoring.Nearest(b.edges, entry.traversal, TopologyOrigins(entry, b), x, origin, path)
    ensures PathLaw(entry, b, x, origin, path)
  {
    var origins := TopologyOrigins(entry, b);
    forall o ensures o in origins <==> Origin(entry, b, o) {
      OriginsAreListed(entry, b, o);
    }
    if origin.Some? {
      var i :| 0 <= i < |origins| && origins[i] == origin.value && FirstNearest(b.edges, entry.traversal, origins, x, i, |path| - 1);
      assert origins[i] in origins;
      forall hops: nat | OriginWithin(entry, b, x, hops) ensures |path| - 1 <= hops {
        if hops <= entry.traversal.maxHops {
          var o :| Origin(entry, b, o) && Within(b.edges, entry.traversal, o, x, hops);
          var j :| 0 <= j < |origins| && origins[j] == o;
          var d := HasDistance(b.edges, entry.traversal, origins[j], x, hops);
        }
      }
    }
  }

  lemma TopologyObeysLaw(entry: Entry, b: Bundle, x: Node, origin: Option<Node>, path: seq<Node>)
    requires PathLaw(entry, b, x, origin, path) && entry.traversal.maxHops >= 1
    ensures TopologyLaw(entry, b, x, TopologyFactor(path))
  {
    forall o ensures Within(b.edges, entry.traversal, o, x, 0) <==> o == x {
      SelfWithin(b.edges, entry.traversal, o, x);
    }
    assert OriginWithin(entry, b, x, 0) <==> Origin(entry, b, x);
    forall hops: nat | hops <= entry.traversal.maxHops
      ensures OriginWithin(entry, b, x, hops) <==> origin.Some? && |path| - 1 <= hops
    {
      ReachedWithin(entry, b, x, origin, path, hops);
    }
  }

  lemma OriginWithinGrows(entry: Entry, b: Bundle, x: Node, j: nat, k: nat)
    requires j <= k
    ensures OriginWithin(entry, b, x, j) ==> OriginWithin(entry, b, x, k)
  {
    if OriginWithin(entry, b, x, j) {
      var o :| Origin(entry, b, o) && Within(b.edges, entry.traversal, o, x, j);
      WithinGrows(b.edges, entry.traversal, o, x, j, k);
    }
  }

  lemma ReachedWithin(entry: Entry, b: Bundle, x: Node, origin: Option<Node>, path: seq<Node>, hops: nat)
    requires PathLaw(entry, b, x, origin, path) && hops <= entry.traversal.maxHops
    ensures OriginWithin(entry, b, x, hops) <==> origin.Some? && |path| - 1 <= hops
  {
    match origin
    case None =>
      OriginWithinGrows(entry, b, x, hops, entry.traversal.maxHops);
    case Some(o) =>
      ShortestIsDistance(b.edges, entry.traversal, path, o, x);
      if |path| - 1 <= hops {
        WithinGrows(b.edges, entry.traversal, o, x, |path| - 1, hops);
      }
  }

  // ---------------------------------------------------------------- direct logs and alerts

  ghost predicate Names(e: CanonicalEvent, x: Node) {
    e.entityId == x || Text(x) in e.payload.Values
  }

  ghost predicate NamedBy(b: Bundle, m: Modality, x: Node) {
    exists e :: e in b.events && e.modality == m && Names(e, x)
  }

  /** Full when both a log and an alert are about the candidate or name it, 0.6 when one of the two. */
  ghost predicate LogsLaw(b: Bundle, x: Node, v: real) {
    v == if NamedBy(b, Log, x) && NamedBy(b, Alert, x) then 1.0 else if NamedBy(b, Log, x) || NamedBy(b, Alert, x) then 0.6 else 0.0
  }

  lemma MentionedIsNamed(b: Bundle, m: Modality, x: Node)
    ensures Mentioned(b, m, x) <==> NamedBy(b, m, x)
  {
    forall e: CanonicalEvent ensures Mentions(e, x) <==> Names(e, x) {
    }
    if Mentioned(b, m, x) {
      var i :| 0 <= i < |b.events| && b.events[i].modality == m && Mentions(b.events[i], x);
      assert b.events[i] in b.events;
    }
    if NamedBy(b, m, x) {
      var e :| e in b.events && e.modality == m && Names(e, x);
      var i :| 0 <= i < |b.events| && b.events[i] == e;
    }
  }

  lemma LogsObeyLaw(b: Bundle, x: Node)
    ensures LogsLaw(b, x, LogAlertFactor(b, x))
  {
    MentionedIsNamed(b, Log, x);
    MentionedIsNamed(b, Alert, x);
  }

  // ---------------------------------------------------------------- metric anomalies and history

  /** `v` is the greatest of the values, or zero when there is none. */
  ghost predicate Greatest(values: iset<real>, v: real) {
    (forall w :: w in values ==> w <= v) && if exists w :: w in values then v in values else v == 0.0
  }

  lemma {:induction false} MaxIsGreatest(values: seq<real>)
    ensures Greatest((iset w | w in values), MaxOrZero(values))
  {
    if |values| == 1 {
      assert values[0] in values;
    } else if |values| > 1 {
      var rest := values[1..];
      assert values == [values[0]] + rest;
      MaxIsGreatest(rest);
      assert rest[0] in rest;
      var all, later := iset w | w in values, iset w | w in rest;
      forall w ensures w in all <==> w == values[0] || w in later {
      }
      assert rest[0] in later && values[0] in all;
    }
  }

  /** A node the candidate bears on: within its traffic's reach, or else on its path. */
  ghost predicate Impacted(entry: Entry, b: Bundle, x: Node, path: seq<Node>, n: Node) {
    if entry.traversal.relation.SendsTrafficTo? then Within(b.edges, entry.traversal, x, n, entry.traversal.maxHops)
    else if path == [] then n == x
    else n in path
  }

  /** An anomaly of a type the entry lists, of a metric on such a node. */
  ghost predicate Measured(entry: Entry, b: Bundle, x: Node, path: seq<Node>, a: AnomalyRecord) {
    && a in b.anomalies && a.anomalyType in entry.metricAnomalyTypes
    && exists e :: e in b.events && e.id == a.eventId && e.modality == Metric && Impacted(entry, b, x, path, e.entityId)
  }

  ghost predicate MetricLaw(entry: Entry, b: Bundle, x: Node, path: seq<Node>, v: real) {
    Greatest((iset a | Measured(entry, b, x, path, a) :: a.score), v)
  }

  /** The greatest similarity of a past incident with this cause. */
  ghost predicate HistoryLaw(entry: Entry, b: Bundle, v: real) {
    Greatest((iset h | h in b.history && h.cause == entry.hypothesisType :: h.similarity), v)
  }

  lemma ImpactIsImpacted(entry: Entry, b: Bundle, x: Node, path: seq<Node>, n: Node)
    ensures n in Impact(entry, b, x, path) <==> Impacted(entry, b, x, path, n)
  {
    if entry.traversal.relation.SendsTrafficTo? && Within(b.edges, entry.traversal, x, n, entry.traversal.maxHops) {
      WithinInUniverse(b.edges, entry.traversal, x, n, entry.traversal.maxHops);
    }
  }

  lemma CountsIsMeasured(entry: Entry, b: Bundle, x: Node, path: seq<Node>, a: AnomalyRecord)
    requires a in b.anomalies
    ensures MetricCounts(entry, b, Impact(entry, b, x, path), a) <==> Measured(entry, b, x, path, a)
  {
    forall n ensures n in Impact(entry, b, x, path) <==> Impacted(entry, b, x, path, n) {
      ImpactIsImpacted(entry, b, x, path, n);
    }
    var impact := Impact(entry, b, x, path);
    if MetricCounts(entry, b, impact, a) {
      var i :| 0 <= i < |b.events| && b.events[i].id == a.eventId && b.events[i].modality.Metric? && b.events[i].entityId in impact;
      assert b.events[i] in b.events;
    }
    if Measured(entry, b, x, path, a) {
      var e :| e in b.events && e.id == a.eventId && e.modality == Metric && Impacted(entry, b, x, path, e.entityId);
      var i :| 0 <= i < |b.events| && b.events[i] == e;
    }
  }

  lemma SameValues<T>(kept: seq<T>, value: T -> real, values: iset<real>)
    requires forall w :: w in values <==> exists t :: t in kept && value(t) == w
    ensures values == iset w | w in Mapped(kept, value)
  {
    var all := Mapped(kept, value);
    forall w ensures w in values <==> w in all {
      if w in values {
        var t :| t in kept && value(t) == w;
        var i :| 0 <= i < |kept| && kept[i] == t;
        assert all[i] == w;
      }
      if w in all {
        var i :| 0 <= i < |all| && all[i] == w;
        assert kept[i] in kept;
      }
    }
  }

  lemma MetricObeysLaw(entry: Entry, b: Bundle, x: Node, path: seq<Node>)
    ensures MetricLaw(entry, b, x, path, MetricFactor(entry, b, Impact(entry, b, x, path)))
  {
    var impact := Impact(entry, b, x, path);
    var kept := Where(b.anomalies, a => MetricCounts(entry, b, impact, a));
    var values := iset a | Measured(entry, b, x, path, a) :: a.score;
    forall a ensures a in kept <==> Measured(entry, b, x, path, a) {
      WhereMembers(b.anomalies, a => MetricCounts(entry, b, impact, a), a);
      if a in b.anomalies {
        CountsIsMeasured(entry, b, x, path, a);
      }
    }
    var value := (a: AnomalyRecord) => a.score;
    forall w ensures w in values <==> exists a :: a in kept && value(a) == w {
    }
    SameValues(kept, value, values);
    MaxIsGreatest(Mapped(kept, value));
  }

  lemma HistoryObeysLaw(entry: Entry, b: Bundle)
    ensures HistoryLaw(entry, b, HistoricalFactor(entry, b))
  {
    var of := (h: HistoricalMatch) => h.cause == entry.hypothesisType;
    var kept := Where(b.history, of);
    var values := iset h | h in b.history && h.cause == entry.hypothesisType :: h.similarity;
    forall h ensures h in kept <==> h in b.history && h.cause == entry.hypothesisType {
      WhereMembers(b.history, of, h);
    }
    var value := (h: HistoricalMatch) => h.similarity;
    forall w ensures w in values <==> exists h :: h in kept && value(h) == w {
    }
    SameValues(kept, value, values);
    MaxIsGreatest(Mapped(kept, value));
  }

  // ---------------------------------------------------------------- cause and first symptom

  /** The entity a change is about: the one its payload names, or else its own. */
  ghost predicate Targets(e: CanonicalEvent, x: Node) {
    var key := "target_entity_id";
    if key in e.payload && e.payload[key] != Text("") && e.payload[key] != Flag(false)
    then e.payload[key] == Text(x) || (e.payload[key] == Flag(true) && x == "True")
    else e.entityId == x
  }

  /** What counts as the candidate's own signal: its change, or an event that lets the entry generate. */
  ghost predicate Signal(entry: Entry, b: Bundle, x: Node, e: CanonicalEvent) {
    && e in b.events
    && if entry.changeBased then e.modality == ConfigChange && Targets(e, x)
       else Flagged(b, e, entry.generation.anyAnomalyTypes) || e.eventType in entry.generation.anyLogEventTypes + entry.generation.anyEventTypes
  }

  ghost predicate Symptom(b: Bundle, e: CanonicalEvent) {
    e in b.events && exists a :: a in b.anomalies && a.eventId == e.id && !a.contextOnly
  }

  ghost predicate FirstSignal(entry: Entry, b: Bundle, x: Node, e: CanonicalEvent) {
    Signal(entry, b, x, e) && forall d :: Signal(entry, b, x, d) ==> NoLater(e, d)
  }

  ghost predicate Onset(b: Bundle, e: CanonicalEvent) {
    Symptom(b, e) && forall d :: Symptom(b, d) ==> NoLater(e, d)
  }

  lemma SignalIsSignals(entry: Entry, b: Bundle, x: Node, e: CanonicalEvent)
    requires e in b.events
    ensures Signals(entry, b, x, e) <==> Signal(entry, b, x, e)
  {
    FlaggedIsHasAnomaly(b, e, entry.generation.anyAnomalyTypes);
  }

  lemma SymptomIsSymptom(b: Bundle, e: CanonicalEvent)
    requires e in b.events
    ensures IsSymptom(b, e) <==> Symptom(b, e)
  {
    if IsSymptom(b, e) {
      var i :| 0 <= i < |b.anomalies| && !b.anomalies[i].contextOnly && b.anomalies[i].eventId == e.id;
      assert b.anomalies[i] in b.anomalies;
    }
    if Symptom(b, e) {
      var a :| a in b.anomalies && a.eventId == e.id && !a.contextOnly;
      var i :| 0 <= i < |b.anomalies| && b.anomalies[i] == a;
    }
  }

  lemma SignalFound(entry: Entry, b: Bundle, x: Node)
    requires ValidBundle(b)
    ensures CandidateSignal(entry, b, x).None? <==> forall e :: !Signal(entry, b, x, e)
    ensures CandidateSignal(entry, b, x).Some? ==> FirstSignal(entry, b, x, CandidateSignal(entry, b, x).value)
  {
    forall e | e in b.events ensures Signals(entry, b, x, e) <==> Signal(entry, b, x, e) {
      SignalIsSignals(entry, b, x, e);
    }
    SortedFirst(b, e => Signals(entry, b, x, e));
  }

  lemma OnsetFound(b: Bundle)
    requires ValidBundle(b)
    ensures FirstSymptom(b).None? <==> forall e :: !Symptom(b, e)
    ensures FirstSymptom(b).Some? ==> Onset(b, FirstSymptom(b).value)
  {
    forall e | e in b.events ensures IsSymptom(b, e) <==> Symptom(b, e) {
      SymptomIsSymptom(b, e);
    }
    SortedFirst(b, e => IsSymptom(b, e));
  }

  /** Events of a valid bundle are told apart by time and id, so a first one is the only first one. */
  lemma OnlyFirst(b: Bundle, d: CanonicalEvent, e: CanonicalEvent)
    requires ValidBundle(b) && d in b.events && e in b.events && NoLater(d, e) && NoLater(e, d)
    ensures d == e
  {
    StringLessTrichotomy(d.id, e.id);
  }

  /** How soon the first symptom follows the first signal, in steps of one, three and five minutes. */
  ghost predicate TemporalLaw(entry: Entry, b: Bundle, x: Node, v: real) {
    && ((forall s :: !Signal(entry, b, x, s)) || (forall y :: !Symptom(b, y)) ==> v == 0.0)
    && forall s, y :: FirstSignal(entry, b, x, s) && Onset(b, y) ==>
         var gap := y.timestamp - s.timestamp;
         v == if gap <= 0 then 0.0 else if gap <= 60_000_000 then 1.0 else if gap <= 180_000_000 then 0.7 else if gap <= 300_000_000 then 0.4 else 0.0
  }

  lemma FirstSignalIs(entry: Entry, b: Bundle, x: Node, s: CanonicalEvent)
    requires ValidBundle(b) && FirstSignal(entry, b, x, s)
    ensures CandidateSignal(entry, b, x) == Some(s)
  {
    SignalFound(entry, b, x);
    OnlyFirst(b, s, CandidateSignal(entry, b, x).value);
  }

  lemma OnsetIs(b: Bundle, y: CanonicalEvent)
    requires ValidBundle(b) && Onset(b, y)
    ensures FirstSymptom(b) == Some(y)
  {
    OnsetFound(b);
    OnlyFirst(b, y, FirstSymptom(b).value);
  }

  /** The lookups find the one first signal and the one first symptom. */
  ghost predicate Located(entry: Entry, b: Bundle, x: Node, signal: Option<CanonicalEvent>, symptom: Option<CanonicalEvent>) {
    && (signal.None? <==> forall e :: !Signal(entry, b, x, e))
    && (symptom.None? <==> forall e :: !Symptom(b, e))
    && (forall s :: FirstSignal(entry, b, x, s) ==> signal == Some(s))
    && (forall y :: Onset(b, y) ==> symptom == Some(y))
  }

  lemma LookupsLocate(entry: Entry, b: Bundle, x: Node)
    requires ValidBundle(b)
    ensures Located(entry, b, x, CandidateSignal(entry, b, x), FirstSymptom(b))
  {
    SignalFound(entry, b, x);
    OnsetFound(b);
    forall s | FirstSignal(entry, b, x, s) ensures CandidateSignal(entry, b, x) == Some(s) {
      FirstSignalIs(entry, b, x, s);
    }
    forall y | Onset(b, y) ensures FirstSymptom(b) == Some(y) {
      OnsetIs(b, y);
    }
  }

  lemma TemporalObeysLaw(entry: Entry, b: Bundle, x: Node, signal: Option<CanonicalEvent>, symptom: Option<CanonicalEvent>)
    requires Located(entry, b, x, signal, symptom)
    ensures TemporalLaw(entry, b, x, TemporalFactor(signal, symptom))
  {
  }

  // ---------------------------------------------------------------- causal fit of a change

  /** Some symptom followed, and none came before or with the change. */
  ghost predicate Precedes(b: Bundle, change: CanonicalEvent) {
    (exists y :: Symptom(b, y)) && forall y :: Symptom(b, y) ==> change.timestamp < y.timestamp
  }

  ghost predicate Plausible(entry: Entry, change: CanonicalEvent) {
    exists key :: key in entry.plausibleChangeKeys && "config_key" in change.payload && change.payload["config_key"] == Text(key)
  }

  /** A quarter for having a change at all, since the candidate lies on its own path, and one each
      for preceding the symptoms, for a plausible key and for no conflict. */
  ghost predicate ChangeLaw(entry: Entry, b: Bundle, x: Node, conflicted: bool, v: real) {
    && (!entry.changeBased || (forall s :: !Signal(entry, b, x, s)) ==> v == 0.0)
    && forall s :: entry.changeBased && FirstSignal(entry, b, x, s) ==>
         v == 0.25 + (if Precedes(b, s) then 0.25 else 0.0) + (if Plausible(entry, s) then 0.25 else 0.0) + (if conflicted then 0.0 else 0.25)
  }

  lemma TargetIsTarget(e: CanonicalEvent, x: Node)
    ensures Targets(e, x) <==> CandidateGeneration.ChangeTarget(e) == x
  {
  }

  lemma PrecedesExactly(b: Bundle, change: CanonicalEvent)
    requires ValidBundle(b)
    ensures Precedes(b, change) <==> FirstSymptom(b).Some? && change.timestamp < FirstSymptom(b).value.timestamp
  {
    OnsetFound(b);
    if FirstSymptom(b).Some? {
      assert Symptom(b, FirstSymptom(b).value);
    }
  }

  lemma ChangeObeysLaw(entry: Entry, b: Bundle, x: Node, path: seq<Node>, conflicted: bool)
    requires ValidBundle(b) && (path != [] ==> x in path)
    ensures ChangeLaw(entry, b, x, conflicted, ChangeFit(entry, b, x, path, conflicted))
  {
    SignalFound(entry, b, x);
    forall s | entry.changeBased && FirstSignal(entry, b, x, s)
      ensures ChangeFit(entry, b, x, path, conflicted)
                == 0.25 + (if Precedes(b, s) then 0.25 else 0.0) + (if Plausible(entry, s) then 0.25 else 0.0) + if conflicted then 0.0 else 0.25
    {
      FitOfChange(entry, b, x, path, conflicted, s);
    }
  }

  lemma FitOfChange(entry: Entry, b: Bundle, x: Node, path: seq<Node>, conflicted: bool, s: CanonicalEvent)
    requires ValidBundle(b) && (path != [] ==> x in path) && entry.changeBased && FirstSignal(entry, b, x, s)
    ensures ChangeFit(entry, b, x, path, conflicted)
              == 0.25 + (if Precedes(b, s) then 0.25 else 0.0) + (if Plausible(entry, s) then 0.25 else 0.0) + if conflicted then 0.0 else 0.25
  {
    FirstSignalIs(entry, b, x, s);
    PrecedesExactly(b, s);
    TargetIsTarget(s, x);
    PlausibleExactly(entry, s);
  }

  lemma PlausibleExactly(entry: Entry, change: CanonicalEvent)
    ensures Plausible(entry, change) <==>
              "config_key" in change.payload && change.payload["config_key"].Text? && change.payload["config_key"].text in entry.plausibleChangeKeys
  {
  }

  // ---------------------------------------------------------------- conflicts and coverage

  /** The pattern is seen, and no anomaly that would silence it. */
  ghost predicate Contradicts(p: ConflictPattern, b: Bundle) {
    Seen(p.pattern, b) && forall a :: a in b.anomalies ==> a.anomalyType !in p.pattern.absentAnomalyTypes
  }

  /** The entry's patterns that contradict, in catalogue order, each with the earliest event that shows it. */
  ghost predicate ConflictLaw(entry: Entry, b: Bundle, conflicts: seq<AppliedConflict>) {
    && Mapped(conflicts, (k: AppliedConflict) => k.pattern) == Where(entry.conflictPatterns, p => Contradicts(p, b))
    && forall k :: k in conflicts ==>
         exists e :: Shows(k.pattern.pattern, b, e) && e.id == k.sourceEventId && forall d :: Shows(k.pattern.pattern, b, d) ==> NoLater(e, d)
  }

  lemma SourceExactly(p: ConflictPattern, b: Bundle)
    requires ValidBundle(b)
    ensures ConflictSource(p, b).Some? <==> Contradicts(p, b)
    ensures ConflictSource(p, b).Some? ==>
              var e := ConflictSource(p, b).value;
              Shows(p.pattern, b, e) && forall d :: Shows(p.pattern, b, d) ==> NoLater(e, d)
  {
    FirstShown(p.pattern, b);
    if i :| 0 <= i < |b.anomalies| && b.anomalies[i].anomalyType in p.pattern.absentAnomalyTypes {
      assert b.anomalies[i] in b.anomalies;
    }
    if a :| a in b.anomalies && a.anomalyType in p.pattern.absentAnomalyTypes {
      var i :| 0 <= i < |b.anomalies| && b.anomalies[i] == a;
    }
  }

  lemma {:induction false} MatchedArePatterns(patterns: seq<ConflictPattern>, b: Bundle, applies: ConflictPattern -> bool)
    requires forall p :: p in patterns ==> (applies(p) <==> ConflictSource(p, b).Some?)
    ensures Mapped(Matched(patterns, b), (k: AppliedConflict) => k.pattern) == Where(patterns, applies)
  {
    if patterns != [] {
      assert patterns == [patterns[0]] + patterns[1..];
      MatchedArePatterns(patterns[1..], b, applies);
      assert applies(patterns[0]) <==> ConflictSource(patterns[0], b).Some?;
    }
  }

  lemma ConflictsObeyLaw(entry: Entry, b: Bundle)
    requires ValidBundle(b)
    ensures ConflictLaw(entry, b, Matched(entry.conflictPatterns, b))
  {
    forall p | p in entry.conflictPatterns ensures Contradicts(p, b) <==> ConflictSource(p, b).Some? {
      SourceExactly(p, b);
    }
    MatchedArePatterns(entry.conflictPatterns, b, p => Contradicts(p, b));
    forall k | k in Matched(entry.conflictPatterns, b)
      ensures exists e :: Shows(k.pattern.pattern, b, e) && e.id == k.sourceEventId && forall d :: Shows(k.pattern.pattern, b, d) ==> NoLater(e, d)
    {
      MatchedFromCatalogue(entry.conflictPatterns, b, k);
      SourceExactly(k.pattern, b);
    }
  }

  ghost function Met(entry: Entry, b: Bundle, x: Node, available: Availability): int -> bool {
    i => 0 <= i < |entry.expectedEvidence| && exists e :: e in b.events && available(entry.expectedEvidence[i].0, e, x)
  }

  /** How many of the expected kinds of evidence some attached event provides. */
  ghost predicate CoverageLaw(entry: Entry, b: Bundle, x: Node, available: Availability, r: Coverage) {
    r == Coverage(|Places(|entry.expectedEvidence|, Met(entry, b, x, available))|, |entry.expectedEvidence|)
  }

  lemma {:induction false} AvailableAppends(names: seq<(string, string)>, s: (string, string), b: Bundle, x: Node, available: Availability)
    ensures CountAvailable(names + [s], b, x, available) == CountAvailable(names, b, x, available) + CountAvailable([s], b, x, available)
  {
    if names != [] {
      assert (names + [s])[1..] == names[1..] + [s];
      AvailableAppends(names[1..], s, b, x, available);
    } else {
      assert names + [s] == [s];
    }
  }

  lemma AvailableOne(s: (string, string), b: Bundle, x: Node, available: Availability)
    ensures CountAvailable([s], b, x, available) == if exists e :: e in b.events && available(s.0, e, x) then 1 else 0
  {
    assert CountAvailable([s][1..], b, x, available) == 0;
    if e :| e in b.events && available(s.0, e, x) {
      var i :| 0 <= i < |b.events| && b.events[i] == e;
    }
    if i :| 0 <= i < |b.events| && available(s.0, b.events[i], x) {
      assert b.events[i] in b.events;
    }
  }

  lemma {:induction false} CountsMet(entry: Entry, b: Bundle, x: Node, available: Availability, n: nat)
    requires n <= |entry.expectedEvidence|
    ensures CountAvailable(entry.expectedEvidence[..n], b, x, available) == |Places(n, Met(entry, b, x, available))|
  {
    if n > 0 {
      CountsMet(entry, b, x, available, n - 1);
      assert entry.expectedEvidence[..n] == entry.expectedEvidence[..n - 1] + [entry.expectedEvidence[n - 1]];
      AvailableAppends(entry.expectedEvidence[..n - 1], entry.expectedEvidence[n - 1], b, x, available);
      AvailableOne(entry.expectedEvidence[n - 1], b, x, available);
      PlacesNext(n - 1, Met(entry, b, x, available));
    }
  }

  // ---------------------------------------------------------------- the score

  const RUBRIC_FACTORS := {SymptomCompatibility, TopologyRelevance, DirectLogsAlerts, PropagationConsistency,
                           MetricAnomaly, ChangeCausalFit, TemporalProximity, HistoricalSimilarity}

  /** The table has one value for each factor, and each obeys its law. */
  ghost function Laws(c: Catalogue, entry: Entry, b: Bundle, x: Node, path: seq<Node>, conflicted: bool): Factors -> bool {
    (f: Factors) =>
      && f.Keys == RUBRIC_FACTORS
      && SymptomLaw(c, entry, b, f[SymptomCompatibility])
      && TopologyLaw(entry, b, x, f[TopologyRelevance])
      && LogsLaw(b, x, f[DirectLogsAlerts])
      && PropagationLaw(c, entry, b, f[PropagationConsistency])
      && MetricLaw(entry, b, x, path, f[MetricAnomaly])
      && ChangeLaw(entry, b, x, conflicted, f[ChangeCausalFit])
      && TemporalLaw(entry, b, x, f[TemporalProximity])
      && HistoryLaw(entry, b, f[HistoricalSimilarity])
  }

  /** The table holds these readings. */
  ghost predicate Holds(f: Factors, r: Readings) {
    && f.Keys == RUBRIC_FACTORS
    && f[SymptomCompatibility] == r.symptom && f[TopologyRelevance] == r.topology
    && f[DirectLogsAlerts] == r.logs && f[PropagationConsistency] == r.propagation
    && f[MetricAnomaly] == r.metric && f[ChangeCausalFit] == r.change
    && f[TemporalProximity] == r.temporal && f[HistoricalSimilarity] == r.history
  }

  lemma TableHolds(r: Readings)
    ensures Holds(Table(r), r)
  {
  }

  lemma LawfulTable(c: Catalogue, entry: Entry, b: Bundle, x: Node, path: seq<Node>, conflicted: bool, r: Readings, f: Factors)
    requires SymptomLaw(c, entry, b, r.symptom) && TopologyLaw(entry, b, x, r.topology) && LogsLaw(b, x, r.logs)
    requires PropagationLaw(c, entry, b, r.propagation) && MetricLaw(entry, b, x, path, r.metric)
    requires ChangeLaw(entry, b, x, conflicted, r.change) && TemporalLaw(entry, b, x, r.temporal) && HistoryLaw(entry, b, r.history)
    requires Holds(f, r)
    ensures Laws(c, entry, b, x, path, conflicted)(f)
  {
  }

  lemma BaseIsLawful(c: Catalogue, entry: Entry, b: Bundle, x: Node, origin: Option<Node>, path: seq<Node>, conflicted: bool)
    requires ValidBundle(b) && ValidEntry(c, entry) && PathLaw(entry, b, x, origin, path)
    ensures Laws(c, entry, b, x, path, conflicted)(BaseFactors(c, entry, b, x, path, Impact(entry, b, x, path), conflicted))
  {
    SymptomsObeyLaw(c, entry, b);
    TopologyObeysLaw(entry, b, x, origin, path);
    LogsObeyLaw(b, x);
    PropagationObeysLaw(c, entry, b);
    MetricObeysLaw(entry, b, x, path);
    ChangeObeysLaw(entry, b, x, path, conflicted);
    LookupsLocate(entry, b, x);
    TemporalObeysLaw(entry, b, x, CandidateSignal(entry, b, x), FirstSymptom(b));
    HistoryObeysLaw(entry, b);
    var r := Read(c, entry, b, x, path, Impact(entry, b, x, path), conflicted);
    TableHolds(r);
    LawfulTable(c, entry, b, x, path, conflicted, r, Table(r));
  }

  ghost predicate EntryFor(c: Catalogue, t: string, entry: Entry) {
    entry in c.hypotheses && entry.hypothesisType == t
  }

  /** The conflicts' effects, in order, turn one table into the other. */
  ghost predicate Become(base: Factors, conflicts: seq<AppliedConflict>, after: Factors) {
    ApplyAll(base, Mapped(conflicts, (k: AppliedConflict) => k.pattern.effect)) == Ok(after)
  }

  lemma EntryIsScored(c: Catalogue, b: Bundle, x: Candidate, available: Availability, s: CandidateScore, entry: Entry)
    requires ValidCatalogue(c) && ScoredIn(c, b, available)(x, s) && EntryFor(c, x.hypothesisType, entry)
    ensures ValidEntry(c, entry) && ScoredBy(c, entry, b, x, available, s)
  {
    var k := EntryIndex(c.hypotheses, x.hypothesisType);
    var j :| 0 <= j < |c.hypotheses| && c.hypotheses[j] == entry;
    assert j == k;
  }

  lemma CoverageObeysLaw(entry: Entry, b: Bundle, x: Node, available: Availability)
    ensures CoverageLaw(entry, b, x, available, Coverage(CountAvailable(entry.expectedEvidence, b, x, available), |entry.expectedEvidence|))
  {
    CountsMet(entry, b, x, available, |entry.expectedEvidence|);
    assert entry.expectedEvidence[..|entry.expectedEvidence|] == entry.expectedEvidence;
  }

  /** The path, the conflicts and the coverage shown with a score are those the records give. */
  lemma ScoreIsFounded(c: Catalogue, b: Bundle, x: Candidate, available: Availability, s: CandidateScore, entry: Entry)
    requires ValidCatalogue(c) && ValidBundle(b) && ScoredIn(c, b, available)(x, s) && EntryFor(c, x.hypothesisType, entry)
    ensures s.candidate == x && PathLaw(entry, b, x.entity, s.origin, s.path)
    ensures ConflictLaw(entry, b, s.conflicts)
    ensures CoverageLaw(entry, b, x.entity, available, s.coverage)
  {
    EntryIsScored(c, b, x, available, s, entry);
    PathObeysLaw(entry, b, x.entity, s.origin, s.path);
    ConflictsObeyLaw(entry, b);
    CoverageObeysLaw(entry, b, x.entity, available);
  }

  /** The factors of a score are a lawful table after the effects of its conflicts; without
      conflicts they are lawful themselves. */
  lemma ScoreIsLawful(c: Catalogue, b: Bundle, x: Candidate, available: Availability, s: CandidateScore, entry: Entry)
    requires ValidCatalogue(c) && ValidBundle(b) && ScoredIn(c, b, available)(x, s) && EntryFor(c, x.hypothesisType, entry)
    ensures exists base :: Laws(c, entry, b, x.entity, s.path, s.conflicts != [])(base) && Become(base, s.conflicts, s.factors)
    ensures s.conflicts == [] ==> Laws(c, entry, b, x.entity, s.path, false)(s.factors)
  {
    EntryIsScored(c, b, x, available, s, entry);
    PathObeysLaw(entry, b, x.entity, s.origin, s.path);
    BaseIsLawful(c, entry, b, x.entity, s.origin, s.path, s.conflicts != []);
    assert Become(BaseFactors(c, entry, b, x.entity, s.path, Impact(entry, b, x.entity, s.path), s.conflicts != []), s.conflicts, s.factors);
  }

  /** In the score of a candidate no conflict speaks against, the heaviest factor is full exactly when
      every required symptom was seen, and zero exactly when none was. */
  lemma SymptomsInScore(c: Catalogue, b: Bundle, x: Candidate, available: Availability, s: CandidateScore, entry: Entry)
    requires ValidCatalogue(c) && ValidBundle(b) && ScoredIn(c, b, available)(x, s) && EntryFor(c, x.hypothesisType, entry)
    requires s.conflicts == [] && 0 < |entry.requiredSymptoms| < 20000
    ensures SymptomCompatibility in s.factors && ValidEntry(c, entry)
    ensures s.factors[SymptomCompatibility] == 1.0 <==> forall i :: 0 <= i < |entry.requiredSymptoms| ==> SymptomIsSeen(c, entry, b, i)
    ensures s.factors[SymptomCompatibility] == 0.0 <==> forall i :: 0 <= i < |entry.requiredSymptoms| ==> !SymptomIsSeen(c, entry, b, i)
  {
    ScoreIsLawful(c, b, x, available, s, entry);
    assert SymptomCompatibility in RUBRIC_FACTORS;
    SymptomEnds(c, entry, b, s.factors[SymptomCompatibility]);
  }
}
