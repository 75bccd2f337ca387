/** Ingestion of one record: quarantine, idempotent retry, collapse into a duplicate group, or
    acceptance. */
module Ingestion {
  import opened Common
  import opened Contracts

  datatype Reason = UnknownSource | ForbiddenLabel | PayloadTooLarge | ValidationError | UnknownEntity

  /** A submitted record, as far as the pipeline distinguishes records: whether its source has an
      adapter, whether it carries a forbidden label, whether it is too large, and what the adapter makes
      of it. */
  datatype Record = Record(knownSource: bool, labelled: bool, tooLarge: bool, adapted: Option<CanonicalEvent>)

  datatype Result = Accepted(id: string) | Retried(id: string) | Collapsed(representative: string) | Quarantined(reason: Reason) | DuplicateId

  // ---------------------------------------------------------------- duplicate fingerprints

  const SECOND := 1_000_000

  /** `int(t)`: whole seconds, truncated toward zero. */
  function WholeSeconds(t: int): int {
    if t >= 0 then t / SECOND else -(-t / SECOND)
  }

  /** `seconds // bucket`: the division of Python and of this model both round down here. */
  function Bucket(t: int, size: nat): int
    requires size >= 1
  {
    WholeSeconds(t) / size
  }

  /** What the fingerprint hashes; the hash is taken to be injective on it. */
  datatype Fingerprint = Fingerprint(entity: string, modality: Modality, eventType: string, signal: string, bucket: int)

  function FingerprintOf(e: CanonicalEvent, size: nat): Fingerprint
    requires size >= 1
  {
    Fingerprint(e.entityId, e.modality, e.eventType, if e.signalName.Some? then e.signalName.value else "", Bucket(e.timestamp, size))
  }

  lemma {:induction false} DivideBounds(n: int, d: int)
    requires d > 0
    ensures n / d * d <= n < n / d * d + d
  {
  }

  /** Where the timestamps of a bucket lie. */
  lemma BucketRange(t: int, size: nat)
    requires size >= 1
    ensures var b := Bucket(t, size);
            && (b > 0 ==> b * size * SECOND <= t < (b * size + size) * SECOND)
            && (b < 0 ==> (b * size - 1) * SECOND < t <= (b * size + size - 1) * SECOND)
            && (b == 0 ==> -SECOND < t < size * SECOND)
  {
    var s, b := WholeSeconds(t), Bucket(t, size);
    DivideBounds(s, size);
    assert b * size <= s < b * size + size;
    if t >= 0 {
      DivideBounds(t, SECOND);
    } else {
      DivideBounds(-t, SECOND);
    }
    if b < 0 {
      NegativeProduct(b, size);
    } else if b > 0 {
      PositiveProduct(b, size);
    }
  }

  lemma {:induction false} ProductSign(c: int, n: nat)
    ensures c <= 0 ==> c * n <= 0
    ensures c >= 0 ==> c * n >= 0
  {
    if n > 0 {
      ProductSign(c, n - 1);
      assert c * n == c * (n - 1) + c;
    }
  }

  lemma NegativeProduct(b: int, n: nat)
    requires b < 0
    ensures b * n + n <= 0
  {
    ProductSign(b + 1, n);
    assert (b + 1) * n == b * n + n;
  }

  lemma PositiveProduct(b: int, n: nat)
    requires b > 0
    ensures b * n >= n
  {
    ProductSign(b - 1, n);
    assert (b - 1) * n == b * n - n;
  }

  /** The timestamps of one bucket span less than one bucket, exactly when it is not bucket zero: that
      one reaches up to a second below the epoch because seconds are truncated toward zero. */
  lemma SpanBelowBucketExactly(b: int, size: nat)
    requires size >= 1
    ensures (forall s, t :: Bucket(s, size) == b && Bucket(t, size) == b ==> t - s < size * SECOND) <==> b != 0
  {
    if b != 0 {
      forall s, t | Bucket(s, size) == b && Bucket(t, size) == b ensures t - s < size * SECOND {
        BucketRange(s, size);
        BucketRange(t, size);
      }
    } else {
      var s, t := -SECOND / 2, size * SECOND - SECOND / 2;
      assert WholeSeconds(s) == 0 && WholeSeconds(t) == size - 1;
      assert Bucket(s, size) == 0 && Bucket(t, size) == 0 && t - s == size * SECOND;
    }
  }

  /** For timestamps from the epoch on, every bucket does. */
  lemma SpanAfterEpoch(s: int, t: int, size: nat)
    requires size >= 1 && s >= 0 && t >= 0 && Bucket(s, size) == Bucket(t, size)
    ensures t - s < size * SECOND
  {
    BucketRange(s, size);
    BucketRange(t, size);
  }

  // ---------------------------------------------------------------- the tables

  datatype Group = Group(fingerprint: Fingerprint, firstSeen: int, lastSeen: int, count: nat, representative: string)

  datatype Member = Member(fingerprint: Fingerprint, timestamp: int)

  function FindGroup(groups: seq<Group>, f: Fingerprint): (r: nat)
    ensures r <= |groups|
    ensures r < |groups| ==> groups[r].fingerprint == f
    ensures r == |groups| ==> forall k :: 0 <= k < |groups| ==> groups[k].fingerprint != f
  {
    if groups == [] || groups[0].fingerprint == f then 0 else 1 + FindGroup(groups[1..], f)
  }

  function FindBySource(events: seq<CanonicalEvent>, source: string, record: string): (r: nat)
    ensures r <= |events|
    ensures r < |events| ==> events[r].source == source && events[r].sourceRecordId == Some(record)
    ensures r == |events| ==> forall k :: 0 <= k < |events| ==> !(events[k].source == source && events[k].sourceRecordId == Some(record))
  {
    if events == [] || (events[0].source == source && events[0].sourceRecordId == Some(record)) then 0
    else 1 + FindBySource(events[1..], source, record)
  }

  function SumCounts(groups: seq<Group>): nat {
    if groups == [] then 0 else SumCounts(groups[..|groups| - 1]) + groups[|groups| - 1].count
  }

  /** The timestamps that went into one group, in order. */
  function TimesOf(members: seq<Member>, f: Fingerprint): seq<int> {
    if members == [] then []
    else
      var before, last := TimesOf(members[..|members| - 1], f), members[|members| - 1];
      if last.fingerprint == f then before + [last.timestamp] else before
  }

  /** The group stands for the members of its fingerprint: their number and time bounds, with an accepted
      event of that fingerprint as representative. */
  ghost predicate GroupOk(g: Group, members: seq<Member>, events: seq<CanonicalEvent>, size: nat)
    requires size >= 1
  {
    var times := TimesOf(members, g.fingerprint);
    && g.count == |times| >= 1
    && (forall k :: 0 <= k < |times| ==> g.firstSeen <= times[k] <= g.lastSeen && Bucket(times[k], size) == g.fingerprint.bucket)
    && g.firstSeen in times && g.lastSeen in times
    && exists n :: 0 <= n < |events| && events[n].id == g.representative && FingerprintOf(events[n], size) == g.fingerprint
  }

  predicate Found(groups: seq<Group>, f: Fingerprint) {
    FindGroup(groups, f) < |groups|
  }

  /** At most one group per fingerprint. */
  ghost predicate OneGroupEach(groups: seq<Group>) {
    forall j, k :: 0 <= j < k < |groups| ==> groups[j].fingerprint != groups[k].fingerprint
  }

  ghost predicate EachOk(groups: seq<Group>, members: seq<Member>, events: seq<CanonicalEvent>, size: nat)
    requires size >= 1
  {
    forall k {:trigger GroupOk(groups[k], members, events, size)} :: 0 <= k < |groups| ==> GroupOk(groups[k], members, events, size)
  }

  /** Every member has its group. */
  ghost predicate AllFound(groups: seq<Group>, members: seq<Member>) {
    forall m {:trigger Found(groups, m.fingerprint)} :: m in members ==> Found(groups, m.fingerprint)
  }

  ghost predicate GroupsOk(groups: seq<Group>, members: seq<Member>, events: seq<CanonicalEvent>, size: nat)
    requires size >= 1
  {
    && EachOk(groups, members, events, size) && OneGroupEach(groups)
    && AllFound(groups, members) && SumCounts(groups) == |members|
  }

  /** The unique constraints of the event table. */
  predicate Separate(a: CanonicalEvent, b: CanonicalEvent) {
    a.id != b.id && !(a.source == b.source && a.sourceRecordId.Some? && a.sourceRecordId == b.sourceRecordId)
  }

  ghost predicate EventsOk(events: seq<CanonicalEvent>) {
    forall j, k {:trigger Separate(events[j], events[k])} :: 0 <= j < k < |events| ==> Separate(events[j], events[k])
  }

  lemma EventsAppend(events: seq<CanonicalEvent>, e: CanonicalEvent)
    requires EventsOk(events) && forall k :: 0 <= k < |events| ==> events[k].id != e.id
    requires e.sourceRecordId.Some? ==> FindBySource(events, e.source, e.sourceRecordId.value) == |events|
    ensures EventsOk(events + [e])
  {
    forall j, k | 0 <= j < k < |events + [e]| ensures Separate((events + [e])[j], (events + [e])[k]) {
      if k < |events| {
        assert Separate(events[j], events[k]);
      }
    }
  }

  function CountCollapsible(events: seq<CanonicalEvent>, repeatable: set<string>): nat {
    if events == [] then 0
    else CountCollapsible(events[..|events| - 1], repeatable) + if Collapsible(events[|events| - 1], repeatable) then 1 else 0
  }

  predicate Collapsible(e: CanonicalEvent, repeatable: set<string>) {
    e.modality.Alert? || (e.modality.Log? && e.eventType in repeatable)
  }

  // ---------------------------------------------------------------- adding a member

  lemma TimesAppend(members: seq<Member>, m: Member, f: Fingerprint)
    ensures TimesOf(members + [m], f) == if m.fingerprint == f then TimesOf(members, f) + [m.timestamp] else TimesOf(members, f)
  {
    assert (members + [m])[..|members|] == members;
  }

  lemma {:induction false} TimesOfNone(members: seq<Member>, f: Fingerprint)
    requires forall m :: m in members ==> m.fingerprint != f
    ensures TimesOf(members, f) == []
  {
    if members != [] {
      TimesOfNone(members[..|members| - 1], f);
    }
  }

  lemma {:induction false} SumReplaced(groups: seq<Group>, k: nat, g: Group)
    requires k < |groups|
    ensures SumCounts(groups[k := g]) == SumCounts(groups) - groups[k].count + g.count
  {
    var n := |groups| - 1;
    if k == n {
      assert groups[k := g][..n] == groups[..n];
    } else {
      assert groups[k := g][..n] == groups[..n][k := g];
      SumReplaced(groups[..n], k, g);
    }
  }

  /** The group after one more member. */
  function Incremented(g: Group, t: int): Group {
    g.(count := g.count + 1, firstSeen := if t < g.firstSeen then t else g.firstSeen, lastSeen := if t > g.lastSeen then t else g.lastSeen)
  }

  lemma GroupKept(g: Group, members: seq<Member>, m: Member, events: seq<CanonicalEvent>, longer: seq<CanonicalEvent>, size: nat)
    requires size >= 1 && GroupOk(g, members, events, size) && g.fingerprint != m.fingerprint && events <= longer
    ensures GroupOk(g, members + [m], longer, size)
  {
    TimesAppend(members, m, g.fingerprint);
    var n :| 0 <= n < |events| && events[n].id == g.representative && FingerprintOf(events[n], size) == g.fingerprint;
    assert longer[n] == events[n];
  }

  lemma GroupStays(g: Group, members: seq<Member>, events: seq<CanonicalEvent>, longer: seq<CanonicalEvent>, size: nat)
    requires size >= 1 && GroupOk(g, members, events, size) && events <= longer
    ensures GroupOk(g, members, longer, size)
  {
    var n :| 0 <= n < |events| && events[n].id == g.representative && FingerprintOf(events[n], size) == g.fingerprint;
    assert longer[n] == events[n];
  }

  lemma GroupIncremented(g: Group, members: seq<Member>, t: int, events: seq<CanonicalEvent>, size: nat)
    requires size >= 1 && GroupOk(g, members, events, size) && Bucket(t, size) == g.fingerprint.bucket
    ensures GroupOk(Incremented(g, t), members + [Member(g.fingerprint, t)], events, size)
  {
    TimesAppend(members, Member(g.fingerprint, t), g.fingerprint);
    var times := TimesOf(members, g.fingerprint);
    assert (times + [t])[|times|] == t;
    var i :| 0 <= i < |times| && times[i] == g.firstSeen;
    var j :| 0 <= j < |times| && times[j] == g.lastSeen;
    assert (times + [t])[i] == g.firstSeen && (times + [t])[j] == g.lastSeen;
  }

  /** What a group covers: less than one bucket of time, unless it is of bucket zero and began before the
      epoch. */
  lemma GroupSpan(g: Group, members: seq<Member>, events: seq<CanonicalEvent>, size: nat)
    requires size >= 1 && GroupOk(g, members, events, size)
    ensures 0 <= g.lastSeen - g.firstSeen
    ensures g.fingerprint.bucket != 0 || g.firstSeen >= 0 ==> g.lastSeen - g.firstSeen < size * SECOND
    ensures g.lastSeen - g.firstSeen < (size + 1) * SECOND
  {
    var times := TimesOf(members, g.fingerprint);
    var i :| 0 <= i < |times| && times[i] == g.firstSeen;
    var j :| 0 <= j < |times| && times[j] == g.lastSeen;
    assert Bucket(times[i], size) == Bucket(times[j], size) == g.fingerprint.bucket;
    BucketRange(g.firstSeen, size);
    BucketRange(g.lastSeen, size);
    if g.firstSeen >= 0 {
      SpanAfterEpoch(g.firstSeen, g.lastSeen, size);
    }
  }

  /** A group that does cover more: its first event is half a second before the epoch. */
  lemma WideGroup(e: CanonicalEvent, size: nat)
    requires size >= 1 && e.timestamp == -SECOND / 2
    ensures var f, t := FingerprintOf(e, size), size * SECOND - 1;
            var g := Incremented(Group(f, e.timestamp, e.timestamp, 1, e.id), t);
            && Bucket(t, size) == f.bucket
            && GroupOk(g, [Member(f, e.timestamp), Member(f, t)], [e], size)
            && g.lastSeen - g.firstSeen > size * SECOND
  {
    var f, t := FingerprintOf(e, size), size * SECOND - 1;
    assert WholeSeconds(e.timestamp) == 0;
    assert WholeSeconds(t) == size - 1 && Bucket(t, size) == 0 == f.bucket;
    NewGroupOk(e, [], [], size);
    assert [] + [Member(f, e.timestamp)] == [Member(f, e.timestamp)] && [] + [e] == [e];
    GroupIncremented(Group(f, e.timestamp, e.timestamp, 1, e.id), [Member(f, e.timestamp)], t, [e], size);
    assert [Member(f, e.timestamp)] + [Member(f, t)] == [Member(f, e.timestamp), Member(f, t)];
  }

  lemma CollapseKeepsGroups(groups: seq<Group>, members: seq<Member>, events: seq<CanonicalEvent>, size: nat, k: nat, t: int)
    requires size >= 1 && GroupsOk(groups, members, events, size) && k < |groups| && Bucket(t, size) == groups[k].fingerprint.bucket
    ensures GroupsOk(groups[k := Incremented(groups[k], t)], members + [Member(groups[k].fingerprint, t)], events, size)
  {
    var g := groups[k];
    CollapseKeepsEach(groups, members, events, size, k, t);
    SameFingerprints(groups, groups[k := Incremented(g, t)]);
    CollapseKeepsFound(groups, groups[k := Incremented(g, t)], members, Member(g.fingerprint, t), k);
    SumReplaced(groups, k, Incremented(g, t));
  }

  lemma CollapseKeepsEach(groups: seq<Group>, members: seq<Member>, events: seq<CanonicalEvent>, size: nat, k: nat, t: int)
    requires size >= 1 && EachOk(groups, members, events, size) && OneGroupEach(groups)
    requires k < |groups| && Bucket(t, size) == groups[k].fingerprint.bucket
    ensures EachOk(groups[k := Incremented(groups[k], t)], members + [Member(groups[k].fingerprint, t)], events, size)
  {
    var g, m := groups[k], Member(groups[k].fingerprint, t);
    var after := groups[k := Incremented(g, t)];
    forall j | 0 <= j < |after| ensures GroupOk(after[j], members + [m], events, size) {
      assert GroupOk(groups[j], members, events, size);
      if j == k {
        GroupIncremented(g, members, t, events, size);
      } else {
        assert groups[j].fingerprint != g.fingerprint;
        GroupKept(groups[j], members, m, events, events, size);
      }
    }
  }

  lemma SameFingerprints(groups: seq<Group>, after: seq<Group>)
    requires OneGroupEach(groups) && |after| == |groups| && forall k :: 0 <= k < |groups| ==> after[k].fingerprint == groups[k].fingerprint
    ensures OneGroupEach(after)
  {
    forall j, k | 0 <= j < k < |after| ensures after[j].fingerprint != after[k].fingerprint {
      assert groups[j].fingerprint != groups[k].fingerprint;
    }
  }

  lemma CollapseKeepsFound(groups: seq<Group>, after: seq<Group>, members: seq<Member>, m: Member, k: nat)
    requires AllFound(groups, members) && k < |groups| <= |after| && m.fingerprint == groups[k].fingerprint
    requires forall j :: 0 <= j < |groups| ==> after[j].fingerprint == groups[j].fingerprint
    ensures AllFound(after, members + [m])
  {
    forall x | x in members + [m] ensures Found(after, x.fingerprint) {
      if x in members {
        assert Found(groups, x.fingerprint);
        StillFound(groups, after, x.fingerprint, FindGroup(groups, x.fingerprint));
      } else {
        StillFound(groups, after, x.fingerprint, k);
      }
    }
  }

  lemma StillFound(groups: seq<Group>, after: seq<Group>, f: Fingerprint, k: nat)
    requires |groups| <= |after| && k < |groups| && after[k].fingerprint == groups[k].fingerprint == f
    ensures Found(after, f)
  {
  }

  lemma NewGroupOk(e: CanonicalEvent, members: seq<Member>, events: seq<CanonicalEvent>, size: nat)
    requires size >= 1 && forall m :: m in members ==> m.fingerprint != FingerprintOf(e, size)
    ensures var f := FingerprintOf(e, size);
            GroupOk(Group(f, e.timestamp, e.timestamp, 1, e.id), members + [Member(f, e.timestamp)], events + [e], size)
  {
    var f := FingerprintOf(e, size);
    TimesOfNone(members, f);
    TimesAppend(members, Member(f, e.timestamp), f);
    assert TimesOf(members + [Member(f, e.timestamp)], f) == [e.timestamp];
    assert (events + [e])[|events|] == e;
  }

  lemma AcceptKeepsGroups(groups: seq<Group>, members: seq<Member>, events: seq<CanonicalEvent>, e: CanonicalEvent, size: nat)
    requires size >= 1 && GroupsOk(groups, members, events, size) && !Found(groups, FingerprintOf(e, size))
    ensures var f := FingerprintOf(e, size);
            GroupsOk(groups + [Group(f, e.timestamp, e.timestamp, 1, e.id)], members + [Member(f, e.timestamp)], events + [e], size)
  {
    var f := FingerprintOf(e, size);
    var g, m := Group(f, e.timestamp, e.timestamp, 1, e.id), Member(f, e.timestamp);
    AcceptKeepsEach(groups, members, events, e, size);
    assert OneGroupEach(groups + [g]);
    AcceptKeepsFound(groups, g, members, m);
    assert (groups + [g])[..|groups|] == groups;
  }

  lemma AcceptKeepsEach(groups: seq<Group>, members: seq<Member>, events: seq<CanonicalEvent>, e: CanonicalEvent, size: nat)
    requires size >= 1 && EachOk(groups, members, events, size) && AllFound(groups, members) && !Found(groups, FingerprintOf(e, size))
    ensures var f := FingerprintOf(e, size);
            EachOk(groups + [Group(f, e.timestamp, e.timestamp, 1, e.id)], members + [Member(f, e.timestamp)], events + [e], size)
  {
    var f := FingerprintOf(e, size);
    var g, m := Group(f, e.timestamp, e.timestamp, 1, e.id), Member(f, e.timestamp);
    var after := groups + [g];
    forall x | x in members ensures x.fingerprint != f {
      assert Found(groups, x.fingerprint);
    }
    NewGroupOk(e, members, events, size);
    forall j | 0 <= j < |after| ensures GroupOk(after[j], members + [m], events + [e], size) {
      if j < |groups| {
        assert GroupOk(groups[j], members, events, size);
        GroupKept(groups[j], members, m, events, events + [e], size);
      }
    }
  }

  lemma AcceptKeepsFound(groups: seq<Group>, g: Group, members: seq<Member>, m: Member)
    requires AllFound(groups, members) && m.fingerprint == g.fingerprint
    ensures AllFound(groups + [g], members + [m])
  {
    var after := groups + [g];
    forall x | x in members + [m] ensures Found(after, x.fingerprint) {
      if x in members {
        assert Found(groups, x.fingerprint);
        StillFound(groups, after, x.fingerprint, FindGroup(groups, x.fingerprint));
      } else {
        StillFound(after, after, x.fingerprint, |groups|);
      }
    }
  }

  lemma PlainAcceptKeepsGroups(groups: seq<Group>, members: seq<Member>, events: seq<CanonicalEvent>, e: CanonicalEvent, size: nat)
    requires size >= 1 && GroupsOk(groups, members, events, size)
    ensures GroupsOk(groups, members, events + [e], size)
  {
    forall k | 0 <= k < |groups| ensures GroupOk(groups[k], members, events + [e], size) {
      assert GroupOk(groups[k], members, events, size);
      GroupStays(groups[k], members, events, events + [e], size);
    }
  }

  function CountResults(results: seq<Result>, kind: Result -> bool): nat {
    if results == [] then 0
    else CountResults(results[..|results| - 1], kind) + if kind(results[|results| - 1]) then 1 else 0
  }

  // ---------------------------------------------------------------- one record, on values

  /** What a pipeline is set up with: the known entities, the repeatable log codes and the bucket size. */
  datatype Setting = Setting(entities: set<string>, repeatable: set<string>, bucket: nat)

  /** The tables a record can change. */
  datatype Tables = Tables(events: seq<CanonicalEvent>, groups: seq<Group>, quarantined: seq<Reason>)

  /** The quarantine reason of a record that is not well formed, in the order of the tests. */
  function Rejection(entities: set<string>, x: Record): Option<Reason> {
    if !x.knownSource then Some(UnknownSource)
    else if x.labelled then Some(ForbiddenLabel)
    else if x.tooLarge then Some(PayloadTooLarge)
    else if x.adapted.None? then Some(ValidationError)
    else if x.adapted.value.entityId !in entities then Some(UnknownEntity)
    else None
  }

  /** Where the record's own event is stored, by source and source record id. */
  function StoredAt(events: seq<CanonicalEvent>, e: CanonicalEvent): (r: nat)
    ensures r <= |events|
    ensures r < |events| ==> e.sourceRecordId.Some? && events[r].source == e.source && events[r].sourceRecordId == e.sourceRecordId
    ensures r == |events| && e.sourceRecordId.Some? ==>
              forall k :: 0 <= k < |events| ==> !(events[k].source == e.source && events[k].sourceRecordId == e.sourceRecordId)
  {
    match e.sourceRecordId case None => |events| case Some(record) => FindBySource(events, e.source, record)
  }

  predicate IdTaken(events: seq<CanonicalEvent>, id: string) {
    exists k :: 0 <= k < |events| && events[k].id == id
  }

  /** The answer to a record, by the tables before it. */
  function AnswerTo(s: Setting, t: Tables, x: Record): Result
    requires s.bucket >= 1
  {
    var reason := Rejection(s.entities, x);
    if reason.Some? then Quarantined(reason.value)
    else
      var e := x.adapted.value;
      var k, g := StoredAt(t.events, e), FindGroup(t.groups, FingerprintOf(e, s.bucket));
      if k < |t.events| then Retried(t.events[k].id)
      else if Collapsible(e, s.repeatable) && g < |t.groups| then Collapsed(t.groups[g].representative)
      else if IdTaken(t.events, e.id) then DuplicateId
      else Accepted(e.id)
  }

  /** The tables after it. */
  function After(s: Setting, t: Tables, x: Record): Tables
    requires s.bucket >= 1
  {
    match AnswerTo(s, t, x)
    case Quarantined(reason) => t.(quarantined := t.quarantined + [reason])
    case Retried(_) => t
    case DuplicateId => t
    case Collapsed(_) =>
      var g := FindGroup(t.groups, FingerprintOf(x.adapted.value, s.bucket));
      t.(groups := t.groups[g := Incremented(t.groups[g], x.adapted.value.timestamp)])
    case Accepted(_) =>
      var e, f := x.adapted.value, FingerprintOf(x.adapted.value, s.bucket);
      t.(events := t.events + [e],
         groups := t.groups + if Collapsible(e, s.repeatable) then [Group(f, e.timestamp, e.timestamp, 1, e.id)] else [])
  }

  /** What an answer tells about the record and the tables before and after it. */
  ghost predicate Described(s: Setting, t: Tables, x: Record, r: Result, after: Tables)
    requires s.bucket >= 1
  {
    && (match r
        case Quarantined(reason) =>
          Rejection(s.entities, x) == Some(reason) && after == t.(quarantined := t.quarantined + [reason])
        case Retried(id) =>
          && Rejection(s.entities, x).None? && x.adapted.value.sourceRecordId.Some? && after == t
          && exists k :: 0 <= k < |t.events| && t.events[k].id == id && t.events[k].source == x.adapted.value.source
               && t.events[k].sourceRecordId == x.adapted.value.sourceRecordId
        case Collapsed(representative) =>
          && Rejection(s.entities, x).None? && Collapsible(x.adapted.value, s.repeatable)
          && var k := FindGroup(t.groups, FingerprintOf(x.adapted.value, s.bucket));
             && k < |t.groups| && t.groups[k].representative == representative
             && after == t.(groups := t.groups[k := Incremented(t.groups[k], x.adapted.value.timestamp)])
        case Accepted(id) =>
          && Rejection(s.entities, x).None? && id == x.adapted.value.id
          && (forall k :: 0 <= k < |t.events| ==> t.events[k].id != id)
          && after.events == t.events + [x.adapted.value] && after.quarantined == t.quarantined
          && var e, f := x.adapted.value, FingerprintOf(x.adapted.value, s.bucket);
             after.groups == t.groups + if Collapsible(e, s.repeatable) then [Group(f, e.timestamp, e.timestamp, 1, e.id)] else []
        case DuplicateId =>
          Rejection(s.entities, x).None? && after == t && IdTaken(t.events, x.adapted.value.id))
    && (r.Collapsed? <==>
          && Rejection(s.entities, x).None? && !r.Retried? && Collapsible(x.adapted.value, s.repeatable)
          && Found(t.groups, FingerprintOf(x.adapted.value, s.bucket)))
    && (r.Retried? <==>
          && Rejection(s.entities, x).None? && x.adapted.value.sourceRecordId.Some?
          && exists k :: 0 <= k < |t.events| && t.events[k].source == x.adapted.value.source
               && t.events[k].sourceRecordId == x.adapted.value.sourceRecordId)
  }

  /** Every record has one answer, and it tells that. */
  lemma AnswerDescribed(s: Setting, t: Tables, x: Record)
    requires s.bucket >= 1
    ensures Described(s, t, x, AnswerTo(s, t, x), After(s, t, x))
  {
    if Rejection(s.entities, x).None? {
      var k := StoredAt(t.events, x.adapted.value);
      assert k < |t.events| ==> t.events[k] in t.events;
    }
  }

  // ---------------------------------------------------------------- the pipeline

  class Pipeline {
    const entities: set<string>
    const repeatable: set<string>
    const bucket: nat
    var events: seq<CanonicalEvent>
    var groups: seq<Group>
    var quarantined: seq<Reason>
    ghost var members: seq<Member>
    ghost var accepted: nat
    ghost var collapsed: nat
    ghost var retried: nat
    ghost var total: nat

    /** Groups stand for their members; the members are the newly accepted collapsible records and the
        collapsed ones; every record had exactly one outcome. */
    ghost predicate Valid()
      reads this
    {
      && bucket >= 1 && EventsOk(events) && GroupsOk(groups, members, events, bucket)
      && |members| == CountCollapsible(events, repeatable) + collapsed
      && |events| == accepted && total == accepted + collapsed + retried + |quarantined|
    }

    ghost function Settings(): Setting {
      Setting(entities, repeatable, bucket)
    }

    ghost function State(): Tables
      reads this
    {
      Tables(events, groups, quarantined)
    }

    constructor (known: set<string>, codes: set<string>, seconds: nat)
      requires seconds >= 1
      ensures Valid() && events == [] && groups == [] && quarantined == []
      ensures Settings() == Setting(known, codes, seconds)
    {
      entities, repeatable, bucket := known, codes, seconds;
      events, groups, quarantined, members := [], [], [], [];
      accepted, collapsed, retried, total := 0, 0, 0, 0;
    }

    method Quarantine(reason: Reason) returns (r: Result)
      requires Valid()
      modifies this`quarantined, this`total
      ensures Valid() && r == Quarantined(reason) && quarantined == old(quarantined) + [reason] && total == old(total) + 1
    {
      quarantined, total := quarantined + [reason], total + 1;
      r := Quarantined(reason);
    }

    /** Ingest one record. Its outcome is one of: quarantined, answered as a retry with nothing changed,
        collapsed into the group of its fingerprint, accepted, or refused by the event table's primary
        key with nothing changed. */
    method Ingest(x: Record) returns (r: Result)
      requires Valid()
      modifies this
      ensures Valid()
      ensures r == AnswerTo(Settings(), old(State()), x) && State() == After(Settings(), old(State()), x)
      ensures Described(Settings(), old(State()), x, r, State())
      ensures collapsed == old(collapsed) + if r.Collapsed? then 1 else 0
    {
      AnswerDescribed(Settings(), State(), x);
      var reason := Rejection(entities, x);
      if reason.Some? {
        r := Quarantine(reason.value);
        return;
      }
      var e := x.adapted.value;
      if e.sourceRecordId.Some? {
        var k := FindBySource(events, e.source, e.sourceRecordId.value);
        if k < |events| {
          retried, total := retried + 1, total + 1;
          return Retried(events[k].id);
        }
      }
      var f := FingerprintOf(e, bucket);
      if Collapsible(e, repeatable) {
        var k := FindGroup(groups, f);
        if k < |groups| {
          r := Collapse(e, f, k);
          return;
        }
      }
      if IdTaken(events, e.id) {
        return DuplicateId;
      }
      r := Accept(e, f);
    }

    /** Count the record into the group of its fingerprint. */
    method Collapse(e: CanonicalEvent, f: Fingerprint, k: nat) returns (r: Result)
      requires Valid() && f == FingerprintOf(e, bucket) && k < |groups| && groups[k].fingerprint == f
      modifies this
      ensures Valid() && r == Collapsed(old(groups)[k].representative) && events == old(events) && quarantined == old(quarantined)
      ensures groups == old(groups)[k := Incremented(old(groups)[k], e.timestamp)] && collapsed == old(collapsed) + 1
    {
      CollapseKeepsGroups(groups, members, events, bucket, k, e.timestamp);
      r := Collapsed(groups[k].representative);
      groups := groups[k := Incremented(groups[k], e.timestamp)];
      members := members + [Member(f, e.timestamp)];
      collapsed, total := collapsed + 1, total + 1;
    }

    /** Store an accepted event, with its own group when it is collapsible. */
    method Accept(e: CanonicalEvent, f: Fingerprint) returns (r: Result)
      requires Valid() && f == FingerprintOf(e, bucket) && forall k :: 0 <= k < |events| ==> events[k].id != e.id
      requires e.sourceRecordId.Some? ==> FindBySource(events, e.source, e.sourceRecordId.value) == |events|
      requires Collapsible(e, repeatable) ==> !Found(groups, f)
      modifies this
      ensures Valid() && r == Accepted(e.id) && events == old(events) + [e] && quarantined == old(quarantined)
      ensures groups == old(groups) + if Collapsible(e, repeatable) then [Group(f, e.timestamp, e.timestamp, 1, e.id)] else []
      ensures collapsed == old(collapsed)
    {
      EventsAppend(events, e);
      if Collapsible(e, repeatable) {
        AcceptKeepsGroups(groups, members, events, e, bucket);
        groups := groups + [Group(f, e.timestamp, e.timestamp, 1, e.id)];
        members := members + [Member(f, e.timestamp)];
      } else {
        PlainAcceptKeepsGroups(groups, members, events, e, bucket);
      }
      assert (events + [e])[..|events|] == events;
      events := events + [e];
      accepted, total := accepted + 1, total + 1;
      r := Accepted(e.id);
    }

    /** Over any sequence of records: as many events are added as were accepted, as many reasons as were
        quarantined, and the group counts grow by the collapsed records and the accepted collapsible
        ones, so by nothing else. */
    method IngestAll(records: seq<Record>) returns (results: seq<Result>)
      requires Valid()
      modifies this
      ensures Valid() && |results| == |records|
      ensures old(events) <= events && |events| == |old(events)| + CountResults(results, (r: Result) => r.Accepted?)
      ensures old(quarantined) <= quarantined && |quarantined| == |old(quarantined)| + CountResults(results, (r: Result) => r.Quarantined?)
      ensures SumCounts(groups) == SumCounts(old(groups)) + CountResults(results, (r: Result) => r.Collapsed?)
                                   + CountCollapsible(events, repeatable) - CountCollapsible(old(events), repeatable)
    {
      results := [];
      for n := 0 to |records|
        invariant Valid() && |results| == n
        invariant old(events) <= events && |events| == |old(events)| + CountResults(results, (r: Result) => r.Accepted?)
        invariant old(quarantined) <= quarantined && |quarantined| == |old(quarantined)| + CountResults(results, (r: Result) => r.Quarantined?)
        invariant collapsed == old(collapsed) + CountResults(results, (r: Result) => r.Collapsed?)
      {
        var r := Ingest(records[n]);
        assert (results + [r])[..n] == results;
        results := results + [r];
      }
    }
  }
}
