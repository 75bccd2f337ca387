/** Records submitted again: which retries the ingestion pipeline notices, and concrete runs of it. */
module Resubmission {
  import opened Common
  import opened Contracts
  import opened Ingestion

  /** Submitting the record a second time will change nothing: it is well formed, and it is stored under
      its source record id, or it neither joins a group now nor opens one that it would join again. */
  predicate RepeatsIdly(s: Setting, t: Tables, x: Record)
    requires s.bucket >= 1
  {
    && Rejection(s.entities, x).None?
    && var e := x.adapted.value;
       || StoredAt(t.events, e) < |t.events|
       || !Collapsible(e, s.repeatable)
       || (!Found(t.groups, FingerprintOf(e, s.bucket)) && (e.sourceRecordId.Some? || IdTaken(t.events, e.id)))
  }

  lemma AppendedIsThere(events: seq<CanonicalEvent>, e: CanonicalEvent)
    ensures IdTaken(events + [e], e.id) && (e.sourceRecordId.Some? ==> StoredAt(events + [e], e) < |events + [e]|)
  {
    assert (events + [e])[|events|] == e;
  }

  lemma FoundAt(groups: seq<Group>, k: nat)
    requires k < |groups|
    ensures Found(groups, groups[k].fingerprint)
  {
  }

  /** Joining a group changes it. */
  lemma JoinedIsCounted(groups: seq<Group>, f: Fingerprint, t: int)
    requires Found(groups, f)
    ensures var k := FindGroup(groups, f);
            var after := groups[k := Incremented(groups[k], t)];
            after != groups && SumCounts(after) == SumCounts(groups) + 1 && Found(after, f)
  {
    var k := FindGroup(groups, f);
    var after := groups[k := Incremented(groups[k], t)];
    SumReplaced(groups, k, Incremented(groups[k], t));
    FoundAt(after, k);
  }

  /** A record changes nothing exactly when it is answered as a retry or as a duplicate id. */
  lemma AnsweredIdly(s: Setting, t: Tables, x: Record)
    requires s.bucket >= 1
    ensures After(s, t, x) == t <==> AnswerTo(s, t, x).Retried? || AnswerTo(s, t, x).DuplicateId?
  {
    var answer := AnswerTo(s, t, x);
    if answer.Collapsed? {
      JoinedIsCounted(t.groups, FingerprintOf(x.adapted.value, s.bucket), x.adapted.value.timestamp);
    } else if answer.Accepted? {
      assert |After(s, t, x).events| == |t.events| + 1;
    } else if answer.Quarantined? {
      assert |After(s, t, x).quarantined| == |t.quarantined| + 1;
    }
  }

  /** The same record twice in a row: the second submission leaves the tables as the first left them,
      exactly under that condition on the tables before both. */
  lemma TwiceIdleExactly(s: Setting, t: Tables, x: Record)
    requires s.bucket >= 1
    ensures var once := After(s, t, x);
            After(s, once, x) == once <==> RepeatsIdly(s, t, x)
  {
    AnsweredIdly(s, After(s, t, x), x);
    match AnswerTo(s, t, x)
    case Quarantined(_) =>
    case Retried(_) =>
    case DuplicateId =>
    case Collapsed(_) => CollapsedAgain(s, t, x);
    case Accepted(_) => AcceptedAgain(s, t, x);
  }

  /** A collapsed record is counted each time it comes. */
  lemma CollapsedAgain(s: Setting, t: Tables, x: Record)
    requires s.bucket >= 1 && AnswerTo(s, t, x).Collapsed?
    ensures AnswerTo(s, After(s, t, x), x).Collapsed?
    ensures SumCounts(After(s, After(s, t, x), x).groups) == SumCounts(t.groups) + 2
    ensures After(s, After(s, t, x), x) != After(s, t, x) && !RepeatsIdly(s, t, x)
  {
    var f, time := FingerprintOf(x.adapted.value, s.bucket), x.adapted.value.timestamp;
    JoinedIsCounted(t.groups, f, time);
    JoinedIsCounted(After(s, t, x).groups, f, time);
  }

  /** An accepted record is noticed again by its source record id, or by the primary key unless it would
      join the group it opened. */
  lemma AcceptedAgain(s: Setting, t: Tables, x: Record)
    requires s.bucket >= 1 && AnswerTo(s, t, x).Accepted?
    ensures var once := After(s, t, x);
            AnswerTo(s, once, x).Retried? || AnswerTo(s, once, x).DuplicateId?
            <==> x.adapted.value.sourceRecordId.Some? || !Collapsible(x.adapted.value, s.repeatable)
  {
    var e, once := x.adapted.value, After(s, t, x);
    AppendedIsThere(t.events, e);
    if Collapsible(e, s.repeatable) {
      FoundAt(once.groups, |t.groups|);
    }
  }

  /** The pipeline, given a record twice: the answers say whether the second one changed anything. */
  method IngestTwice(p: Pipeline, x: Record) returns (first: Result, second: Result)
    requires p.Valid()
    modifies p
    ensures p.Valid() && var s, t := p.Settings(), old(p.State());
            && p.State() == After(s, After(s, t, x), x)
            && (p.State() == After(s, t, x) <==> RepeatsIdly(s, t, x))
            && (second.Retried? || second.DuplicateId? <==> RepeatsIdly(s, t, x))
  {
    first := p.Ingest(x);
    second := p.Ingest(x);
    TwiceIdleExactly(p.Settings(), old(p.State()), x);
    AnsweredIdly(p.Settings(), After(p.Settings(), old(p.State()), x), x);
  }

  // ---------------------------------------------------------------- concrete runs

  /** An alert of one entity, under its own record id. */
  function AlertAt(record: string, t: int): Record {
    Record(true, false, false, Some(CanonicalEvent(record, t, "a", Alert, "ALERT", None, None, None, "gaia.run", Some(record), map[])))
  }

  const NOTHING := Tables([], [], [])

  function AlertSetting(seconds: nat): Setting {
    Setting({"a"}, {}, seconds)
  }

  /** Two alerts of one fingerprint, the second submitted twice: the group counts three. */
  lemma CountedTwice()
    ensures var s, x, y := AlertSetting(60), AlertAt("x", 0), AlertAt("y", 1);
            var one := After(s, NOTHING, x);
            var two := After(s, one, y);
            && AnswerTo(s, NOTHING, x) == Accepted("x") && AnswerTo(s, one, y) == AnswerTo(s, two, y) == Collapsed("x")
            && After(s, two, y).groups[0].count == 3
  {
    var s, x, y := AlertSetting(60), AlertAt("x", 0), AlertAt("y", 1);
    assert "x"[0] != "y"[0];
    var one := After(s, NOTHING, x);
    var f := FingerprintOf(x.adapted.value, 60);
    assert FingerprintOf(y.adapted.value, 60) == f;
    assert one.groups == [Group(f, 0, 0, 1, "x")] && one.events == [x.adapted.value];
  }

  /** Alerts half a second before 1970 and just under one bucket after it share a group, which so spans
      more than a bucket. */
  lemma IngestedWide(seconds: nat)
    requires seconds >= 1
    ensures var s, x, y := AlertSetting(seconds), AlertAt("x", -SECOND / 2), AlertAt("y", seconds * SECOND - 1);
            var two := After(s, After(s, NOTHING, x), y);
            |two.groups| == 1 && two.groups[0].lastSeen - two.groups[0].firstSeen > seconds * SECOND
  {
    var s, x, y := AlertSetting(seconds), AlertAt("x", -SECOND / 2), AlertAt("y", seconds * SECOND - 1);
    assert "x"[0] != "y"[0];
    WideGroup(x.adapted.value, seconds);
    var f := FingerprintOf(x.adapted.value, seconds);
    assert FingerprintOf(y.adapted.value, seconds) == f;
    var one := After(s, NOTHING, x);
    assert one.groups == [Group(f, -SECOND / 2, -SECOND / 2, 1, "x")] && one.events == [x.adapted.value];
  }
}
