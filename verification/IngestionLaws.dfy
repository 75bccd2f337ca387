/** How the pipeline answers a record, told from the record and the tables. */
module IngestionLaws {
  import opened Common
  import opened Contracts
  import opened Ingestion

  /** An absent signal name counts as an empty one. */
  function SignalText(e: CanonicalEvent): string {
    match e.signalName
    case None => ""
    case Some(name) => name
  }

  /** The record has an adapter that accepts it, no forbidden label, a tolerable size and a known entity. */
  ghost predicate WellFormed(s: Setting, x: Record) {
    x.knownSource && !x.labelled && !x.tooLarge && x.adapted.Some? && x.adapted.value.entityId in s.entities
  }

  /** The source has delivered the record before. */
  ghost predicate Delivered(t: Tables, e: CanonicalEvent) {
    e.sourceRecordId.Some? && exists d :: d in t.events && d.source == e.source && d.sourceRecordId == e.sourceRecordId
  }

  /** Records of this kind are counted in groups: alerts, and logs with a repeatable code. */
  ghost predicate Repeatable(s: Setting, e: CanonicalEvent) {
    e.modality == Alert || (e.modality == Log && e.eventType in s.repeatable)
  }

  /** The group counts records like this one: of its entity, modality, type and signal, in its time bucket. */
  ghost predicate CountsLike(s: Setting, g: Group, e: CanonicalEvent)
    requires s.bucket >= 1
  {
    && g.fingerprint.entity == e.entityId && g.fingerprint.modality == e.modality && g.fingerprint.eventType == e.eventType
    && g.fingerprint.signal == SignalText(e) && g.fingerprint.bucket == Bucket(e.timestamp, s.bucket)
  }

  ghost predicate Grouped(s: Setting, t: Tables, e: CanonicalEvent)
    requires s.bucket >= 1
  {
    exists g :: g in t.groups && CountsLike(s, g, e)
  }

  lemma CountsLikeExactly(s: Setting, g: Group, e: CanonicalEvent)
    requires s.bucket >= 1
    ensures g.fingerprint == FingerprintOf(e, s.bucket) <==> CountsLike(s, g, e)
  {
  }

  lemma GroupedExactly(s: Setting, t: Tables, e: CanonicalEvent)
    requires s.bucket >= 1
    ensures Found(t.groups, FingerprintOf(e, s.bucket)) <==> Grouped(s, t, e)
  {
    var k := FindGroup(t.groups, FingerprintOf(e, s.bucket));
    if k < |t.groups| {
      assert t.groups[k] in t.groups;
      CountsLikeExactly(s, t.groups[k], e);
    }
    if g :| g in t.groups && CountsLike(s, g, e) {
      CountsLikeExactly(s, g, e);
      var j :| 0 <= j < |t.groups| && t.groups[j] == g;
    }
  }

  lemma DeliveredExactly(t: Tables, e: CanonicalEvent)
    ensures StoredAt(t.events, e) < |t.events| <==> Delivered(t, e)
  {
    var k := StoredAt(t.events, e);
    if k < |t.events| {
      assert t.events[k] in t.events;
    }
    if Delivered(t, e) {
      var d :| d in t.events && d.source == e.source && d.sourceRecordId == e.sourceRecordId;
      var j :| 0 <= j < |t.events| && t.events[j] == d;
    }
  }

  lemma IdTakenExactly(t: Tables, id: string)
    ensures IdTaken(t.events, id) <==> exists d :: d in t.events && d.id == id
  {
    if IdTaken(t.events, id) {
      var k :| 0 <= k < |t.events| && t.events[k].id == id;
      assert t.events[k] in t.events;
    }
    if d :| d in t.events && d.id == id {
      var k :| 0 <= k < |t.events| && t.events[k] == d;
    }
  }

  /** The first thing wrong with a record is what it is quarantined for. */
  lemma QuarantinedExactly(s: Setting, t: Tables, x: Record)
    requires s.bucket >= 1
    ensures var r := AnswerTo(s, t, x);
            && (r == Quarantined(UnknownSource) <==> !x.knownSource)
            && (r == Quarantined(ForbiddenLabel) <==> x.knownSource && x.labelled)
            && (r == Quarantined(PayloadTooLarge) <==> x.knownSource && !x.labelled && x.tooLarge)
            && (r == Quarantined(ValidationError) <==> x.knownSource && !x.labelled && !x.tooLarge && x.adapted == None)
            && (r == Quarantined(UnknownEntity) <==>
                  x.knownSource && !x.labelled && !x.tooLarge && x.adapted.Some? && x.adapted.value.entityId !in s.entities)
            && (r.Quarantined? <==> !WellFormed(s, x))
  {
  }

  /** A well-formed record is answered as a retry when its source delivered it before, collapsed when it
      is repeatable and a group counts records like it, refused when another event has its id, and
      accepted otherwise. */
  lemma AnswersExactly(s: Setting, t: Tables, x: Record)
    requires s.bucket >= 1 && WellFormed(s, x)
    ensures var r, e := AnswerTo(s, t, x), x.adapted.value;
            && (r.Retried? <==> Delivered(t, e))
            && (r.Collapsed? <==> !Delivered(t, e) && Repeatable(s, e) && Grouped(s, t, e))
            && (r.DuplicateId? <==> !Delivered(t, e) && !(Repeatable(s, e) && Grouped(s, t, e)) && exists d :: d in t.events && d.id == e.id)
            && (r.Accepted? <==> !Delivered(t, e) && !(Repeatable(s, e) && Grouped(s, t, e)) && forall d :: d in t.events ==> d.id != e.id)
  {
    DeliveredExactly(t, x.adapted.value);
    GroupedExactly(s, t, x.adapted.value);
    IdTakenExactly(t, x.adapted.value.id);
  }

  /** An accepted repeatable record starts a group that counts it alone; a collapsed one is counted by its
      group, whose time bounds widen to take it in. */
  lemma CountsExactly(s: Setting, t: Tables, x: Record)
    requires s.bucket >= 1 && WellFormed(s, x)
    ensures var r, e, after := AnswerTo(s, t, x), x.adapted.value, After(s, t, x);
            r.Accepted? ==>
              && after.events == t.events + [e]
              && |after.groups| == |t.groups| + (if Repeatable(s, e) then 1 else 0) && after.groups[..|t.groups|] == t.groups
              && (Repeatable(s, e) ==>
                    var g := after.groups[|t.groups|];
                    CountsLike(s, g, e) && g.count == 1 && g.firstSeen == g.lastSeen == e.timestamp && g.representative == e.id)
    ensures var r, e, after := AnswerTo(s, t, x), x.adapted.value, After(s, t, x);
            r.Collapsed? ==>
              && after.events == t.events && |after.groups| == |t.groups|
              && exists k :: 0 <= k < |t.groups| && CountsLike(s, t.groups[k], e) && r.representative == t.groups[k].representative
                   && Widened(t.groups[k], after.groups[k], e.timestamp) && forall j :: 0 <= j < |t.groups| && j != k ==> after.groups[j] == t.groups[j]
  {
    var e := x.adapted.value;
    var k := FindGroup(t.groups, FingerprintOf(e, s.bucket));
    if k < |t.groups| {
      CountsLikeExactly(s, t.groups[k], e);
    }
  }

  /** The group counts one record more, seen at this time. */
  ghost predicate Widened(before: Group, after: Group, at: int) {
    && after.fingerprint == before.fingerprint && after.representative == before.representative && after.count == before.count + 1
    && after.firstSeen <= before.firstSeen && after.firstSeen <= at && after.firstSeen in {before.firstSeen, at}
    && after.lastSeen >= before.lastSeen && after.lastSeen >= at && after.lastSeen in {before.lastSeen, at}
  }
}
