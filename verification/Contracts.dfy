/** The canonical records that cross module boundaries. Timestamps are whole microseconds since the
    epoch, the resolution of the source's datetimes. Payload entries are kept as strings. */
module Contracts {
  import opened Common
  import opened Sorting

  datatype Modality = Metric | Log | Alert | ConfigChange | Trace

  datatype PayloadValue = Text(text: string) | Flag(flag: bool)

  datatype CanonicalEvent = CanonicalEvent(
    id: string,
    timestamp: int,
    entityId: string,
    modality: Modality,
    eventType: string,
    signalName: Option<string>,
    signalValue: Option<real>,
    traceId: Option<string>,
    source: string,
    sourceRecordId: Option<string>,
    payload: map<string, PayloadValue>)

  datatype AnomalyRecord = AnomalyRecord(
    id: string,
    eventId: string,
    anomalyType: string,
    score: real,
    contextOnly: bool,
    canOpenIncident: bool)

  function Stamp(e: CanonicalEvent): (int, string) {
    (e.timestamp, e.id)
  }

  /** Ids identify events: the primary key of the event table. */
  ghost predicate IdsIdentify(events: seq<CanonicalEvent>) {
    forall i, j :: 0 <= i < |events| && 0 <= j < |events| && events[i].id == events[j].id ==> events[i] == events[j]
  }

  predicate EarlierEvent(a: CanonicalEvent, b: CanonicalEvent) {
    StampLess(Stamp(a), Stamp(b))
  }

  /** By time, and then by id, `e` is not after `d`. */
  ghost predicate NoLater(e: CanonicalEvent, d: CanonicalEvent) {
    e.timestamp < d.timestamp || (e.timestamp == d.timestamp && !StringLess(d.id, e.id))
  }

  /** Sorted events do not go back in time. */
  lemma SortedInTime(sorted: seq<CanonicalEvent>, m: nat, n: nat)
    requires Ordered(sorted, EarlierEvent) && m <= n < |sorted|
    ensures NoLater(sorted[m], sorted[n])
  {
    if m < n {
      OrderedPairs(sorted, EarlierEvent, m, n);
    } else {
      StringLessTrichotomy(sorted[m].id, sorted[m].id);
    }
  }
}
