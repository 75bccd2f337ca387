/** The detection service: it reads a baseline through the store, lets the detector fold one event
    in, writes the update back and flushes at the end of a batch. */
module DetectionService {
  import opened Common
  import opened Contracts
  import opened Ewma
  import opened EwmaDetector
  import opened EwmaStore
  import opened Sorting

  /** The constants of a deployment: profile aliases and thresholds, settings, the square root. */
  datatype Config = Config(aliases: map<string, string>, thresholds: map<string, real>, settings: Settings, root: real -> real)
  {
    function Canonical(signal: string): string {
      if signal in aliases then aliases[signal] else signal
    }

    predicate Considers(event: CanonicalEvent) {
      && event.modality.Metric? && event.signalName.Some? && event.signalValue.Some?
      && Canonical(event.signalName.value) in thresholds && thresholds[Canonical(event.signalName.value)] > 0.0
    }

    function KeyOf(event: CanonicalEvent): Key
      requires Considers(event)
    {
      (event.entityId, Canonical(event.signalName.value))
    }
  }

  // ---------------------------------------------------------------- the reference semantics

  /** What a process that never restarted and kept everything in one table would hold and report. */
  datatype Memory = Memory(table: map<Key, State>, findings: seq<(string, Finding)>)

  function Recall(table: map<Key, State>, key: Key): Option<State> {
    if key in table then Some(table[key]) else None
  }

  function Absorb(m: Memory, event: CanonicalEvent, config: Config): Memory {
    if !config.Considers(event) then m
    else
      var key := config.KeyOf(event);
      var prev := Recall(m.table, key);
      var x := event.signalValue.value;
      var found := Judge(prev, x, key.1, config.thresholds[key.1], config.settings, config.root);
      Memory(m.table[key := Observe(prev, x)], if found.Some? then m.findings + [(event.id, found.value)] else m.findings)
  }

  function AbsorbAll(m: Memory, events: seq<CanonicalEvent>, config: Config): Memory {
    if events == [] then m else Absorb(AbsorbAll(m, events[..|events| - 1], config), events[|events| - 1], config)
  }

  function AbsorbBatches(m: Memory, batches: seq<seq<CanonicalEvent>>, config: Config): Memory {
    if batches == [] then m
    else AbsorbAll(AbsorbBatches(m, batches[..|batches| - 1], config), SortBy(batches[|batches| - 1], EarlierEvent), config)
  }

  /** What one event leaves behind, told from the event and the constants: nothing unless it is a metric
      sample of a signal, under its canonical name, with a positive threshold; the first sample of a
      signal reports nothing, and a later one reports exactly as its baseline says. */
  lemma AbsorbReports(m: Memory, event: CanonicalEvent, config: Config)
    requires IsRoot(config.root)
    ensures event.modality != Metric || event.signalName == None || event.signalValue == None ==> Absorb(m, event, config) == m
    ensures event.modality == Metric && event.signalName.Some? && event.signalValue.Some? ==>
              var name, x := event.signalName.value, event.signalValue.value;
              var signal := if name in config.aliases then config.aliases[name] else name;
              if signal !in config.thresholds || config.thresholds[signal] <= 0.0 then Absorb(m, event, config) == m
              else if (event.entityId, signal) !in m.table then
                Absorb(m, event, config) == Memory(m.table[(event.entityId, signal) := State(x, 0.0, 1)], m.findings)
              else exists found :: Reports(m.table[(event.entityId, signal)], x, signal, config.thresholds[signal], config.settings, config.root, found)
                                   && Absorb(m, event, config).findings == m.findings + Labelled(event.id, found)
  {
    if config.Considers(event) && config.KeyOf(event) in m.table {
      var key, x := config.KeyOf(event), event.signalValue.value;
      JudgeReports(m.table[key], x, key.1, config.thresholds[key.1], config.settings, config.root);
      var found := Judge(Some(m.table[key]), x, key.1, config.thresholds[key.1], config.settings, config.root);
      assert Absorb(m, event, config).findings == m.findings + Labelled(event.id, found);
    }
  }

  function Labelled(id: string, found: Option<Finding>): seq<(string, Finding)> {
    match found
    case None => []
    case Some(f) => [(id, f)]
  }

  // ---------------------------------------------------------------- the service

  /** A store bound to `db`, or free to be bound to it, and loaded before anything is put into it. */
  ghost predicate Serves(store: Store, db: Database)
    reads store, store.bind
  {
    store.Coherent() && (store.dirty == {} || (store.bind == db && store.loaded))
  }

  /** The EWMA part of the detection context: the stored baseline of the event's canonical signal. */
  method BuildContext(event: CanonicalEvent, store: Store, db: Database, config: Config) returns (context: Context)
    requires Serves(store, db)
    modifies store
    ensures Serves(store, db) && store.View(db) == old(store.View(db))
    ensures fresh(context) && context.signalAliases == config.aliases && context.safetyThresholds == config.thresholds
    ensures context.updates == map[]
    ensures event.signalName.Some? ==>
              && store.bind == db && store.loaded
              && var signal := config.Canonical(event.signalName.value);
                 Lookup(context.ewmaState, StateKey(event.entityId, signal)) == Recall(old(store.View(db)), (event.entityId, signal))
  {
    var state: map<string, State> := map[];
    if event.signalName.Some? {
      var signal := config.Canonical(event.signalName.value);
      var stored := store.Get(event.entityId, signal, db);
      if stored.value.Some? {
        state := map[StateKey(event.entityId, signal) := stored.value.value];
      }
    }
    context := new Context(config.aliases, config.thresholds, state);
  }

  /** The detector wrote at most one update, under `key`; put it in the store. */
  method FlushUpdates(updates: map<string, (string, string, State)>, ghost key: string, store: Store, db: Database)
    requires updates.Keys <= {key} && Serves(store, db)
    requires updates != map[] ==> store.bind == db && store.loaded
    modifies store
    ensures Serves(store, db)
    ensures key !in updates ==> store.View(db) == old(store.View(db))
    ensures key in updates ==> store.View(db) == old(store.View(db))[(updates[key].0, updates[key].1) := updates[key].2]
  {
    var pending := updates.Keys;
    while pending != {}
      invariant pending <= updates.Keys && Serves(store, db)
      invariant updates != map[] ==> store.bind == db && store.loaded
      invariant key in pending || key !in updates ==> store.View(db) == old(store.View(db))
      invariant key in updates && key !in pending ==>
                  store.View(db) == old(store.View(db))[(updates[key].0, updates[key].1) := updates[key].2]
      decreases pending
    {
      var k :| k in pending;
      var (entityId, signal, next) := updates[k];
      var _ := store.Put(entityId, signal, next, db);
      pending := pending - {k};
    }
  }

  /** One event: build the context from the store, evaluate, put the updates back. */
  method ProcessEvent(event: CanonicalEvent, store: Store, db: Database, config: Config) returns (found: Option<Finding>)
    requires Serves(store, db)
    modifies store
    ensures Serves(store, db)
    ensures var m := Absorb(Memory(old(store.View(db)), []), event, config);
            && store.View(db) == m.table
            && m.findings == (if found.Some? then [(event.id, found.value)] else [])
  {
    var context := BuildContext(event, store, db, config);
    assert context.Considers(event) <==> config.Considers(event);
    found := Evaluate(event, context, config.settings, config.root);
    ghost var key := if config.Considers(event) then StateKey(event.entityId, config.KeyOf(event).1) else "";
    FlushUpdates(context.updates, key, store, db);
  }

  lemma AbsorbAppends(table: map<Key, State>, findings: seq<(string, Finding)>, event: CanonicalEvent, config: Config)
    ensures var m := Absorb(Memory(table, []), event, config);
            Absorb(Memory(table, findings), event, config) == Memory(m.table, findings + m.findings)
  {
  }

  /** A batch: events in (timestamp, id) order, then one flush. Afterwards the table itself holds
      what a single uninterrupted memory would hold. */
  method PublishBatch(events: seq<CanonicalEvent>, store: Store, db: Database, config: Config) returns (findings: seq<(string, Finding)>)
    requires Serves(store, db)
    modifies store, db
    ensures Serves(store, db) && store.dirty == {} && store.bind == db
    ensures var m := AbsorbAll(Memory(old(store.View(db)), []), SortBy(events, EarlierEvent), config);
            db.baselines == store.View(db) == m.table && findings == m.findings
  {
    var ordered := SortBy(events, EarlierEvent);
    findings := [];
    for i := 0 to |ordered|
      invariant Serves(store, db)
      invariant AbsorbAll(Memory(old(store.View(db)), []), ordered[..i], config) == Memory(store.View(db), findings)
    {
      AbsorbAppends(store.View(db), findings, ordered[i], config);
      assert ordered[..i + 1][..i] == ordered[..i];
      var found := ProcessEvent(ordered[i], store, db, config);
      if found.Some? {
        findings := findings + [(ordered[i].id, found.value)];
      }
    }
    assert ordered[..|ordered|] == ordered;
    var _ := store.Flush(db);
  }

  lemma AbsorbAllAppends(table: map<Key, State>, findings: seq<(string, Finding)>, events: seq<CanonicalEvent>, config: Config)
    ensures var m := AbsorbAll(Memory(table, []), events, config);
            AbsorbAll(Memory(table, findings), events, config) == Memory(m.table, findings + m.findings)
  {
    if events == [] {
    } else {
      var n := |events| - 1;
      AbsorbAllAppends(table, findings, events[..n], config);
      var past := AbsorbAll(Memory(table, []), events[..n], config);
      AbsorbAppends(past.table, past.findings, events[n], config);
      AbsorbAppends(past.table, findings + past.findings, events[n], config);
    }
  }

  /** Restart transparency: whichever batches are preceded by a restart (a new, empty store over the
      same table), the table and the anomalies are those of one uninterrupted memory. */
  method Replay(batches: seq<seq<CanonicalEvent>>, restarts: seq<bool>, db: Database, config: Config) returns (findings: seq<(string, Finding)>)
    requires |restarts| == |batches|
    modifies db
    ensures var m := AbsorbBatches(Memory(old(db.baselines), []), batches, config);
            db.baselines == m.table && findings == m.findings
  {
    var store := new Store();
    findings := [];
    for i := 0 to |batches|
      invariant fresh(store) && Serves(store, db) && store.dirty == {} && store.View(db) == db.baselines
      invariant AbsorbBatches(Memory(old(db.baselines), []), batches[..i], config) == Memory(db.baselines, findings)
    {
      if restarts[i] {
        store := new Store();
      }
      AbsorbAllAppends(db.baselines, findings, SortBy(batches[i], EarlierEvent), config);
      assert batches[..i + 1][..i] == batches[..i];
      var more := PublishBatch(batches[i], store, db, config);
      findings := findings + more;
    }
    assert batches[..|batches|] == batches;
  }

  // ---------------------------------------------------------------- what the rows mean

  /** The samples of one key, in the order absorbed. */
  function Samples(events: seq<CanonicalEvent>, key: Key, config: Config): seq<real> {
    if events == [] then []
    else
      var past := Samples(events[..|events| - 1], key, config);
      var e := events[|events| - 1];
      if config.Considers(e) && config.KeyOf(e) == key then past + [e.signalValue.value] else past
  }

  /** Starting from an empty table, the row of every key is the EWMA baseline of exactly that key's
      samples: proxies and canonical names share a row, and no other signal touches it. */
  lemma {:induction false} RowsAreBaselines(events: seq<CanonicalEvent>, key: Key, config: Config)
    ensures Recall(AbsorbAll(Memory(map[], []), events, config).table, key) == Baseline(Samples(events, key, config))
  {
    if events != [] {
      var n := |events| - 1;
      RowsAreBaselines(events[..n], key, config);
      var e := events[n];
      if config.Considers(e) && config.KeyOf(e) == key {
        var past := Samples(events[..n], key, config);
        assert (past + [e.signalValue.value])[..|past|] == past;
      }
    }
  }

  /** The stored row of a key is the weighted mean and variance of all its samples. */
  lemma RowsAreWeighted(events: seq<CanonicalEvent>, key: Key, config: Config)
    ensures var xs := Samples(events, key, config);
            var row := Recall(AbsorbAll(Memory(map[], []), events, config).table, key);
            row == if xs == [] then None else Some(State(Weighted(xs), Spread(xs, Weighted(xs)), |xs|))
  {
    RowsAreBaselines(events, key, config);
    if Samples(events, key, config) != [] {
      BaselineIsWeighted(Samples(events, key, config));
    }
  }
}
