/** The write-through store of EWMA baselines: a cache over one database table, with the keys written
    since the last flush. */
module EwmaStore {
  import opened Common
  import opened Contracts
  import opened Ewma
  import opened EwmaDetector
  import opened Sorting

  type Key = (string, string)

  datatype StoreError = UnflushedSwitch

  /** The entries of some keys. */
  function Entries(cache: map<Key, State>, keys: set<Key>): map<Key, State> {
    map k | k in cache && k in keys :: cache[k]
  }

  lemma PutUnder(cache: map<Key, State>, rows: map<Key, State>, k: Key, v: State)
    ensures cache[k := v] + rows == if k in rows then cache + rows else (cache + rows)[k := v]
  {
  }

  lemma PutPending(cache: map<Key, State>, keys: set<Key>, k: Key, v: State)
    requires keys <= cache.Keys
    ensures Entries(cache[k := v], keys + {k}) == Entries(cache, keys)[k := v]
  {
  }

  lemma OneMoreEntry(rows: map<Key, State>, cache: map<Key, State>, keys: set<Key>, k: Key)
    requires k in cache
    ensures rows + Entries(cache, keys + {k}) == (rows + Entries(cache, keys))[k := cache[k]]
  {
  }

  lemma NoEntries(rows: map<Key, State>, cache: map<Key, State>)
    ensures rows + Entries(cache, {}) == rows
  {
    assert Entries(cache, {}) == map[];
  }

  /** After writing the dirty entries, over a table that agrees with the rest, cache and table agree. */
  lemma WrittenAgree(rows: map<Key, State>, cache: map<Key, State>, keys: set<Key>)
    requires keys <= cache.Keys && forall k :: k in cache && k !in keys ==> k in rows && rows[k] == cache[k]
    ensures var after := rows + Entries(cache, keys);
            && (forall k :: k in cache ==> k in after && after[k] == cache[k])
            && cache + after == after && (rows.Keys <= cache.Keys ==> after == cache)
            && (keys == {} ==> after == rows && cache + rows == rows)
  {
    NoEntries(rows, cache);
  }

  /** The baseline table of one database; object identity stands for the session's bind. */
  class Database {
    var baselines: map<Key, State>

    constructor ()
      ensures baselines == map[]
    {
      baselines := map[];
    }
  }

  class Store {
    var cache: map<Key, State>
    var dirty: set<Key>
    var loaded: bool
    var bind: Database?

    constructor ()
      ensures Pristine()
    {
      cache, dirty, loaded, bind := map[], {}, false, null;
    }

    ghost predicate Pristine()
      reads this
    {
      cache == map[] && dirty == {} && !loaded && bind == null
    }

    /** What the write-through discipline keeps: every cached entry that is not dirty equals its row, and
        a loaded store caches every row. */
    ghost predicate Coherent()
      reads this, bind
    {
      && dirty <= cache.Keys && (bind == null ==> cache == map[] && !loaded)
      && (bind != null ==> forall k :: k in cache && k !in dirty ==> k in bind.baselines && bind.baselines[k] == cache[k])
      && (loaded ==> bind.baselines.Keys <= cache.Keys)
    }

    /** The baselines a read against `db` is answered from: loading puts the rows over what is cached. */
    ghost function View(db: Database): map<Key, State>
      reads this, db
    {
      if bind != db then db.baselines else if loaded then cache else cache + db.baselines
    }

    /** The dirty entries, which a flush writes. */
    ghost function Pending(): map<Key, State>
      reads this
    {
      Entries(cache, dirty)
    }

    method PrepareBind(db: Database) returns (r: Outcome<(), StoreError>)
      requires Coherent()
      modifies this
      ensures Coherent() && cache.Keys <= old(cache.Keys) && dirty == old(dirty)
      ensures r.Ok? <==> old(bind) == db || old(dirty) == {}
      ensures r.Raised? ==> cache == old(cache) && loaded == old(loaded) && bind == old(bind)
      ensures r.Ok? ==> bind == db && View(db) == old(View(db))
      ensures r.Ok? && old(bind) == db ==> cache == old(cache) && loaded == old(loaded)
      ensures r.Ok? && old(bind) != db ==> cache == map[] && !loaded
    {
      if bind == db {
        return Ok(());
      }
      if dirty != {} {
        return Raised(UnflushedSwitch);
      }
      cache, loaded, bind := map[], false, db;
      return Ok(());
    }

    /** A read sees the latest value put or loaded, whatever has been flushed. */
    method Get(entityId: string, signal: string, db: Database) returns (r: Outcome<Option<State>, StoreError>)
      requires Coherent()
      modifies this
      ensures Coherent() && dirty == old(dirty)
      ensures r.Ok? <==> old(bind) == db || old(dirty) == {}
      ensures r.Ok? ==> bind == db && loaded && View(db) == old(View(db))
      ensures r.Ok? ==> r.value == if (entityId, signal) in old(View(db)) then Some(old(View(db))[(entityId, signal)]) else None
      ensures r.Raised? ==> cache == old(cache) && loaded == old(loaded) && bind == old(bind)
    {
      var prepared := PrepareBind(db);
      if prepared.Raised? {
        return Raised(prepared.error);
      }
      if !loaded {
        cache := cache + db.baselines;
        loaded := true;
      }
      return Ok(if (entityId, signal) in cache then Some(cache[(entityId, signal)]) else None);
    }

    /** A write lands in the cache and is marked for the next flush. Reads see it, unless the store is
        not loaded and the table already has a row for the key: loading then brings the row back. The
        service always reads a key before writing it, so its store is loaded. */
    method Put(entityId: string, signal: string, state: State, db: Database) returns (r: Outcome<(), StoreError>)
      requires Coherent()
      modifies this
      ensures Coherent()
      ensures r.Ok? <==> old(bind) == db || old(dirty) == {}
      ensures r.Ok? ==> bind == db && loaded == (old(bind) == db && old(loaded))
      ensures r.Ok? ==> Pending() == old(Pending())[(entityId, signal) := state] && dirty == old(dirty) + {(entityId, signal)}
      ensures r.Ok? ==> View(db) == if !loaded && (entityId, signal) in db.baselines then old(View(db)) else old(View(db))[(entityId, signal) := state]
      ensures r.Raised? ==> cache == old(cache) && dirty == old(dirty) && loaded == old(loaded) && bind == old(bind)
    {
      var prepared := PrepareBind(db);
      if prepared.Raised? {
        return Raised(prepared.error);
      }
      PutUnder(cache, db.baselines, (entityId, signal), state);
      PutPending(cache, dirty, (entityId, signal), state);
      cache := cache[(entityId, signal) := state];
      dirty := dirty + {(entityId, signal)};
      return Ok(());
    }

    /** Flushing writes exactly the dirty entries; afterwards reads and table agree. On a loaded store, or
        with nothing dirty, the table becomes what reads saw. */
    method Flush(db: Database) returns (r: Outcome<nat, StoreError>)
      requires Coherent()
      modifies this, db
      ensures Coherent()
      ensures r.Ok? <==> old(bind) == db || old(dirty) == {}
      ensures r.Ok? ==> bind == db && dirty == {} && r.value == |old(dirty)|
      ensures r.Ok? ==> db.baselines == old(db.baselines) + old(Pending()) && View(db) == db.baselines
      ensures r.Ok? && (loaded || old(dirty) == {}) ==> db.baselines == old(View(db))
      ensures r.Ok? && old(bind) == db ==> loaded == old(loaded)
      ensures r.Raised? ==> db.baselines == old(db.baselines) && cache == old(cache) && dirty == old(dirty) && loaded == old(loaded) && bind == old(bind)
    {
      var prepared := PrepareBind(db);
      if prepared.Raised? {
        return Raised(prepared.error);
      }
      label Flushing:
      var snapshot := dirty;
      ghost var before := db.baselines;
      dirty := {};
      NoEntries(before, cache);
      WrittenAgree(before, cache, snapshot);
      var pending := snapshot;
      assert snapshot - pending == {};
      var written := 0;
      while pending != {}
        invariant pending <= snapshot && dirty == {} && bind == db
        invariant cache == old@Flushing(cache) && loaded == old@Flushing(loaded)
        invariant snapshot <= cache.Keys && db.baselines == before + Entries(cache, snapshot - pending)
        invariant written == |snapshot| - |pending|
        decreases pending
      {
        var key :| key in pending;
        OneMoreEntry(before, cache, snapshot - pending, key);
        assert snapshot - (pending - {key}) == (snapshot - pending) + {key};
        pending := pending - {key};
        if key in cache {
          db.baselines := db.baselines[key := cache[key]];
          written := written + 1;
        }
      }
      assert snapshot - pending == snapshot;
      return Ok(written);
    }

    /** Forget everything: the store of a process that has just started. */
    method Reset()
      modifies this
      ensures Pristine() && Coherent()
    {
      cache, dirty, loaded, bind := map[], {}, false, null;
    }
  }

  /** A baseline put into a new store over a table that has a row for its key: the next read is the row,
      and so is the table after the flush that follows it. */
  method PutLost(key: Key, row: State, put: State) returns (seen: Option<State>, stored: State)
    ensures seen == Some(row) && stored == row
  {
    var db := new Database();
    db.baselines := map[key := row];
    var store := new Store();
    var _ := store.Put(key.0, key.1, put, db);
    var read := store.Get(key.0, key.1, db);
    var _ := store.Flush(db);
    seen, stored := read.value, db.baselines[key];
  }
}
