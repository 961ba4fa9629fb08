/** The write-back click cache of src/CookieTracker.cs, modelled sequentially.

    The cache is the `UnbakedCookies` dictionary, a map from cookie id to
    cache entry; the store is the cookies table as a map from id to count; the
    clock is an explicit `now`. One flush tick of `StartBakingAsync` is a pure
    step from (cache, store) to (cache, store, issued statements). */
module CookieTracker {
  import opened Wrappers
  import opened Cookies
  import opened CookieStore
  import Dictionary

  type Cache = map<Ulid, CachedCookie>

  datatype TrackerError =
    | DuplicateCookie(id: Ulid)  // Dictionary.Add on a resident id
    | CookieNotFound(id: Ulid)   // the ArgumentException of a miss with no row

  /** Every cache key is the id of the cookie its entry holds. */
  predicate KeysMatch(cache: Cache) {
    forall k :: k in cache ==> cache[k].cookie.id == k
  }

  /** The saved flag of every resident entry says whether the store has a row
      for it: the flag is what chooses UPDATE over INSERT on flush. */
  predicate Consistent(cache: Cache, store: Store) {
    forall k :: k in cache ==> (cache[k].isSaved <==> k in store)
  }

  predicate Valid(cache: Cache, store: Store) {
    KeysMatch(cache) && Consistent(cache, store)
  }

  /** `CreateCookie`: add an unsaved entry touched now; a resident id throws. */
  function CreateCookie(cache: Cache, cookie: Cookie, now: Instant): (r: Result<Cache, TrackerError>)
    ensures r.Success? <==> cookie.id !in cache
    ensures r.Failure? ==> r.error == DuplicateCookie(cookie.id)
    ensures r.Success? ==> r.value.Keys == cache.Keys + {cookie.id}
    ensures r.Success? ==> forall k :: k in cache ==> r.value[k] == cache[k]
    ensures r.Success? ==> var e := r.value[cookie.id];
                           e.cookie == cookie && !e.isSaved && e.lastModified == now
  {
    match Dictionary.Add(cache, cookie.id, NewCachedCookie(cookie, false, now))
    case Success(c) => Success(c)
    case Failure(_) => Failure(DuplicateCookie(cookie.id))
  }

  /** `Click`: a resident entry is clicked in place; on a miss the row is
      loaded from the store into a saved entry, which is then clicked; a miss
      with no row throws. Returns the new cache and the new count. */
  function Click(cache: Cache, store: Store, id: Ulid, now: Instant): (r: Result<(Cache, nat), TrackerError>)
    ensures r.Failure? <==> id !in cache && id !in store
    ensures r.Failure? ==> r.error == CookieNotFound(id)
    ensures r.Success? ==> r.value.0.Keys == cache.Keys + {id}
    ensures r.Success? ==> forall k :: k in cache && k != id ==> r.value.0[k] == cache[k]
    ensures r.Success? ==> var e := r.value.0[id];
                           && e.lastModified == now
                           && r.value.1 == e.cookie.clicks
    ensures r.Success? && id in cache ==>
              && r.value.1 == cache[id].cookie.clicks + 1
              && r.value.0[id].isSaved == cache[id].isSaved
              && r.value.0[id].cookie.id == cache[id].cookie.id
    ensures r.Success? && id !in cache ==>
              && r.value.1 == store[id] + 1
              && r.value.0[id].isSaved
              && r.value.0[id].cookie.id == id
  {
    if id in cache then
      var (clicked, count) := Cookies.Click(cache[id], now);
      Success((cache[id := clicked], count))
    else if id !in store then
      Failure(CookieNotFound(id))
    else
      var loaded := NewCachedCookie(Cookie(id, store[id]), true, now);
      var (clicked, count) := Cookies.Click(loaded, now);
      Success((cache[id := clicked], count))
  }

  /** The entries, keys and batches left after the removal loop of one tick. */
  datatype Drained = Drained(live: Cache, updates: Batch, inserts: Batch)

  function Prepend(b: Batch, e: CachedCookie): Batch {
    Batch([e.cookie.id] + b.ids, [e.cookie.clicks] + b.counts)
  }

  /** The removal loop of one tick, over the snapshot in order: skip an entry
      that is not expired; otherwise remove its id from the live map, prefer
      the removed live entry over the snapshot copy, and append it to the
      UPDATE batch when it was saved before and to the INSERT batch when not. */
  function Drain(live: Cache, snapshot: seq<CachedCookie>, now: Instant): (d: Drained)
    ensures d.updates.Aligned() && d.inserts.Aligned()
    ensures d.live.Keys <= live.Keys
    ensures forall k :: k in d.live ==> d.live[k] == live[k]
    decreases |snapshot|
  {
    if snapshot == [] then Drained(live, EmptyBatch, EmptyBatch)
    else
      var e := snapshot[0];
      if !Expired(e, now) then Drain(live, snapshot[1..], now)
      else
        var id := e.cookie.id;
        var removed := if id in live then live[id] else e;
        var rest := Drain(live - {id}, snapshot[1..], now);
        if removed.isSaved then rest.(updates := Prepend(rest.updates, removed))
        else rest.(inserts := Prepend(rest.inserts, removed))
  }

  /** The ids of the expired entries of a snapshot. */
  function ExpiredIds(snapshot: seq<CachedCookie>, now: Instant): set<Ulid> {
    set i | 0 <= i < |snapshot| && Expired(snapshot[i], now) :: snapshot[i].cookie.id
  }

  /** The snapshot is a copy of live entries, one per id. */
  predicate CopiesOf(snapshot: seq<CachedCookie>, live: Cache) {
    && (forall i :: 0 <= i < |snapshot| ==>
          snapshot[i].cookie.id in live && live[snapshot[i].cookie.id] == snapshot[i])
    && (forall i, j :: 0 <= i < j < |snapshot| ==> snapshot[i].cookie.id != snapshot[j].cookie.id)
  }

  /** A batch lists distinct live entries with the given saved flag, each with
      its live count. */
  predicate BatchOf(b: Batch, live: Cache, saved: bool) {
    && b.Aligned()
    && b.DistinctIds()
    && forall i :: 0 <= i < |b.ids| ==>
         && b.ids[i] in live
         && live[b.ids[i]].isSaved == saved
         && b.counts[i] == live[b.ids[i]].cookie.clicks
  }

  /** On a snapshot of the live map the removal loop removes exactly the
      expired entries, keeps every other entry, and splits the removed ones by
      their saved flag into two disjoint, index-aligned batches whose union is
      the removed set. */
  lemma {:induction false} DrainSplitsExpired(live: Cache, snapshot: seq<CachedCookie>, now: Instant)
    requires KeysMatch(live)
    requires CopiesOf(snapshot, live)
    ensures var d := Drain(live, snapshot, now);
            && d.live.Keys == live.Keys - ExpiredIds(snapshot, now)
            && d.updates.IdSet() + d.inserts.IdSet() == ExpiredIds(snapshot, now)
            && d.updates.IdSet() !! d.inserts.IdSet()
            && BatchOf(d.updates, live, true)
            && BatchOf(d.inserts, live, false)
    decreases |snapshot|
  {
    if snapshot == [] {
      assert ExpiredIds(snapshot, now) == {};
    } else {
      var e := snapshot[0];
      var tail := snapshot[1..];
      var id := e.cookie.id;
      ExpiredIdsOfTail(live, snapshot, now);
      if !Expired(e, now) {
        assert CopiesOf(tail, live) by {
          forall i | 0 <= i < |tail| ensures tail[i] == snapshot[i + 1] { }
        }
        DrainSplitsExpired(live, tail, now);
      } else {
        var live' := live - {id};
        assert CopiesOf(tail, live') by {
          forall i | 0 <= i < |tail|
            ensures tail[i] == snapshot[i + 1] && tail[i].cookie.id != id
          {
          }
        }
        DrainSplitsExpired(live', tail, now);
        var rest := Drain(live', tail, now);
        var removed := live[id];
        assert removed == e;
        if removed.isSaved {
          PrependKeepsBatch(rest.updates, live', live, removed, true);
        } else {
          PrependKeepsBatch(rest.inserts, live', live, removed, false);
        }
        assert BatchOf(rest.inserts, live, false) by { BatchGrows(rest.inserts, live', live, false); }
        assert BatchOf(rest.updates, live, true) by { BatchGrows(rest.updates, live', live, true); }
      }
    }
  }

  /** The expired ids of a snapshot are those of its tail plus the first
      entry's id when it is expired; that id is not among the tail's. */
  lemma ExpiredIdsOfTail(live: Cache, snapshot: seq<CachedCookie>, now: Instant)
    requires CopiesOf(snapshot, live) && snapshot != []
    ensures var e := snapshot[0];
            var tail := snapshot[1..];
            && ExpiredIds(snapshot, now) == (if Expired(e, now) then {e.cookie.id} else {}) + ExpiredIds(tail, now)
            && e.cookie.id !in ExpiredIds(tail, now)
  {
    var e := snapshot[0];
    var tail := snapshot[1..];
    var id := e.cookie.id;
    forall k | k in ExpiredIds(snapshot, now)
      ensures k in (if Expired(e, now) then {id} else {}) + ExpiredIds(tail, now)
    {
      var i :| 0 <= i < |snapshot| && Expired(snapshot[i], now) && snapshot[i].cookie.id == k;
      if i > 0 { assert tail[i - 1] == snapshot[i]; }
    }
    forall k | k in ExpiredIds(tail, now) ensures k in ExpiredIds(snapshot, now) {
      var i :| 0 <= i < |tail| && Expired(tail[i], now) && tail[i].cookie.id == k;
      assert snapshot[i + 1] == tail[i];
    }
    forall i | 0 <= i < |tail| ensures tail[i].cookie.id != id {
      assert tail[i] == snapshot[i + 1];
    }
  }

  /** A batch of entries of a sub-map is a batch of the larger map. */
  lemma BatchGrows(b: Batch, small: Cache, big: Cache, saved: bool)
    requires BatchOf(b, small, saved)
    requires forall k :: k in small ==> k in big && big[k] == small[k]
    ensures BatchOf(b, big, saved)
  {
  }

  /** Prepending a removed entry whose id is not in the smaller map keeps a
      batch well formed. */
  lemma PrependKeepsBatch(b: Batch, small: Cache, big: Cache, e: CachedCookie, saved: bool)
    requires BatchOf(b, small, saved)
    requires small == big - {e.cookie.id}
    requires e.cookie.id in big && big[e.cookie.id] == e && e.isSaved == saved
    ensures BatchOf(Prepend(b, e), big, saved)
    ensures Prepend(b, e).IdSet() == {e.cookie.id} + b.IdSet()
  {
    var p := Prepend(b, e);
    assert forall i :: 1 <= i < |p.ids| ==> p.ids[i] == b.ids[i - 1] && p.counts[i] == b.counts[i - 1];
    assert p.IdSet() == {e.cookie.id} + b.IdSet() by {
      forall k | k in p.IdSet() ensures k in {e.cookie.id} + b.IdSet() {
        var i :| 0 <= i < |p.ids| && p.ids[i] == k;
        if i > 0 { assert b.ids[i - 1] == k; } else { assert k == e.cookie.id; }
      }
      assert p.ids[0] == e.cookie.id;
      forall k | k in b.IdSet() ensures k in p.IdSet() {
        var i :| 0 <= i < |b.ids| && b.ids[i] == k;
        assert p.ids[i + 1] == k;
      }
    }
  }

  /** A statement sent to the store by one tick. */
  datatype StoreCommand = UpdateCommand(batch: Batch) | InsertCommand(batch: Batch)

  /** The state after one tick. `faulted` records that a statement threw; the
      source's loop exits on it. */
  datatype TickResult = TickResult(cache: Cache, store: Store, commands: seq<StoreCommand>, faulted: bool)

  /** `order` lists every cache key exactly once: the enumeration order of
      the dictionary, which the model leaves open. */
  predicate EnumeratesKeys(order: seq<Ulid>, cache: Cache) {
    && (forall i :: 0 <= i < |order| ==> order[i] in cache)
    && (forall k :: k in cache ==> k in order)
    && (forall i, j :: 0 <= i < j < |order| ==> order[i] != order[j])
  }

  /** `UnbakedCookies.Values.ToArray()` in the given enumeration order. */
  function Snapshot(cache: Cache, order: seq<Ulid>): (s: seq<CachedCookie>)
    requires forall i :: 0 <= i < |order| ==> order[i] in cache
    ensures |s| == |order| && forall i :: 0 <= i < |s| ==> s[i] == cache[order[i]]
  {
    seq(|order|, i requires 0 <= i < |order| => cache[order[i]])
  }

  /** The store half of a tick: skip the store when both batches are empty,
      otherwise run the UPDATE batch (if not empty) and then the INSERT batch
      (if not empty). */
  function Commit(live: Cache, store: Store, updates: Batch, inserts: Batch): (t: TickResult)
    requires updates.Aligned() && inserts.Aligned()
    ensures t.cache == live
  {
    if updates.IsEmpty() && inserts.IsEmpty() then
      TickResult(live, store, [], false)
    else
      var updateCommands := if updates.IsEmpty() then [] else [UpdateCommand(updates)];
      var updated := if updates.IsEmpty() then store else ApplyUpdate(store, updates);
      if inserts.IsEmpty() then
        TickResult(live, updated, updateCommands, false)
      else
        match ApplyInsert(updated, inserts)
        case Success(inserted) => TickResult(live, inserted, updateCommands + [InsertCommand(inserts)], false)
        case Failure(_) => TickResult(live, updated, updateCommands + [InsertCommand(inserts)], true)
  }

  /** Commit issues an UPDATE exactly when the UPDATE batch is not empty and
      an INSERT exactly when the INSERT batch is not empty, the UPDATE first. */
  lemma CommitCommands(live: Cache, store: Store, updates: Batch, inserts: Batch)
    requires updates.Aligned() && inserts.Aligned()
    ensures Commit(live, store, updates, inserts).commands ==
            (if updates.IsEmpty() then [] else [UpdateCommand(updates)]) +
            (if inserts.IsEmpty() then [] else [InsertCommand(inserts)])
  {
  }

  /** With the UPDATE ids all present in the store, the INSERT ids all absent
      and each batch free of repeats, Commit does not fault and leaves every
      listed id with its listed count and every other row unchanged. */
  lemma CommitWrites(live: Cache, store: Store, updates: Batch, inserts: Batch)
    requires updates.Aligned() && inserts.Aligned()
    requires updates.DistinctIds() && inserts.DistinctIds()
    requires updates.IdSet() <= store.Keys && inserts.IdSet() !! store.Keys
    ensures var t := Commit(live, store, updates, inserts);
            && !t.faulted
            && t.store.Keys == store.Keys + inserts.IdSet()
            && (forall i :: 0 <= i < |updates.ids| ==> t.store[updates.ids[i]] == updates.counts[i])
            && (forall i :: 0 <= i < |inserts.ids| ==> t.store[inserts.ids[i]] == inserts.counts[i])
            && (forall k :: k in store && k !in updates.IdSet() ==> t.store[k] == store[k])
  {
    var updated := if updates.IsEmpty() then store else ApplyUpdate(store, updates);
    assert forall i :: 0 <= i < |updates.ids| ==> updated[updates.ids[i]] == updates.counts[i];
    if !inserts.IsEmpty() {
      assert ApplyInsert(updated, inserts).Success?;
    }
  }

  /** One pass of the baking loop at time `now`: snapshot, remove the expired
      entries, then commit the two batches. */
  function FlushTick(cache: Cache, store: Store, order: seq<Ulid>, now: Instant): (t: TickResult)
    requires EnumeratesKeys(order, cache)
    ensures t.cache.Keys <= cache.Keys
    ensures forall k :: k in t.cache ==> t.cache[k] == cache[k]
  {
    var d := Drain(cache, Snapshot(cache, order), now);
    Commit(d.live, store, d.updates, d.inserts)
  }

  /** The ids of the resident entries that are expired at `now`. */
  function Quiescent(cache: Cache, now: Instant): set<Ulid> {
    set k | k in cache && Expired(cache[k], now)
  }

  lemma SnapshotExpiredIds(cache: Cache, order: seq<Ulid>, now: Instant)
    requires KeysMatch(cache)
    requires EnumeratesKeys(order, cache)
    ensures CopiesOf(Snapshot(cache, order), cache)
    ensures ExpiredIds(Snapshot(cache, order), now) == Quiescent(cache, now)
  {
    var s := Snapshot(cache, order);
    forall k | k in Quiescent(cache, now) ensures k in ExpiredIds(s, now) {
      var i :| 0 <= i < |order| && order[i] == k;
      assert s[i] == cache[k];
    }
  }

  /** The quiescent entries with the given saved flag. */
  function QuiescentWith(cache: Cache, now: Instant, saved: bool): set<Ulid> {
    set k | k in cache && Expired(cache[k], now) && cache[k].isSaved == saved
  }

  /** The removal loop of one tick, stated over the cache: the UPDATE batch
      holds exactly the quiescent saved entries and the INSERT batch exactly
      the quiescent unsaved ones. */
  lemma TickDrain(cache: Cache, order: seq<Ulid>, now: Instant)
    requires KeysMatch(cache)
    requires EnumeratesKeys(order, cache)
    ensures var d := Drain(cache, Snapshot(cache, order), now);
            && d.live.Keys == cache.Keys - Quiescent(cache, now)
            && d.updates.IdSet() == QuiescentWith(cache, now, true)
            && d.inserts.IdSet() == QuiescentWith(cache, now, false)
            && BatchOf(d.updates, cache, true)
            && BatchOf(d.inserts, cache, false)
            && (d.updates.IsEmpty() <==> d.updates.IdSet() == {})
            && (d.inserts.IsEmpty() <==> d.inserts.IdSet() == {})
  {
    var s := Snapshot(cache, order);
    SnapshotExpiredIds(cache, order, now);
    DrainSplitsExpired(cache, s, now);
    var d := Drain(cache, s, now);
    if !d.updates.IsEmpty() { assert d.updates.ids[0] in d.updates.IdSet(); }
    if !d.inserts.IsEmpty() { assert d.inserts.ids[0] in d.inserts.IdSet(); }
    forall k | k in d.updates.IdSet() ensures cache[k].isSaved {
      var i :| 0 <= i < |d.updates.ids| && d.updates.ids[i] == k;
    }
    forall k | k in d.inserts.IdSet() ensures !cache[k].isSaved {
      var i :| 0 <= i < |d.inserts.ids| && d.inserts.ids[i] == k;
    }
  }

  /** A flush tick leaves resident exactly the entries that are not yet
      quiescent, each unchanged. */
  lemma FlushTickKeepsHotEntries(cache: Cache, store: Store, order: seq<Ulid>, now: Instant)
    requires KeysMatch(cache)
    requires EnumeratesKeys(order, cache)
    ensures var t := FlushTick(cache, store, order, now);
            && t.cache.Keys == cache.Keys - Quiescent(cache, now)
            && forall k :: k in t.cache ==> t.cache[k] == cache[k] && !Expired(cache[k], now)
  {
    TickDrain(cache, order, now);
  }

  /** On a valid state no statement of a tick fails, and afterwards the store
      holds every flushed id with its flushed count while every other row is
      unchanged. With nothing quiescent the store is not touched. */
  lemma FlushTickWritesQuiescent(cache: Cache, store: Store, order: seq<Ulid>, now: Instant)
    requires Valid(cache, store)
    requires EnumeratesKeys(order, cache)
    ensures var t := FlushTick(cache, store, order, now);
            var q := Quiescent(cache, now);
            && !t.faulted
            && t.store.Keys == store.Keys + q
            && (forall k :: k in q ==> t.store[k] == cache[k].cookie.clicks)
            && (forall k :: k in store && k !in q ==> t.store[k] == store[k])
            && (q == {} ==> t.store == store)
  {
    TickDrain(cache, order, now);
    var d := Drain(cache, Snapshot(cache, order), now);
    assert FlushTick(cache, store, order, now) == Commit(d.live, store, d.updates, d.inserts);
    assert Quiescent(cache, now) == QuiescentWith(cache, now, true) + QuiescentWith(cache, now, false);
    CommitFlushesBatches(cache, store, d.live, d.updates, d.inserts);
  }

  /** Committing the UPDATE batch of saved live entries and the INSERT batch
      of unsaved ones against a consistent store writes each entry's live
      count and nothing else. */
  lemma CommitFlushesBatches(cache: Cache, store: Store, live: Cache, updates: Batch, inserts: Batch)
    requires Consistent(cache, store)
    requires BatchOf(updates, cache, true) && BatchOf(inserts, cache, false)
    ensures var t := Commit(live, store, updates, inserts);
            var q := updates.IdSet() + inserts.IdSet();
            && !t.faulted
            && t.store.Keys == store.Keys + q
            && (forall k :: k in q ==> t.store[k] == cache[k].cookie.clicks)
            && (forall k :: k in store && k !in q ==> t.store[k] == store[k])
            && (q == {} ==> t.store == store)
  {
    assert updates.IdSet() <= store.Keys by {
      forall k | k in updates.IdSet() ensures k in store {
        var i :| 0 <= i < |updates.ids| && updates.ids[i] == k;
      }
    }
    assert inserts.IdSet() !! store.Keys by {
      forall k | k in inserts.IdSet() ensures k !in store {
        var i :| 0 <= i < |inserts.ids| && inserts.ids[i] == k;
      }
    }
    CommitWrites(live, store, updates, inserts);
    var t := Commit(live, store, updates, inserts);
    BatchesWriteLiveCounts(cache, t.store, updates, true);
    BatchesWriteLiveCounts(cache, t.store, inserts, false);
    assert updates.IsEmpty() || updates.ids[0] in updates.IdSet();
    assert inserts.IsEmpty() || inserts.ids[0] in inserts.IdSet();
  }

  /** A store holding every row of a batch of live entries holds each
      listed entry's live count. */
  lemma BatchesWriteLiveCounts(cache: Cache, written: Store, b: Batch, saved: bool)
    requires BatchOf(b, cache, saved)
    requires forall i :: 0 <= i < |b.ids| ==> b.ids[i] in written && written[b.ids[i]] == b.counts[i]
    ensures forall k :: k in b.IdSet() ==> k in cache && k in written && written[k] == cache[k].cookie.clicks
  {
    forall k | k in b.IdSet() ensures k in cache && k in written && written[k] == cache[k].cookie.clicks {
      var i :| 0 <= i < |b.ids| && b.ids[i] == k;
    }
  }

  /** The statements a tick issues: none when nothing is quiescent; an UPDATE
      of exactly the quiescent saved entries when there are any, then an
      INSERT of exactly the quiescent unsaved entries when there are any. */
  lemma FlushTickCommands(cache: Cache, store: Store, order: seq<Ulid>, now: Instant)
    requires KeysMatch(cache)
    requires EnumeratesKeys(order, cache)
    ensures var t := FlushTick(cache, store, order, now);
            var u := QuiescentWith(cache, now, true);
            var n := QuiescentWith(cache, now, false);
            && (Quiescent(cache, now) == {} <==> t.commands == [])
            && |t.commands| == (if u == {} then 0 else 1) + (if n == {} then 0 else 1)
            && (u != {} ==> t.commands[0].UpdateCommand? && t.commands[0].batch.IdSet() == u
                            && BatchOf(t.commands[0].batch, cache, true))
            && (n != {} ==> var last := t.commands[|t.commands| - 1];
                            last.InsertCommand? && last.batch.IdSet() == n
                            && BatchOf(last.batch, cache, false))
  {
    TickDrain(cache, order, now);
    var d := Drain(cache, Snapshot(cache, order), now);
    CommitCommands(d.live, store, d.updates, d.inserts);
    assert Quiescent(cache, now) == QuiescentWith(cache, now, true) + QuiescentWith(cache, now, false);
  }

  /** A flush tick keeps the state valid. */
  lemma FlushTickPreservesValid(cache: Cache, store: Store, order: seq<Ulid>, now: Instant)
    requires Valid(cache, store)
    requires EnumeratesKeys(order, cache)
    ensures var t := FlushTick(cache, store, order, now);
            Valid(t.cache, t.store)
  {
    FlushTickKeepsHotEntries(cache, store, order, now);
    FlushTickWritesQuiescent(cache, store, order, now);
  }

  /** CreateCookie keeps the state valid when the new id has no row yet, as a
      freshly drawn ULID has not. */
  lemma CreateCookiePreservesValid(cache: Cache, store: Store, cookie: Cookie, now: Instant)
    requires Valid(cache, store)
    requires cookie.id !in store
    ensures var r := CreateCookie(cache, cookie, now);
            r.Success? ==> Valid(r.value, store)
  {
  }

  /** Click keeps the state valid. */
  lemma ClickPreservesValid(cache: Cache, store: Store, id: Ulid, now: Instant)
    requires Valid(cache, store)
    ensures var r := Click(cache, store, id, now);
            r.Success? ==> Valid(r.value.0, store) && r.value.0[id].cookie.id == id
  {
  }

  /** Debounce: an entry touched at T is still resident after a tick at any
      time up to T plus five seconds, and is gone after a tick at any later
      time. */
  lemma FlushTickRespectsDebounce(cache: Cache, store: Store, order: seq<Ulid>, now: Instant, id: Ulid)
    requires KeysMatch(cache)
    requires EnumeratesKeys(order, cache)
    requires id in cache
    ensures var t := FlushTick(cache, store, order, now);
            id in t.cache <==> now <= cache[id].lastModified + DEBOUNCE_TICKS
  {
    FlushTickKeepsHotEntries(cache, store, order, now);
  }

  /** Create, flush once past the debounce window, click again: the click
      misses the cache, loads the flushed row and returns the created count
      plus one from an entry that is now marked saved. */
  lemma CreateFlushClickRoundTrip(cache: Cache, store: Store, cookie: Cookie, t0: Instant,
                                  order: seq<Ulid>, t1: Instant, t2: Instant)
    requires Valid(cache, store)
    requires cookie.id !in cache && cookie.id !in store
    requires t1 > t0 + DEBOUNCE_TICKS
    requires EnumeratesKeys(order, CreateCookie(cache, cookie, t0).value)
    ensures var created := CreateCookie(cache, cookie, t0).value;
            var t := FlushTick(created, store, order, t1);
            var r := Click(t.cache, t.store, cookie.id, t2);
            && cookie.id !in t.cache
            && cookie.id in t.store && t.store[cookie.id] == cookie.clicks
            && r.Success?
            && r.value.1 == cookie.clicks + 1
            && r.value.0[cookie.id].isSaved
  {
    var created := CreateCookie(cache, cookie, t0).value;
    CreateCookiePreservesValid(cache, store, cookie, t0);
    assert cookie.id in Quiescent(created, t1);
    FlushTickKeepsHotEntries(created, store, order, t1);
    FlushTickWritesQuiescent(created, store, order, t1);
  }
}
