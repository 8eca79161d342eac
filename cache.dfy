/**
 * The loading cache: an LRU container of entries, a loader that fills in
 * missing or stale keys, expiry after access and after write, refresh after
 * write, and statistics counters.
 *
 * Time is an integer `now` passed to each operation and durations are
 * integers in the same unit. The loader's answer for the key being loaded is
 * passed in as a `Result`, together with the time the load took. Each event
 * the Go code sends to its background worker is handled on the spot by
 * `ProcessEvent`, and the refresh it starts in the background is returned to
 * the caller as the entry to hand to `Refresh`.
 */
module GuavaCache {
  import opened Wrappers
  import opened GoInts
  import opened CacheStats
  import opened Lru

  /** The capacity a cache gets when none is configured: 1 << 30. */
  const DefaultSize: int := 0x4000_0000

  datatype CacheError =
    | EmptyError               // no loader configured
    | LoaderError(reason: string)  // the loader's own error, passed through

  datatype Result<T> = Ok(value: T) | Err(error: CacheError)

  /**
   * The smaller of two durations, where zero means "not set": `t2` replaces
   * `t1` when `t2` is positive and `t1` is unset or larger.
   */
  function MinTimeDurationExcludeZero(t1: int, t2: int): (r: int)
    ensures r == t1 || r == t2
    ensures t1 > 0 && t2 > 0 ==> r <= t1 && r <= t2
    ensures t1 == 0 ==> r == (if t2 > 0 then t2 else 0)
    ensures t2 <= 0 ==> r == t1
    ensures t1 < 0 ==> r == t1
    ensures r == 0 <==> t1 == 0 && t2 <= 0
  {
    if t2 > 0 && (t1 == 0 || t1 > t2) then t2 else t1
  }

  /**
   * The cases of the repository's table test, in its order. Its second case,
   * named for the reversed pair, repeats the arguments of the first; the
   * reversed pair itself is stated in its place.
   */
  lemma MinTimeDurationCases()
    ensures MinTimeDurationExcludeZero(1000, 2000) == 1000
    ensures MinTimeDurationExcludeZero(2000, 1000) == 1000
    ensures MinTimeDurationExcludeZero(0, 1000) == 1000
    ensures MinTimeDurationExcludeZero(1000, 0) == 1000
    ensures MinTimeDurationExcludeZero(0, 0) == 0
  {
  }

  /** The counters after the remove event of an eviction, if there was one. */
  function CountEviction<K>(s: Stats, evicted: Option<K>): (r: Stats)
    ensures evicted.None? ==> r == s
    ensures evicted.Some? ==> r == AfterEviction(s)
  {
    if evicted.Some? then AfterEviction(s) else s
  }

  /** What the background worker is told: a node was hit, an entry evicted, an entry added. */
  datatype Event<K, V> =
    | HitEvent(node: NodeId)
    | RemoveEvent(removed: CacheEntry<K, V>)
    | AddEvent(added: CacheEntry<K, V>)

  class LoadingCache<K(==), V> {
    const expireAfterAccess: int
    const expireAfterWrite: int
    const refreshAfterWrite: int
    const maximumSize: int
    const hasLoader: bool
    const lru: LruCache<K, V>
    const stats: StatsCounter
    /** The keys whose refresh is under way. */
    var refreshMap: set<K>

    ghost predicate Valid()
      reads lru
    {
      lru.Valid() && lru.cap == maximumSize
    }

    /**
     * A cache with the given settings, an empty container of capacity
     * `maximumSize` (the public builder's default is `DefaultSize`) and
     * zeroed counters. Building a cache without a loader is refused by the
     * public builder; `hasLoader` still records whether there is one, as the
     * load and refresh paths test it.
     */
    constructor (expireAfterAccess: int, expireAfterWrite: int, refreshAfterWrite: int, maximumSize: int, hasLoader: bool)
      ensures Valid() && fresh(lru) && fresh(stats)
      ensures this.expireAfterAccess == expireAfterAccess && this.expireAfterWrite == expireAfterWrite
      ensures this.refreshAfterWrite == refreshAfterWrite && this.maximumSize == maximumSize
      ensures this.hasLoader == hasLoader
      ensures lru.order == [] && lru.index == map[] && stats.current == NoStats && refreshMap == {}
    {
      this.expireAfterAccess := expireAfterAccess;
      this.expireAfterWrite := expireAfterWrite;
      this.refreshAfterWrite := refreshAfterWrite;
      this.maximumSize := maximumSize;
      this.hasLoader := hasLoader;
      lru := new LruCache(maximumSize);
      stats := new StatsCounter();
      refreshMap := {};
    }

    // -------------------------------------------------------------------
    // Expiry

    /** Times `access` and `write` are stale at `now` when either is older than its positive duration. */
    predicate Stale(access: int, write: int, now: int)
      ensures Stale(access, write, now) ==> expireAfterAccess > 0 || expireAfterWrite > 0
      ensures access >= now && write >= now ==> !Stale(access, write, now)
    {
      || (expireAfterAccess > 0 && access < now - expireAfterAccess)
      || (expireAfterWrite > 0 && write < now - expireAfterWrite)
    }

    /** An entry is expired when it was last read, or last written, too long ago. */
    predicate IsExpired(en: CacheEntry<K, V>, now: int)
      reads en
      ensures IsExpired(en, now) ==> expireAfterAccess > 0 || expireAfterWrite > 0
      ensures en.access >= now && en.write >= now ==> !IsExpired(en, now)
    {
      Stale(en.access, en.write, now)
    }

    /** Once expired, an entry stays expired as time goes on. */
    lemma ExpiryPersists(en: CacheEntry<K, V>, now: int, later: int)
      requires now <= later && IsExpired(en, now)
      ensures IsExpired(en, later)
    {
    }

    /** The period of the expiry sweep; zero means no sweep is scheduled. */
    function SweepInterval(): (r: int)
      ensures r == expireAfterWrite || r == expireAfterAccess
      ensures r == 0 <==> expireAfterWrite == 0 && expireAfterAccess <= 0
      ensures expireAfterWrite > 0 && expireAfterAccess > 0 ==> r <= expireAfterWrite && r <= expireAfterAccess
    {
      MinTimeDurationExcludeZero(expireAfterWrite, expireAfterAccess)
    }

    /** With any positive expiry duration, the sweep is scheduled. */
    lemma SweepScheduledWhenExpiring()
      requires expireAfterAccess > 0 || expireAfterWrite > 0
      ensures SweepInterval() != 0
    {
    }

    // -------------------------------------------------------------------
    // Events and reads

    /**
     * Handles one event: a hit moves the node to the front and counts one
     * hit, an eviction counts one eviction, an addition does nothing.
     */
    method ProcessEvent(ev: Event<K, V>)
      requires Valid()
      requires ev.HitEvent? ==> ev.node in lru.payload
      modifies lru, stats
      ensures Valid()
      ensures ev.HitEvent? ==>
        && lru.order == (if ev.node in old(lru.order) then [ev.node] + Without(old(lru.order), ev.node) else old(lru.order))
        && lru.payload == old(lru.payload) && lru.index == old(lru.index) && lru.nextId == old(lru.nextId)
        && (ev.node in old(lru.order) ==> lru.KeyOrder() == Touch(old(lru.KeyOrder()), lru.payload[ev.node].key))
        && stats.current == AfterHits(old(stats.current), 1)
      ensures ev.RemoveEvent? ==> unchanged(lru) && stats.current == AfterEviction(old(stats.current))
      ensures ev.AddEvent? ==> unchanged(lru) && stats.current == old(stats.current)
    {
      match ev
      case HitEvent(node) =>
        lru.Hit(node);
        stats.RecordHits(1);
      case RemoveEvent(_) =>
        stats.RecordEviction();
      case AddEvent(_) =>
    }

    /** A copy of the counters. */
    method ReadStats() returns (t: Stats)
      ensures t == stats.current
    {
      t := stats.Snapshot();
    }

    // -------------------------------------------------------------------
    // Loading

    /**
     * The effect of a load of `key` on the container and the counters, where
     * `base` is what the counters held when the load began.
     */
    twostate predicate LoadEffect(key: K, now: int, loaded: Result<V>, elapsed: I64, base: Stats, new r: Result<V>)
      reads this, lru, stats, lru.EntrySet(key)
    {
      && old(Valid()) && Valid()
      && (!hasLoader ==>
            r == Err(EmptyError) && unchanged(lru) && stats.current == base)
      && (hasLoader && loaded.Err? ==>
            && r == loaded && unchanged(lru)
            && stats.current == AfterLoadError(base, elapsed))
      && (hasLoader && loaded.Ok? ==>
            && r == loaded
            && key in lru.Entries()
            && fresh(lru.Entries()[key])
            && lru.Entries()[key].value == loaded.value
            && lru.Entries()[key].access == now && lru.Entries()[key].write == now
            && lru.Inserted(lru.Entries()[key])
            && stats.current == AfterLoadSuccess(CountEviction(base, Evicted(old(lru.KeyOrder()), key, lru.cap)), elapsed))
    }

    /**
     * Loads `key`: with no loader, fails with `EmptyError`; on the loader's
     * success, stores a new entry stamped `now`, counts the eviction that made
     * room for it, if any, and counts one successful load; on the loader's
     * failure, counts one failed load and passes the error on.
     */
    method LoadInfo(key: K, now: int, loaded: Result<V>, elapsed: I64) returns (r: Result<V>)
      requires Valid()
      modifies lru, stats
      ensures LoadEffect(key, now, loaded, elapsed, old(stats.current), r)
    {
      if !hasLoader {
        return Err(EmptyError);
      }
      if loaded.Err? {
        stats.RecordLoadError(elapsed);
        return loaded;
      }
      var entry := StoreLoaded(key, loaded.value, now);
      label stored:
      stats.RecordLoadSuccess(elapsed);
      assert unchanged@stored(lru);
      lru.KeyOrderMatchesIndex();
      r := loaded;
    }

    /**
     * The successful half of a load: a new entry stamped `now` goes into the
     * container, and the entry evicted for it, if any, is reported.
     */
    method StoreLoaded(key: K, v: V, now: int) returns (entry: CacheEntry<K, V>)
      requires Valid()
      modifies lru, stats
      ensures Valid() && fresh(entry)
      ensures entry.key == key && entry.value == v && entry.access == now && entry.write == now
      ensures lru.Inserted(entry)
      ensures stats.current == CountEviction(old(stats.current), Evicted(old(lru.KeyOrder()), key, lru.cap))
    {
      entry := new CacheEntry(key, v, now, now);
      var removed := lru.Add(entry);
      if removed != null {
        ProcessEvent(RemoveEvent(removed));
      }
      label added:
      ProcessEvent(AddEvent(entry));
      assert unchanged@added(lru);
    }

    /** A present entry must be reloaded: it has expired, or the caller's test says so. */
    predicate MustReload(en: CacheEntry<K, V>, expire: Option<V -> bool>, now: int)
      reads en
      ensures IsExpired(en, now) ==> MustReload(en, expire, now)
      ensures expire.None? ==> (MustReload(en, expire, now) <==> IsExpired(en, now))
    {
      IsExpired(en, now) || (expire.Some? && expire.value(en.value))
    }

    /** A refresh is due: the entry was written more than `refreshAfterWrite` ago. */
    predicate RefreshDue(en: CacheEntry<K, V>, now: int)
      reads en
      ensures RefreshDue(en, now) ==> refreshAfterWrite > 0 && en.write < now
      ensures en.write >= now ==> !RefreshDue(en, now)
    {
      refreshAfterWrite > 0 && en.write < now - refreshAfterWrite
    }

    /**
     * Reads `key`. A miss counts one miss and loads. A present entry that
     * must be reloaded is loaded again, with no miss counted. Otherwise the
     * entry's value is returned, its access time becomes `now`, its node moves
     * to the front and one hit is counted; if a refresh is due and none is
     * under way for the key, one is started and the entry to refresh is
     * returned in `pending`.
     */
    method GetWithExpiredFunc(key: K, expire: Option<V -> bool>, now: int, loaded: Result<V>, elapsed: I64)
      returns (r: Result<V>, pending: Option<CacheEntry<K, V>>)
      requires Valid()
      modifies this, lru, stats, lru.EntrySet(key)
      ensures key !in old(lru.index) ==>
        && pending == None && refreshMap == old(refreshMap)
        && LoadEffect(key, now, loaded, elapsed, AfterMisses(old(stats.current), 1), r)
      ensures key in old(lru.index) && old(MustReload(lru.Entries()[key], expire, now)) ==>
        && pending == None && refreshMap == old(refreshMap)
        && LoadEffect(key, now, loaded, elapsed, old(stats.current), r)
      ensures key in old(lru.index) && !old(MustReload(lru.Entries()[key], expire, now)) ==>
        var en := old(lru.Entries()[key]);
        && Valid()
        && r == Ok(en.value)
        && en.value == old(en.value) && en.write == old(en.write) && en.access == now
        && lru.KeyOrder() == Touch(old(lru.KeyOrder()), key)
        && lru.Entries() == old(lru.Entries())
        && stats.current == AfterHits(old(stats.current), 1)
        && (pending.Some? <==> old(RefreshDue(en, now)) && key !in old(refreshMap))
        && (pending.Some? ==> pending.value == en)
      ensures key in old(lru.index) && !old(MustReload(lru.Entries()[key], expire, now)) ==>
        refreshMap == if old(RefreshDue(lru.Entries()[key], now)) then old(refreshMap) + {key} else old(refreshMap)
    {
      var id, hit := lru.Get(key);
      if !hit {
        stats.RecordMisses(1);
        assert unchanged(lru);
        r := LoadInfo(key, now, loaded, elapsed);
        pending := None;
        return;
      }
      lru.KeyOrderMatchesIndex();
      var entry := lru.payload[id];
      if MustReload(entry, expire, now) {
        r := LoadInfo(key, now, loaded, elapsed);
        pending := None;
        return;
      }
      r, pending := ServeHit(key, id, now);
    }

    /**
     * The fresh-hit path of a read: the entry's value is returned, its access
     * time becomes `now`, a due refresh is started and the hit is reported.
     */
    method ServeHit(key: K, id: NodeId, now: int) returns (r: Result<V>, pending: Option<CacheEntry<K, V>>)
      requires Valid() && key in lru.index && lru.index[key] == id
      modifies this, lru, stats, lru.EntrySet(key)
      ensures lru.payload == old(lru.payload) && lru.index == old(lru.index)
      ensures var en := lru.payload[id];
        && Valid()
        && r == Ok(en.value)
        && en.value == old(en.value) && en.write == old(en.write) && en.access == now
        && lru.KeyOrder() == Touch(old(lru.KeyOrder()), key)
        && lru.Entries() == old(lru.Entries())
        && stats.current == AfterHits(old(stats.current), 1)
        && (pending.Some? <==> old(RefreshDue(en, now)) && key !in old(refreshMap))
        && (pending.Some? ==> pending.value == en)
      ensures old(RefreshDue(lru.payload[id], now)) ==> refreshMap == old(refreshMap) + {key}
      ensures !old(RefreshDue(lru.payload[id], now)) ==> refreshMap == old(refreshMap)
    {
      lru.KeyOrderMatchesIndex();
      var entry := lru.payload[id];
      assert entry.key == key;
      var started := MarkRead(entry, now);
      pending := if started then Some(entry) else None;
      label touched:
      ProcessEvent(HitEvent(id));
      assert unchanged@touched(entry) && unchanged@touched(this);
      r := Ok(entry.value);
    }

    /** A read of a live entry: schedules its refresh if one is due, then sets its access time. */
    method MarkRead(en: CacheEntry<K, V>, now: int) returns (started: bool)
      modifies this, en
      ensures started <==> old(RefreshDue(en, now)) && en.key !in old(refreshMap)
      ensures refreshMap == if old(RefreshDue(en, now)) then old(refreshMap) + {en.key} else old(refreshMap)
      ensures en.access == now && en.value == old(en.value) && en.write == old(en.write)
    {
      started := CheckRefreshAfterWrite(en, now);
      en.access := now;
    }

    /** `GetWithExpiredFunc` without a caller's test: only expiry forces a reload. */
    method Get(key: K, now: int, loaded: Result<V>, elapsed: I64)
      returns (r: Result<V>, pending: Option<CacheEntry<K, V>>)
      requires Valid()
      modifies this, lru, stats, lru.EntrySet(key)
      ensures key !in old(lru.index) ==>
        && pending == None && refreshMap == old(refreshMap)
        && LoadEffect(key, now, loaded, elapsed, AfterMisses(old(stats.current), 1), r)
      ensures key in old(lru.index) && old(IsExpired(lru.Entries()[key], now)) ==>
        && pending == None && refreshMap == old(refreshMap)
        && LoadEffect(key, now, loaded, elapsed, old(stats.current), r)
      ensures key in old(lru.index) && !old(IsExpired(lru.Entries()[key], now)) ==>
        var en := old(lru.Entries()[key]);
        && Valid()
        && r == Ok(en.value)
        && en.value == old(en.value) && en.write == old(en.write) && en.access == now
        && lru.KeyOrder() == Touch(old(lru.KeyOrder()), key)
        && lru.Entries() == old(lru.Entries())
        && stats.current == AfterHits(old(stats.current), 1)
        && (pending.Some? <==> old(RefreshDue(en, now)) && key !in old(refreshMap))
        && (pending.Some? ==> pending.value == en)
      ensures key in old(lru.index) && !old(IsExpired(lru.Entries()[key], now)) ==>
        refreshMap == if old(RefreshDue(lru.Entries()[key], now)) then old(refreshMap) + {key} else old(refreshMap)
    {
      r, pending := GetWithExpiredFunc(key, None, now, loaded, elapsed);
    }

    // -------------------------------------------------------------------
    // Refresh after write

    /**
     * Starts a refresh of `en` when one is due and none is under way for its
     * key, recording the key as being refreshed.
     */
    method CheckRefreshAfterWrite(en: CacheEntry<K, V>, now: int) returns (started: bool)
      modifies this
      ensures started <==> RefreshDue(en, now) && en.key !in old(refreshMap)
      ensures refreshMap == if RefreshDue(en, now) then old(refreshMap) + {en.key} else old(refreshMap)
    {
      started := false;
      if RefreshDue(en, now) {
        if en.key in refreshMap {
          return;
        }
        refreshMap := refreshMap + {en.key};
        started := true;
      }
    }

    /**
     * The body of a started refresh: with a loader, a successful load writes
     * the new value and `now` into the entry itself (whether or not the
     * container still holds it) and the key stops being refreshed, whatever
     * the outcome; with no loader nothing happens.
     */
    method Refresh(en: CacheEntry<K, V>, now: int, loaded: Result<V>)
      modifies this, en
      ensures !hasLoader ==> refreshMap == old(refreshMap) && unchanged(en)
      ensures hasLoader ==> refreshMap == old(refreshMap) - {en.key}
      ensures hasLoader && loaded.Ok? ==> en.value == loaded.value && en.access == now && en.write == now
      ensures !(hasLoader && loaded.Ok?) ==> unchanged(en)
    {
      if !hasLoader {
        return;
      }
      if loaded.Ok? {
        en.value := loaded.value;
        en.access := now;
        en.write := now;
      }
      refreshMap := refreshMap - {en.key};
    }

    // -------------------------------------------------------------------
    // Writes and removal

    /**
     * Stores `v` under `key`. A present entry only takes the new value: its
     * times and its place in the recency order stay. An absent key gets a new
     * entry stamped `now`; an entry evicted for it is dropped, and no
     * counter changes.
     */
    method Put(key: K, v: V, now: int)
      requires Valid()
      modifies lru, lru.EntrySet(key)
      ensures Valid()
      ensures key in old(lru.index) ==>
        var en := old(lru.Entries()[key]);
        && unchanged(lru)
        && en.value == v && en.access == old(en.access) && en.write == old(en.write)
      ensures key !in old(lru.index) ==>
        && key in lru.Entries()
        && fresh(lru.Entries()[key])
        && lru.Entries()[key].value == v
        && lru.Entries()[key].access == now && lru.Entries()[key].write == now
        && lru.Inserted(lru.Entries()[key])
    {
      var id, hit := lru.Get(key);
      if hit {
        lru.KeyOrderMatchesIndex();
        lru.payload[id].value := v;
      } else {
        var en := new CacheEntry(key, v, now, now);
        var _ := lru.Add(en);
        lru.KeyOrderMatchesIndex();
      }
    }

    /**
     * Unlinks node `id` through the container and returns the value it held,
     * or None when the container no longer indexes its key. No counter changes.
     */
    method RemoveEl(id: NodeId) returns (v: Option<V>)
      requires Valid() && id in lru.payload
      requires lru.payload[id].key in lru.index ==> lru.index[lru.payload[id].key] == id
      modifies lru
      ensures Valid()
      ensures lru.payload == old(lru.payload)
      ensures v == if lru.payload[id].key in old(lru.index) then Some(lru.payload[id].value) else None
      ensures lru.order == Without(old(lru.order), id)
      ensures lru.KeyOrder() == Without(old(lru.KeyOrder()), lru.payload[id].key)
      ensures lru.Entries() == old(lru.Entries()) - {lru.payload[id].key}
    {
      var en := lru.Remove(id);
      if en == null {
        return None;
      }
      return Some(en.value);
    }

    /** Removes `key`, if present, without counting an eviction. */
    method Remove(key: K)
      requires Valid()
      modifies lru
      ensures Valid()
      ensures key !in old(lru.index) ==> unchanged(lru)
      ensures key !in lru.index
      ensures lru.KeyOrder() == Without(old(lru.KeyOrder()), key)
      ensures lru.Entries() == old(lru.Entries()) - {key}
    {
      lru.KeyOrderMatchesIndex();
      var id, hit := lru.Get(key);
      if hit {
        assert lru.payload[id].key == key;
        var _ := RemoveEl(id);
        lru.KeyOrderMatchesIndex();
      } else {
        assert key !in lru.Entries();
        assert lru.Entries() == lru.Entries() - {key};
      }
    }

    // -------------------------------------------------------------------
    // The periodic sweep

    /** The (access, write) times of the entries of `ids`, in list order. */
    ghost function Stamps(ids: seq<NodeId>, p: map<NodeId, CacheEntry<K, V>>): (r: seq<(int, int)>)
      requires AllIn(ids, p)
      reads set id | id in ids && id in p :: p[id]
      ensures |r| == |ids|
      ensures forall i {:trigger r[i]} :: 0 <= i < |ids| ==> r[i] == (p[ids[i]].access, p[ids[i]].write)
    {
      seq(|ids|, i requires 0 <= i < |ids| reads set id | id in ids && id in p :: p[id] =>
        (p[ids[i]].access, p[ids[i]].write))
    }

    /** Position of the first stale pair of times, if any. */
    function FirstStale(stamps: seq<(int, int)>, now: int): (r: Option<nat>)
      ensures r.Some? ==> r.value < |stamps| && Stale(stamps[r.value].0, stamps[r.value].1, now)
      ensures forall j :: 0 <= j < |stamps| && (r.None? || j < r.value) ==> !Stale(stamps[j].0, stamps[j].1, now)
      decreases |stamps|
    {
      if stamps == [] then None
      else if Stale(stamps[0].0, stamps[0].1, now) then Some(0)
      else
        match FirstStale(stamps[1..], now)
        case None => None
        case Some(k) => Some(k + 1)
    }

    /** A stale position not before the first stale one is the first stale one. */
    lemma FirstStaleAt(stamps: seq<(int, int)>, now: int, pos: nat)
      requires pos < |stamps| && Stale(stamps[pos].0, stamps[pos].1, now)
      requires FirstStale(stamps, now).None? || pos <= FirstStale(stamps, now).value
      ensures FirstStale(stamps, now) == Some(pos)
    {
    }

    /** Position of the first node of `ids` whose entry has expired at `now`, if any. */
    ghost function FirstExpired(ids: seq<NodeId>, p: map<NodeId, CacheEntry<K, V>>, now: int): (r: Option<nat>)
      requires AllIn(ids, p)
      reads set id | id in ids && id in p :: p[id]
      ensures r.Some? ==> r.value < |ids| && IsExpired(p[ids[r.value]], now)
      ensures forall j :: 0 <= j < |ids| && (r.None? || j < r.value) ==> !IsExpired(p[ids[j]], now)
    {
      var stamps := Stamps(ids, p);
      assert forall j :: 0 <= j < |ids| ==> stamps[j] == (p[ids[j]].access, p[ids[j]].write);
      FirstStale(stamps, now)
    }

    /** The sweep's step at one live node: unlinks it if its entry has expired at `now`. */
    method SweepVisit(id: NodeId, now: int) returns (gone: bool)
      requires Valid() && id in lru.order
      modifies lru
      ensures Valid() && lru.payload == old(lru.payload)
      ensures gone == IsExpired(lru.payload[id], now)
      ensures !gone ==> lru.order == old(lru.order) && lru.index == old(lru.index)
      ensures gone ==>
        && id !in lru.order
        && lru.order == Without(old(lru.order), id)
        && lru.KeyOrder() == Without(old(lru.KeyOrder()), lru.payload[id].key)
        && lru.Entries() == old(lru.Entries()) - {lru.payload[id].key}
    {
      gone := IsExpired(lru.payload[id], now);
      if gone {
        var _ := RemoveEl(id);
        WithoutMembers(old(lru.order), id);
      }
    }

    /**
     * The sweep's visit at position `pos` of the list, tracked against the
     * times `stamps` the entries had when the sweep started: the node is
     * unlinked if expired, and then asked for its successor.
     */
    method SweepStep(id: NodeId, now: int, ghost stamps: seq<(int, int)>, ghost pos: nat)
      returns (gone: bool, next: Option<NodeId>)
      requires Valid() && pos < |lru.order| == |stamps| && lru.order[pos] == id
      requires stamps[pos] == (lru.payload[id].access, lru.payload[id].write)
      requires FirstStale(stamps, now).None? || pos <= FirstStale(stamps, now).value
      modifies lru
      ensures Valid() && lru.payload == old(lru.payload)
      ensures Unlinked(old(lru.order), old(lru.index), lru.order, lru.index, lru.payload, if gone then Some(pos) else None)
      ensures !gone ==>
        && (FirstStale(stamps, now).None? || pos < FirstStale(stamps, now).value)
        && next == if pos + 1 < |lru.order| then Some(lru.order[pos + 1]) else None
      ensures gone ==> FirstStale(stamps, now) == Some(pos) && next.None?
    {
      ghost var en := lru.payload[id];
      gone := SweepVisit(id, now);
      assert gone == Stale(stamps[pos].0, stamps[pos].1, now);
      if gone {
        FirstStaleAt(stamps, now, pos);
      } else {
        assert lru.order[pos] == id;
      }
      next := lru.Next(id);
    }

    /**
     * One run of the periodic sweep. It walks the list from the front and
     * unlinks the first entry expired at `now`; the walk then asks the
     * unlinked node for its successor, which it no longer has, and stops.
     * So one run removes at most one entry, and counts no eviction.
     */
    method ClearExpiredKey(now: int)
      requires Valid()
      modifies lru
      ensures Valid()
      ensures lru.payload == old(lru.payload)
      ensures Unlinked(old(lru.order), old(lru.index), lru.order, lru.index, lru.payload,
                       old(FirstExpired(lru.order, lru.payload, now)))
    {
      ghost var ids, p, ix := lru.order, lru.payload, lru.index;
      ghost var stamps := Stamps(ids, p);
      ghost var first := FirstStale(stamps, now);
      ghost var pos: nat := 0;
      ghost var removed := false;
      var cur := lru.Front();
      while cur.Some?
        invariant lru.Valid() && lru.cap == maximumSize && lru.payload == p
        invariant pos <= |ids|
        invariant Unlinked(ids, ix, lru.order, lru.index, p, if removed then Some(pos) else None)
        invariant !removed ==>
          && (cur.Some? <==> pos < |ids|) && (cur.Some? ==> cur.value == ids[pos])
          && (first.None? || pos <= first.value)
        invariant removed ==> cur.None? && first == Some(pos)
        decreases |ids| - pos, if cur.Some? then 1 else 0
      {
        var id := cur.value;
        assert stamps[pos] == (p[id].access, p[id].write);
        var gone;
        gone, cur := SweepStep(id, now, stamps, pos);
        if gone {
          removed := true;
        } else {
          pos := pos + 1;
        }
      }
    }

    /** The nodes of `ids` whose times in `stamps` are not stale at `now`, in list order. */
    function Survivors(ids: seq<NodeId>, stamps: seq<(int, int)>, now: int): (r: seq<NodeId>)
      requires |stamps| == |ids|
      ensures |r| <= |ids|
      decreases |ids|
    {
      if ids == [] then []
      else
        var n := |ids| - 1;
        Survivors(ids[..n], stamps[..n], now) + (if Stale(stamps[n].0, stamps[n].1, now) then [] else [ids[n]])
    }

    /** A node survives exactly when its times are not stale; no node is gained or doubled. */
    lemma {:induction false} SurvivorsMembers(ids: seq<NodeId>, stamps: seq<(int, int)>, now: int)
      requires |stamps| == |ids| && Distinct(ids)
      ensures Distinct(Survivors(ids, stamps, now))
      ensures forall y :: y in Survivors(ids, stamps, now) ==> y in ids
      ensures forall i :: 0 <= i < |ids| ==> (ids[i] in Survivors(ids, stamps, now) <==> !Stale(stamps[i].0, stamps[i].1, now))
      decreases |ids|
    {
      if ids != [] {
        var n := |ids| - 1;
        var front, last := ids[..n], ids[n];
        var rest := Survivors(front, stamps[..n], now);
        var tail := if Stale(stamps[n].0, stamps[n].1, now) then [] else [last];
        assert ids == front + [last];
        WithoutLast(ids);
        SurvivorsMembers(front, stamps[..n], now);
        if tail != [] {
          DistinctSnoc(rest, last);
        } else {
          assert rest + tail == rest;
        }
        forall i | 0 <= i < |ids|
          ensures ids[i] in rest + tail <==> !Stale(stamps[i].0, stamps[i].1, now)
        {
          if i < n {
            assert front[i] == ids[i] && stamps[..n][i] == stamps[i];
            DistinctAt(ids, i, n);
          }
        }
      }
    }

    /** After a sweep that keeps the survivors, no listed entry has expired and every unexpired one is still listed. */
    lemma SurvivorsLive(ids: seq<NodeId>, p: map<NodeId, CacheEntry<K, V>>, now: int, order: seq<NodeId>)
      requires AllIn(ids, p) && Distinct(ids) && order == Survivors(ids, Stamps(ids, p), now)
      ensures forall id :: id in order ==> id in ids && !IsExpired(p[id], now)
      ensures forall id :: id in ids && !IsExpired(p[id], now) ==> id in order
    {
      var stamps := Stamps(ids, p);
      SurvivorsMembers(ids, stamps, now);
      forall id | id in order ensures id in ids && !IsExpired(p[id], now) {
        var i := IndexOf(ids, id);
      }
      forall id | id in ids && !IsExpired(p[id], now) ensures id in order {
        var i := IndexOf(ids, id);
      }
    }

    /** After a sweep that keeps the survivors, each unexpired key kept its entry and each expired key lost it. */
    lemma SurvivorEntries(ids: seq<NodeId>, ix: map<K, NodeId>, order: seq<NodeId>, index: map<K, NodeId>,
                          p: map<NodeId, CacheEntry<K, V>>, n: NodeId, m: NodeId, now: int)
      requires Consistent(ids, p, ix, n) && Consistent(order, p, index, m)
      requires AllIn(ids, p) && order == Survivors(ids, Stamps(ids, p), now)
      ensures forall id :: id in order ==> !IsExpired(p[id], now)
      ensures forall id :: id in ids && !IsExpired(p[id], now) ==> id in order
      ensures EntriesOf(index, p) == Unexpired(EntriesOf(ix, p), now)
    {
      SurvivorsLive(ids, p, now, order);
      var a, b := EntriesOf(index, p), Unexpired(EntriesOf(ix, p), now);
      forall k | k in a ensures k in b && b[k] == a[k] {
        var id := index[k];
        assert id in ids && p[id].key == k;
      }
      forall k | k in b ensures k in a {
        var id := ix[k];
        assert id in ids && id in order;
      }
    }

    /** The entries of `m` that have not expired at `now`. */
    ghost function Unexpired(m: map<K, CacheEntry<K, V>>, now: int): (r: map<K, CacheEntry<K, V>>)
      reads m.Values
      ensures r.Keys <= m.Keys
      ensures forall k :: k in m ==> (k in r <==> !IsExpired(m[k], now)) && (k in r ==> r[k] == m[k])
    {
      map k | k in m && !IsExpired(m[k], now) :: m[k]
    }

    /**
     * Two expired entries are enough for one run of the sweep as written to
     * leave an expired entry behind: the run unlinks only the first one.
     */
    lemma SweepLeavesExpired(ids: seq<NodeId>, p: map<NodeId, CacheEntry<K, V>>, now: int, i: nat, j: nat)
      requires AllIn(ids, p) && Distinct(ids) && i < j < |ids|
      requires IsExpired(p[ids[i]], now) && IsExpired(p[ids[j]], now)
      ensures FirstExpired(ids, p, now).Some?
      ensures var first := FirstExpired(ids, p, now).value;
        ids[j] in Without(ids, ids[first]) && IsExpired(p[ids[j]], now)
    {
      var first := FirstExpired(ids, p, now).value;
      assert first <= i;
      WithoutMembers(ids, ids[first]);
      DistinctAt(ids, first, j);
    }

    /**
     * The sweep as intended: every entry expired at `now` is unlinked. The
     * walk asks each node for its successor before it may unlink the node.
     */
    method ClearAllExpired(now: int)
      requires Valid()
      modifies lru
      ensures Valid() && lru.payload == old(lru.payload)
      ensures lru.order == old(Survivors(lru.order, Stamps(lru.order, lru.payload), now))
      ensures forall id :: id in lru.order ==> !IsExpired(lru.payload[id], now)
      ensures forall id :: id in old(lru.order) && !IsExpired(lru.payload[id], now) ==> id in lru.order
      ensures lru.Entries() == Unexpired(old(lru.Entries()), now)
    {
      ghost var ids, p, ix, n := lru.order, lru.payload, lru.index, lru.nextId;
      ghost var stamps := Stamps(ids, p);
      ghost var pos: nat := 0;
      var cur := lru.Front();
      while cur.Some?
        invariant lru.Valid() && lru.cap == maximumSize && lru.payload == p
        invariant pos <= |ids|
        invariant lru.order == Walk(ids, stamps, now, pos)
        invariant Stamps(ids, p) == stamps
        invariant cur == if pos < |ids| then Some(ids[pos]) else None
        decreases |ids| - pos
      {
        var id := cur.value;
        assert stamps[pos] == (p[id].access, p[id].write);
        cur := KeepStep(id, now, ids, stamps, pos);
        pos := pos + 1;
      }
      WalkEnds(ids, stamps, now);
      SurvivorEntries(ids, ix, lru.order, lru.index, p, n, lru.nextId, now);
    }

    /**
     * The list the intended sweep leaves after visiting the first `pos` nodes
     * of `ids`, one visit at a time: a visited node is unlinked when stale.
     */
    function Walk(ids: seq<NodeId>, stamps: seq<(int, int)>, now: int, pos: nat): seq<NodeId>
      requires pos <= |ids| == |stamps|
      decreases pos
    {
      if pos == 0 then ids
      else
        var before := Walk(ids, stamps, now, pos - 1);
        if Stale(stamps[pos - 1].0, stamps[pos - 1].1, now) then Without(before, ids[pos - 1]) else before
    }

    /** After `pos` visits the list is the survivors of the visited prefix, then the unvisited rest. */
    lemma {:induction false} WalkShape(ids: seq<NodeId>, stamps: seq<(int, int)>, now: int, pos: nat)
      requires pos <= |ids| == |stamps| && Distinct(ids)
      ensures Walk(ids, stamps, now, pos) == Survivors(ids[..pos], stamps[..pos], now) + ids[pos..]
      decreases pos
    {
      if pos > 0 {
        var q := pos - 1;
        WalkShape(ids, stamps, now, q);
        var kept := Survivors(ids[..q], stamps[..q], now);
        NotYetKept(ids, stamps, now, q);
        SplitAt(kept, ids, q, Walk(ids, stamps, now, q));
        SurvivorsStep(ids, stamps, now, q);
        if !Stale(stamps[q].0, stamps[q].1, now) {
          ShiftOne(kept, ids, q);
        }
      } else {
        assert ids[..0] == [] && ids[0..] == ids;
      }
    }

    /** A walk over the whole list leaves exactly the survivors. */
    lemma WalkEnds(ids: seq<NodeId>, stamps: seq<(int, int)>, now: int)
      requires |ids| == |stamps| && Distinct(ids)
      ensures Walk(ids, stamps, now, |ids|) == Survivors(ids, stamps, now)
    {
      WalkShape(ids, stamps, now, |ids|);
      assert ids[..|ids|] == ids && stamps[..|ids|] == stamps && ids[|ids|..] == [];
    }

    /** The node at `pos` is not among the survivors of the nodes before it. */
    lemma NotYetKept(ids: seq<NodeId>, stamps: seq<(int, int)>, now: int, pos: nat)
      requires pos < |ids| == |stamps| && Distinct(ids)
      ensures ids[pos] !in Survivors(ids[..pos], stamps[..pos], now)
    {
      SurvivorsWithin(ids[..pos], stamps[..pos], now);
      forall k | 0 <= k < pos ensures ids[..pos][k] != ids[pos] {
        DistinctAt(ids, k, pos);
      }
    }

    /** Keeping or dropping the node at `pos` extends the survivors of the prefix before it. */
    lemma SurvivorsStep(ids: seq<NodeId>, stamps: seq<(int, int)>, now: int, pos: nat)
      requires pos < |ids| == |stamps|
      ensures Survivors(ids[..pos + 1], stamps[..pos + 1], now) ==
        Survivors(ids[..pos], stamps[..pos], now) + (if Stale(stamps[pos].0, stamps[pos].1, now) then [] else [ids[pos]])
    {
      assert ids[..pos + 1][..pos] == ids[..pos] && stamps[..pos + 1][..pos] == stamps[..pos];
    }

    /** The survivors are drawn from `ids`. */
    lemma {:induction false} SurvivorsWithin(ids: seq<NodeId>, stamps: seq<(int, int)>, now: int)
      requires |stamps| == |ids|
      ensures forall y :: y in Survivors(ids, stamps, now) ==> y in ids
      decreases |ids|
    {
      if ids != [] {
        var n := |ids| - 1;
        SurvivorsWithin(ids[..n], stamps[..n], now);
        assert ids == ids[..n] + [ids[n]];
      }
    }

    /**
     * One visit of the intended sweep at position `pos` of the original list
     * `ids`: the successor is read first, then the node is unlinked if its
     * entry has expired.
     */
    method KeepStep(id: NodeId, now: int, ghost ids: seq<NodeId>, ghost stamps: seq<(int, int)>, ghost pos: nat)
      returns (next: Option<NodeId>)
      requires Valid() && pos < |ids| == |stamps| && ids[pos] == id && Distinct(ids)
      requires lru.order == Walk(ids, stamps, now, pos)
      requires id in lru.payload && stamps[pos] == (lru.payload[id].access, lru.payload[id].write)
      modifies lru
      ensures Valid() && lru.payload == old(lru.payload)
      ensures lru.order == Walk(ids, stamps, now, pos + 1)
      ensures next == if pos + 1 < |ids| then Some(ids[pos + 1]) else None
    {
      WalkShape(ids, stamps, now, pos);
      SplitAt(Survivors(ids[..pos], stamps[..pos], now), ids, pos, lru.order);
      next := lru.Next(id);
      var gone := SweepVisit(id, now);
      assert gone == Stale(stamps[pos].0, stamps[pos].1, now);
    }
  }
}
