/**
 * The server's two time-to-live caches (script.py): `_pull_cache`, the remote
 * digest of each image reference for `CACHE_TTL` = 3600 seconds, and
 * `_stats_cache`, the stats of each container name for `_STATS_TTL` = 2
 * seconds. Both keep `{value, ts}` per key, serve an entry while
 * `now - ts < ttl`, and otherwise compute the value afresh and overwrite the
 * entry. The value a computation would produce is passed in; it is used
 * only on a miss.
 */
module TtlCache {
  import opened Wrappers

  const PullTtl: real := 3600.0
  const StatsTtl: real := 2.0

  datatype Entry<V> = Entry(value: V, ts: real)

  /** Whether a stored entry is served at `now`. */
  predicate Fresh<V>(e: Entry<V>, now: real, ttl: real) {
    now - e.ts < ttl
  }

  /** Whether a lookup is answered from the cache. */
  predicate Hit<V>(entries: map<string, Entry<V>>, key: string, now: real, force: bool, ttl: real) {
    !force && key in entries && Fresh(entries[key], now, ttl)
  }

  /** What a lookup returns, and the entries after it. */
  function Lookup<V>(entries: map<string, Entry<V>>, key: string, now: real, force: bool, ttl: real, computed: V)
    : (r: (V, map<string, Entry<V>>))
    ensures key in r.1 && r.1[key].value == r.0
    ensures r.1.Keys == entries.Keys + {key}
    ensures forall k :: k in entries && k != key ==> r.1[k] == entries[k]
    ensures Hit(entries, key, now, force, ttl) ==> r == (entries[key].value, entries)
    ensures !Hit(entries, key, now, force, ttl) ==> r.0 == computed && r.1[key] == Entry(computed, now)
  {
    if Hit(entries, key, now, force, ttl) then (entries[key].value, entries)
    else (computed, entries[key := Entry(computed, now)])
  }

  /** The timestamp `fetch_remote_digest_cached` uses: `now_ts or time.time()`, so 0 means "now" too. */
  function Stamp(nowTs: Option<real>, clock: real): (t: real)
    ensures nowTs.Some? && nowTs.value != 0.0 ==> t == nowTs.value
    ensures nowTs.None? || nowTs.value == 0.0 ==> t == clock
  {
    if nowTs.None? || nowTs.value == 0.0 then clock else nowTs.value
  }

  /**
   * After any lookup, asking again for the same key within the time to live of
   * what is stored returns the same value and changes nothing, whatever a new
   * computation would give.
   */
  lemma SecondLookupHits<V>(entries: map<string, Entry<V>>, key: string, t1: real, force: bool, ttl: real,
                            c1: V, t2: real, c2: V)
    requires t2 - Lookup(entries, key, t1, force, ttl, c1).1[key].ts < ttl
    ensures var (v1, e1) := Lookup(entries, key, t1, force, ttl, c1);
            Lookup(e1, key, t2, false, ttl, c2) == (v1, e1)
  {
  }

  /** A value computed at `t1` is served for lookups at any `t2` in `[t1, t1 + ttl)`. */
  lemma ServedForTtl<V>(entries: map<string, Entry<V>>, key: string, t1: real, ttl: real, c1: V, t2: real, c2: V)
    requires !Hit(entries, key, t1, false, ttl)
    requires t1 <= t2 < t1 + ttl
    ensures Lookup(Lookup(entries, key, t1, false, ttl, c1).1, key, t2, false, ttl, c2).0 == c1
  {
  }

  /** At exactly `ts + ttl` an entry has expired and is computed again. */
  lemma ExpiresAtTtl<V>(entries: map<string, Entry<V>>, key: string, ttl: real, computed: V)
    requires key in entries
    ensures Lookup(entries, key, entries[key].ts + ttl, false, ttl, computed).0 == computed
  {
  }

  /** A cache mapping keys to values stamped with the time they were computed. */
  class Cache<V> {
    var entries: map<string, Entry<V>>
    const ttl: real

    constructor(ttl: real)
      ensures entries == map[] && this.ttl == ttl
    {
      entries := map[];
      this.ttl := ttl;
    }

    /** Serve `key` from the cache if fresh and not forced, else store and return `computed`. */
    method Get(key: string, now: real, force: bool, computed: V) returns (v: V)
      modifies this
      ensures (v, entries) == Lookup(old(entries), key, now, force, ttl, computed)
    {
      if !force && key in entries && now - entries[key].ts < ttl {
        v := entries[key].value;
      } else {
        v := computed;
        entries := entries[key := Entry(computed, now)];
      }
    }
  }

  /**
   * `fetch_remote_digest_cached(image_ref, force=…, now_ts=…)`: `remote` is
   * what `get_remote_digest` would return for `imageRef` now.
   */
  method FetchRemoteDigestCached(cache: Cache<Option<string>>, imageRef: string, force: bool,
                                 nowTs: Option<real>, clock: real, remote: Option<string>)
    returns (digest: Option<string>)
    requires cache.ttl == PullTtl
    modifies cache
    ensures (digest, cache.entries) == Lookup(old(cache.entries), imageRef, Stamp(nowTs, clock), force, PullTtl, remote)
  {
    var now := if nowTs.None? || nowTs.value == 0.0 then clock else nowTs.value;
    digest := cache.Get(imageRef, now, force, remote);
  }

  /**
   * `_compute_stats_cached(container)`: keyed by the container name, never
   * forced; `stats` is what `_compute_stats` would return now.
   */
  method ComputeStatsCached<S>(cache: Cache<S>, name: string, now: real, stats: S) returns (meta: S)
    requires cache.ttl == StatsTtl
    modifies cache
    ensures (meta, cache.entries) == Lookup(old(cache.entries), name, now, false, StatsTtl, stats)
  {
    meta := cache.Get(name, now, false, stats);
  }
}
