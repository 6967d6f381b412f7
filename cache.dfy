/** The in-memory read cache of models.py:141-164: a dictionary from key to a
    value and the time it was stored. Entries older than the time-to-live are
    dropped when read; writers clear every key under a prefix. Times are the
    readings of time.time(), passed in by the caller. */
module Cache {
  import opened Common
  import opened Text

  /** _CACHE_TTL, in seconds. */
  const Ttl: real := 5.0

  datatype Entry<V> = Entry(value: V, stamp: real)

  /** An entry survives a read at time `now` unless more than Ttl seconds old;
      an entry exactly Ttl seconds old is still served. */
  predicate Fresh<V>(e: Entry<V>, now: real) {
    now - e.stamp <= Ttl
  }

  /** The dictionary left by _cache_clear(prefix): everything for None, otherwise
      every entry whose key does not start with the prefix. */
  function Cleared<V>(m: map<string, Entry<V>>, prefix: Option<string>): map<string, Entry<V>> {
    match prefix
    case None => map[]
    case Some(p) => map k | k in m && !StartsWith(k, p) :: m[k]
  }

  /** Clearing removes exactly the keys under the prefix and keeps every other
      entry as it was. */
  lemma ClearedExactly<V>(m: map<string, Entry<V>>, p: string, k: string)
    ensures k in Cleared(m, Some(p)) <==> k in m && !StartsWith(k, p)
    ensures k in Cleared(m, Some(p)) ==> Cleared(m, Some(p))[k] == m[k]
    ensures Cleared(m, None) == map[]
  {
  }

  class TtlCache<V> {
    var entries: map<string, Entry<V>>

    constructor ()
      ensures entries == map[]
    {
      entries := map[];
    }

    /** _cache_get: None on a miss; None and the entry removed when it is stale;
        otherwise the stored value, unchanged, and nothing removed. */
    method Get(key: string, now: real) returns (r: Option<V>)
      modifies this
      ensures key !in old(entries) ==> r == None && entries == old(entries)
      ensures key in old(entries) && !Fresh(old(entries)[key], now) ==>
                r == None && entries == old(entries) - {key}
      ensures key in old(entries) && Fresh(old(entries)[key], now) ==>
                r == Some(old(entries)[key].value) && entries == old(entries)
    {
      if key !in entries {
        return None;
      }
      var entry := entries[key];
      if now - entry.stamp > Ttl {
        entries := entries - {key};
        return None;
      }
      r := Some(entry.value);
    }

    /** _cache_set: stores the value with the current time, replacing any entry. */
    method Set(key: string, value: V, now: real)
      modifies this
      ensures entries == old(entries)[key := Entry(value, now)]
    {
      entries := entries[key := Entry(value, now)];
    }

    /** _cache_clear, including the key-by-key loop over a snapshot of the keys. */
    method Clear(prefix: Option<string>)
      modifies this
      ensures entries == Cleared(old(entries), prefix)
    {
      if prefix.None? {
        entries := map[];
        return;
      }
      var p := prefix.value;
      var pending := entries.Keys;
      while pending != {}
        invariant pending <= old(entries).Keys
        invariant entries == map k | k in old(entries) && (k in pending || !StartsWith(k, p)) :: old(entries)[k]
        decreases pending
      {
        var k :| k in pending;
        if StartsWith(k, p) {
          entries := entries - {k};
        }
        pending := pending - {k};
      }
    }
  }

  /** Storing a value and reading it back at the same instant returns it. */
  method SetThenGet<V>(c: TtlCache<V>, key: string, value: V, now: real) returns (r: Option<V>)
    modifies c
    ensures r == Some(value)
    ensures c.entries == old(c.entries)[key := Entry(value, now)]
  {
    c.Set(key, value, now);
    r := c.Get(key, now);
  }
}
