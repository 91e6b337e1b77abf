/** lib/ubiqCache.js: a map whose entries expire a fixed number of
    milliseconds after they were set. The clock (Date.now()) is a
    parameter `now` of every operation that reads it. */
module UbiqCache {
  import opened Wrappers

  const DefaultTtlSeconds: int := 1800

  /** A stored value and its expiry time; None is JS undefined, which
      never expires. */
  datatype Payload<V> = Payload(value: V, expires: Option<int>)

  datatype Cache<K, V> = Cache(ttl: Option<int>, entries: map<K, Payload<V>>)

  /** new ubiqCache(ttl_seconds): an omitted or undefined argument (None)
      takes the default of 1800 seconds; the time to live is kept in
      milliseconds. */
  function New<K, V>(ttlSeconds: Option<int>): (c: Cache<K, V>)
    ensures c.entries == map[]
    ensures ttlSeconds.None? ==> c.ttl == Some(1_800_000)
    ensures ttlSeconds.Some? ==> c.ttl == Some(ttlSeconds.value * 1000)
  {
    var seconds := if ttlSeconds.None? then DefaultTtlSeconds else ttlSeconds.value;
    Cache(Some(seconds * 1000), map[])
  }

  /** set(key, value) at time now. */
  function Set<K, V>(c: Cache<K, V>, key: K, value: V, now: int): (c': Cache<K, V>)
    ensures c'.ttl == c.ttl
    ensures key in c'.entries && c'.entries[key].value == value
    ensures c'.entries.Keys == c.entries.Keys + {key}
  {
    var expires := if c.ttl.None? then None else Some(now + c.ttl.value);
    c.(entries := c.entries[key := Payload(value, expires)])
  }

  /** The entry is still valid at time now. */
  predicate Live<V>(p: Payload<V>, now: int)
  {
    p.expires.None? || p.expires.value > now
  }

  /** get(key) at time now: the value of a live entry; an expired entry is
      removed and reads as undefined (None). */
  function Get<K, V>(c: Cache<K, V>, key: K, now: int): (r: (Cache<K, V>, Option<V>))
    ensures r.1.Some? <==> key in c.entries && Live(c.entries[key], now)
    ensures r.1.Some? ==> r.1.value == c.entries[key].value && r.0 == c
    ensures r.1.None? ==> r.0 == c.(entries := c.entries - {key})
  {
    if key in c.entries then
      var p := c.entries[key];
      if Live(p, now) then (c, Some(p.value))
      else (c.(entries := c.entries - {key}), None)
    else (c, None)
  }

  /** delete(key): whether an entry, live or expired, was there. */
  function Delete<K, V>(c: Cache<K, V>, key: K): (r: (Cache<K, V>, bool))
    ensures r.1 <==> key in c.entries
    ensures r.0.ttl == c.ttl && r.0.entries == c.entries - {key}
  {
    (c.(entries := c.entries - {key}), key in c.entries)
  }

  /** has(key) at time now: get(key) !== undefined, with get's removal. */
  function Has<K, V>(c: Cache<K, V>, key: K, now: int): (r: (Cache<K, V>, bool))
    ensures r.1 <==> key in c.entries && Live(c.entries[key], now)
  {
    var g := Get(c, key, now);
    (g.0, g.1.Some?)
  }

  /** clear(): every entry goes, the time to live stays. */
  function Clear<K, V>(c: Cache<K, V>): (c': Cache<K, V>)
    ensures c'.ttl == c.ttl && |c'.entries| == 0
  {
    c.(entries := map[])
  }

  /** The constructor always fixes a time to live, so no entry of a
      constructed cache has an undefined expiry. */
  lemma ExpiryAlwaysSet<K, V>(ttlSeconds: Option<int>, key: K, value: V, now: int)
    ensures Set(New<K, V>(ttlSeconds), key, value, now).entries[key].expires.Some?
  {
  }

  /** A value set at time t reads back exactly until t + ttl, and from
      then on reads as undefined and is dropped. */
  lemma GetAfterSet<K, V>(c: Cache<K, V>, key: K, value: V, t: int, now: int)
    requires c.ttl.Some?
    ensures var s := Set(c, key, value, t);
            var g := Get(s, key, now);
            && (now < t + c.ttl.value ==> g == (s, Some(value)))
            && (now >= t + c.ttl.value ==> g.1 == None && key !in g.0.entries)
  {
  }

  /** A set leaves every other key's reading as it was. */
  lemma GetAfterSetOther<K, V>(c: Cache<K, V>, key: K, value: V, t: int, key': K, now: int)
    requires key' != key
    ensures Get(Set(c, key, value, t), key', now).1 == Get(c, key', now).1
  {
  }

  /** Reading never adds an entry and drops at most the key read. */
  lemma GetShrinks<K, V>(c: Cache<K, V>, key: K, now: int)
    ensures var r := Get(c, key, now);
            && r.0.ttl == c.ttl
            && r.0.entries.Keys <= c.entries.Keys
            && (forall k :: k in r.0.entries ==> r.0.entries[k] == c.entries[k])
            && (forall k :: k in c.entries && k != key ==> k in r.0.entries)
  {
  }

  /** After a has(key) that answered false, the key is gone; a second
      has(key) at the same time answers the same. */
  lemma HasTwice<K, V>(c: Cache<K, V>, key: K, now: int)
    ensures var r := Has(c, key, now);
            && (!r.1 ==> key !in r.0.entries)
            && Has(r.0, key, now) == r
  {
  }
}
