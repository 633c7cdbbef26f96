/** A recency list with a lifetime per entry: the sequential meaning of the inference cache. */
module RecencyList {
  import opened Wrappers
  import opened Collections

  /** Instants and durations are in nanoseconds. */
  datatype CacheConfig = CacheConfig(enabled: bool, maxEntries: nat, ttlSeconds: nat) {
    function Ttl(): nat { ttlSeconds * 1_000_000_000 }
  }

  datatype Entry = Entry(value: string, createdAt: nat, ttl: nat) {
    /** More time than the entry's lifetime has passed; an instant before creation counts as no time. */
    predicate IsExpired(now: nat) { now > createdAt && now - createdAt > ttl }
  }

  datatype Item = Item(key: string, entry: Entry)

  /** The cache as one list, most recently set or hit first, with its counters. */
  datatype Recency = Recency(items: seq<Item>, hits: nat, misses: nat, evictions: nat)

  const EMPTY := Recency([], 0, 0, 0)

  function Without(items: seq<Item>, key: string): seq<Item> {
    Filter(items, (x: Item) => x.key != key)
  }

  function Find(items: seq<Item>, key: string): Option<Entry> {
    if items == [] then None
    else if items[0].key == key then Some(items[0].entry)
    else Find(items[1..], key)
  }

  function Get(c: CacheConfig, s: Recency, key: string, now: nat): (Recency, Option<string>) {
    if !c.enabled then (s, None)
    else
      match Find(s.items, key)
      case None => (s.(misses := s.misses + 1), None)
      case Some(e) =>
        if e.IsExpired(now) then (s.(items := Without(s.items, key), misses := s.misses + 1), None)
        else (s.(items := [Item(key, e)] + Without(s.items, key), hits := s.hits + 1), Some(e.value))
  }

  /** How many of the oldest items must go before there is room for one more. */
  function Excess(c: CacheConfig, size: nat): nat
    requires c.maxEntries >= 1
  {
    if size >= c.maxEntries then size - (c.maxEntries - 1) else 0
  }

  function Set(c: CacheConfig, s: Recency, key: string, value: string, now: nat): Recency
    requires c.enabled ==> c.maxEntries >= 1
  {
    if !c.enabled then s
    else
      var kept := s.items[..|s.items| - Excess(c, |s.items|)];
      s.(items := [Item(key, Entry(value, now, c.Ttl()))] + Without(kept, key),
         evictions := s.evictions + Excess(c, |s.items|))
  }

  function Clear(s: Recency): Recency { Recency([], 0, 0, s.evictions) }
}
