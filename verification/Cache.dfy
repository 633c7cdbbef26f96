/**
 The inference cache used by one thread at a time: a map from keys to entries and a deque of keys, most
 recently used first. The class keeps the two in step; what it computes is the recency list.
 */
module Cache {
  import opened Wrappers
  import opened Collections
  import opened RecencyList

  datatype CacheStats = CacheStats(hits: nat, misses: nat, entries: nat, evictions: nat)

  class InferenceCache {
    const config: CacheConfig
    var entries: map<string, Entry>
    var lruOrder: seq<string>
    var hits: nat
    var misses: nat
    var evictions: nat

    /** The deque lists every key of the map exactly once. */
    ghost predicate Valid()
      reads this
    {
      NoDup(lruOrder) && entries.Keys == Elements(lruOrder)
    }

    ghost function View(): Recency
      reads this
      requires Valid()
    {
      Recency(Items(lruOrder, entries), hits, misses, evictions)
    }

    constructor (config: CacheConfig)
      ensures Valid() && View() == EMPTY && this.config == config
    {
      this.config := config;
      entries, lruOrder := map[], [];
      hits, misses, evictions := 0, 0, 0;
    }

    method Get(key: string, now: nat) returns (r: Option<string>)
      requires Valid()
      modifies this
      ensures Valid()
      ensures (View(), r) == RecencyList.Get(config, old(View()), key, now)
      ensures hits == old(hits) + (if config.enabled && r.Some? then 1 else 0)
      ensures misses == old(misses) + (if config.enabled && r.None? then 1 else 0)
      ensures evictions == old(evictions)
    {
      if !config.enabled {
        return None;
      }
      FindItems(lruOrder, entries, key);
      if key in entries && !entries[key].IsExpired(now) {
        r := Some(entries[key].value);
        hits := hits + 1;
        StoreInFront(lruOrder, entries, key, entries[key]);
        assert entries[key := entries[key]] == entries;
        lruOrder := [key] + Retain(lruOrder, key);
        return;
      }
      if key in entries && entries[key].IsExpired(now) {
        RemoveItem(lruOrder, entries, key);
        entries := entries - {key};
        misses := misses + 1;
        lruOrder := Retain(lruOrder, key);
      } else {
        misses := misses + 1;
      }
      r := None;
    }

    method Set(key: string, value: string, now: nat)
      requires Valid()
      requires config.enabled ==> config.maxEntries >= 1
      modifies this
      ensures Valid()
      ensures View() == RecencyList.Set(config, old(View()), key, value, now)
    {
      hide Items;
      hide NoDup;
      hide Elements;
      hide Filter;
      if !config.enabled {
        return;
      }
      MakeRoom();
      StoreInFront(lruOrder, entries, key, Entry(value, now, config.Ttl()));
      entries := entries[key := Entry(value, now, config.Ttl())];
      lruOrder := [key] + Retain(lruOrder, key);
    }

    /** The eviction loop of `Set`. */
    method MakeRoom()
      requires Valid() && config.maxEntries >= 1
      modifies this`entries, this`lruOrder, this`evictions
      ensures Valid()
      ensures var size := |old(View()).items|;
        View() == old(View()).(items := old(View()).items[..size - Excess(config, size)],
                               evictions := old(evictions) + Excess(config, size))
    {
      ghost var items := Items(lruOrder, entries);
      hide Items;
      hide NoDup;
      hide Elements;
      SizesAgree(lruOrder, entries);
      ItemsLength(lruOrder, entries);
      while |entries| >= config.maxEntries
        invariant Valid() && |entries| == |lruOrder| <= |items|
        invariant lruOrder == old(lruOrder)[..|lruOrder|]
        invariant |lruOrder| < |items| ==> |lruOrder| >= config.maxEntries - 1
        invariant Items(lruOrder, entries) == items[..|lruOrder|]
        invariant evictions == old(evictions) + |items| - |lruOrder|
        decreases |lruOrder|
      {
        ghost var n := |lruOrder|;
        EvictLru();
        SizesAgree(lruOrder, entries);
        PrefixOfPrefix(items, n, |lruOrder|);
        PrefixOfPrefix(old(lruOrder), n, |lruOrder|);
      }
    }

    /** Pops the oldest key of the deque and removes it from the map. */
    method EvictLru()
      requires Valid()
      modifies this`entries, this`lruOrder, this`evictions
      ensures Valid()
      ensures lruOrder == if old(lruOrder) == [] then [] else old(lruOrder)[..|old(lruOrder)| - 1]
      ensures Items(lruOrder, entries) == Items(old(lruOrder), old(entries))[..|lruOrder|]
      ensures evictions == old(evictions) + |old(lruOrder)| - |lruOrder|
    {
      if lruOrder != [] {
        var key := lruOrder[|lruOrder| - 1];
        lruOrder := lruOrder[..|lruOrder| - 1];
        entries := entries - {key};
        evictions := evictions + 1;
        assert old(lruOrder) == lruOrder + [key];
      }
    }

    method Contains(key: string, now: nat) returns (b: bool)
      requires Valid()
      ensures b <==> RecencyList.Get(config, View(), key, now).1.Some?
    {
      FindItems(lruOrder, entries, key);
      b := config.enabled && key in entries && !entries[key].IsExpired(now);
    }

    method Clear()
      requires Valid()
      modifies this
      ensures Valid() && View() == RecencyList.Clear(old(View()))
    {
      entries := map[];
      lruOrder := [];
      hits := 0;
      misses := 0;
    }

    method Stats() returns (r: CacheStats)
      requires Valid()
      ensures r == CacheStats(View().hits, View().misses, |View().items|, View().evictions)
    {
      SizesAgree(lruOrder, entries);
      r := CacheStats(hits, misses, |entries|, evictions);
    }
  }

  /** What `retain(|k| k != key)` leaves of the deque. */
  function Retain(keys: seq<string>, key: string): seq<string> {
    Filter(keys, (k: string) => k != key)
  }

  function Items(keys: seq<string>, entries: map<string, Entry>): seq<Item>
    requires Elements(keys) <= entries.Keys
  {
    seq(|keys|, i requires 0 <= i < |keys| => Item(keys[i], entries[keys[i]]))
  }

  lemma PrefixOfPrefix<T>(s: seq<T>, m: nat, n: nat)
    requires n <= m <= |s|
    ensures s[..m][..n] == s[..n]
  {
  }

  lemma ItemsLength(keys: seq<string>, entries: map<string, Entry>)
    requires Elements(keys) <= entries.Keys
    ensures |Items(keys, entries)| == |keys|
  {
  }

  lemma SizesAgree(keys: seq<string>, entries: map<string, Entry>)
    requires NoDup(keys) && entries.Keys == Elements(keys)
    ensures |entries| == |keys|
  {
    NoDupSize(keys);
    assert |entries| == |entries.Keys|;
  }

  lemma {:induction false} FindItems(keys: seq<string>, entries: map<string, Entry>, key: string)
    requires Elements(keys) <= entries.Keys
    ensures Find(Items(keys, entries), key) == if key in keys then Some(entries[key]) else None
  {
    if keys != [] {
      assert keys[0] in keys && Elements(keys[1..]) <= Elements(keys);
      assert Items(keys, entries)[1..] == Items(keys[1..], entries);
      FindItems(keys[1..], entries, key);
    }
  }

  lemma RetainKeys(keys: seq<string>, key: string)
    requires NoDup(keys)
    ensures NoDup(Retain(keys, key)) && Elements(Retain(keys, key)) == Elements(keys) - {key}
    ensures NoDup([key] + Retain(keys, key))
  {
    var p := (k: string) => k != key;
    FilterNoDup(keys, p);
    forall x
      ensures x in Retain(keys, key) <==> x in keys && x != key
    {
      FilterMember(keys, p, x);
    }
    assert key !in Retain(keys, key);
  }

  /** Retaining keys in the deque and removing the key's item from the list are the same thing. */
  lemma {:induction false} WithoutItems(keys: seq<string>, entries: map<string, Entry>, key: string)
    requires NoDup(keys) && Elements(keys) <= entries.Keys
    ensures Elements(Retain(keys, key)) <= entries.Keys
    ensures Items(Retain(keys, key), entries) == Without(Items(keys, entries), key)
  {
    RetainKeys(keys, key);
    if keys != [] {
      assert keys[0] in keys && Elements(keys[1..]) <= Elements(keys);
      assert Items(keys, entries)[1..] == Items(keys[1..], entries);
      WithoutItems(keys[1..], entries, key);
    }
  }

  /** Removing the key from deque and map. */
  lemma RemoveItem(keys: seq<string>, entries: map<string, Entry>, key: string)
    requires NoDup(keys) && entries.Keys == Elements(keys)
    ensures NoDup(Retain(keys, key)) && (entries - {key}).Keys == Elements(Retain(keys, key))
    ensures Items(Retain(keys, key), entries - {key}) == Without(Items(keys, entries), key)
  {
    RetainKeys(keys, key);
    WithoutItems(keys, entries, key);
    assert forall k | k in Retain(keys, key) :: k in Elements(Retain(keys, key));
  }

  /** Storing an entry under the key and moving the key to the front. */
  lemma StoreInFront(keys: seq<string>, entries: map<string, Entry>, key: string, e: Entry)
    requires NoDup(keys) && entries.Keys == Elements(keys)
    ensures NoDup([key] + Retain(keys, key))
    ensures entries[key := e].Keys == Elements([key] + Retain(keys, key))
    ensures Items([key] + Retain(keys, key), entries[key := e])
         == [Item(key, e)] + Without(Items(keys, entries), key)
  {
    RetainKeys(keys, key);
    WithoutItems(keys, entries, key);
    assert forall k :: k in [key] + Retain(keys, key) <==> k == key || k in Elements(Retain(keys, key));
  }
}
