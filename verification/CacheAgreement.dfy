/**
 The cache at the granularity of its locks, when no other thread interferes: every operation does to map, deque and
 counters what it does to the recency list.
 */
module CacheAgreement {
  import opened Wrappers
  import opened Collections
  import opened RecencyList
  import opened Cache
  import opened CacheInterleaving
  import opened CacheEviction

  ghost predicate Agrees(s: State) { NoDup(s.order) && s.entries.Keys == Elements(s.order) }

  ghost function ListOf(s: State): Recency
    requires Agrees(s)
  {
    Recency(Items(s.order, s.entries), s.hits, s.misses, s.evictions)
  }

  /** `n` steps of thread `i` alone lead from `s` to `t`. */
  ghost predicate Leads(c: CacheConfig, s: State, i: nat, n: nat, t: State) {
    ValidRun(c, s, Solo(i, n)) && Outcome(c, s, Solo(i, n)) == t
  }

  lemma LeadsNowhere(c: CacheConfig, s: State, i: nat)
    ensures Leads(c, s, i, 0, s)
  {
    SoloNone(c, s, i);
  }

  lemma LeadsOn(c: CacheConfig, s: State, i: nat, next: State, n: nat, t: State)
    requires Enabled(s, Continue(i)) && next == Apply(c, s, Continue(i)) && Leads(c, next, i, n, t)
    ensures Leads(c, s, i, n + 1, t)
  {
    SoloStep(c, s, i, n);
  }

  function At(s: State, i: nat, thread: Thread): State
    requires i < |s.threads|
  {
    s.(threads := s.threads[i := thread])
  }

  // ----- Get -----

  lemma GetHitLeads(c: CacheConfig, s: State, i: nat, key: string)
    requires i < |s.threads| && s.threads[i] == GetLookup(key)
    requires key in s.entries && !s.entries[key].IsExpired(s.now)
    ensures Leads(c, s, i, 3, At(s, i, Idle).(hits := s.hits + 1, order := Touch(s.order, key)))
  {
    var s1 := At(s, i, GetCountHit(key));
    var s2 := At(s, i, GetTouch(key)).(hits := s.hits + 1);
    var s3 := At(s, i, Idle).(hits := s.hits + 1, order := Touch(s.order, key));
    hide Leads;
    hide Touch;
    assert s1.threads[i := GetTouch(key)] == s2.threads && s2.threads[i := Idle] == s3.threads;
    LeadsNowhere(c, s3, i);
    LeadsOn(c, s2, i, s3, 0, s3);
    LeadsOn(c, s1, i, s2, 1, s3);
    LeadsOn(c, s, i, s1, 2, s3);
  }

  lemma GetExpiredLeads(c: CacheConfig, s: State, i: nat, key: string)
    requires i < |s.threads| && s.threads[i] == GetLookup(key)
    requires key in s.entries && s.entries[key].IsExpired(s.now)
    ensures Leads(c, s, i, 4, At(s, i, Idle).(misses := s.misses + 1, entries := s.entries - {key},
                                             order := Retain(s.order, key)))
  {
    var s1 := At(s, i, GetRemoveExpired(key));
    var s2 := At(s, i, GetCountMiss(key, true)).(entries := s.entries - {key});
    var s3 := At(s, i, GetForget(key)).(entries := s.entries - {key}, misses := s.misses + 1);
    var s4 := At(s, i, Idle).(entries := s.entries - {key}, misses := s.misses + 1, order := Retain(s.order, key));
    hide Leads;
    assert s1.threads[i := GetCountMiss(key, true)] == s2.threads && s2.threads[i := GetForget(key)] == s3.threads;
    assert s3.threads[i := Idle] == s4.threads;
    LeadsNowhere(c, s4, i);
    LeadsOn(c, s3, i, s4, 0, s4);
    LeadsOn(c, s2, i, s3, 1, s4);
    LeadsOn(c, s1, i, s2, 2, s4);
    LeadsOn(c, s, i, s1, 3, s4);
  }

  lemma GetMissingLeads(c: CacheConfig, s: State, i: nat, key: string)
    requires i < |s.threads| && s.threads[i] == GetLookup(key) && key !in s.entries
    ensures Leads(c, s, i, 3, At(s, i, Idle).(misses := s.misses + 1))
  {
    var s1 := At(s, i, GetRemoveExpired(key));
    var s2 := At(s, i, GetCountMiss(key, false));
    var s3 := At(s, i, Idle).(misses := s.misses + 1);
    hide Leads;
    assert s1.threads[i := GetCountMiss(key, false)] == s2.threads && s2.threads[i := Idle] == s3.threads;
    LeadsNowhere(c, s3, i);
    LeadsOn(c, s2, i, s3, 0, s3);
    LeadsOn(c, s1, i, s2, 1, s3);
    LeadsOn(c, s, i, s1, 2, s3);
  }

  /** A `get` on its own does what the list does. */
  lemma {:induction false} GetAlone(c: CacheConfig, s: State, i: nat, key: string) returns (n: nat, t: State)
    requires c.enabled && i < |s.threads| && s.threads[i] == GetLookup(key) && Agrees(s)
    ensures Leads(c, s, i, n, t) && t.threads == s.threads[i := Idle] && t.now == s.now
    ensures Agrees(t) && ListOf(t) == Get(c, ListOf(s), key, s.now).0
  {
    hide Leads;
    FindItems(s.order, s.entries, key);
    if key !in s.entries {
      GetMissingLeads(c, s, i, key);
      n, t := 3, At(s, i, Idle).(misses := s.misses + 1);
    } else if s.entries[key].IsExpired(s.now) {
      GetExpiredLeads(c, s, i, key);
      RemoveItem(s.order, s.entries, key);
      n, t := 4, At(s, i, Idle).(misses := s.misses + 1, entries := s.entries - {key}, order := Retain(s.order, key));
    } else {
      GetHitLeads(c, s, i, key);
      StoreInFront(s.order, s.entries, key, s.entries[key]);
      assert s.entries[key := s.entries[key]] == s.entries;
      n, t := 3, At(s, i, Idle).(hits := s.hits + 1, order := Touch(s.order, key));
    }
  }

  // ----- Set -----

  lemma StoreLeads(c: CacheConfig, s: State, i: nat, key: string, value: string)
    requires i < |s.threads| && s.threads[i] == SetCheck(key, value) && |s.entries| < c.maxEntries
    ensures Leads(c, s, i, 4, At(s, i, Idle).(entries := s.entries[key := Entry(value, s.now, c.Ttl())],
                                             order := Touch(s.order, key)))
  {
    var e := Entry(value, s.now, c.Ttl());
    var s1 := At(s, i, SetStamp(key, value));
    var s2 := At(s, i, SetInsert(key, e));
    var s3 := At(s, i, SetTouch(key)).(entries := s.entries[key := e]);
    var s4 := At(s, i, Idle).(entries := s.entries[key := e], order := Touch(s.order, key));
    hide Leads;
    hide Touch;
    assert s1.threads[i := SetInsert(key, e)] == s2.threads && s2.threads[i := SetTouch(key)] == s3.threads;
    assert s3.threads[i := Idle] == s4.threads;
    LeadsNowhere(c, s4, i);
    LeadsOn(c, s3, i, s4, 0, s4);
    LeadsOn(c, s2, i, s3, 1, s4);
    LeadsOn(c, s1, i, s2, 2, s4);
    LeadsOn(c, s, i, s1, 3, s4);
  }

  lemma RoundLeads(c: CacheConfig, s: State, i: nat, n: nat, t: State)
    requires i < |s.threads| && s.threads[i].SetCheck? && |s.entries| >= c.maxEntries && s.order != []
    requires Leads(c, EvictedOne(s), i, n, t)
    ensures Leads(c, s, i, n + 4, t)
  {
    hide Leads;
    hide Apply;
    hide Enabled;
    hide CacheEviction.Popped;
    hide EvictedOne;
    var go, p := Continue(i), CacheEviction.Popped(s, i);
    CheckAndPop(c, s, i);
    RemoveAndCount(c, s, i);
    LeadsOn(c, Apply(c, p, go), i, EvictedOne(s), n, t);
    LeadsOn(c, p, i, Apply(c, p, go), n + 1, t);
    LeadsOn(c, Apply(c, s, go), i, p, n + 2, t);
    LeadsOn(c, s, i, Apply(c, s, go), n + 3, t);
  }

  /** Evicting takes the last item off the list. */
  lemma EvictedList(s: State)
    requires Agrees(s) && s.order != []
    ensures Agrees(EvictedOne(s))
    ensures ListOf(EvictedOne(s))
         == ListOf(s).(items := ListOf(s).items[..|s.order| - 1], evictions := s.evictions + 1)
  {
    var last := |s.order| - 1;
    assert s.order == s.order[..last] + [s.order[last]];
  }

  lemma SetAfterEviction(c: CacheConfig, l: Recency, key: string, value: string, now: nat)
    requires c.enabled && c.maxEntries >= 1 && |l.items| >= c.maxEntries
    ensures RecencyList.Set(c, l.(items := l.items[..|l.items| - 1], evictions := l.evictions + 1), key, value, now)
         == RecencyList.Set(c, l, key, value, now)
  {
    var n := |l.items| - 1;
    assert l.items[..n][..n - Excess(c, n)] == l.items[..|l.items| - Excess(c, |l.items|)];
  }

  /** A `set` on its own does what the list does, however many evictions it needs. */
  lemma {:induction false} SetAlone(c: CacheConfig, s: State, i: nat, key: string, value: string)
    returns (n: nat, t: State)
    requires c.enabled && c.maxEntries >= 1
    requires i < |s.threads| && s.threads[i] == SetCheck(key, value) && Agrees(s)
    ensures Leads(c, s, i, n, t) && t.threads == s.threads[i := Idle] && t.now == s.now
    ensures Agrees(t) && ListOf(t) == RecencyList.Set(c, ListOf(s), key, value, s.now)
    decreases |s.order|
  {
    hide Leads;
    SizesAgree(s.order, s.entries);
    ItemsLength(s.order, s.entries);
    if |s.entries| < c.maxEntries {
      StoreLeads(c, s, i, key, value);
      StoreInFront(s.order, s.entries, key, Entry(value, s.now, c.Ttl()));
      var entries := s.entries[key := Entry(value, s.now, c.Ttl())];
      n, t := 4, At(s, i, Idle).(entries := entries, order := Touch(s.order, key));
      assert ListOf(s).items[..|s.order|] == ListOf(s).items;
    } else {
      EvictedList(s);
      n, t := SetAlone(c, EvictedOne(s), i, key, value);
      RoundLeads(c, s, i, n, t);
      n := n + 4;
      SetAfterEviction(c, ListOf(s), key, value, s.now);
    }
  }

  // ----- Clear -----

  lemma ClearLeads(c: CacheConfig, s: State, i: nat)
    requires i < |s.threads| && s.threads[i].ClearEntries?
    ensures Leads(c, s, i, 4, At(s, i, Idle).(entries := map[], order := [], hits := 0, misses := 0))
  {
    var s1 := At(s, i, ClearOrder).(entries := map[]);
    var s2 := At(s, i, ClearHits).(entries := map[], order := []);
    var s3 := At(s, i, ClearMisses).(entries := map[], order := [], hits := 0);
    var s4 := At(s, i, Idle).(entries := map[], order := [], hits := 0, misses := 0);
    hide Leads;
    assert s1.threads[i := ClearHits] == s2.threads && s2.threads[i := ClearMisses] == s3.threads;
    assert s3.threads[i := Idle] == s4.threads;
    LeadsNowhere(c, s4, i);
    LeadsOn(c, s3, i, s4, 0, s4);
    LeadsOn(c, s2, i, s3, 1, s4);
    LeadsOn(c, s1, i, s2, 2, s4);
    LeadsOn(c, s, i, s1, 3, s4);
  }

  /** A `clear` on its own does what the list does. */
  lemma ClearAlone(c: CacheConfig, s: State, i: nat) returns (t: State)
    requires i < |s.threads| && s.threads[i].ClearEntries? && Agrees(s)
    ensures Leads(c, s, i, 4, t) && t.threads == s.threads[i := Idle] && t.now == s.now
    ensures Agrees(t) && ListOf(t) == RecencyList.Clear(ListOf(s))
  {
    hide Leads;
    t := At(s, i, Idle).(entries := map[], order := [], hits := 0, misses := 0);
    ClearLeads(c, s, i);
  }
}
