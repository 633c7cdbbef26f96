/** What the recency list guarantees over whole runs of operations, stated on the operations themselves. */
module CacheRuns {
  import opened Wrappers
  import opened Collections
  import opened RecencyList

  datatype Op = GetOp(key: string) | SetOp(key: string, value: string) | ClearOp
  datatype TimedOp = TimedOp(op: Op, now: nat)

  predicate Usable(c: CacheConfig) { c.enabled && c.maxEntries >= 1 }

  function Do(c: CacheConfig, s: Recency, x: TimedOp): Recency
    requires Usable(c)
  {
    match x.op
    case GetOp(k) => Get(c, s, k, x.now).0
    case SetOp(k, v) => Set(c, s, k, v, x.now)
    case ClearOp => Clear(s)
  }

  /** The list after a run that starts with an empty cache. */
  function After(c: CacheConfig, ops: seq<TimedOp>): Recency
    requires Usable(c)
  {
    if ops == [] then EMPTY else Do(c, After(c, ops[..|ops| - 1]), ops[|ops| - 1])
  }

  ghost predicate DistinctKeys(items: seq<Item>) {
    Pairwise(items, (a: Item, b: Item) => a.key != b.key)
  }

  lemma {:induction false} FindExact(items: seq<Item>, key: string)
    ensures Find(items, key).None? ==> forall i | 0 <= i < |items| :: items[i].key != key
    ensures Find(items, key).Some? ==> exists i :: 0 <= i < |items| && items[i] == Item(key, Find(items, key).value)
  {
    if items != [] && items[0].key != key {
      FindExact(items[1..], key);
      if Find(items, key).Some? {
        var i :| 0 <= i < |items[1..]| && items[1..][i] == Item(key, Find(items, key).value);
        assert items[i + 1] == Item(key, Find(items, key).value);
      }
    }
  }

  /** An item that is in the list and does not have the removed key is still in the list. */
  lemma WithoutKeeps(items: seq<Item>, key: string, x: Item)
    ensures x in Without(items, key) <==> x in items && x.key != key
  {
    FilterMember(items, (y: Item) => y.key != key, x);
  }

  // ----- Size, distinct keys and counters -----

  lemma WithoutDistinct(items: seq<Item>, x: Item)
    requires DistinctKeys(items)
    ensures DistinctKeys(Without(items, x.key)) && DistinctKeys([x] + Without(items, x.key))
    ensures |Without(items, x.key)| <= |items|
    ensures (exists y :: y in items && y.key == x.key) ==> |Without(items, x.key)| < |items|
  {
    var others := (y: Item) => y.key != x.key;
    FilterPairwise(items, others, (a: Item, b: Item) => a.key != b.key);
    FilterLength(items, others);
    forall k | 0 <= k < |Without(items, x.key)|
      ensures Without(items, x.key)[k].key != x.key
    {
      WithoutKeeps(items, x.key, Without(items, x.key)[k]);
    }
  }

  lemma StepKeepsList(c: CacheConfig, s: Recency, x: TimedOp)
    requires Usable(c) && DistinctKeys(s.items) && |s.items| <= c.maxEntries
    ensures DistinctKeys(Do(c, s, x).items) && |Do(c, s, x).items| <= c.maxEntries
  {
    match x.op
    case GetOp(k) =>
      FindExact(s.items, k);
      if Find(s.items, k).Some? {
        WithoutDistinct(s.items, Item(k, Find(s.items, k).value));
      }
    case SetOp(k, v) =>
      WithoutDistinct(s.items[..|s.items| - Excess(c, |s.items|)], Item(k, Entry(v, x.now, c.Ttl())));
    case ClearOp =>
  }

  /** In every run the keys are distinct and at most `max_entries` of them are stored. */
  lemma {:induction false} ListInvariant(c: CacheConfig, ops: seq<TimedOp>)
    requires Usable(c)
    ensures DistinctKeys(After(c, ops).items) && |After(c, ops).items| <= c.maxEntries
  {
    if ops != [] {
      ListInvariant(c, ops[..|ops| - 1]);
      StepKeepsList(c, After(c, ops[..|ops| - 1]), ops[|ops| - 1]);
    }
  }

  /** How many gets a run made since its last clear. */
  function GetsSinceClear(ops: seq<TimedOp>): nat {
    if ops == [] || ops[|ops| - 1].op.ClearOp? then 0
    else GetsSinceClear(ops[..|ops| - 1]) + (if ops[|ops| - 1].op.GetOp? then 1 else 0)
  }

  /** Every get since the last clear was counted once, as a hit or as a miss. */
  lemma {:induction false} CountersCoverGets(c: CacheConfig, ops: seq<TimedOp>)
    requires Usable(c)
    ensures After(c, ops).hits + After(c, ops).misses == GetsSinceClear(ops)
  {
    if ops != [] {
      CountersCoverGets(c, ops[..|ops| - 1]);
    }
  }

  // ----- Recency: the list is ordered by last use -----

  predicate Hits(c: CacheConfig, s: Recency, key: string, now: nat)
    requires Usable(c)
  {
    Get(c, s, key, now).1.Some?
  }

  /** The step uses `key`: it sets it, or gets it and finds it alive. */
  predicate Uses(c: CacheConfig, s: Recency, x: TimedOp, key: string)
    requires Usable(c)
  {
    match x.op
    case GetOp(k) => k == key && Hits(c, s, k, x.now)
    case SetOp(k, v) => k == key
    case ClearOp => false
  }

  /** The index of the last step of a run that used `key`, or -1. */
  function LastUse(c: CacheConfig, ops: seq<TimedOp>, key: string): int
    requires Usable(c)
  {
    if ops == [] then -1
    else if Uses(c, After(c, ops[..|ops| - 1]), ops[|ops| - 1], key) then |ops| - 1
    else LastUse(c, ops[..|ops| - 1], key)
  }

  function UsedLater(c: CacheConfig, ops: seq<TimedOp>): (Item, Item) -> bool
    requires Usable(c)
  {
    (a: Item, b: Item) => LastUse(c, ops, a.key) > LastUse(c, ops, b.key)
  }

  ghost predicate OrderedByUse(c: CacheConfig, ops: seq<TimedOp>, items: seq<Item>)
    requires Usable(c)
  {
    && (forall x | x in items :: 0 <= LastUse(c, ops, x.key) < |ops|)
    && Pairwise(items, UsedLater(c, ops))
  }

  /**
   The list is always ordered by last use, most recent first. Eviction drops the end of the list, so the
   key it removes is the one whose last set or hit is oldest.
   */
  lemma {:induction false} OrderedByLastUse(c: CacheConfig, ops: seq<TimedOp>)
    requires Usable(c)
    ensures OrderedByUse(c, ops, After(c, ops).items)
  {
    if ops != [] {
      OrderedByLastUse(c, ops[..|ops| - 1]);
      StepKeepsOrder(c, ops);
    }
  }

  lemma {:induction false} StepKeepsOrder(c: CacheConfig, ops: seq<TimedOp>)
    requires Usable(c) && ops != []
    requires OrderedByUse(c, ops[..|ops| - 1], After(c, ops[..|ops| - 1]).items)
    ensures OrderedByUse(c, ops, After(c, ops).items)
  {
    hide OrderedByUse;
    hide LastUse;
    match ops[|ops| - 1].op
    case GetOp(_) => GetKeepsOrder(c, ops);
    case SetOp(_, _) => SetKeepsOrder(c, ops);
    case ClearOp => OrderedEmpty(c, ops);
  }

  lemma {:induction false} GetKeepsOrder(c: CacheConfig, ops: seq<TimedOp>)
    requires Usable(c) && ops != [] && ops[|ops| - 1].op.GetOp?
    requires OrderedByUse(c, ops[..|ops| - 1], After(c, ops[..|ops| - 1]).items)
    ensures OrderedByUse(c, ops, After(c, ops).items)
  {
    hide OrderedByUse;
    hide LastUse;
    hide Filter;
    var x, s := ops[|ops| - 1], After(c, ops[..|ops| - 1]);
    var k := x.op.key;
    match Find(s.items, k)
    case None => UnusedKeepsOrder(c, ops);
    case Some(e) =>
      OrderedWithout(c, ops, s.items, k);
      if !e.IsExpired(x.now) {
        OrderedInFront(c, ops, Item(k, e), Without(s.items, k));
      }
  }

  lemma {:induction false} SetKeepsOrder(c: CacheConfig, ops: seq<TimedOp>)
    requires Usable(c) && ops != [] && ops[|ops| - 1].op.SetOp?
    requires OrderedByUse(c, ops[..|ops| - 1], After(c, ops[..|ops| - 1]).items)
    ensures OrderedByUse(c, ops, After(c, ops).items)
  {
    hide OrderedByUse;
    hide LastUse;
    hide Filter;
    hide After;
    var front, x := ops[..|ops| - 1], ops[|ops| - 1];
    var s, k := After(c, front), x.op.key;
    var kept := Room(c, s);
    AfterSet(c, ops);
    OrderedPrefix(c, front, s.items, |kept|);
    OrderedWithout(c, ops, kept, k);
    OrderedInFront(c, ops, Item(k, Entry(x.op.value, x.now, c.Ttl())), Without(kept, k));
  }

  /** What evicting for a further item leaves. */
  function Room(c: CacheConfig, s: Recency): seq<Item>
    requires Usable(c)
  {
    s.items[..|s.items| - Excess(c, |s.items|)]
  }

  lemma {:induction false} AfterSet(c: CacheConfig, ops: seq<TimedOp>)
    requires Usable(c) && ops != [] && ops[|ops| - 1].op.SetOp?
    ensures var x, s := ops[|ops| - 1], After(c, ops[..|ops| - 1]);
      After(c, ops).items
      == [Item(x.op.key, Entry(x.op.value, x.now, c.Ttl()))] + Without(Room(c, s), x.op.key)
  {
  }

  lemma OrderedEmpty(c: CacheConfig, ops: seq<TimedOp>)
    requires Usable(c)
    ensures OrderedByUse(c, ops, [])
  {
  }

  lemma OrderedPrefix(c: CacheConfig, ops: seq<TimedOp>, items: seq<Item>, n: nat)
    requires Usable(c) && n <= |items| && OrderedByUse(c, ops, items)
    ensures OrderedByUse(c, ops, items[..n])
  {
    assert forall x | x in items[..n] :: x in items;
  }

  /** A get that finds nothing uses no key. */
  lemma {:induction false} UnusedKeepsOrder(c: CacheConfig, ops: seq<TimedOp>)
    requires Usable(c) && ops != []
    requires var s, x := After(c, ops[..|ops| - 1]), ops[|ops| - 1];
      x.op.GetOp? && Find(s.items, x.op.key).None? && OrderedByUse(c, ops[..|ops| - 1], s.items)
    ensures OrderedByUse(c, ops, After(c, ops[..|ops| - 1]).items)
  {
    hide After;
    var items := After(c, ops[..|ops| - 1]).items;
    assert forall y: string :: LastUse(c, ops, y) == LastUse(c, ops[..|ops| - 1], y);
    assert forall i, j | 0 <= i < j < |items| :: UsedLater(c, ops[..|ops| - 1])(items[i], items[j]);
  }

  /** The key just used goes in front of keys used earlier. */
  lemma {:induction false} OrderedInFront(c: CacheConfig, ops: seq<TimedOp>, x: Item, rest: seq<Item>)
    requires Usable(c) && ops != [] && OrderedByUse(c, ops, rest)
    requires Uses(c, After(c, ops[..|ops| - 1]), ops[|ops| - 1], x.key)
    requires forall y | y in rest :: LastUse(c, ops, y.key) < |ops| - 1
    ensures OrderedByUse(c, ops, [x] + rest)
  {
    assert LastUse(c, ops, x.key) == |ops| - 1;
    hide LastUse;
    hide After;
    assert forall j | 0 <= j < |rest| :: rest[j] in rest;
  }

  /** Only the key named by the last step changes its last use. */
  lemma {:induction false} OrderedWithout(c: CacheConfig, ops: seq<TimedOp>, items: seq<Item>, key: string)
    requires Usable(c) && ops != []
    requires OrderedByUse(c, ops[..|ops| - 1], items)
    requires ops[|ops| - 1].op != ClearOp && ops[|ops| - 1].op.key == key
    ensures OrderedByUse(c, ops, Without(items, key))
    ensures forall x | x in Without(items, key) :: LastUse(c, ops, x.key) < |ops| - 1
  {
    var front := ops[..|ops| - 1];
    FilterPairwise(items, (x: Item) => x.key != key, UsedLater(c, front));
    forall x | x in Without(items, key)
      ensures LastUse(c, ops, x.key) == LastUse(c, front, x.key) && x in items
    {
      WithoutKeeps(items, key, x);
    }
  }

  /** An eviction removes the key that was used longest ago: every key that stays was used later. */
  lemma EvictsLeastRecentlyUsed(c: CacheConfig, ops: seq<TimedOp>, key: string, value: string, now: nat)
    requires Usable(c) && |After(c, ops).items| >= c.maxEntries
    ensures var items := After(c, ops).items;
      && Excess(c, |items|) == 1
      && Set(c, After(c, ops), key, value, now).evictions == After(c, ops).evictions + 1
      && (forall i | 0 <= i < |items| - 1 ::
            LastUse(c, ops, items[i].key) > LastUse(c, ops, items[|items| - 1].key))
      && (forall x: Item | x.key != key ::
            x in Set(c, After(c, ops), key, value, now).items <==> x in items && x != items[|items| - 1])
  {
    hide LastUse;
    hide After;
    hide Set;
    ListInvariant(c, ops);
    OrderedByLastUse(c, ops);
    var items := After(c, ops).items;
    assert forall i | 0 <= i < |items| - 1 :: UsedLater(c, ops)(items[i], items[|items| - 1]);
    SetEvictsLast(c, After(c, ops), key, value, now);
  }

  /** A set into a full list drops its last item, whether or not its key is stored already. */
  lemma SetEvictsLast(c: CacheConfig, s: Recency, key: string, value: string, now: nat)
    requires Usable(c) && DistinctKeys(s.items) && |s.items| == c.maxEntries
    ensures Excess(c, |s.items|) == 1
    ensures Set(c, s, key, value, now).evictions == s.evictions + 1
    ensures forall x: Item | x.key != key ::
      x in Set(c, s, key, value, now).items <==> x in s.items && x != s.items[|s.items| - 1]
  {
    forall x: Item | x.key != key
      ensures x in Set(c, s, key, value, now).items <==> x in s.items && x != s.items[|s.items| - 1]
    {
      WithoutKeeps(s.items[..|s.items| - 1], key, x);
      AllButLast(s.items, x);
    }
  }

  lemma AllButLast(items: seq<Item>, x: Item)
    requires items != [] && DistinctKeys(items)
    ensures x in items[..|items| - 1] <==> x in items && x != items[|items| - 1]
  {
    assert items == items[..|items| - 1] + [items[|items| - 1]];
  }

  // ----- Values: a hit returns what the latest set stored -----

  /** The index of the last set of `key` with no clear after it, or -1. */
  function LastSet(ops: seq<TimedOp>, key: string): int {
    if ops == [] || ops[|ops| - 1].op.ClearOp? then -1
    else if ops[|ops| - 1].op.SetOp? && ops[|ops| - 1].op.key == key then |ops| - 1
    else LastSet(ops[..|ops| - 1], key)
  }

  /** The entry that the last set of `key` made. */
  predicate FromLastSet(c: CacheConfig, ops: seq<TimedOp>, x: Item) {
    var j := LastSet(ops, x.key);
    && 0 <= j < |ops|
    && ops[j].op == SetOp(x.key, x.entry.value)
    && x.entry == Entry(x.entry.value, ops[j].now, c.Ttl())
  }

  lemma {:induction false} EntriesFromLastSet(c: CacheConfig, ops: seq<TimedOp>)
    requires Usable(c)
    ensures forall x | x in After(c, ops).items :: FromLastSet(c, ops, x)
  {
    if ops != [] {
      var front, last := ops[..|ops| - 1], ops[|ops| - 1];
      var s := After(c, front);
      EntriesFromLastSet(c, front);
      forall x | x in After(c, ops).items
        ensures FromLastSet(c, ops, x)
      {
        ItemOrigin(c, s, last, x);
      }
    }
  }

  /** An item after a step was there before it, or is what the step set. */
  lemma ItemOrigin(c: CacheConfig, s: Recency, step: TimedOp, x: Item)
    requires Usable(c) && x in Do(c, s, step).items
    ensures !step.op.ClearOp?
    ensures if step.op.SetOp? && step.op.key == x.key then x.entry == Entry(step.op.value, step.now, c.Ttl())
            else x in s.items
  {
    match step.op
    case GetOp(k) =>
      FindExact(s.items, k);
      WithoutKeeps(s.items, k, x);
    case SetOp(k, v) =>
      var kept := s.items[..|s.items| - Excess(c, |s.items|)];
      WithoutKeeps(kept, k, x);
      assert x in kept ==> x in s.items;
    case ClearOp =>
  }

  /**
   A hit returns the value of the latest set of that key, which was made since the last clear and no
   longer ago than the lifetime.
   */
  lemma HitReturnsLatestSet(c: CacheConfig, ops: seq<TimedOp>, key: string, now: nat)
    requires Usable(c) && Hits(c, After(c, ops), key, now)
    ensures var j := LastSet(ops, key);
      && 0 <= j < |ops|
      && ops[j].op == SetOp(key, Get(c, After(c, ops), key, now).1.value)
      && (now <= ops[j].now || now - ops[j].now <= c.Ttl())
  {
    EntriesFromLastSet(c, ops);
    var items := After(c, ops).items;
    FindExact(items, key);
    var x := Item(key, Find(items, key).value);
    assert x in items && FromLastSet(c, ops, x);
  }

  /** Not more than the configured seconds, of a thousand million nanoseconds each, lie between two instants. */
  predicate Within(c: CacheConfig, since: nat, now: nat) { now - since <= c.ttlSeconds * 1_000_000_000 }

  /** The key is stored. */
  ghost predicate Stored(s: Recency, key: string) { exists x :: x in s.items && x.key == key }

  /**
   A get hits exactly if its key is stored and the latest set of that key is not longer ago than the configured
   number of seconds; it then returns the value set, and otherwise the key is not stored afterwards.
   */
  lemma {:induction false} HitIff(c: CacheConfig, ops: seq<TimedOp>, key: string, now: nat)
    requires Usable(c)
    ensures Stored(After(c, ops), key) ==> 0 <= LastSet(ops, key) < |ops|
    ensures Hits(c, After(c, ops), key, now)
       <==> Stored(After(c, ops), key) && Within(c, ops[LastSet(ops, key)].now, now)
    ensures Hits(c, After(c, ops), key, now) ==>
      ops[LastSet(ops, key)].op == SetOp(key, Get(c, After(c, ops), key, now).1.value)
    ensures Stored(Get(c, After(c, ops), key, now).0, key) <==> Hits(c, After(c, ops), key, now)
  {
    var s := After(c, ops);
    EntriesFromLastSet(c, ops);
    FindExact(s.items, key);
    hide After;
    hide LastSet;
    if Find(s.items, key).Some? {
      var x := Item(key, Find(s.items, key).value);
      assert x in s.items && FromLastSet(c, ops, x);
      hide Find;
      forall y
        ensures y in Without(s.items, key) ==> y.key != key
      {
        WithoutKeeps(s.items, key, y);
      }
      if !x.entry.IsExpired(now) {
        assert ([x] + Without(s.items, key))[0] == x;
      }
    }
  }

  // ----- Retention: what was just used stays for max_entries - 1 further operations -----

  predicate Touches(x: TimedOp, key: string) { x.op.ClearOp? || x.op.key == key }

  /** One step that neither names the key nor clears moves its item back by at most one place. */
  lemma StepRetains(c: CacheConfig, s: Recency, step: TimedOp, p: nat) returns (q: nat)
    requires Usable(c) && DistinctKeys(s.items)
    requires p < |s.items| && !Touches(step, s.items[p].key)
    requires p < c.maxEntries - 1
    ensures q < |Do(c, s, step).items| && q <= p + 1 && Do(c, s, step).items[q] == s.items[p]
  {
    var x, items := s.items[p], s.items;
    match step.op
    case GetOp(k) =>
      FindExact(items, k);
      var alive := Find(items, k).Some? && !Find(items, k).value.IsExpired(step.now);
      q := p;
      if Find(items, k).Some? {
        q := PositionWithout(items, k, p);
        q := if alive then q + 1 else q;
      }
    case SetOp(k, v) =>
      var kept := items[..|items| - Excess(c, |items|)];
      q := PositionWithout(kept, k, p);
      q := q + 1;
  }

  lemma {:induction false} PositionWithout(items: seq<Item>, key: string, p: nat) returns (q: nat)
    requires p < |items| && items[p].key != key
    ensures q <= p && q < |Without(items, key)| && Without(items, key)[q] == items[p]
  {
    if p == 0 {
      q := 0;
    } else {
      q := PositionWithout(items[1..], key, p - 1);
      q := if items[0].key != key then q + 1 else q;
    }
  }

  /**
   An item that was just used survives any `max_entries - 1` further operations that do not name its key
   and do not clear, whatever they are: it cannot be evicted earlier.
   */
  lemma {:induction false} RetainedAfterUse(c: CacheConfig, ops: seq<TimedOp>, more: seq<TimedOp>) returns (q: nat)
    requires Usable(c) && After(c, ops).items != []
    requires |more| <= c.maxEntries - 1
    requires forall i | 0 <= i < |more| :: !Touches(more[i], After(c, ops).items[0].key)
    ensures q <= |more| && q < |After(c, ops + more).items|
    ensures After(c, ops + more).items[q] == After(c, ops).items[0]
  {
    if more == [] {
      assert ops + more == ops;
      q := 0;
    } else {
      var front, last := more[..|more| - 1], more[|more| - 1];
      q := RetainedAfterUse(c, ops, front);
      assert (ops + more)[..|ops + more| - 1] == ops + front && (ops + more)[|ops + more| - 1] == last;
      assert After(c, ops + more) == Do(c, After(c, ops + front), last);
      ListInvariant(c, ops + front);
      q := StepRetains(c, After(c, ops + front), last, q);
    }
  }

  /**
   A key that was set stays available: after at most `max_entries` - 1 operations that neither name it nor clear, a
   get not later than the lifetime hits and returns the value set.
   */
  lemma {:induction false} GuaranteedHit(
    c: CacheConfig, ops: seq<TimedOp>, more: seq<TimedOp>, key: string, value: string, now: nat)
    requires Usable(c) && ops != [] && ops[|ops| - 1].op == SetOp(key, value)
    requires |more| <= c.maxEntries - 1 && forall i | 0 <= i < |more| :: !Touches(more[i], key)
    requires now - ops[|ops| - 1].now <= c.ttlSeconds * 1_000_000_000
    ensures Get(c, After(c, ops + more), key, now).1 == Some(value)
  {
    AfterSet(c, ops);
    assert After(c, ops).items[0].key == key;
    var q := RetainedAfterUse(c, ops, more);
    assert After(c, ops + more).items[q] in After(c, ops + more).items;
    LastSetStays(ops, more, key);
    HitIff(c, ops + more, key, now);
  }

  lemma {:induction false} LastSetStays(ops: seq<TimedOp>, more: seq<TimedOp>, key: string)
    requires ops != [] && ops[|ops| - 1].op.SetOp? && ops[|ops| - 1].op.key == key
    requires forall i | 0 <= i < |more| :: !Touches(more[i], key)
    ensures LastSet(ops + more, key) == |ops| - 1
  {
    if more == [] {
      assert ops + more == ops;
    } else {
      LastSetStays(ops, more[..|more| - 1], key);
      assert (ops + more)[..|ops + more| - 1] == ops + more[..|more| - 1];
    }
  }
}
