/**
 The inference cache under concurrency. Each thread runs any sequence of operations; one step is one
 locked section, one map operation or one counter update of the program, and steps interleave freely.
 */
module CacheInterleaving {
  import opened Collections
  import opened RecencyList

  /** Where a thread stands inside an operation. */
  datatype Thread =
    | Idle
    | GetLookup(key: string) | GetCountHit(key: string) | GetTouch(key: string)
    | GetRemoveExpired(key: string) | GetCountMiss(key: string, removed: bool) | GetForget(key: string)
    | SetCheck(key: string, value: string) | SetPop(key: string, value: string)
    | SetRemove(key: string, value: string, victim: string) | SetCountEviction(key: string, value: string)
    | SetStamp(key: string, value: string) | SetInsert(key: string, entry: Entry) | SetTouch(key: string)
    | ClearEntries | ClearOrder | ClearHits | ClearMisses

  datatype State = State(
    threads: seq<Thread>,
    entries: map<string, Entry>,
    order: seq<string>,
    hits: nat, misses: nat, evictions: nat,
    now: nat)

  datatype Step = Tick(ns: nat) | BeginGet(i: nat, key: string) | BeginSet(i: nat, key: string, value: string)
                | BeginClear(i: nat) | Continue(i: nat)

  function Initial(threads: nat): State { State(seq(threads, i => Idle), map[], [], 0, 0, 0, 0) }

  predicate Enabled(s: State, step: Step) {
    match step
    case Tick(_) => true
    case BeginGet(i, _) => i < |s.threads| && s.threads[i].Idle?
    case BeginSet(i, _, _) => i < |s.threads| && s.threads[i].Idle?
    case BeginClear(i) => i < |s.threads| && s.threads[i].Idle?
    case Continue(i) => i < |s.threads| && !s.threads[i].Idle?
  }

  function Touch(order: seq<string>, key: string): seq<string> {
    [key] + Filter(order, (k: string) => k != key)
  }

  function Apply(c: CacheConfig, s: State, step: Step): State
    requires Enabled(s, step)
  {
    match step
    case Tick(ns) => s.(now := s.now + ns)
    case BeginGet(i, key) => s.(threads := s.threads[i := GetLookup(key)])
    case BeginSet(i, key, value) => s.(threads := s.threads[i := SetCheck(key, value)])
    case BeginClear(i) => s.(threads := s.threads[i := ClearEntries])
    case Continue(i) => Advance(c, s, i)
  }

  function Advance(c: CacheConfig, s: State, i: nat): State
    requires i < |s.threads| && !s.threads[i].Idle?
  {
    match s.threads[i]
    case GetLookup(key) =>
      s.(threads := s.threads[i := if key in s.entries && !s.entries[key].IsExpired(s.now)
                                   then GetCountHit(key) else GetRemoveExpired(key)])
    case GetCountHit(key) => s.(threads := s.threads[i := GetTouch(key)], hits := s.hits + 1)
    case GetTouch(key) => s.(threads := s.threads[i := Idle], order := Touch(s.order, key))
    case GetRemoveExpired(key) =>
      var gone := key in s.entries && s.entries[key].IsExpired(s.now);
      s.(threads := s.threads[i := GetCountMiss(key, gone)],
         entries := if gone then s.entries - {key} else s.entries)
    case GetCountMiss(key, removed) =>
      s.(threads := s.threads[i := if removed then GetForget(key) else Idle], misses := s.misses + 1)
    case GetForget(key) =>
      s.(threads := s.threads[i := Idle], order := Filter(s.order, (k: string) => k != key))
    case SetCheck(key, value) =>
      s.(threads := s.threads[i := if |s.entries| >= c.maxEntries then SetPop(key, value) else SetStamp(key, value)])
    case SetPop(key, value) =>
      if s.order == [] then s.(threads := s.threads[i := SetCheck(key, value)])
      else s.(threads := s.threads[i := SetRemove(key, value, s.order[|s.order| - 1])],
              order := s.order[..|s.order| - 1])
    case SetRemove(key, value, victim) =>
      s.(threads := s.threads[i := SetCountEviction(key, value)], entries := s.entries - {victim})
    case SetCountEviction(key, value) =>
      s.(threads := s.threads[i := SetCheck(key, value)], evictions := s.evictions + 1)
    case SetStamp(key, value) =>
      s.(threads := s.threads[i := SetInsert(key, Entry(value, s.now, c.Ttl()))])
    case SetInsert(key, entry) =>
      s.(threads := s.threads[i := SetTouch(key)], entries := s.entries[key := entry])
    case SetTouch(key) => s.(threads := s.threads[i := Idle], order := Touch(s.order, key))
    case ClearEntries => s.(threads := s.threads[i := ClearOrder], entries := map[])
    case ClearOrder => s.(threads := s.threads[i := ClearHits], order := [])
    case ClearHits => s.(threads := s.threads[i := ClearMisses], hits := 0)
    case ClearMisses => s.(threads := s.threads[i := Idle], misses := 0)
  }

  predicate ValidRun(c: CacheConfig, s: State, steps: seq<Step>)
    decreases |steps|
  {
    steps == [] || (Enabled(s, steps[0]) && ValidRun(c, Apply(c, s, steps[0]), steps[1..]))
  }

  function Outcome(c: CacheConfig, s: State, steps: seq<Step>): State
    requires ValidRun(c, s, steps)
    decreases |steps|
  {
    if steps == [] then s else Outcome(c, Apply(c, s, steps[0]), steps[1..])
  }

  ghost predicate Reachable(c: CacheConfig, threads: nat, s: State) {
    exists steps :: ValidRun(c, Initial(threads), steps) && Outcome(c, Initial(threads), steps) == s
  }

  // ----- The map is bounded and the deque has no duplicates -----

  /** The thread saw room and has not inserted yet. */
  predicate PastCheck(t: Thread) { t.SetStamp? || t.SetInsert? }

  ghost predicate Bounded(c: CacheConfig, s: State) {
    |s.entries| + Count(s.threads, PastCheck) <= c.maxEntries + |s.threads| - 1
  }

  lemma MapSizeUpdate(m: map<string, Entry>, key: string, e: Entry)
    ensures |m[key := e]| <= |m| + 1
  {
    assert m[key := e].Keys == m.Keys + {key};
    assert |m[key := e]| == |m.Keys + {key}|;
    SizeWithout(m.Keys + {key}, key);
    SizeWithout(m.Keys, key);
    assert m.Keys + {key} - {key} == m.Keys - {key};
  }

  lemma MapSizeRemove(m: map<string, Entry>, key: string)
    ensures |m - {key}| <= |m|
  {
    assert (m - {key}).Keys == m.Keys - {key};
    assert |m - {key}| == |m.Keys - {key}|;
    SizeWithout(m.Keys, key);
  }

  /** Only an insert makes the map larger, and by at most one entry. */
  lemma EntriesGrowth(c: CacheConfig, s: State, step: Step)
    requires Enabled(s, step)
    ensures |Apply(c, s, step).entries|
         <= |s.entries| + (if step.Continue? && s.threads[step.i].SetInsert? then 1 else 0)
  {
    if step.Continue? {
      var thread := s.threads[step.i];
      if thread.GetRemoveExpired? {
        MapSizeRemove(s.entries, thread.key);
      } else if thread.SetRemove? {
        MapSizeRemove(s.entries, thread.victim);
      } else if thread.SetInsert? {
        MapSizeUpdate(s.entries, thread.key, thread.entry);
      } else {
        OtherStepsKeepEntries(c, s, step.i);
      }
    }
  }

  lemma OtherStepsKeepEntries(c: CacheConfig, s: State, i: nat)
    requires i < |s.threads| && !s.threads[i].Idle?
    requires !s.threads[i].GetRemoveExpired? && !s.threads[i].SetRemove? && !s.threads[i].SetInsert?
    ensures Advance(c, s, i).entries == (if s.threads[i].ClearEntries? then map[] else s.entries)
  {
  }

  /** How one step changes the number of threads past the check. */
  lemma PastCheckStep(c: CacheConfig, s: State, step: Step)
    requires Enabled(s, step) && !step.Tick?
    ensures var t := Apply(c, s, step);
      && |t.threads| == |s.threads|
      && Count(t.threads, PastCheck) == Count(s.threads, PastCheck)
           - (if PastCheck(s.threads[step.i]) then 1 else 0) + (if PastCheck(t.threads[step.i]) then 1 else 0)
  {
    CountUpdate(s.threads, step.i, Apply(c, s, step).threads[step.i], PastCheck);
  }

  /** A thread that passes the check was not past it before, so at most the others are. */
  lemma BoundedKept(c: CacheConfig, s: State, step: Step)
    requires Bounded(c, s) && Enabled(s, step)
    ensures Bounded(c, Apply(c, s, step)) && |Apply(c, s, step).threads| == |s.threads|
  {
    var t := Apply(c, s, step);
    EntriesGrowth(c, s, step);
    if !step.Tick? {
      PastCheckStep(c, s, step);
      CountAtMost(t.threads, PastCheck);
    }
  }

  lemma NoDupKept(c: CacheConfig, s: State, step: Step)
    requires NoDup(s.order) && Enabled(s, step)
    ensures NoDup(Apply(c, s, step).order)
  {
    if step.Continue? {
      match s.threads[step.i]
      case GetTouch(key) => TouchNoDup(s.order, key);
      case SetTouch(key) => TouchNoDup(s.order, key);
      case GetForget(key) => FilterNoDup(s.order, (k: string) => k != key);
      case _ =>
    }
  }

  lemma TouchNoDup(order: seq<string>, key: string)
    requires NoDup(order)
    ensures NoDup(Touch(order, key))
  {
    var p := (k: string) => k != key;
    FilterNoDup(order, p);
    FilterMember(order, p, key);
  }

  lemma {:induction false} RunKeepsBounds(c: CacheConfig, s: State, steps: seq<Step>)
    requires Bounded(c, s) && NoDup(s.order) && ValidRun(c, s, steps)
    ensures Bounded(c, Outcome(c, s, steps)) && NoDup(Outcome(c, s, steps).order)
    ensures |Outcome(c, s, steps).threads| == |s.threads|
    decreases |steps|
  {
    if steps != [] {
      BoundedKept(c, s, steps[0]);
      NoDupKept(c, s, steps[0]);
      RunKeepsBounds(c, Apply(c, s, steps[0]), steps[1..]);
    }
  }

  /**
   With `threads` threads the map never holds more than `max_entries + threads - 1` entries, and the
   deque never holds a key twice.
   */
  lemma InterleavingBounds(c: CacheConfig, threads: nat, s: State)
    requires threads >= 1 && Reachable(c, threads, s)
    ensures |s.entries| <= c.maxEntries + threads - 1
    ensures NoDup(s.order)
  {
    var steps :| ValidRun(c, Initial(threads), steps) && Outcome(c, Initial(threads), steps) == s;
    CountNone(Initial(threads).threads, PastCheck);
    RunKeepsBounds(c, Initial(threads), steps);
  }

  // ----- Runs that reach the bound, and runs that lose keys -----

  lemma {:induction false} RunExtends(c: CacheConfig, s: State, steps: seq<Step>, step: Step)
    requires ValidRun(c, s, steps) && Enabled(Outcome(c, s, steps), step)
    ensures ValidRun(c, s, steps + [step])
    ensures Outcome(c, s, steps + [step]) == Apply(c, Outcome(c, s, steps), step)
    decreases |steps|
  {
    if steps == [] {
      assert steps + [step] == [step];
    } else {
      RunExtends(c, Apply(c, s, steps[0]), steps[1..], step);
      assert (steps + [step])[1..] == steps[1..] + [step];
    }
  }

  lemma Extend(c: CacheConfig, threads: nat, s: State, step: Step) returns (t: State)
    requires Reachable(c, threads, s) && Enabled(s, step)
    ensures t == Apply(c, s, step) && Reachable(c, threads, t)
  {
    var steps :| ValidRun(c, Initial(threads), steps) && Outcome(c, Initial(threads), steps) == s;
    RunExtends(c, Initial(threads), steps, step);
    t := Apply(c, s, step);
  }

  lemma InitialReachable(c: CacheConfig, threads: nat)
    ensures Reachable(c, threads, Initial(threads))
  {
    assert ValidRun(c, Initial(threads), []) && Outcome(c, Initial(threads), []) == Initial(threads);
  }

  /** A family of distinct keys. */
  function Key(n: nat): string { seq(n, i => 'k') }

  /** The map holds exactly the first `n` keys of the family. */
  ghost predicate HoldsFirst(m: map<string, Entry>, n: nat) {
    |m| == n && forall k | k in m :: |k| < n
  }

  lemma HoldsNext(m: map<string, Entry>, n: nat, e: Entry)
    requires HoldsFirst(m, n)
    ensures HoldsFirst(m[Key(n) := e], n + 1)
  {
    assert Key(n) !in m;
    assert m[Key(n) := e].Keys == m.Keys + {Key(n)};
    assert |m[Key(n) := e]| == |m.Keys + {Key(n)}|;
  }

  /** A thread past the check inserts its key. */
  lemma InsertNext(c: CacheConfig, threads: nat, s: State, i: nat, key: string) returns (t: State)
    requires Reachable(c, threads, s) && i < |s.threads| && s.threads[i] == SetStamp(key, "")
    ensures Reachable(c, threads, t)
    ensures t == s.(threads := s.threads[i := SetTouch(key)],
                    entries := s.entries[key := Entry("", s.now, c.Ttl())])
  {
    t := Extend(c, threads, s, Continue(i));
    assert t == s.(threads := s.threads[i := SetInsert(key, Entry("", s.now, c.Ttl()))]);
    t := Extend(c, threads, t, Continue(i));
    assert t.threads == s.threads[i := SetTouch(key)];
  }

  /** A thread that begins a `set` while there is room passes the check. */
  lemma PassNext(c: CacheConfig, threads: nat, s: State, i: nat, key: string) returns (t: State)
    requires Reachable(c, threads, s) && i < |s.threads| && s.threads[i] == Idle
    requires |s.entries| < c.maxEntries
    ensures Reachable(c, threads, t) && t == s.(threads := s.threads[i := SetStamp(key, "")])
  {
    t := Extend(c, threads, s, BeginSet(i, key, ""));
    t := Extend(c, threads, t, Continue(i));
    assert t.threads == s.threads[i := SetStamp(key, "")];
  }

  /** Thread 0 sets one new key without interference. */
  lemma SetAlone(c: CacheConfig, threads: nat, s: State, n: nat) returns (t: State)
    requires Reachable(c, threads, s) && |s.threads| == threads >= 1 && s.threads[0] == Idle
    requires HoldsFirst(s.entries, n) && n < c.maxEntries
    ensures Reachable(c, threads, t) && t.threads == s.threads && HoldsFirst(t.entries, n + 1)
  {
    t := PassNext(c, threads, s, 0, Key(n));
    t := InsertNext(c, threads, t, 0, Key(n));
    HoldsNext(s.entries, n, Entry("", s.now, c.Ttl()));
    t := Extend(c, threads, t, Continue(0));
    assert t.threads == s.threads;
  }

  lemma {:induction false} FillAlone(c: CacheConfig, threads: nat, s: State, n: nat) returns (t: State)
    requires Reachable(c, threads, s) && |s.threads| == threads >= 1 && s.threads[0] == Idle
    requires s.entries == map[] && n <= c.maxEntries
    ensures Reachable(c, threads, t) && t.threads == s.threads && HoldsFirst(t.entries, n)
  {
    t := s;
    if n > 0 {
      t := FillAlone(c, threads, s, n - 1);
      t := SetAlone(c, threads, t, n - 1);
    }
  }

  /** The first `n` threads all saw room, each for a new key; the others are idle. */
  ghost predicate AllPastCheck(s: State, n: nat, base: nat) {
    && n <= |s.threads|
    && (forall i | 0 <= i < n :: s.threads[i] == SetStamp(Key(base + i), ""))
    && (forall i | n <= i < |s.threads| :: s.threads[i] == Idle)
  }

  lemma {:induction false} PassTogether(c: CacheConfig, threads: nat, s: State, n: nat, base: nat) returns (t: State)
    requires Reachable(c, threads, s) && |s.threads| == threads && AllPastCheck(s, 0, base)
    requires n <= threads && |s.entries| < c.maxEntries
    ensures Reachable(c, threads, t) && |t.threads| == threads && AllPastCheck(t, n, base)
    ensures t.entries == s.entries
  {
    t := s;
    if n > 0 {
      t := PassTogether(c, threads, s, n - 1, base);
      t := PassNext(c, threads, t, n - 1, Key(base + n - 1));
    }
  }

  /** Threads past the check insert one after the other, starting from the first. */
  lemma {:induction false} InsertTogether(c: CacheConfig, threads: nat, s: State, n: nat, base: nat) returns (t: State)
    requires Reachable(c, threads, s) && |s.threads| == threads && AllPastCheck(s, threads, base)
    requires n <= threads && HoldsFirst(s.entries, base)
    ensures Reachable(c, threads, t) && |t.threads| == threads && HoldsFirst(t.entries, base + n)
    ensures forall i | n <= i < threads :: t.threads[i] == s.threads[i]
  {
    t := s;
    if n > 0 {
      t := InsertTogether(c, threads, s, n - 1, base);
      HoldsNext(t.entries, base + n - 1, Entry("", t.now, c.Ttl()));
      t := InsertNext(c, threads, t, n - 1, Key(base + n - 1));
    }
  }

  /** The bound is exact: some interleaving really stores `max_entries + threads - 1` entries. */
  lemma BoundReached(c: CacheConfig, threads: nat)
    requires threads >= 1 && c.maxEntries >= 1
    ensures exists s :: Reachable(c, threads, s) && |s.entries| == c.maxEntries + threads - 1
  {
    InitialReachable(c, threads);
    var s := FillAlone(c, threads, Initial(threads), c.maxEntries - 1);
    s := PassTogether(c, threads, s, threads, c.maxEntries - 1);
    s := InsertTogether(c, threads, s, threads, c.maxEntries - 1);
  }
}
