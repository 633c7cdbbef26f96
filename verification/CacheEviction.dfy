/** When the eviction loop of a `set` ends, stated on runs in which only that thread moves. */
module CacheEviction {
  import opened Collections
  import opened RecencyList
  import opened CacheInterleaving

  /** `n` steps of one thread, with no other step in between. */
  function Solo(i: nat, n: nat): seq<Step> { seq(n, k => Continue(i)) }

  /** After `n` steps of its own the thread has left the loop. */
  ghost predicate OutAfter(c: CacheConfig, s: State, i: nat, n: nat) {
    && ValidRun(c, s, Solo(i, n))
    && var t := Outcome(c, s, Solo(i, n));
       i < |t.threads| && t.threads[i].SetStamp?
  }

  /** The keys of the map that the deque does not list, so that no eviction can remove them. */
  ghost function Lost(s: State): set<string> { s.entries.Keys - Elements(s.order) }

  lemma SoloFirst(i: nat, n: nat)
    requires n > 0
    ensures Solo(i, n)[0] == Continue(i) && Solo(i, n)[1..] == Solo(i, n - 1)
  {
  }

  lemma OutLater(c: CacheConfig, s: State, i: nat, n: nat)
    requires Enabled(s, Continue(i)) && OutAfter(c, Apply(c, s, Continue(i)), i, n)
    ensures OutAfter(c, s, i, n + 1)
  {
    SoloFirst(i, n + 1);
  }

  // ----- Not lost too many: the loop ends -----

  /** With an empty deque, check and pop lead back to the same state. */
  lemma EmptyRound(c: CacheConfig, s: State, i: nat)
    requires i < |s.threads| && s.threads[i].SetCheck? && |s.entries| >= c.maxEntries && s.order == []
    ensures var go := Continue(i);
      && Enabled(s, go) && Enabled(Apply(c, s, go), go)
      && Apply(c, Apply(c, s, go), go) == s
  {
    var go := Continue(i);
    assert Apply(c, Apply(c, s, go), go).threads == s.threads;
  }

  /** The state after check and pop. */
  function Popped(s: State, i: nat): State
    requires i < |s.threads| && s.threads[i].SetCheck? && s.order != []
  {
    var SetCheck(key, value) := s.threads[i];
    s.(threads := s.threads[i := SetRemove(key, value, s.order[|s.order| - 1])], order := s.order[..|s.order| - 1])
  }

  /** The state after a whole round: the oldest key has left deque and map, and was counted. */
  function EvictedOne(s: State): State
    requires s.order != []
  {
    s.(order := s.order[..|s.order| - 1], entries := s.entries - {s.order[|s.order| - 1]}, evictions := s.evictions + 1)
  }

  lemma CheckAndPop(c: CacheConfig, s: State, i: nat)
    requires i < |s.threads| && s.threads[i].SetCheck? && |s.entries| >= c.maxEntries && s.order != []
    ensures var go := Continue(i);
      && Enabled(s, go) && Enabled(Apply(c, s, go), go)
      && Apply(c, Apply(c, s, go), go) == Popped(s, i)
  {
  }

  lemma RemoveAndCount(c: CacheConfig, s: State, i: nat)
    requires i < |s.threads| && s.threads[i].SetCheck? && s.order != []
    ensures var go, t := Continue(i), Popped(s, i);
      && Enabled(t, go) && Enabled(Apply(c, t, go), go)
      && Apply(c, Apply(c, t, go), go) == EvictedOne(s)
  {
    var go, t := Continue(i), Popped(s, i);
    var SetCheck(key, value) := s.threads[i];
    var mid := Apply(c, t, go);
    assert mid == t.(threads := t.threads[i := SetCountEviction(key, value)],
                     entries := t.entries - {s.order[|s.order| - 1]});
    assert mid.threads[i := SetCheck(key, value)] == s.threads;
  }

  /** Otherwise check, pop, remove and count take the oldest key out of deque and map. */
  lemma EvictingRound(c: CacheConfig, s: State, i: nat)
    requires i < |s.threads| && s.threads[i].SetCheck? && |s.entries| >= c.maxEntries && s.order != []
    ensures ValidRun(c, s, Solo(i, 4)) && Outcome(c, s, Solo(i, 4)) == EvictedOne(s)
  {
    hide Apply;
    hide Enabled;
    hide ValidRun;
    hide Outcome;
    hide Solo;
    hide Popped;
    hide EvictedOne;
    var go, t := Continue(i), Popped(s, i);
    CheckAndPop(c, s, i);
    RemoveAndCount(c, s, i);
    SoloNone(c, EvictedOne(s), i);
    SoloStep(c, Apply(c, t, go), i, 0);
    SoloStep(c, t, i, 1);
    SoloStep(c, Apply(c, s, go), i, 2);
    SoloStep(c, s, i, 3);
  }

  lemma SoloNone(c: CacheConfig, s: State, i: nat)
    ensures ValidRun(c, s, Solo(i, 0)) && Outcome(c, s, Solo(i, 0)) == s
  {
  }

  lemma SoloStep(c: CacheConfig, s: State, i: nat, n: nat)
    requires Enabled(s, Continue(i)) && ValidRun(c, Apply(c, s, Continue(i)), Solo(i, n))
    ensures ValidRun(c, s, Solo(i, n + 1))
    ensures Outcome(c, s, Solo(i, n + 1)) == Outcome(c, Apply(c, s, Continue(i)), Solo(i, n))
  {
    SoloFirst(i, n + 1);
  }

  lemma OutAfterRound(c: CacheConfig, s: State, i: nat, n: nat)
    requires i < |s.threads| && s.threads[i].SetCheck? && |s.entries| >= c.maxEntries && s.order != []
    requires OutAfter(c, EvictedOne(s), i, n)
    ensures OutAfter(c, s, i, n + 4)
  {
    hide OutAfter;
    var go := Continue(i);
    CheckAndPop(c, s, i);
    RemoveAndCount(c, s, i);
    OutLater(c, Apply(c, Popped(s, i), go), i, n);
    OutLater(c, Popped(s, i), i, n + 1);
    OutLater(c, Apply(c, s, go), i, n + 2);
    OutLater(c, s, i, n + 3);
  }

  lemma LostAfterEviction(s: State)
    requires s.order != []
    ensures Lost(EvictedOne(s)) == Lost(s)
  {
    hide Elements;
    ElementsAfterPop(s.order);
  }

  lemma {:induction false} LoopEnds(c: CacheConfig, s: State, i: nat) returns (n: nat)
    requires i < |s.threads| && s.threads[i].SetCheck? && |Lost(s)| < c.maxEntries
    ensures OutAfter(c, s, i, n)
    decreases |s.order|
  {
    hide OutAfter;
    if |s.entries| < c.maxEntries {
      n := 1;
      RoomSeen(c, s, i);
    } else {
      assert s.order != [] by {
        assert s.order == [] ==> Lost(s) == s.entries.Keys;
        assert |s.entries| == |s.entries.Keys|;
      }
      LostAfterEviction(s);
      n := LoopEnds(c, EvictedOne(s), i);
      OutAfterRound(c, s, i, n);
      n := n + 4;
    }
  }

  lemma RoomSeen(c: CacheConfig, s: State, i: nat)
    requires i < |s.threads| && s.threads[i].SetCheck? && |s.entries| < c.maxEntries
    ensures OutAfter(c, s, i, 1)
  {
    var t := Apply(c, s, Continue(i));
    assert Solo(i, 0) == [];
    assert OutAfter(c, t, i, 0);
    OutLater(c, s, i, 0);
  }

  // ----- Too many lost: the loop never ends -----

  /** The thread is somewhere in the loop, and evicting all that the deque still lists would leave the map full. */
  ghost predicate Stuck(c: CacheConfig, s: State, i: nat) {
    && i < |s.threads|
    && match s.threads[i]
       case SetCheck(_, _) => |Lost(s)| >= c.maxEntries
       case SetPop(_, _) => |Lost(s)| >= c.maxEntries
       case SetRemove(_, _, victim) => |Lost(s) - {victim}| >= c.maxEntries
       case SetCountEviction(_, _) => |Lost(s)| >= c.maxEntries
       case _ => false
  }

  lemma CheckStaysStuck(c: CacheConfig, s: State, i: nat)
    requires Stuck(c, s, i) && s.threads[i].SetCheck?
    ensures Stuck(c, Apply(c, s, Continue(i)), i)
  {
    SubsetSize(Lost(s), s.entries.Keys);
    assert |s.entries| == |s.entries.Keys|;
  }

  lemma ElementsAfterPop(order: seq<string>)
    requires order != []
    ensures Elements(order) == Elements(order[..|order| - 1]) + {order[|order| - 1]}
  {
    assert order == order[..|order| - 1] + [order[|order| - 1]];
  }

  /** What a pop does: it takes the oldest key as its victim, or finds none and checks again. */
  lemma PopStep(c: CacheConfig, s: State, i: nat)
    requires i < |s.threads| && s.threads[i].SetPop?
    ensures var SetPop(key, value) := s.threads[i];
      var t := Apply(c, s, Continue(i));
      && t.entries == s.entries && |t.threads| == |s.threads|
      && if s.order == [] then t.order == [] && t.threads[i] == SetCheck(key, value)
         else t.order == s.order[..|s.order| - 1] && t.threads[i] == SetRemove(key, value, s.order[|s.order| - 1])
  {
  }

  lemma PopStaysStuck(c: CacheConfig, s: State, i: nat)
    requires Stuck(c, s, i) && s.threads[i].SetPop?
    ensures Stuck(c, Apply(c, s, Continue(i)), i)
  {
    hide Lost;
    hide Apply;
    var t := Apply(c, s, Continue(i));
    PopStep(c, s, i);
    if s.order == [] {
      SameLost(s, t);
    } else {
      LostAfterPop(s, t);
    }
  }

  lemma SameLost(s: State, t: State)
    requires t.entries == s.entries && t.order == s.order
    ensures Lost(t) == Lost(s)
  {
  }

  lemma LostAfterPop(s: State, t: State)
    requires s.order != [] && t.entries == s.entries && t.order == s.order[..|s.order| - 1]
    ensures Lost(t) - {s.order[|s.order| - 1]} == Lost(s)
  {
    hide Elements;
    ElementsAfterPop(s.order);
  }

  lemma RemoveStaysStuck(c: CacheConfig, s: State, i: nat)
    requires Stuck(c, s, i) && s.threads[i].SetRemove?
    ensures Stuck(c, Apply(c, s, Continue(i)), i)
  {
    assert Lost(Apply(c, s, Continue(i))) == Lost(s) - {s.threads[i].victim};
  }

  lemma StuckKept(c: CacheConfig, s: State, i: nat)
    requires Stuck(c, s, i)
    ensures Enabled(s, Continue(i)) && Stuck(c, Apply(c, s, Continue(i)), i)
  {
    hide Lost;
    match s.threads[i]
    case SetCheck(_, _) => CheckStaysStuck(c, s, i);
    case SetPop(_, _) => PopStaysStuck(c, s, i);
    case SetRemove(_, _, _) => RemoveStaysStuck(c, s, i);
    case SetCountEviction(_, _) => CountStaysStuck(c, s, i);
  }

  lemma CountStaysStuck(c: CacheConfig, s: State, i: nat)
    requires Stuck(c, s, i) && s.threads[i].SetCountEviction?
    ensures Stuck(c, Apply(c, s, Continue(i)), i)
  {
    assert Lost(Apply(c, s, Continue(i))) == Lost(s);
  }

  lemma {:induction false} StuckForever(c: CacheConfig, s: State, i: nat, n: nat)
    requires Stuck(c, s, i)
    ensures !OutAfter(c, s, i, n)
    decreases n
  {
    if n > 0 {
      SoloFirst(i, n);
      StuckKept(c, s, i);
      StuckForever(c, Apply(c, s, Continue(i)), i, n - 1);
    }
  }

  // ----- The condition -----

  /**
   A `set` that no other thread disturbs gets past its eviction loop exactly when fewer than `max_entries`
   keys of the map are missing from the deque.
   */
  lemma SoloEvictionExitsIff(c: CacheConfig, s: State, i: nat)
    requires i < |s.threads| && s.threads[i].SetCheck?
    ensures (exists n: nat :: OutAfter(c, s, i, n)) <==> |s.entries.Keys - Elements(s.order)| < c.maxEntries
  {
    if |Lost(s)| < c.maxEntries {
      var n := LoopEnds(c, s, i);
    } else {
      forall n: nat
        ensures !OutAfter(c, s, i, n)
      {
        StuckForever(c, s, i, n);
      }
    }
  }

  // ----- One thread alone -----

  /** How the keys of the map and those the deque lists are related at each point of the only thread. */
  predicate Agree(t: Thread, keys: set<string>, listed: set<string>) {
    match t
    case GetCountHit(key) => keys == listed && key in keys
    case GetTouch(key) => keys == listed && key in keys
    case GetCountMiss(key, removed) => if removed then keys == listed - {key} else keys == listed
    case GetForget(key) => keys == listed - {key}
    case SetRemove(_, _, victim) => keys == listed + {victim} && victim !in listed
    case SetTouch(key) => keys == listed + {key}
    case ClearOrder => keys == {}
    case _ => keys == listed
  }

  ghost predicate InStep(s: State) {
    |s.threads| == 1 && NoDup(s.order) && Agree(s.threads[0], s.entries.Keys, Elements(s.order))
  }

  lemma WithoutKey(order: seq<string>, key: string)
    ensures Elements(Filter(order, (k: string) => k != key)) == Elements(order) - {key}
  {
    var p := (k: string) => k != key;
    forall x
      ensures x in Filter(order, p) <==> x in order && x != key
    {
      FilterMember(order, p, x);
    }
  }

  lemma TouchedKeys(order: seq<string>, key: string)
    ensures Elements(Touch(order, key)) == Elements(order) + {key}
  {
    WithoutKey(order, key);
    forall x
      ensures x in Touch(order, key) <==> x == key || x in Elements(Filter(order, (k: string) => k != key))
    {
    }
  }

  lemma PopInStep(c: CacheConfig, s: State)
    requires InStep(s) && s.threads[0].SetPop?
    ensures InStep(Apply(c, s, Continue(0)))
  {
    PopStep(c, s, 0);
    if s.order != [] {
      ElementsAfterPop(s.order);
    }
  }

  lemma GetInStep(c: CacheConfig, s: State)
    requires InStep(s)
    requires s.threads[0].GetTouch? || s.threads[0].GetRemoveExpired? || s.threads[0].GetForget?
    ensures InStep(Apply(c, s, Continue(0)))
  {
    var key := s.threads[0].key;
    NoDupKept(c, s, Continue(0));
    WithoutKey(s.order, key);
    TouchedKeys(s.order, key);
    hide Elements;
    hide NoDup;
    hide Touch;
    hide Filter;
    var t := Apply(c, s, Continue(0));
  }

  lemma SetTouchInStep(c: CacheConfig, s: State)
    requires InStep(s) && s.threads[0].SetTouch?
    ensures InStep(Apply(c, s, Continue(0)))
  {
    NoDupKept(c, s, Continue(0));
    TouchedKeys(s.order, s.threads[0].key);
    hide Elements;
    hide NoDup;
    hide Touch;
    hide Filter;
    var t := Apply(c, s, Continue(0));
  }

  lemma EntriesInStep(c: CacheConfig, s: State)
    requires InStep(s) && (s.threads[0].SetRemove? || s.threads[0].SetInsert? || s.threads[0].ClearEntries?)
    ensures InStep(Apply(c, s, Continue(0)))
  {
    hide Elements;
    hide NoDup;
    var t := Apply(c, s, Continue(0));
    match s.threads[0]
    case SetRemove(_, _, victim) => assert t.entries.Keys == s.entries.Keys - {victim};
    case SetInsert(key, _) => assert t.entries.Keys == s.entries.Keys + {key};
    case ClearEntries => assert t.entries.Keys == {};
  }

  lemma ClearOrderInStep(c: CacheConfig, s: State)
    requires InStep(s) && s.threads[0].ClearOrder?
    ensures InStep(Apply(c, s, Continue(0)))
  {
    NoDupEmpty();
    assert Elements<string>([]) == {};
  }

  predicate Quiet(t: Thread) {
    t.GetLookup? || t.GetCountHit? || t.GetCountMiss? || t.SetCheck? || t.SetCountEviction? || t.SetStamp?
    || t.ClearHits? || t.ClearMisses?
  }

  /** Counting and checking leave map and deque alone. */
  lemma QuietStep(c: CacheConfig, s: State)
    requires |s.threads| == 1 && Quiet(s.threads[0])
    ensures var t := Apply(c, s, Continue(0));
      && t.entries == s.entries && t.order == s.order && |t.threads| == 1
      && match s.threads[0]
         case GetLookup(key) =>
           t.threads[0] == (if key in s.entries && !s.entries[key].IsExpired(s.now)
                            then GetCountHit(key) else GetRemoveExpired(key))
         case GetCountHit(key) => t.threads[0] == GetTouch(key)
         case GetCountMiss(key, removed) => t.threads[0] == if removed then GetForget(key) else Idle
         case _ => t.threads[0].SetPop? || t.threads[0].SetStamp? || t.threads[0].SetCheck?
                   || t.threads[0].SetInsert? || t.threads[0].ClearMisses? || t.threads[0].Idle?
  {
  }

  lemma QuietInStep(c: CacheConfig, s: State)
    requires InStep(s) && Quiet(s.threads[0])
    ensures InStep(Apply(c, s, Continue(0)))
  {
    hide Elements;
    hide NoDup;
    hide Apply;
    QuietStep(c, s);
    QuietAgrees(s.threads[0], Apply(c, s, Continue(0)).threads[0], s.entries.Keys, Elements(s.order));
  }

  lemma QuietAgrees(before: Thread, after: Thread, keys: set<string>, listed: set<string>)
    requires Agree(before, keys, listed) && Quiet(before)
    requires match before
             case GetLookup(key) => after.GetRemoveExpired? || (after == GetCountHit(key) && key in keys)
             case GetCountHit(key) => after == GetTouch(key)
             case GetCountMiss(key, removed) => after == if removed then GetForget(key) else Idle
             case _ => after.SetPop? || after.SetStamp? || after.SetCheck? || after.SetInsert? || after.ClearMisses?
                       || after.Idle?
    ensures Agree(after, keys, listed)
  {
  }

  lemma BeginInStep(c: CacheConfig, s: State, step: Step)
    requires InStep(s) && Enabled(s, step) && !step.Continue?
    ensures InStep(Apply(c, s, step))
  {
    hide Elements;
    hide NoDup;
    hide Advance;
    var t := Apply(c, s, step);
    assert t.entries == s.entries && t.order == s.order && |t.threads| == 1;
  }

  lemma NoDupEmpty()
    ensures NoDup<string>([])
  {
  }

  lemma StepInStep(c: CacheConfig, s: State, step: Step)
    requires InStep(s) && Enabled(s, step)
    ensures InStep(Apply(c, s, step))
  {
    hide InStep;
    hide Apply;
    if step.Continue? {
      SingleThread(s);
      var thread := s.threads[0];
      if thread.SetPop? {
        PopInStep(c, s);
      } else if thread.SetTouch? {
        SetTouchInStep(c, s);
      } else if thread.GetTouch? || thread.GetRemoveExpired? || thread.GetForget? {
        GetInStep(c, s);
      } else if thread.ClearOrder? {
        ClearOrderInStep(c, s);
      } else if thread.SetRemove? || thread.SetInsert? || thread.ClearEntries? {
        EntriesInStep(c, s);
      } else {
        QuietInStep(c, s);
      }
    } else {
      BeginInStep(c, s, step);
    }
  }

  lemma SingleThread(s: State)
    requires InStep(s)
    ensures |s.threads| == 1
  {
  }

  lemma {:induction false} RunInStep(c: CacheConfig, s: State, steps: seq<Step>)
    requires InStep(s) && ValidRun(c, s, steps)
    ensures InStep(Outcome(c, s, steps))
    decreases |steps|
  {
    hide InStep;
    if steps != [] {
      StepInStep(c, s, steps[0]);
      RunInStep(c, Apply(c, s, steps[0]), steps[1..]);
    }
  }

  /** Used by one thread, the cache can always make room when its limit is not zero, and otherwise never. */
  lemma SequentialEvictionExitsIff(c: CacheConfig, s: State)
    requires Reachable(c, 1, s) && s.threads != [] && s.threads[0].SetCheck?
    ensures (exists n: nat :: OutAfter(c, s, 0, n)) <==> c.maxEntries >= 1
  {
    var steps :| ValidRun(c, Initial(1), steps) && Outcome(c, Initial(1), steps) == s;
    assert InStep(Initial(1));
    RunInStep(c, Initial(1), steps);
    SoloEvictionExitsIff(c, s, 0);
    assert s.entries.Keys - Elements(s.order) == {};
  }

  /**
   Two threads are enough to lose every key: one clears the map, the other fills it, the first then
   clears the deque. The next `set` finds the map full and nothing to evict: undisturbed, it never ends.
   */
  lemma EvictionLoopCanSpin(c: CacheConfig, threads: nat)
    requires threads >= 2
    ensures exists s ::
      && Reachable(c, threads, s) && |s.threads| == threads && s.threads[0].SetCheck?
      && |s.entries| == c.maxEntries && s.order == []
      && forall n: nat :: !OutAfter(c, s, 0, n)
  {
    InitialReachable(c, threads);
    var s := Extend(c, threads, Initial(threads), BeginClear(1));
    s := Extend(c, threads, s, Continue(1));
    s := FillAlone(c, threads, s, c.maxEntries);
    s := Extend(c, threads, s, Continue(1));
    s := Extend(c, threads, s, BeginSet(0, "", ""));
    assert s.entries.Keys - Elements(s.order) == s.entries.Keys;
    assert |s.entries| == |s.entries.Keys|;
    SoloEvictionExitsIff(c, s, 0);
  }
}
