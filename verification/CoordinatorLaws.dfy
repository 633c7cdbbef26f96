/** What holds in every run of the batching coordinator: safety, waiting times and progress. */
module CoordinatorLaws {
  import opened Wrappers
  import opened Collections
  import opened Numbers
  import opened Coordinator

  // ----- Safety: exactly once, in order, to the right caller, within the bounds -----

  /**
   In every reachable state the sends are, in order, the backend calls, the open or draining batch,
   and the channel; no submitter occurs twice; and the backend is called with each submitter's own job.
   */
  lemma ExactlyOnceInOrder(c: Config, s: State)
    requires Reachable(c, s)
    ensures s.sent == CallIds(s.calls) + Ids(s.batch) + Ids(s.channel)
    ensures NoDup(CallIds(s.calls) + Ids(s.batch) + Ids(s.channel))
    ensures forall k | 0 <= k < |s.calls| ::
      s.calls[k].pending.tx < |c.jobs| && s.calls[k].pending.job == c.jobs[s.calls[k].pending.tx]
  {
    ReachableInvariant(c, s);
  }

  /** Submitter `i` holds a reply, and the backend returned it for that submitter's own job. */
  ghost predicate HoldsOwnReply(c: Config, s: State, i: nat)
    requires i < |s.submitters| == |c.jobs|
  {
    && HasReply(s.submitters[i])
    && exists k :: 0 <= k < |s.calls|
                && s.calls[k] == Call(Pending(c.jobs[i], i), s.submitters[i].reply)
  }

  /** A reply that a submitter got is what the backend returned for that submitter's job. */
  lemma ReplyIsOwn(c: Config, s: State, i: nat)
    requires Reachable(c, s) && i < |c.jobs| == |s.submitters| && HasReply(s.submitters[i])
    ensures HoldsOwnReply(c, s, i)
  {
    ReachableInvariant(c, s);
    var k :| 0 <= k < AnsweredCalls(s) && s.calls[k].pending.tx == i;
    assert s.calls[k] == Call(Pending(c.jobs[i], i), s.submitters[i].reply);
  }

  /** A oneshot is empty when it is sent on, and keeps its value for the rest of any run. */
  lemma {:induction false} FilledAtMostOnce(c: Config, s: State, steps: seq<Step>, i: nat)
    requires Invariant(c, s) && ValidRun(c, s, steps) && i < |c.jobs|
    ensures s.loop.Responding? ==> s.oneshots[s.loop.pending.tx] == None
    ensures |Outcome(c, s, steps).oneshots| == |c.jobs|
    ensures s.oneshots[i].Some? ==> Outcome(c, s, steps).oneshots[i] == s.oneshots[i]
    decreases |steps|
  {
    if s.loop.Responding? {
      UnansweredSlotEmpty(c, s);
    }
    if steps != [] {
      InvariantKept(c, s, steps[0]);
      FilledAtMostOnce(c, Apply(c, s, steps[0]), steps[1..], i);
    }
  }

  /** A submitter that is about to send always finds room: the channel is less than half full. */
  lemma SendNeverBlocks(c: Config, s: State, i: nat)
    requires Reachable(c, s) && i < |s.submitters| && s.submitters[i].Counted?
    ensures |s.channel| < c.maxConcurrent && 2 * |s.channel| < Capacity(c) && Enabled(c, s, Send(i))
  {
    ReachableInvariant(c, s);
    OutstandingBound(c, s);
    var waiting, holding := (p: Submitter) => p.Waiting?, HoldsPermit;
    assert i in Positions(s.submitters, holding) && i !in Positions(s.submitters, waiting);
    SubsetSize(Positions(s.submitters, waiting) + {i}, Positions(s.submitters, holding));
  }

  /** In-flight submits, the active counter, and every batch stay within the configured limits. */
  lemma ConcurrencyBounds(c: Config, s: State)
    requires Reachable(c, s)
    ensures Count(s.submitters, HoldsPermit) <= c.maxConcurrent
    ensures s.active == Count(s.submitters, IsActive) <= c.maxConcurrent
    ensures |s.batch| <= Max(1, c.maxBatchSize)
    ensures forall z | z in s.batchSizes :: 1 <= z <= Min(Max(1, c.maxBatchSize), c.maxConcurrent)
  {
    ReachableInvariant(c, s);
    CountMonotone(s.submitters, IsActive, HoldsPermit);
  }

  /** Fewer counter decrements than increments: `active_requests` never goes below zero. */
  lemma ActiveNeverUnderflows(c: Config, s: State, i: nat)
    requires Reachable(c, s) && i < |s.submitters| && s.submitters[i].Answered?
    ensures s.active > 0 && Enabled(c, s, CountDown(i))
  {
    ReachableInvariant(c, s);
    assert i in Positions(s.submitters, IsActive);
  }

  /** At a loop boundary the totals agree with each other and with what was served. */
  lemma TotalsAtBoundary(c: Config, s: State)
    requires Reachable(c, s) && s.loop.Receiving?
    ensures s.totalRequests == s.totalItems == Sum(s.batchSizes) == |s.calls|
    ensures s.totalBatches == |s.batchSizes|
    ensures s.totalBatches <= s.totalItems <= s.totalBatches * Max(1, c.maxBatchSize)
  {
    ReachableInvariant(c, s);
    assert forall k | 0 <= k < |s.batchSizes| :: s.batchSizes[k] in s.batchSizes;
    SumBetween(s.batchSizes, Max(1, c.maxBatchSize));
  }

  lemma {:induction false} SumBetween(sizes: seq<nat>, most: nat)
    requires forall k | 0 <= k < |sizes| :: 1 <= sizes[k] <= most
    ensures |sizes| <= Sum(sizes) <= |sizes| * most
  {
    if sizes != [] {
      var front := sizes[..|sizes| - 1];
      SumBetween(front, most);
      assert |sizes| * most == |front| * most + most;
    }
  }

  // ----- The collecting time -----

  /** Collecting a batch never takes longer than `WaitRounds` timer periods: the timer restarts per receive. */
  lemma WaitBound(c: Config, s: State)
    requires Reachable(c, s)
    ensures s.waited <= WaitRounds(c) * c.maxWaitMs
  {
    ReachableInvariant(c, s);
    OutstandingWait(c, s);
    if s.loop.Collecting? || s.loop.AwaitingMore? {
      ProductMonotone(|s.batch| - 1, WaitRounds(c), c.maxWaitMs);
    }
  }

  /** The loop stops collecting below the batch limit only after a full timer period. */
  lemma ShortBatchWaited(c: Config, s: State)
    requires Reachable(c, s) && (s.loop.CountBatch? || s.loop.CountItems? || s.loop.CountRequests?)
    ensures |s.batch| >= c.maxBatchSize || s.waited >= c.maxWaitMs
  {
    ReachableInvariant(c, s);
  }

  /** The state after `j` requests were collected, each of the last `j - 1` at the very end of the timer. */
  ghost predicate SlowCollect(c: Config, s: State, j: nat) {
    && |s.submitters| == |s.oneshots| == |c.jobs|
    && s.loop.Collecting? && s.channel == [] && |s.batch| == j
    && s.permits == c.maxConcurrent - j
    && (forall i | j <= i < |c.jobs| :: s.submitters[i] == Start)
    && s.waited == (j - 1) * c.maxWaitMs
  }

  lemma {:induction false} SlowCollectReachable(c: Config, j: nat) returns (s: State)
    requires 1 <= j <= Min(c.maxConcurrent, |c.jobs|) && j <= Max(1, c.maxBatchSize)
    ensures Reachable(c, s) && SlowCollect(c, s, j)
  {
    if j == 1 {
      s := Initial(c);
      assert ValidRun(c, s, []) && Outcome(c, s, []) == s;
      s := SubmitNext(c, s, 0);
      ReachableStep(c, s, RecvFirst);
      s := Apply(c, s, RecvFirst);
    } else {
      s := SlowCollectReachable(c, j - 1);
      s := CollectLate(c, s, j - 1);
    }
  }

  /** One more request arrives at the last moment of the timer. */
  lemma CollectLate(c: Config, s: State, j: nat) returns (t: State)
    requires Reachable(c, s) && SlowCollect(c, s, j)
    requires 1 <= j < Min(c.maxConcurrent, |c.jobs|) && j < c.maxBatchSize
    ensures Reachable(c, t) && SlowCollect(c, t, j + 1)
  {
    ReachableStep(c, s, TryEmpty);
    var late := SubmitNext(c, Apply(c, s, TryEmpty), j);
    ReachableStep(c, late, RecvWithin(c.maxWaitMs));
    t := Apply(c, late, RecvWithin(c.maxWaitMs));
    assert (j - 1) * c.maxWaitMs + c.maxWaitMs == j * c.maxWaitMs;
  }

  /** A submitter that has not started can run up to its send while a permit is free. */
  lemma SubmitNext(c: Config, s: State, i: nat) returns (t: State)
    requires Reachable(c, s) && i < |s.submitters| == |s.oneshots| == |c.jobs|
    requires s.submitters[i] == Start && s.permits > 0 && |s.channel| < Capacity(c)
    ensures Reachable(c, t)
    ensures t == s.(submitters := s.submitters[i := Waiting], permits := s.permits - 1,
                    active := s.active + 1, channel := s.channel + [Pending(c.jobs[i], i)],
                    sent := s.sent + [i])
  {
    ReachableStep(c, s, Acquire(i));
    t := Apply(c, s, Acquire(i));
    ReachableStep(c, t, CountUp(i));
    t := Apply(c, t, CountUp(i));
    ReachableStep(c, t, Send(i));
    t := Apply(c, t, Send(i));
    assert s.submitters[i := Permitted][i := Counted][i := Waiting] == s.submitters[i := Waiting];
  }

  /** The bound is exact: some run spends all of it. */
  lemma WaitBoundReached(c: Config)
    ensures exists s :: Reachable(c, s) && s.waited == WaitRounds(c) * c.maxWaitMs
  {
    var m := Min(c.maxConcurrent, |c.jobs|);
    if m == 0 {
      assert ValidRun(c, Initial(c), []) && Outcome(c, Initial(c), []) == Initial(c);
      assert Reachable(c, Initial(c));
    } else if Max(1, c.maxBatchSize) <= m {
      var s := SlowCollectReachable(c, Max(1, c.maxBatchSize));
    } else {
      var s := SlowCollectReachable(c, m);
      ReachableStep(c, s, TryEmpty);
      s := Apply(c, s, TryEmpty);
      ReachableStep(c, s, TimedOut);
      s := Apply(c, s, TimedOut);
      assert (m - 1) * c.maxWaitMs + c.maxWaitMs == m * c.maxWaitMs;
    }
  }

  /**
   `max_wait_ms` is documented as the longest time spent filling a batch. That is so in every run
   exactly when at most one receive can follow the first, or the timer is zero.
   */
  lemma DocumentedWaitHoldsIff(c: Config)
    ensures (forall s | Reachable(c, s) :: s.waited <= c.maxWaitMs)
       <==> c.maxWaitMs == 0 || c.maxBatchSize <= 2 || c.maxConcurrent <= 1 || |c.jobs| <= 1
  {
    if c.maxWaitMs == 0 || WaitRounds(c) <= 1 {
      forall s | Reachable(c, s)
        ensures s.waited <= c.maxWaitMs
      {
        WaitBound(c, s);
        if c.maxWaitMs != 0 {
          ProductMonotone(WaitRounds(c), 1, c.maxWaitMs);
        }
      }
    } else {
      WaitBoundReached(c);
      var s :| Reachable(c, s) && s.waited == WaitRounds(c) * c.maxWaitMs;
      ProductMonotone(2, WaitRounds(c), c.maxWaitMs);
      assert s.waited > c.maxWaitMs;
    }
  }

  // ----- Progress: no deadlock, and every run ends with every submitter answered -----

  function Rank(p: Submitter): nat {
    match p
    case Start => 18
    case Permitted => 17
    case Counted => 16
    case Waiting => 3
    case Answered(_) => 2
    case Discounted(_) => 1
    case Finished(_) => 0
  }

  function Ranks(ps: seq<Submitter>): nat {
    if ps == [] then 0 else Rank(ps[0]) + Ranks(ps[1..])
  }

  function LoopRank(l: Loop): nat {
    match l
    case Receiving => 0
    case Collecting => 7
    case AwaitingMore => 6
    case CountBatch => 5
    case CountItems => 4
    case CountRequests => 3
    case Draining => 2
    case Responding(_, _) => 4
  }

  /** What is left to do: a request in the channel or the batch still owes its share of loop steps. */
  function Measure(s: State): nat {
    Ranks(s.submitters) + 12 * |s.channel| + 3 * |s.batch| + LoopRank(s.loop)
  }

  lemma {:induction false} RanksUpdate(ps: seq<Submitter>, i: nat, p: Submitter)
    requires i < |ps|
    ensures Ranks(ps[i := p]) == Ranks(ps) - Rank(ps[i]) + Rank(p)
  {
    if i > 0 {
      RanksUpdate(ps[1..], i - 1, p);
      assert ps[i := p][1..] == ps[1..][i - 1 := p];
    } else {
      assert ps[i := p][1..] == ps[1..];
    }
  }

  lemma {:induction false} RanksStart(ps: seq<Submitter>)
    requires forall k | 0 <= k < |ps| :: ps[k] == Start
    ensures Ranks(ps) == 18 * |ps|
  {
    if ps != [] {
      RanksStart(ps[1..]);
    }
  }

  /** Every step, of whichever task, brings the whole system closer to its end. */
  lemma StepDecreases(c: Config, s: State, step: Step)
    requires Enabled(c, s, step)
    ensures Measure(Apply(c, s, step)) < Measure(s)
  {
    if step.Acquire? || step.CountUp? || step.Send? || step.Take? || step.CountDown? || step.Release? {
      RanksUpdate(s.submitters, step.i, Apply(c, s, step).submitters[step.i]);
    }
  }

  /** No run is longer than eighteen steps per submitter. */
  lemma RunsTerminate(c: Config, steps: seq<Step>)
    requires ValidRun(c, Initial(c), steps)
    ensures |steps| <= 18 * |c.jobs|
  {
    RanksStart(Initial(c).submitters);
    RunLength(c, Initial(c), steps);
  }

  lemma {:induction false} RunLength(c: Config, s: State, steps: seq<Step>)
    requires ValidRun(c, s, steps)
    ensures |steps| + Measure(Outcome(c, s, steps)) <= Measure(s)
    decreases |steps|
  {
    if steps != [] {
      StepDecreases(c, s, steps[0]);
      RunLength(c, Apply(c, s, steps[0]), steps[1..]);
    }
  }

  /** With at least one permit, a reachable state with an unfinished submitter always has a next step. */
  lemma DeadlockFree(c: Config, s: State, i: nat)
    requires c.maxConcurrent >= 1
    requires Reachable(c, s) && i < |s.submitters| && !s.submitters[i].Finished?
    ensures exists step :: Enabled(c, s, step)
  {
    ReachableInvariant(c, s);
    if exists j: nat :: j < |s.submitters| && !s.submitters[j].Start? && !s.submitters[j].Finished?
                        && !s.submitters[j].Waiting? {
      var j: nat :| j < |s.submitters| && !s.submitters[j].Start? && !s.submitters[j].Finished?
                 && !s.submitters[j].Waiting?;
      SubmitterMoves(c, s, j);
    } else if !s.loop.Receiving? || s.channel != [] {
      LoopMoves(c, s);
    } else if exists j: nat :: j < |s.submitters| && s.submitters[j].Waiting? {
      var j: nat :| j < |s.submitters| && s.submitters[j].Waiting?;
      WaiterWasAnswered(c, s, j);
      assert Enabled(c, s, Take(j));
    } else {
      assert Positions(s.submitters, HoldsPermit) == {};
      assert Enabled(c, s, Acquire(i));
    }
  }

  lemma SubmitterMoves(c: Config, s: State, j: nat)
    requires Reachable(c, s) && j < |s.submitters|
    requires !s.submitters[j].Start? && !s.submitters[j].Finished? && !s.submitters[j].Waiting?
    ensures exists step :: Enabled(c, s, step)
  {
    ReachableInvariant(c, s);
    match s.submitters[j]
    case Permitted => assert Enabled(c, s, CountUp(j));
    case Counted => SendNeverBlocks(c, s, j);
    case Answered(_) => ActiveNeverUnderflows(c, s, j);
    case Discounted(_) => assert Enabled(c, s, Release(j));
  }

  lemma LoopMoves(c: Config, s: State)
    requires Invariant(c, s) && (!s.loop.Receiving? || s.channel != [])
    ensures exists step :: Enabled(c, s, step)
  {
    match s.loop
    case Receiving => assert Enabled(c, s, RecvFirst);
    case Collecting =>
      if |s.batch| >= c.maxBatchSize {
        assert Enabled(c, s, BatchFull);
      } else {
        assert Enabled(c, s, if s.channel == [] then TryEmpty else TryRecv);
      }
    case AwaitingMore => assert Enabled(c, s, TimedOut);
    case CountBatch => assert Enabled(c, s, AddBatch);
    case CountItems => assert Enabled(c, s, AddItems);
    case CountRequests => assert Enabled(c, s, AddRequests);
    case Draining =>
      assert Enabled(c, s, if s.batch == [] then EndBatch else Infer(InferenceError("backend")));
    case Responding(_, _) => assert Enabled(c, s, Respond);
  }

  lemma WaiterWasAnswered(c: Config, s: State, j: nat)
    requires Invariant(c, s) && s.loop.Receiving? && s.channel == []
    requires j < |s.submitters| && s.submitters[j].Waiting?
    ensures s.oneshots[j].Some?
  {
    assert j in s.sent;
    var k :| 0 <= k < |s.sent| && s.sent[k] == j;
    assert s.calls[k].pending.tx == j;
  }

  /**
   A run that cannot go on has answered everyone: every submitter holds the backend's reply to its own
   job, all permits are back, nothing is active, and the totals count each submitter once.
   */
  lemma MaximalRunsComplete(c: Config, s: State)
    requires c.maxConcurrent >= 1 && Reachable(c, s) && !exists step :: Enabled(c, s, step)
    ensures |s.submitters| == |c.jobs|
    ensures forall i: nat | i < |c.jobs| :: s.submitters[i].Finished? && HoldsOwnReply(c, s, i)
    ensures s.permits == c.maxConcurrent && s.active == 0
    ensures s.totalRequests == s.totalItems == |c.jobs| == |s.calls|
  {
    ReachableInvariant(c, s);
    forall i: nat | i < |c.jobs|
      ensures s.submitters[i].Finished? && HoldsOwnReply(c, s, i)
    {
      if !s.submitters[i].Finished? {
        DeadlockFree(c, s, i);
      }
      ReplyIsOwn(c, s, i);
    }
    if !s.loop.Receiving? || s.channel != [] {
      LoopMoves(c, s);
    }
    CountNone(s.submitters, HoldsPermit);
    CountNone(s.submitters, IsActive);
    TotalsAtBoundary(c, s);
    EveryoneServed(c, s);
  }

  lemma EveryoneServed(c: Config, s: State)
    requires Pipeline(c, s) && s.batch == [] && s.channel == []
    requires forall i: nat | i < |c.jobs| :: s.submitters[i].Finished?
    ensures |s.calls| == |c.jobs|
  {
    assert |s.sent| == |s.calls|;
    NoDupSize(s.sent);
    CountAll(s.submitters, HasSent);
    assert Positions(s.submitters, HasSent) == Elements(s.sent);
  }
}
