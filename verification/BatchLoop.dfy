/**
 The coordinator in the program's own form: an object whose counters, channel and permits are updated in place,
 `submit` advanced from await point to await point, and one round of the background loop. Every method is
 proved to take steps of the state machine, so all that holds of its runs holds of the object.
 */
module BatchLoop {
  import opened Wrappers
  import opened Collections
  import opened Numbers
  import opened Coordinator
  import opened CoordinatorLaws
  import opened RealFacts

  /** `trace` is a run of the machine, from the start, that leads to `s`. */
  ghost predicate RunsTo(c: Config, trace: seq<Step>, s: State) {
    ValidRun(c, Initial(c), trace) && Outcome(c, Initial(c), trace) == s
  }

  lemma Extend(c: Config, trace: seq<Step>, s: State, step: Step, t: State)
    requires RunsTo(c, trace, s) && Enabled(c, s, step) && t == Apply(c, s, step)
    ensures RunsTo(c, trace + [step], t)
  {
    RunExtends(c, Initial(c), trace, step);
  }

  lemma RunsToReachable(c: Config, trace: seq<Step>, s: State)
    requires RunsTo(c, trace, s)
    ensures Reachable(c, s) && Invariant(c, s)
    ensures |s.submitters| == |s.oneshots| == |c.jobs|
    ensures s.loop.Responding? ==> Enabled(c, s, Respond)
  {
    ReachableInvariant(c, s);
  }

  /** What submitter `i` does next, if it is not blocked. */
  function NextStep(p: Submitter, i: nat): Option<Step> {
    match p
    case Start => Some(Step.Acquire(i))
    case Permitted => Some(Step.CountUp(i))
    case Counted => Some(Step.Send(i))
    case Waiting => Some(Step.Take(i))
    case Answered(_) => Some(Step.CountDown(i))
    case Discounted(_) => Some(Step.Release(i))
    case Finished(_) => None
  }

  function Turn(c: Config, s: State, i: nat): seq<Step> {
    if i < |s.submitters| && NextStep(s.submitters[i], i).Some? && Enabled(c, s, NextStep(s.submitters[i], i).value)
    then [NextStep(s.submitters[i], i).value]
    else []
  }

  /** One turn of submitter `i`, which may be blocked. */
  ghost function AfterTurn(c: Config, s: State, i: nat): State {
    if Turn(c, s, i) == [] then s else Apply(c, s, Turn(c, s, i)[0])
  }

  ghost function AfterTurns(c: Config, s: State, turns: seq<nat>): State {
    if turns == [] then s else AfterTurn(c, AfterTurns(c, s, turns[..|turns| - 1]), turns[|turns| - 1])
  }

  ghost function Taking(c: Config, s: State, step: Step): State {
    if Enabled(c, s, step) then Apply(c, s, step) else s
  }

  /** One poll: the look at the channel, and, if that is empty, the timer, which ends or finds a request. */
  ghost function Polled(c: Config, s: State, turns: seq<nat>, late: seq<nat>, delay: nat): State {
    var look := AfterTurns(c, s, turns);
    if look.channel != [] then Taking(c, look, TryRecv)
    else
      var end := AfterTurns(c, Taking(c, look, TryEmpty), late);
      Taking(c, end, if end.channel != [] && delay <= c.maxWaitMs then RecvWithin(delay) else TimedOut)
  }

  /** Polling from the k-th look on until the batch is full or a timer runs out. */
  ghost function Collected(c: Config, s: State, turns: nat -> seq<nat>, delay: nat -> nat, k: nat): State
    decreases c.maxBatchSize - |s.batch|
  {
    if |s.batch| >= c.maxBatchSize then Taking(c, s, BatchFull)
    else
      var t := Polled(c, s, turns(k), turns(k + 1), delay(k));
      if |t.batch| <= |s.batch| then t else Collected(c, t, turns, delay, k + 2)
  }

  /** A run is determined by its steps. */
  lemma TurnDetermined(c: Config, trace: seq<Step>, s: State, i: nat, t: State)
    requires RunsTo(c, trace, s) && RunsTo(c, trace + Turn(c, s, i), t)
    ensures t == AfterTurn(c, s, i)
  {
    if Turn(c, s, i) == [] {
      assert trace + [] == trace;
    } else {
      RunExtends(c, Initial(c), trace, Turn(c, s, i)[0]);
    }
  }

  /** A longer run has sent and called at least what its beginning had. */
  lemma {:induction false} RunGrows(c: Config, s: State, steps: seq<Step>, n: nat)
    requires ValidRun(c, s, steps) && n <= |steps|
    ensures ValidRun(c, s, steps[..n])
    ensures Outcome(c, s, steps[..n]).sent <= Outcome(c, s, steps).sent
    decreases |steps|
  {
    if n == |steps| {
      assert steps[..n] == steps;
    } else if n == 0 {
      SentGrows(c, s, steps);
    } else {
      RunGrows(c, Apply(c, s, steps[0]), steps[1..], n - 1);
      assert steps[..n][1..] == steps[1..][..n - 1];
    }
  }

  lemma {:induction false} SentGrows(c: Config, s: State, steps: seq<Step>)
    requires ValidRun(c, s, steps)
    ensures s.sent <= Outcome(c, s, steps).sent
    decreases |steps|
  {
    if steps != [] {
      SentGrows(c, Apply(c, s, steps[0]), steps[1..]);
    }
  }

  lemma TraceGrows(c: Config, before: seq<Step>, s: State, after: seq<Step>, t: State)
    requires RunsTo(c, before, s) && RunsTo(c, after, t) && before <= after
    ensures s.sent <= t.sent
  {
    RunGrows(c, Initial(c), after, |before|);
    assert after[..|before|] == before;
  }

  /** What the background loop alone writes. */
  datatype Served = Served(totalBatches: nat, totalItems: nat, totalRequests: nat, oneshots: seq<Option<Reply>>,
                           calls: seq<Call>, batchSizes: seq<nat>, waited: nat)

  class InferenceCoordinator {
    const config: Config
    var submitters: seq<Submitter>
    var permits: nat
    var channel: seq<Pending>
    var oneshots: seq<Option<Reply>>
    var active: nat
    var totalBatches: nat
    var totalItems: nat
    var totalRequests: nat
    ghost var waited: nat
    ghost var sent: seq<nat>
    ghost var calls: seq<Call>
    ghost var batchSizes: seq<nat>
    ghost var trace: seq<Step>

    /** The state of the machine, with the loop's position and its local batch. */
    ghost function At(loop: Loop, batch: seq<Pending>): State
      reads this
    {
      State(submitters, permits, channel, oneshots, loop, batch, waited, active,
            totalBatches, totalItems, totalRequests, sent, calls, batchSizes)
    }

    ghost predicate Valid(loop: Loop, batch: seq<Pending>)
      reads this
    {
      RunsTo(config, trace, At(loop, batch))
    }

    ghost function LoopView(): Served
      reads this
    {
      Served(totalBatches, totalItems, totalRequests, oneshots, calls, batchSizes, waited)
    }

    constructor (config: Config)
      ensures this.config == config && Valid(Receiving, []) && At(Receiving, []) == Initial(config)
    {
      this.config := config;
      submitters := seq(|config.jobs|, i => Start);
      permits := config.maxConcurrent;
      channel := [];
      oneshots := seq(|config.jobs|, i => None);
      active, totalBatches, totalItems, totalRequests := 0, 0, 0, 0;
      waited, sent, calls, batchSizes, trace := 0, [], [], [], [];
    }

    method Stats() returns (requests: nat, running: nat, batches: nat, average: real)
      ensures requests == totalRequests && running == active && batches == totalBatches
      ensures if totalBatches == 0 then average == 0.0 else average * totalBatches as real == totalItems as real
    {
      requests, running, batches := totalRequests, active, totalBatches;
      average := AverageOf(totalItems, totalBatches);
    }

    /** Lets submitter `i` run to its next await point, if it is not blocked there already. */
    method Submit(i: nat, ghost loop: Loop, ghost batch: seq<Pending>)
      requires Valid(loop, batch)
      modifies this`submitters, this`permits, this`channel, this`active, this`sent, this`trace
      ensures Valid(loop, batch)
      ensures trace == old(trace) + Turn(config, old(At(loop, batch)), i)
      ensures At(loop, batch) == AfterTurn(config, old(At(loop, batch)), i)
    {
      ghost var s, before := At(loop, batch), trace;
      TakeTurn(i, loop, batch);
      TurnDetermined(config, before, s, i, At(loop, batch));
    }

    method TakeTurn(i: nat, ghost loop: Loop, ghost batch: seq<Pending>)
      requires Valid(loop, batch)
      modifies this`submitters, this`permits, this`channel, this`active, this`sent, this`trace
      ensures Valid(loop, batch)
      ensures trace == old(trace) + Turn(config, old(At(loop, batch)), i)
    {
      hide RunsTo;
      hide Invariant;
      hide Reachable;
      if i >= |submitters| {
        return;
      }
      ghost var s := At(loop, batch);
      RunsToReachable(config, trace, s);
      match submitters[i]
      case Start => Enter(i, loop, batch);
      case Permitted => Enter(i, loop, batch);
      case Counted => SendRequest(i, loop, batch);
      case _ => TakeReply(i, loop, batch);
    }

    /** The part of `submit` before the request is sent. */
    method Enter(i: nat, ghost loop: Loop, ghost batch: seq<Pending>)
      requires Valid(loop, batch) && i < |submitters| == |oneshots| == |config.jobs|
      requires submitters[i].Start? || submitters[i].Permitted?
      modifies this`submitters, this`permits, this`active, this`trace
      ensures Valid(loop, batch)
      ensures trace == old(trace) + Turn(config, old(At(loop, batch)), i)
    {
      hide RunsTo;
      ghost var s := At(loop, batch);
      if submitters[i].Permitted? {
        active := active + 1;
        submitters := submitters[i := Counted];
        Extend(config, trace, s, Step.CountUp(i), At(loop, batch));
        trace := trace + [Step.CountUp(i)];
      } else if permits > 0 {
        permits := permits - 1;
        submitters := submitters[i := Permitted];
        Extend(config, trace, s, Step.Acquire(i), At(loop, batch));
        trace := trace + [Step.Acquire(i)];
      }
    }

    method SendRequest(i: nat, ghost loop: Loop, ghost batch: seq<Pending>)
      requires Valid(loop, batch) && i < |submitters| == |oneshots| == |config.jobs| && submitters[i].Counted?
      modifies this`submitters, this`channel, this`sent, this`trace
      ensures Valid(loop, batch)
      ensures trace == old(trace) + Turn(config, old(At(loop, batch)), i)
    {
      hide RunsTo;
      hide Invariant;
      hide Reachable;
      ghost var s := At(loop, batch);
      RunsToReachable(config, trace, s);
      SendNeverBlocks(config, s, i);
      channel := channel + [Pending(config.jobs[i], i)];
      sent := sent + [i];
      submitters := submitters[i := Waiting];
      Extend(config, trace, s, Step.Send(i), At(loop, batch));
      trace := trace + [Step.Send(i)];
    }

    /** The part of `submit` after the request was sent. */
    method TakeReply(i: nat, ghost loop: Loop, ghost batch: seq<Pending>)
      requires Valid(loop, batch) && i < |submitters| == |oneshots| == |config.jobs|
      modifies this`submitters, this`permits, this`active, this`trace
      ensures Valid(loop, batch)
      ensures old(submitters[i]).Waiting? || HasReply(old(submitters[i]))
          ==> trace == old(trace) + Turn(config, old(At(loop, batch)), i)
      ensures !old(submitters[i]).Waiting? && !HasReply(old(submitters[i])) ==> trace == old(trace)
    {
      hide RunsTo;
      hide Invariant;
      ghost var s := At(loop, batch);
      RunsToReachable(config, trace, s);
      match submitters[i]
      case Waiting =>
        if oneshots[i].Some? {
          submitters := submitters[i := Answered(oneshots[i].value)];
          Extend(config, trace, s, Step.Take(i), At(loop, batch));
          trace := trace + [Step.Take(i)];
        }
      case Answered(reply) =>
        ActiveNeverUnderflows(config, s, i);
        active := active - 1;
        submitters := submitters[i := Discounted(reply)];
        Extend(config, trace, s, Step.CountDown(i), At(loop, batch));
        trace := trace + [Step.CountDown(i)];
      case Discounted(reply) =>
        permits := permits + 1;
        submitters := submitters[i := Finished(reply)];
        Extend(config, trace, s, Step.Release(i), At(loop, batch));
        trace := trace + [Step.Release(i)];
      case _ =>
    }

    /** Other tasks run between two actions of the loop: the submitters named, one step each. */
    method Others(turns: seq<nat>, ghost loop: Loop, ghost batch: seq<Pending>)
      requires Valid(loop, batch)
      modifies this`submitters, this`permits, this`channel, this`active, this`sent, this`trace
      ensures Valid(loop, batch) && old(trace) <= trace
      ensures At(loop, batch) == AfterTurns(config, old(At(loop, batch)), turns)
    {
      hide Valid;
      hide AfterTurn;
      ghost var s := At(loop, batch);
      hide At;
      for k := 0 to |turns|
        invariant Valid(loop, batch) && old(trace) <= trace
        invariant At(loop, batch) == AfterTurns(config, s, turns[..k])
      {
        Submit(turns[k], loop, batch);
        assert turns[..k + 1][..k] == turns[..k];
      }
      assert turns[..|turns|] == turns;
    }

    /** Takes the next request off the channel, at once or after waiting for it. */
    method Receive(batch: seq<Pending>, ghost loop: Loop, ghost step: Step) returns (more: seq<Pending>)
      requires Valid(loop, batch) && Enabled(config, At(loop, batch), step)
      requires step.TryRecv? || step.RecvWithin?
      modifies this`channel, this`waited, this`trace
      ensures Valid(Collecting, more) && |more| == |batch| + 1
      ensures trace == old(trace) + [step]
      ensures At(Collecting, more) == Apply(config, old(At(loop, batch)), step)
    {
      hide RunsTo;
      ghost var s := At(loop, batch);
      more, channel := batch + [channel[0]], channel[1..];
      waited := if step.RecvWithin? then waited + step.ms else waited;
      Extend(config, trace, s, step, At(Collecting, more));
      trace := trace + [step];
    }

    /** The batch is full, or the timer ran out. */
    method StopCollecting(batch: seq<Pending>, ghost loop: Loop, ghost step: Step)
      requires Valid(loop, batch) && Enabled(config, At(loop, batch), step)
      requires step.TimedOut? || step.BatchFull?
      modifies this`waited, this`batchSizes, this`trace
      ensures Valid(CountBatch, batch)
      ensures batchSizes == old(batchSizes) + [|batch|] && trace == old(trace) + [step]
      ensures At(CountBatch, batch) == Apply(config, old(At(loop, batch)), step)
    {
      hide RunsTo;
      ghost var s := At(loop, batch);
      waited := if step.TimedOut? then waited + config.maxWaitMs else waited;
      batchSizes := batchSizes + [|batch|];
      Extend(config, trace, s, step, At(CountBatch, batch));
      trace := trace + [step];
    }

    /** Finds the channel empty, and lets others run while the timer does. */
    method Wait(batch: seq<Pending>, turns: seq<nat>)
      requires Valid(Collecting, batch) && |batch| < config.maxBatchSize && channel == []
      modifies this`submitters, this`permits, this`channel, this`active, this`sent, this`trace
      ensures Valid(AwaitingMore, batch) && old(trace) <= trace
      ensures At(AwaitingMore, batch)
           == AfterTurns(config, Apply(config, old(At(Collecting, batch)), TryEmpty), turns)
    {
      hide RunsTo;
      hide AfterTurns;
      Extend(config, trace, At(Collecting, batch), TryEmpty, At(AwaitingMore, batch));
      trace := trace + [TryEmpty];
      Others(turns, AwaitingMore, batch);
    }

    /**
     One look at the channel, and at most one timer. The timer runs out exactly if neither look nor timer finds a
     request, or the timer's comes too late; otherwise the request found is added.
     */
    method Poll(batch: seq<Pending>, turns: seq<nat>, late: seq<nat>, delay: nat)
      returns (more: seq<Pending>, timedOut: bool)
      requires Valid(Collecting, batch) && |batch| < config.maxBatchSize
      modifies this`submitters, this`permits, this`channel, this`active, this`sent, this`trace,
               this`waited, this`batchSizes
      ensures Valid(if timedOut then CountBatch else Collecting, more) && old(trace) <= trace
      ensures batchSizes == if timedOut then old(batchSizes) + [|batch|] else old(batchSizes)
      ensures var look := AfterTurns(config, old(At(Collecting, batch)), turns);
        var end := AfterTurns(config, look.(loop := AwaitingMore), late);
        && (timedOut <==> look.channel == [] && (end.channel == [] || delay > config.maxWaitMs))
        && more == (if timedOut then batch
                    else batch + [if look.channel != [] then look.channel[0] else end.channel[0]])
        && At(if timedOut then CountBatch else Collecting, more)
           == Polled(config, old(At(Collecting, batch)), turns, late, delay)
    {
      hide Valid;
      hide AfterTurns;
      Others(turns, Collecting, batch);
      if channel != [] {
        more := Receive(batch, Collecting, TryRecv);
        return more, false;
      }
      Wait(batch, late);
      if channel != [] && delay <= config.maxWaitMs {
        more := Receive(batch, AwaitingMore, RecvWithin(delay));
        return more, false;
      }
      StopCollecting(batch, AwaitingMore, TimedOut);
      return batch, true;
    }

    /**
     Adds to the batch until it is full or the timer runs out. `turns(k)` is who runs before the k-th look at
     the channel, or while the k-th timer runs; `delay(k)` is after how long that timer finds a request.
     */
    method Collect(first: Pending, turns: nat -> seq<nat>, delay: nat -> nat) returns (batch: seq<Pending>)
      requires Valid(Collecting, [first])
      modifies this`submitters, this`permits, this`channel, this`active, this`sent, this`trace,
               this`waited, this`batchSizes
      ensures Valid(CountBatch, batch)
      ensures 1 <= |batch| <= Max(1, config.maxBatchSize) && batch[0] == first
      ensures |batch| < config.maxBatchSize ==> waited >= config.maxWaitMs
      ensures batchSizes == old(batchSizes) + [|batch|] && old(trace) <= trace
      ensures At(CountBatch, batch) == Collected(config, old(At(Collecting, [first])), turns, delay, 0)
    {
      hide Valid;
      hide Polled;
      hide AfterTurns;
      ghost var s := At(Collecting, [first]);
      batch := [first];
      var k := 0;
      while |batch| < config.maxBatchSize
        invariant Valid(Collecting, batch)
        invariant 1 <= |batch| <= Max(1, config.maxBatchSize) && batch[0] == first
        invariant batchSizes == old(batchSizes) && old(trace) <= trace
        invariant Collected(config, s, turns, delay, 0) == Collected(config, At(Collecting, batch), turns, delay, k)
      {
        var timedOut;
        batch, timedOut := Poll(batch, turns(k), turns(k + 1), delay(k));
        if timedOut {
          LongEnough(batch);
          return;
        }
        k := k + 2;
      }
      FullBatch(batch);
    }

    lemma LongEnough(batch: seq<Pending>)
      requires Valid(CountBatch, batch)
      ensures |batch| < config.maxBatchSize ==> waited >= config.maxWaitMs
    {
      RunsToReachable(config, trace, At(CountBatch, batch));
    }

    method FullBatch(batch: seq<Pending>)
      requires Valid(Collecting, batch) && |batch| >= config.maxBatchSize
      modifies this`waited, this`batchSizes, this`trace
      ensures Valid(CountBatch, batch)
      ensures batchSizes == old(batchSizes) + [|batch|] && trace == old(trace) + [BatchFull]
      ensures At(CountBatch, batch) == Taking(config, old(At(Collecting, batch)), BatchFull)
    {
      hide Valid;
      StopCollecting(batch, Collecting, BatchFull);
    }

    method ServeOne(pending: Pending, ghost rest: seq<Pending>, infer: (ModelHandle, InferenceRequest) -> Reply,
                    turns: seq<nat>)
      requires Valid(Draining, [pending] + rest)
      modifies this`submitters, this`permits, this`channel, this`active, this`sent, this`trace,
               this`oneshots, this`calls
      ensures Valid(Draining, rest) && old(trace) <= trace
      ensures calls == old(calls) + [Call(pending, infer(pending.job.handle, pending.job.request))]
    {
      hide AfterTurns;
      hide RunsTo;
      var reply := CallBackend(pending, rest, infer);
      Others(turns, Responding(pending, reply), rest);
      SendReply(pending, reply, rest);
    }

    /** Calls the backend for each request of the batch in turn and sends the reply to its submitter. */
    method Drain(batch: seq<Pending>, infer: (ModelHandle, InferenceRequest) -> Reply, turns: nat -> seq<nat>)
      requires Valid(Draining, batch)
      modifies this`submitters, this`permits, this`channel, this`active, this`sent, this`trace,
               this`oneshots, this`calls
      ensures Valid(Draining, []) && old(trace) <= trace
      ensures calls == old(calls) + Answers(batch, infer)
    {
      hide AfterTurns;
      hide Valid;
      for k := 0 to |batch|
        invariant Valid(Draining, batch[k..]) && old(trace) <= trace
        invariant calls == old(calls) + Answers(batch[..k], infer)
      {
        Others(turns(2 * k), Draining, batch[k..]);
        assert batch[k..] == [batch[k]] + batch[k + 1..];
        ServeOne(batch[k], batch[k + 1..], infer, turns(2 * k + 1));
        assert batch[..k + 1][..k] == batch[..k];
      }
      assert batch[..|batch|] == batch;
    }

    method AddToBatches(batch: seq<Pending>)
      requires Valid(CountBatch, batch)
      modifies this`totalBatches, this`trace
      ensures Valid(CountItems, batch) && trace == old(trace) + [AddBatch] && totalBatches == old(totalBatches) + 1
    {
      hide RunsTo;
      ghost var s := At(CountBatch, batch);
      totalBatches := totalBatches + 1;
      Extend(config, trace, s, AddBatch, At(CountItems, batch));
      trace := trace + [AddBatch];
    }

    method AddToItems(batch: seq<Pending>)
      requires Valid(CountItems, batch)
      modifies this`totalItems, this`trace
      ensures Valid(CountRequests, batch) && trace == old(trace) + [AddItems] && totalItems == old(totalItems) + |batch|
    {
      hide RunsTo;
      ghost var s := At(CountItems, batch);
      totalItems := totalItems + |batch|;
      Extend(config, trace, s, AddItems, At(CountRequests, batch));
      trace := trace + [AddItems];
    }

    method AddToRequests(batch: seq<Pending>)
      requires Valid(CountRequests, batch)
      modifies this`totalRequests, this`trace
      ensures Valid(Draining, batch) && trace == old(trace) + [AddRequests]
      ensures totalRequests == old(totalRequests) + |batch|
    {
      hide RunsTo;
      ghost var s := At(CountRequests, batch);
      totalRequests := totalRequests + |batch|;
      Extend(config, trace, s, AddRequests, At(Draining, batch));
      trace := trace + [AddRequests];
    }

    method ReceiveFirst() returns (first: Pending)
      requires Valid(Receiving, []) && channel != []
      modifies this`channel, this`waited, this`trace
      ensures Valid(Collecting, [first]) && trace == old(trace) + [RecvFirst]
      ensures first == old(channel)[0] && At(Collecting, [first]) == Taking(config, old(At(Receiving, [])), RecvFirst)
    {
      hide RunsTo;
      ghost var s := At(Receiving, []);
      first := channel[0];
      channel, waited := channel[1..], 0;
      Extend(config, trace, s, RecvFirst, At(Collecting, [first]));
      trace := trace + [RecvFirst];
    }

    /** Calls the backend with the request's own handle. */
    method CallBackend(pending: Pending, ghost rest: seq<Pending>, infer: (ModelHandle, InferenceRequest) -> Reply)
      returns (reply: Reply)
      requires Valid(Draining, [pending] + rest)
      modifies this`trace, this`calls
      ensures reply == infer(pending.job.handle, pending.job.request)
      ensures Valid(Responding(pending, reply), rest)
      ensures calls == old(calls) + [Call(pending, reply)] && trace == old(trace) + [Infer(reply)]
    {
      hide RunsTo;
      ghost var s := At(Draining, [pending] + rest);
      reply := infer(pending.job.handle, pending.job.request);
      calls := calls + [Call(pending, reply)];
      Extend(config, trace, s, Infer(reply), At(Responding(pending, reply), rest));
      trace := trace + [Infer(reply)];
    }

    method SendReply(pending: Pending, reply: Reply, ghost rest: seq<Pending>)
      requires Valid(Responding(pending, reply), rest)
      modifies this`oneshots, this`trace
      ensures Valid(Draining, rest) && trace == old(trace) + [Respond]
    {
      hide RunsTo;
      hide Invariant;
      hide Reachable;
      ghost var s := At(Responding(pending, reply), rest);
      RunsToReachable(config, trace, s);
      oneshots := oneshots[pending.tx := Some(reply)];
      Extend(config, trace, s, Respond, At(Draining, rest));
      trace := trace + [Respond];
    }

    /** Adds the batch to the three totals. */
    method CountIn(batch: seq<Pending>, turns: nat -> seq<nat>)
      requires Valid(CountBatch, batch)
      modifies this`submitters, this`permits, this`channel, this`active, this`sent, this`trace,
               this`totalBatches, this`totalItems, this`totalRequests
      ensures Valid(Draining, batch) && old(trace) <= trace
      ensures totalBatches == old(totalBatches) + 1
      ensures totalItems == old(totalItems) + |batch| && totalRequests == old(totalRequests) + |batch|
    {
      hide AfterTurns;
      hide Valid;
      hide At;
      Others(turns(1), CountBatch, batch);
      AddToBatches(batch);
      Others(turns(2), CountItems, batch);
      AddToItems(batch);
      Others(turns(3), CountRequests, batch);
      AddToRequests(batch);
    }

    method EndRound()
      requires Valid(Draining, [])
      modifies this`trace
      ensures Valid(Receiving, []) && trace == old(trace) + [EndBatch]
    {
      Extend(config, trace, At(Draining, []), EndBatch, At(Receiving, []));
      trace := trace + [EndBatch];
    }

    /** Counts and serves a collected batch. */
    method CountAndDrain(batch: seq<Pending>, infer: (ModelHandle, InferenceRequest) -> Reply,
                         turns: nat -> seq<nat>, draining: nat -> seq<nat>)
      requires Valid(CountBatch, batch)
      modifies this`submitters, this`permits, this`channel, this`active, this`sent, this`trace,
               this`totalBatches, this`totalItems, this`totalRequests, this`oneshots, this`calls
      ensures Valid(Receiving, []) && old(trace) <= trace
      ensures totalBatches == old(totalBatches) + 1
      ensures totalItems == old(totalItems) + |batch| && totalRequests == old(totalRequests) + |batch|
      ensures calls == old(calls) + Answers(batch, infer)
    {
      hide Valid;
      CountIn(batch, turns);
      Drain(batch, infer, draining);
      EndRound();
    }

    /**
     One round of the loop: nothing exactly if no request is in the channel when the loop looks, that is after
     the turns `turns(0)`. Otherwise the request at its front, and those collected after it, were counted and served
     in order, each by the backend's answer to its own handle and request.
     */
    method ServeBatch(infer: (ModelHandle, InferenceRequest) -> Reply, turns: nat -> seq<nat>,
                      collecting: nat -> seq<nat>, draining: nat -> seq<nat>, delay: nat -> nat)
      returns (batch: seq<Pending>)
      requires Valid(Receiving, [])
      modifies this
      ensures Valid(Receiving, []) && old(trace) <= trace
      ensures if batch == [] then LoopView() == old(LoopView())
              else OneMoreBatch(old(LoopView()), batch, infer, LoopView())
      ensures var look := AfterTurns(config, old(At(Receiving, [])), turns(0));
        && (batch == [] <==> look.channel == [])
        && (batch == [] ==> At(Receiving, []) == look && channel == [])
        && (batch != [] ==> batch[0] == look.channel[0])
        && (batch != [] ==> batch == Collected(config, Taking(config, look, RecvFirst), collecting, delay, 0).batch)
    {
      hide Valid;
      hide AfterTurns;
      hide Collected;
      Others(turns(0), Receiving, []);
      if channel == [] {
        return [];
      }
      var first := ReceiveFirst();
      batch := Collect(first, collecting, delay);
      ghost var collected := At(CountBatch, batch);
      CountAndDrain(batch, infer, turns, draining);
    }

    /** The loop, for a number of rounds; every round has its own turns and delays. */
    method Run(rounds: nat, infer: (ModelHandle, InferenceRequest) -> Reply, turns: (nat, nat) -> seq<nat>,
               collecting: (nat, nat) -> seq<nat>, draining: (nat, nat) -> seq<nat>, delay: (nat, nat) -> nat)
      requires Valid(Receiving, [])
      modifies this
      ensures Valid(Receiving, []) && old(trace) <= trace
      ensures old(sent) <= sent
      ensures AnswersFrom(old(calls), calls, infer)
      ensures |calls| >= Min(|old(sent)|, |old(calls)| + rounds)
      ensures rounds >= |old(channel)| ==> AllAnswered(old(channel), oneshots, infer)
    {
      ghost var trace0, s0 := trace, At(Receiving, []);
      assert RunsTo(config, trace0, s0);
      hide Valid;
      hide RunsTo;
      for r := 0 to rounds
        invariant Valid(Receiving, []) && old(trace) <= trace
        invariant AnswersFrom(old(calls), calls, infer)
        invariant |calls| >= Min(|old(sent)|, |old(calls)| + r)
      {
        hide At;
        hide AfterTurns;
        hide Collected;
        ghost var before := calls;
        var batch := ServeBatch(infer, (k: nat) => turns(r, k), (k: nat) => collecting(r, k),
                                (k: nat) => draining(r, k), (k: nat) => delay(r, k));
        AnswersExtend(old(calls), before, batch, calls, infer);
        SentSince(trace0, s0);
      }
      SentSince(trace0, s0);
      WaitingAnswered(trace0, s0, infer);
    }

    /** With nothing in the channel between two rounds, all that was sent has been called. */
    lemma SentSince(before: seq<Step>, s: State)
      requires Valid(Receiving, []) && RunsTo(config, before, s) && before <= trace
      ensures s.sent <= sent
      ensures channel == [] ==> |calls| == |sent|
    {
      TraceGrows(config, before, s, trace, At(Receiving, []));
      RunsToReachable(config, trace, At(Receiving, []));
    }

    lemma WaitingAnswered(before: seq<Step>, s: State, infer: (ModelHandle, InferenceRequest) -> Reply)
      requires Valid(Receiving, []) && RunsTo(config, before, s) && before <= trace && s.loop.Receiving?
      requires AnswersFrom(s.calls, calls, infer)
      ensures |s.sent| == |s.calls| + |s.channel|
      ensures |calls| >= |s.sent| ==> AllAnswered(s.channel, oneshots, infer)
    {
      RunsToReachable(config, before, s);
      RunsToReachable(config, trace, At(Receiving, []));
      TraceGrows(config, before, s, trace, At(Receiving, []));
      if |calls| >= |s.sent| {
        CalledAndAnswered(config, s, At(Receiving, []), infer);
      }
    }
  }

  /** Every one of these requests got the backend's answer to its own handle and request on its own oneshot. */
  ghost predicate AllAnswered(waiting: seq<Pending>, oneshots: seq<Option<Reply>>,
                              infer: (ModelHandle, InferenceRequest) -> Reply) {
    forall p | p in waiting ::
      p.tx < |oneshots| && oneshots[p.tx] == Some(infer(p.job.handle, p.job.request))
  }

  lemma CalledAndAnswered(c: Config, s: State, t: State, infer: (ModelHandle, InferenceRequest) -> Reply)
    requires Pipeline(c, s) && Pipeline(c, t) && Replies(c, t) && s.loop.Receiving? && t.loop.Receiving?
    requires s.sent <= t.sent && AnswersFrom(s.calls, t.calls, infer) && |t.calls| >= |s.sent|
    ensures AllAnswered(s.channel, t.oneshots, infer)
  {
    forall p | p in s.channel
      ensures p.tx < |t.oneshots| && t.oneshots[p.tx] == Some(infer(p.job.handle, p.job.request))
    {
      var m :| 0 <= m < |s.channel| && s.channel[m] == p;
      var k := |s.calls| + m;
      assert s.sent[k] == p.tx;
      assert t.sent[k] == t.calls[k].pending.tx;
      assert k < AnsweredCalls(t) && t.calls[k].pending.job == c.jobs[p.tx] == p.job;
    }
  }

  lemma AnswersExtend(start: seq<Call>, before: seq<Call>, batch: seq<Pending>, after: seq<Call>,
                      infer: (ModelHandle, InferenceRequest) -> Reply)
    requires AnswersFrom(start, before, infer) && after == before + Answers(batch, infer)
    ensures AnswersFrom(start, after, infer) && |after| == |before| + |batch|
  {
  }

  /** All calls made since `before` got the backend's answers. */
  ghost predicate AnswersFrom(before: seq<Call>, after: seq<Call>, infer: (ModelHandle, InferenceRequest) -> Reply) {
    && before <= after
    && forall k | |before| <= k < |after| ::
         after[k].reply == infer(after[k].pending.job.handle, after[k].pending.job.request)
  }

  // ----- The snapshot -----

  /** The average batch size that `stats` reports. */
  function AverageOf(items: nat, batches: nat): (average: real)
    ensures if batches == 0 then average == 0.0 else average * batches as real == items as real
  {
    if batches > 0 then items as real / batches as real else 0.0
  }

  /**
   Between two rounds the average is that of the sizes of the batches collected. It lies between one and the batch
   limit, or is zero before the first batch.
   */
  lemma AverageWithin(c: Config, s: State)
    requires Reachable(c, s) && s.loop.Receiving?
    ensures var average := AverageOf(s.totalItems, s.totalBatches);
      if s.batchSizes == [] then average == 0.0
      else average * |s.batchSizes| as real == Sum(s.batchSizes) as real
           && 1.0 <= average <= Max(1, c.maxBatchSize) as real
  {
    TotalsAtBoundary(c, s);
    if s.totalBatches > 0 {
      AverageBetween(s.totalItems, s.totalBatches, Max(1, c.maxBatchSize));
    }
  }

  /** At any moment, also in the middle of a round: at most one counted batch still lacks its items. */
  lemma ItemsBetween(c: Config, s: State)
    requires Reachable(c, s)
    ensures s.totalBatches - 1 <= s.totalItems <= s.totalBatches * Max(1, c.maxBatchSize)
    ensures s.totalRequests <= s.totalItems
  {
    hide Accounting;
    hide Pipeline;
    hide Replies;
    ReachableInvariant(c, s);
    SumsBetween(s.batchSizes, Max(1, c.maxBatchSize));
  }

  /** The sums of all sizes, and of all but the last. */
  lemma SumsBetween(sizes: seq<nat>, most: nat)
    requires forall z | z in sizes :: 1 <= z <= most
    ensures |sizes| <= Sum(sizes) <= |sizes| * most
    ensures sizes != [] ==> var front := Sum(sizes) - sizes[|sizes| - 1];
      |sizes| - 1 <= front <= (|sizes| - 1) * most <= |sizes| * most
  {
    assert forall k | 0 <= k < |sizes| :: sizes[k] in sizes;
    SumBetween(sizes, most);
    if sizes != [] {
      SumBetween(sizes[..|sizes| - 1], most);
      assert |sizes| * most == (|sizes| - 1) * most + most;
    }
  }

  lemma {:induction false} TotalsGrow(c: Config, s: State, steps: seq<Step>)
    requires ValidRun(c, s, steps)
    ensures s.totalBatches <= Outcome(c, s, steps).totalBatches
    ensures s.totalItems <= Outcome(c, s, steps).totalItems
    ensures s.totalRequests <= Outcome(c, s, steps).totalRequests
    decreases |steps|
  {
    if steps != [] {
      TotalsGrow(c, Apply(c, s, steps[0]), steps[1..]);
    }
  }

  /**
   `stats` loads its counters one after the other while the program goes on. If `steps` happen between loading the
   batches and loading the items, the average of the two is below one by at most the share of one batch, and its
   items are within the limit for the batches counted by then.
   */
  lemma SnapshotBounds(c: Config, s: State, steps: seq<Step>)
    requires Reachable(c, s) && ValidRun(c, s, steps) && s.totalBatches > 0
    ensures var later := Outcome(c, s, steps);
      var average := later.totalItems as real / s.totalBatches as real;
      && 1.0 - 1.0 / s.totalBatches as real <= average
      && later.totalItems <= later.totalBatches * Max(1, c.maxBatchSize)
  {
    ItemsBetween(c, s);
    TotalsGrow(c, s, steps);
    RunReachable(c, s, steps);
    ItemsBetween(c, Outcome(c, s, steps));
    AlmostOne(Outcome(c, s, steps).totalItems, s.totalBatches);
  }

  lemma AlmostOne(items: nat, batches: nat)
    requires 0 < batches <= items + 1
    ensures 1.0 - 1.0 / batches as real <= items as real / batches as real
  {
    var x, y := items as real, batches as real;
    var q, r := x / y, 1.0 / y;
    assert q * y == x && r * y == 1.0;
    assert y * (q + r - 1.0) == x + 1.0 - y;
    ProductSign(y, q + r - 1.0, x + 1.0 - y);
  }

  lemma {:induction false} RunReachable(c: Config, s: State, steps: seq<Step>)
    requires Reachable(c, s) && ValidRun(c, s, steps)
    ensures Reachable(c, Outcome(c, s, steps))
    decreases |steps|
  {
    if steps != [] {
      ReachableStep(c, s, steps[0]);
      RunReachable(c, Apply(c, s, steps[0]), steps[1..]);
    }
  }

  lemma AverageBetween(items: nat, batches: nat, most: nat)
    requires 0 < batches <= items <= batches * most
    ensures 1.0 <= items as real / batches as real <= most as real
  {
    var x, y, m := items as real, batches as real, most as real;
    var q := x / y;
    assert q * y == x;
    assert (batches * most) as real == y * m;
    ProductSign(y, q - 1.0, x - y);
    ProductSign(y, m - q, y * m - x);
  }

  function Answers(batch: seq<Pending>, infer: (ModelHandle, InferenceRequest) -> Reply): seq<Call> {
    seq(|batch|, k requires 0 <= k < |batch| =>
      Call(batch[k], infer(batch[k].job.handle, batch[k].job.request)))
  }

  ghost predicate OneMoreBatch(before: Served, batch: seq<Pending>, infer: (ModelHandle, InferenceRequest) -> Reply,
                               after: Served) {
    && batch != []
    && after.batchSizes == before.batchSizes + [|batch|]
    && after.totalBatches == before.totalBatches + 1
    && after.totalItems == before.totalItems + |batch|
    && after.totalRequests == before.totalRequests + |batch|
    && after.calls == before.calls + Answers(batch, infer)
  }
}
