/**
 The batching coordinator as a state machine. Any number of submitters run `submit` while one
 background task collects batches, calls the backend and answers. Every step below is one atomic
 action of the program (a channel or semaphore operation, one counter update, one backend call);
 a run is any interleaving of enabled steps.
 */
module Coordinator {
  import opened Wrappers
  import opened Collections
  import opened Numbers

  datatype ModelHandle = ModelHandle(id: string, modelName: string)
  datatype InferenceRequest = InferenceRequest(prompt: string, maxTokens: nat)
  datatype Reply = Response(text: string, tokensGenerated: nat) | InferenceError(message: string)

  /** What one caller passes to `submit`. */
  datatype Job = Job(handle: ModelHandle, request: InferenceRequest)

  /** A queued request; `tx` is the submitter whose oneshot sender travels with it. */
  datatype Pending = Pending(job: Job, tx: nat)

  /** A call of the backend and what it returned. */
  datatype Call = Call(pending: Pending, reply: Reply)

  datatype Config = Config(maxBatchSize: nat, maxWaitMs: nat, maxConcurrent: nat, jobs: seq<Job>)

  /** Where a submitter stands inside `submit`. */
  datatype Submitter =
    | Start | Permitted | Counted | Waiting
    | Answered(reply: Reply) | Discounted(reply: Reply) | Finished(reply: Reply)

  /** Where the background task stands inside its loop. */
  datatype Loop =
    | Receiving | Collecting | AwaitingMore
    | CountBatch | CountItems | CountRequests
    | Draining | Responding(pending: Pending, reply: Reply)

  datatype State = State(
    submitters: seq<Submitter>,
    permits: nat,
    channel: seq<Pending>,
    oneshots: seq<Option<Reply>>,   // what was sent on each submitter's oneshot
    loop: Loop,
    batch: seq<Pending>,            // collected and not yet given to the backend
    waited: nat,                    // milliseconds spent collecting the latest batch
    active: nat,
    totalBatches: nat,
    totalItems: nat,
    totalRequests: nat,
    sent: seq<nat>,                 // history: submitters in the order of their channel sends
    calls: seq<Call>,               // history: backend calls in order
    batchSizes: seq<nat>)           // history: the size of every collected batch

  datatype Step =
    | Acquire(i: nat) | CountUp(i: nat) | Send(i: nat)
    | Take(i: nat) | CountDown(i: nat) | Release(i: nat)
    | RecvFirst | TryRecv | TryEmpty | RecvWithin(ms: nat) | TimedOut | BatchFull
    | AddBatch | AddItems | AddRequests
    | Infer(reply: Reply) | Respond | EndBatch

  function Initial(c: Config): State {
    State(seq(|c.jobs|, i => Start), c.maxConcurrent, [], seq(|c.jobs|, i => None), Receiving,
          [], 0, 0, 0, 0, 0, [], [], [])
  }

  function Capacity(c: Config): nat { 2 * c.maxConcurrent }

  predicate Enabled(c: Config, s: State, step: Step) {
    && (step.Acquire? || step.CountUp? || step.Send? || step.Take? || step.CountDown? || step.Release?
        ==> step.i < |s.submitters| && |s.oneshots| == |s.submitters| == |c.jobs|)
    && match step
       case Acquire(i) => s.submitters[i].Start? && s.permits > 0
       case CountUp(i) => s.submitters[i].Permitted?
       case Send(i) => s.submitters[i].Counted? && |s.channel| < Capacity(c)
       case Take(i) => s.submitters[i].Waiting? && s.oneshots[i].Some?
       case CountDown(i) => s.submitters[i].Answered? && s.active > 0
       case Release(i) => s.submitters[i].Discounted?
       case RecvFirst => s.loop.Receiving? && s.channel != []
       case TryRecv => s.loop.Collecting? && |s.batch| < c.maxBatchSize && s.channel != []
       case TryEmpty => s.loop.Collecting? && |s.batch| < c.maxBatchSize && s.channel == []
       case RecvWithin(ms) => s.loop.AwaitingMore? && s.channel != [] && ms <= c.maxWaitMs
       case TimedOut => s.loop.AwaitingMore?
       case BatchFull => s.loop.Collecting? && |s.batch| >= c.maxBatchSize
       case AddBatch => s.loop.CountBatch?
       case AddItems => s.loop.CountItems?
       case AddRequests => s.loop.CountRequests?
       case Infer(_) => s.loop.Draining? && s.batch != []
       case Respond => s.loop.Responding? && s.loop.pending.tx < |s.oneshots|
       case EndBatch => s.loop.Draining? && s.batch == []
  }

  function Apply(c: Config, s: State, step: Step): State
    requires Enabled(c, s, step)
  {
    match step
    case Acquire(i) => s.(submitters := s.submitters[i := Permitted], permits := s.permits - 1)
    case CountUp(i) => s.(submitters := s.submitters[i := Counted], active := s.active + 1)
    case Send(i) =>
      s.(submitters := s.submitters[i := Waiting],
         channel := s.channel + [Pending(c.jobs[i], i)],
         sent := s.sent + [i])
    case Take(i) => s.(submitters := s.submitters[i := Answered(s.oneshots[i].value)])
    case CountDown(i) =>
      s.(submitters := s.submitters[i := Discounted(s.submitters[i].reply)], active := s.active - 1)
    case Release(i) =>
      s.(submitters := s.submitters[i := Finished(s.submitters[i].reply)], permits := s.permits + 1)
    case RecvFirst =>
      s.(loop := Collecting, batch := [s.channel[0]], channel := s.channel[1..], waited := 0)
    case TryRecv => s.(batch := s.batch + [s.channel[0]], channel := s.channel[1..])
    case TryEmpty => s.(loop := AwaitingMore)
    case RecvWithin(ms) =>
      s.(loop := Collecting, batch := s.batch + [s.channel[0]], channel := s.channel[1..],
         waited := s.waited + ms)
    case TimedOut =>
      s.(loop := CountBatch, waited := s.waited + c.maxWaitMs, batchSizes := s.batchSizes + [|s.batch|])
    case BatchFull => s.(loop := CountBatch, batchSizes := s.batchSizes + [|s.batch|])
    case AddBatch => s.(loop := CountItems, totalBatches := s.totalBatches + 1)
    case AddItems => s.(loop := CountRequests, totalItems := s.totalItems + |s.batch|)
    case AddRequests => s.(loop := Draining, totalRequests := s.totalRequests + |s.batch|)
    case Infer(reply) =>
      s.(loop := Responding(s.batch[0], reply), batch := s.batch[1..],
         calls := s.calls + [Call(s.batch[0], reply)])
    case Respond =>
      s.(loop := Draining, oneshots := s.oneshots[s.loop.pending.tx := Some(s.loop.reply)])
    case EndBatch => s.(loop := Receiving)
  }

  predicate ValidRun(c: Config, s: State, steps: seq<Step>)
    decreases |steps|
  {
    steps == [] || (Enabled(c, s, steps[0]) && ValidRun(c, Apply(c, s, steps[0]), steps[1..]))
  }

  function Outcome(c: Config, s: State, steps: seq<Step>): State
    requires ValidRun(c, s, steps)
    decreases |steps|
  {
    if steps == [] then s else Outcome(c, Apply(c, s, steps[0]), steps[1..])
  }

  ghost predicate Reachable(c: Config, s: State) {
    exists steps :: ValidRun(c, Initial(c), steps) && Outcome(c, Initial(c), steps) == s
  }

  // ----- The invariant -----

  predicate HoldsPermit(p: Submitter) { !p.Start? && !p.Finished? }
  predicate IsActive(p: Submitter) { p.Counted? || p.Waiting? || p.Answered? }
  predicate HasSent(p: Submitter) { p.Waiting? || p.Answered? || p.Discounted? || p.Finished? }
  predicate HasReply(p: Submitter) { p.Answered? || p.Discounted? || p.Finished? }

  function Ids(ps: seq<Pending>): seq<nat> { seq(|ps|, k requires 0 <= k < |ps| => ps[k].tx) }
  function CallIds(cs: seq<Call>): seq<nat> { seq(|cs|, k requires 0 <= k < |cs| => cs[k].pending.tx) }

  /** How many backend calls have been answered; a call is unanswered only while `Responding`. */
  function AnsweredCalls(s: State): int { |s.calls| - (if s.loop.Responding? then 1 else 0) }

  /** The permits and the active counter account for every submitter. */
  ghost predicate Accounting(c: Config, s: State) {
    && |s.submitters| == |s.oneshots| == |c.jobs|
    && s.permits + Count(s.submitters, HoldsPermit) == c.maxConcurrent
    && s.active == Count(s.submitters, IsActive)
  }

  /** Every sent request is in exactly one of calls, batch and channel, in send order, with its own job. */
  ghost predicate Pipeline(c: Config, s: State) {
    && |s.submitters| == |c.jobs|
    && s.sent == CallIds(s.calls) + Ids(s.batch) + Ids(s.channel)
    && (s.loop.Receiving? ==> s.batch == [])
    && NoDup(s.sent)
    && (forall i: nat :: i in s.sent <==> i < |c.jobs| && HasSent(s.submitters[i]))
    && (forall p | p in s.channel :: p.tx < |c.jobs| && p.job == c.jobs[p.tx])
    && (forall p | p in s.batch :: p.tx < |c.jobs| && p.job == c.jobs[p.tx])
    && (forall k | 0 <= k < |s.calls| ::
          s.calls[k].pending.tx < |c.jobs| && s.calls[k].pending.job == c.jobs[s.calls[k].pending.tx])
  }

  /** A oneshot holds a value exactly when the call for it was answered, and then that call's reply. */
  ghost predicate Replies(c: Config, s: State) {
    && |s.submitters| == |s.oneshots| == |c.jobs|
    && (s.loop.Responding? ==>
          |s.calls| > 0 && s.calls[|s.calls| - 1] == Call(s.loop.pending, s.loop.reply)
          && s.loop.pending.tx < |c.jobs|)
    && (forall i | 0 <= i < |c.jobs| && s.oneshots[i].Some? ::
          exists k :: 0 <= k < AnsweredCalls(s) && s.calls[k].pending.tx == i)
    && (forall k | 0 <= k < AnsweredCalls(s) && s.calls[k].pending.tx < |c.jobs| ::
          s.oneshots[s.calls[k].pending.tx] == Some(s.calls[k].reply))
    && (forall i | 0 <= i < |c.jobs| && HasReply(s.submitters[i]) ::
          s.oneshots[i] == Some(s.submitters[i].reply))
  }

  /** The loop's three totals against the history of batch sizes, at every point of the loop. */
  ghost predicate Totals(s: State) {
    var open := s.loop.Collecting? || s.loop.AwaitingMore?;
    var counting := s.loop.CountBatch? || s.loop.CountItems? || s.loop.CountRequests?;
    var last := if counting then |s.batch| else 0;
    && (counting ==> s.batchSizes != [] && s.batchSizes[|s.batchSizes| - 1] == |s.batch|)
    && s.totalBatches == |s.batchSizes| - (if s.loop.CountBatch? then 1 else 0)
    && s.totalItems == Sum(s.batchSizes) - (if s.loop.CountBatch? || s.loop.CountItems? then last else 0)
    && s.totalRequests == Sum(s.batchSizes) - last
    && |s.calls| + (if open then 0 else |s.batch|) == Sum(s.batchSizes)
  }

  /** The most receives that can delay one batch: the batch needs a free place and a further submitter. */
  function WaitRounds(c: Config): nat {
    Min(Max(1, c.maxBatchSize) - 1, Min(c.maxConcurrent, |c.jobs|))
  }

  /** Sizes of batches, and time spent collecting so far. */
  ghost predicate Sizes(c: Config, s: State) {
    var open := s.loop.Collecting? || s.loop.AwaitingMore?;
    && |s.batch| <= Max(1, c.maxBatchSize)
    && (open ==> |s.batch| > 0 && s.waited <= (|s.batch| - 1) * c.maxWaitMs)
    && (s.loop.AwaitingMore? ==> |s.batch| < c.maxBatchSize)
    && (!open ==> s.waited <= WaitRounds(c) * c.maxWaitMs)
    && (forall z | z in s.batchSizes :: 1 <= z <= Max(1, c.maxBatchSize) && z <= c.maxConcurrent)
  }

  /** A batch stays below the limit only after a full timer period. */
  ghost predicate Patient(c: Config, s: State) {
    s.loop.CountBatch? || s.loop.CountItems? || s.loop.CountRequests? ==>
      |s.batch| >= c.maxBatchSize || s.waited >= c.maxWaitMs
  }

  ghost predicate Invariant(c: Config, s: State) {
    Accounting(c, s) && Pipeline(c, s) && Replies(c, s) && Totals(s) && Sizes(c, s) && Patient(c, s)
  }

  // ----- Every step keeps the invariant -----

  lemma InitialInvariant(c: Config)
    ensures Invariant(c, Initial(c))
  {
    var s := Initial(c);
    assert Accounting(c, s) by {
      CountNone(s.submitters, HoldsPermit);
      CountNone(s.submitters, IsActive);
    }
    assert Pipeline(c, s) by {
      assert CallIds([]) + Ids([]) + Ids([]) == [];
    }
  }

  lemma AccountingKept(c: Config, s: State, step: Step)
    requires Accounting(c, s) && Enabled(c, s, step)
    ensures Accounting(c, Apply(c, s, step))
  {
    if step.Acquire? || step.CountUp? || step.Send? || step.Take? || step.CountDown? || step.Release? {
      var x := Apply(c, s, step).submitters[step.i];
      CountUpdate(s.submitters, step.i, x, HoldsPermit);
      CountUpdate(s.submitters, step.i, x, IsActive);
    }
  }

  lemma PipelineKept(c: Config, s: State, step: Step)
    requires Accounting(c, s) && Pipeline(c, s) && Enabled(c, s, step)
    ensures Pipeline(c, Apply(c, s, step))
  {
    match step
    case Send(i) => SendKeepsPipeline(c, s, i);
    case RecvFirst => ReceiveKeepsPipeline(c, s, Apply(c, s, step));
    case TryRecv => ReceiveKeepsPipeline(c, s, Apply(c, s, step));
    case RecvWithin(_) => ReceiveKeepsPipeline(c, s, Apply(c, s, step));
    case Infer(reply) => InferKeepsPipeline(c, s, reply);
    case _ =>
  }

  lemma SendKeepsPipeline(c: Config, s: State, i: nat)
    requires Accounting(c, s) && Pipeline(c, s) && Enabled(c, s, Send(i))
    ensures Pipeline(c, Apply(c, s, Send(i)))
  {
    var t := Apply(c, s, Send(i));
    assert Ids(t.channel) == Ids(s.channel) + [i];
    assert t.sent == CallIds(t.calls) + Ids(t.batch) + Ids(t.channel);
    assert i !in s.sent;
  }

  lemma ReceiveKeepsPipeline(c: Config, s: State, t: State)
    requires Pipeline(c, s) && s.channel != []
    requires t.batch == s.batch + [s.channel[0]] && t.channel == s.channel[1..] && !t.loop.Receiving?
    requires t.submitters == s.submitters && t.sent == s.sent && t.calls == s.calls
    ensures Pipeline(c, t)
  {
    assert Ids(s.channel) == [s.channel[0].tx] + Ids(t.channel);
    assert Ids(t.batch) == Ids(s.batch) + [s.channel[0].tx];
  }

  lemma InferKeepsPipeline(c: Config, s: State, reply: Reply)
    requires Pipeline(c, s) && Enabled(c, s, Infer(reply))
    ensures Pipeline(c, Apply(c, s, Infer(reply)))
  {
    var t := Apply(c, s, Infer(reply));
    assert Ids(s.batch) == [s.batch[0].tx] + Ids(t.batch);
    assert CallIds(t.calls) == CallIds(s.calls) + [s.batch[0].tx];
    assert s.batch[0] in s.batch;
  }

  lemma RepliesKept(c: Config, s: State, step: Step)
    requires Pipeline(c, s) && Replies(c, s) && Enabled(c, s, step)
    ensures Replies(c, Apply(c, s, step))
  {
    match step
    case Infer(reply) => InferKeepsReplies(c, s, reply);
    case Respond => RespondKeepsReplies(c, s);
    case _ => QuietStepKeepsReplies(c, s, step);
  }

  lemma InferKeepsReplies(c: Config, s: State, reply: Reply)
    requires Pipeline(c, s) && Replies(c, s) && Enabled(c, s, Infer(reply))
    ensures Replies(c, Apply(c, s, Infer(reply)))
  {
    var t := Apply(c, s, Infer(reply));
    assert s.batch[0] in s.batch;
    forall i | 0 <= i < |c.jobs| && t.oneshots[i].Some?
      ensures exists k :: 0 <= k < AnsweredCalls(t) && t.calls[k].pending.tx == i
    {
      var k :| 0 <= k < AnsweredCalls(s) && s.calls[k].pending.tx == i;
      assert t.calls[k].pending.tx == i;
    }
  }

  lemma QuietStepKeepsReplies(c: Config, s: State, step: Step)
    requires Replies(c, s) && Enabled(c, s, step) && !step.Infer? && !step.Respond?
    ensures Replies(c, Apply(c, s, step))
  {
    var t := Apply(c, s, step);
    assert AnsweredCalls(t) == AnsweredCalls(s) && t.calls == s.calls && t.oneshots == s.oneshots;
  }

  /** No two calls, batch entries or channel entries belong to one submitter. */
  lemma CalledOnce(c: Config, s: State, k: nat, j: nat)
    requires Pipeline(c, s) && k < |s.calls| && k < j < |s.sent|
    ensures s.calls[k].pending.tx != s.sent[j]
  {
    assert s.sent[k] == s.calls[k].pending.tx;
  }

  /** In a state that responds, the oneshot about to be filled is empty. */
  lemma UnansweredSlotEmpty(c: Config, s: State)
    requires Pipeline(c, s) && Replies(c, s) && s.loop.Responding?
    ensures s.oneshots[s.loop.pending.tx] == None
  {
    var last := |s.calls| - 1;
    assert s.sent[last] == s.loop.pending.tx;
    forall k | 0 <= k < last
      ensures s.calls[k].pending.tx != s.loop.pending.tx
    {
      CalledOnce(c, s, k, last);
    }
  }

  lemma RespondKeepsReplies(c: Config, s: State)
    requires Pipeline(c, s) && Replies(c, s) && Enabled(c, s, Respond)
    ensures Replies(c, Apply(c, s, Respond))
  {
    var t := Apply(c, s, Respond);
    var last := |s.calls| - 1;
    UnansweredSlotEmpty(c, s);
    forall i | 0 <= i < |c.jobs| && t.oneshots[i].Some?
      ensures exists k :: 0 <= k < AnsweredCalls(t) && t.calls[k].pending.tx == i
    {
      if i == s.loop.pending.tx {
        assert t.calls[last].pending.tx == i;
      } else {
        var k :| 0 <= k < AnsweredCalls(s) && s.calls[k].pending.tx == i;
        assert t.calls[k].pending.tx == i;
      }
    }
    assert s.sent[last] == s.loop.pending.tx;
    forall k | 0 <= k < last
      ensures s.calls[k].pending.tx != s.loop.pending.tx
    {
      CalledOnce(c, s, k, last);
    }
  }

  lemma TotalsKept(c: Config, s: State, step: Step)
    requires Pipeline(c, s) && Totals(s) && Enabled(c, s, step)
    ensures Totals(Apply(c, s, step))
  {
    hide Sum;
    if step.TimedOut? || step.BatchFull? {
      SumPush(s.batchSizes, |s.batch|);
    }
  }

  /** A request between send and backend call belongs to a submitter that is still waiting. */
  lemma OutstandingWaits(c: Config, s: State, j: nat)
    requires Pipeline(c, s) && Replies(c, s) && |s.calls| <= j < |s.sent|
    ensures s.sent[j] < |s.submitters| && s.submitters[s.sent[j]].Waiting?
  {
    var i := s.sent[j];
    assert i in s.sent;
    forall k | 0 <= k < AnsweredCalls(s)
      ensures s.calls[k].pending.tx != i
    {
      CalledOnce(c, s, k, j);
    }
  }

  lemma OutstandingBound(c: Config, s: State)
    requires Accounting(c, s) && Pipeline(c, s) && Replies(c, s)
    ensures |s.batch| + |s.channel| <= Count(s.submitters, (p: Submitter) => p.Waiting?)
  {
    var ids := s.sent[|s.calls|..];
    assert ids == Ids(s.batch) + Ids(s.channel);
    forall i | i in ids
      ensures i < |s.submitters| && ((p: Submitter) => p.Waiting?)(s.submitters[i])
    {
      var j :| 0 <= j < |ids| && ids[j] == i;
      OutstandingWaits(c, s, |s.calls| + j);
    }
    DistinctPositions(ids, s.submitters, (p: Submitter) => p.Waiting?);
  }

  /** The queued requests never outnumber the permits, nor the submitters. */
  lemma OutstandingWait(c: Config, s: State)
    requires Accounting(c, s) && Pipeline(c, s) && Replies(c, s)
    ensures |s.batch| + |s.channel| <= Count(s.submitters, HoldsPermit) <= c.maxConcurrent
    ensures Count(s.submitters, HoldsPermit) <= |c.jobs|
  {
    OutstandingBound(c, s);
    CountMonotone(s.submitters, (p: Submitter) => p.Waiting?, HoldsPermit);
    CountAtMost(s.submitters, HoldsPermit);
  }

  lemma ProductMonotone(a: nat, b: nat, w: nat)
    requires a <= b
    ensures a * w <= b * w
  {
  }

  lemma SizesKept(c: Config, s: State, step: Step)
    requires Accounting(c, s) && Pipeline(c, s) && Replies(c, s) && Sizes(c, s) && Enabled(c, s, step)
    ensures Sizes(c, Apply(c, s, step))
  {
    hide Accounting;
    hide Pipeline;
    hide Replies;
    OutstandingWait(c, s);
    if step.TimedOut? {
      ProductMonotone(|s.batch|, WaitRounds(c), c.maxWaitMs);
      assert (|s.batch| - 1) * c.maxWaitMs + c.maxWaitMs == |s.batch| * c.maxWaitMs;
    } else if step.BatchFull? {
      ProductMonotone(|s.batch| - 1, WaitRounds(c), c.maxWaitMs);
    } else if step.TryRecv? {
      ProductMonotone(|s.batch| - 1, |s.batch|, c.maxWaitMs);
    } else if step.RecvWithin? {
      assert (|s.batch| - 1) * c.maxWaitMs + c.maxWaitMs == |s.batch| * c.maxWaitMs;
    }
  }

  lemma PatientKept(c: Config, s: State, step: Step)
    requires Patient(c, s) && Enabled(c, s, step)
    ensures Patient(c, Apply(c, s, step))
  {
  }

  lemma InvariantKept(c: Config, s: State, step: Step)
    requires Invariant(c, s) && Enabled(c, s, step)
    ensures Invariant(c, Apply(c, s, step))
  {
    AccountingKept(c, s, step);
    PipelineKept(c, s, step);
    RepliesKept(c, s, step);
    TotalsKept(c, s, step);
    SizesKept(c, s, step);
    PatientKept(c, s, step);
  }

  lemma {:induction false} RunKeepsInvariant(c: Config, s: State, steps: seq<Step>)
    requires Invariant(c, s) && ValidRun(c, s, steps)
    ensures Invariant(c, Outcome(c, s, steps))
    decreases |steps|
  {
    if steps != [] {
      InvariantKept(c, s, steps[0]);
      RunKeepsInvariant(c, Apply(c, s, steps[0]), steps[1..]);
    }
  }

  lemma ReachableInvariant(c: Config, s: State)
    requires Reachable(c, s)
    ensures Invariant(c, s)
  {
    var steps :| ValidRun(c, Initial(c), steps) && Outcome(c, Initial(c), steps) == s;
    InitialInvariant(c);
    RunKeepsInvariant(c, Initial(c), steps);
  }

  lemma {:induction false} RunExtends(c: Config, s: State, steps: seq<Step>, step: Step)
    requires ValidRun(c, s, steps) && Enabled(c, Outcome(c, s, steps), step)
    ensures ValidRun(c, s, steps + [step])
    ensures Outcome(c, s, steps + [step]) == Apply(c, Outcome(c, s, steps), step)
    decreases |steps|
  {
    if steps == [] {
      assert steps + [step] == [step];
    } else {
      RunExtends(c, Apply(c, s, steps[0]), steps[1..], step);
      assert (steps + [step])[1..] == steps[1..] + [step];
    }
  }

  lemma ReachableStep(c: Config, s: State, step: Step)
    requires Reachable(c, s) && Enabled(c, s, step)
    ensures Reachable(c, Apply(c, s, step))
  {
    var steps :| ValidRun(c, Initial(c), steps) && Outcome(c, Initial(c), steps) == s;
    RunExtends(c, Initial(c), steps, step);
  }
}
