/**
 Admission to the request queue. A producer checks the length under a read lock and pushes under a later
 write lock, so producers can pass the same check together; consumers pop in between.
 */
module Admission {
  import opened Collections
  import opened PriorityOrder

  datatype Producer = Ready | Admitted(request: Request)

  datatype State = State(queues: Queues, producers: seq<Producer>)

  datatype Step = Check(i: nat, request: Request) | Push(i: nat) | Next(fair: bool, pick: nat)

  function Initial(producers: nat): State { State(NO_REQUESTS, seq(producers, i => Ready)) }

  predicate Enabled(s: State, step: Step) {
    match step
    case Check(i, _) => i < |s.producers| && s.producers[i].Ready?
    case Push(i) => i < |s.producers| && s.producers[i].Admitted?
    case Next(_, _) => true
  }

  /** A check that finds the queue full rejects the request and leaves the producer ready for another. */
  function Apply(maxSize: nat, s: State, step: Step): State
    requires Enabled(s, step)
  {
    match step
    case Check(i, r) => if Size(s.queues) >= maxSize then s else s.(producers := s.producers[i := Admitted(r)])
    case Push(i) =>
      s.(queues := Pushed(s.queues, s.producers[i].request), producers := s.producers[i := Ready])
    case Next(fair, pick) => s.(queues := PoppedFair(s.queues, fair, pick).0)
  }

  predicate ValidRun(maxSize: nat, s: State, steps: seq<Step>)
    decreases |steps|
  {
    steps == [] || (Enabled(s, steps[0]) && ValidRun(maxSize, Apply(maxSize, s, steps[0]), steps[1..]))
  }

  function Outcome(maxSize: nat, s: State, steps: seq<Step>): State
    requires ValidRun(maxSize, s, steps)
    decreases |steps|
  {
    if steps == [] then s else Outcome(maxSize, Apply(maxSize, s, steps[0]), steps[1..])
  }

  predicate PastCheck(p: Producer) { p.Admitted? }

  /** The queue and the producers that will still push fit the limit and all producers but one. */
  ghost predicate Bounded(maxSize: nat, s: State) {
    Size(s.queues) + Count(s.producers, PastCheck) <= maxSize + |s.producers| - 1
  }

  lemma BoundedKept(maxSize: nat, s: State, step: Step)
    requires Bounded(maxSize, s) && Enabled(s, step)
    ensures Bounded(maxSize, Apply(maxSize, s, step))
    ensures |Apply(maxSize, s, step).producers| == |s.producers|
  {
    var t := Apply(maxSize, s, step);
    if step.Next? {
      PopShrinks(s.queues, step.fair, step.pick);
    } else {
      CountUpdate(s.producers, step.i, t.producers[step.i], PastCheck);
      CountAtMost(t.producers, PastCheck);
    }
  }

  lemma PopShrinks(qs: Queues, fair: bool, pick: nat)
    ensures Size(PoppedFair(qs, fair, pick).0) == if Size(qs) == 0 then 0 else Size(qs) - 1
  {
    if fair && Available(qs) != [] {
      var i := Available(qs)[pick % |Available(qs)|];
    }
  }

  lemma {:induction false} RunKeepsBound(maxSize: nat, s: State, steps: seq<Step>)
    requires Bounded(maxSize, s) && ValidRun(maxSize, s, steps)
    ensures Bounded(maxSize, Outcome(maxSize, s, steps))
    ensures |Outcome(maxSize, s, steps).producers| == |s.producers|
    decreases |steps|
  {
    if steps != [] {
      BoundedKept(maxSize, s, steps[0]);
      RunKeepsBound(maxSize, Apply(maxSize, s, steps[0]), steps[1..]);
    }
  }

  /** With `producers` producers the queue never holds more than `max_size + producers - 1` requests. */
  lemma QueueBound(maxSize: nat, producers: nat, steps: seq<Step>)
    requires producers >= 1 && ValidRun(maxSize, Initial(producers), steps)
    ensures Size(Outcome(maxSize, Initial(producers), steps).queues) <= maxSize + producers - 1
  {
    CountNone(Initial(producers).producers, PastCheck);
    RunKeepsBound(maxSize, Initial(producers), steps);
  }

  // ----- The bound is exact -----

  lemma {:induction false} RunConcatenates(maxSize: nat, s: State, a: seq<Step>, b: seq<Step>)
    requires ValidRun(maxSize, s, a) && ValidRun(maxSize, Outcome(maxSize, s, a), b)
    ensures ValidRun(maxSize, s, a + b)
    ensures Outcome(maxSize, s, a + b) == Outcome(maxSize, Outcome(maxSize, s, a), b)
    decreases |a|
  {
    if a == [] {
      assert a + b == b;
    } else {
      assert (a + b)[1..] == a[1..] + b;
      RunConcatenates(maxSize, Apply(maxSize, s, a[0]), a[1..], b);
    }
  }

  lemma OneStep(maxSize: nat, s: State, step: Step)
    requires Enabled(s, step)
    ensures ValidRun(maxSize, s, [step]) && Outcome(maxSize, s, [step]) == Apply(maxSize, s, step)
  {
    assert [step][1..] == [];
  }

  /** One producer alone fills the queue up to `n` requests. */
  lemma {:induction false} Fill(maxSize: nat, producers: nat, r: Request, n: nat) returns (steps: seq<Step>)
    requires producers >= 1 && n <= maxSize
    ensures ValidRun(maxSize, Initial(producers), steps)
    ensures Size(Outcome(maxSize, Initial(producers), steps).queues) == n
    ensures Outcome(maxSize, Initial(producers), steps).producers == Initial(producers).producers
  {
    var s0 := Initial(producers);
    steps := [];
    if n > 0 {
      steps := Fill(maxSize, producers, r, n - 1);
      var s := Outcome(maxSize, s0, steps);
      OneStep(maxSize, s, Check(0, r));
      RunConcatenates(maxSize, s0, steps, [Check(0, r)]);
      var t := Apply(maxSize, s, Check(0, r));
      OneStep(maxSize, t, Push(0));
      RunConcatenates(maxSize, s0, steps + [Check(0, r)], [Push(0)]);
      steps := steps + [Check(0, r)] + [Push(0)];
      assert Apply(maxSize, t, Push(0)).producers == s0.producers;
    }
  }

  /** The first `n` producers pass the check before any of them pushes. */
  lemma {:induction false} PassTogether(maxSize: nat, s: State, r: Request, n: nat) returns (steps: seq<Step>)
    requires Size(s.queues) < maxSize && n <= |s.producers|
    requires forall i | 0 <= i < |s.producers| :: s.producers[i] == Ready
    ensures ValidRun(maxSize, s, steps)
    ensures var t := Outcome(maxSize, s, steps);
      && t.queues == s.queues && |t.producers| == |s.producers|
      && forall i | 0 <= i < |s.producers| :: t.producers[i] == if i < n then Admitted(r) else Ready
  {
    steps := [];
    if n > 0 {
      steps := PassTogether(maxSize, s, r, n - 1);
      OneStep(maxSize, Outcome(maxSize, s, steps), Check(n - 1, r));
      RunConcatenates(maxSize, s, steps, [Check(n - 1, r)]);
      steps := steps + [Check(n - 1, r)];
    }
  }

  /** Admitted producers push one after the other. */
  lemma {:induction false} PushTogether(maxSize: nat, s: State, r: Request, n: nat) returns (steps: seq<Step>)
    requires n <= |s.producers|
    requires forall i | 0 <= i < |s.producers| :: s.producers[i] == Admitted(r)
    ensures ValidRun(maxSize, s, steps)
    ensures var t := Outcome(maxSize, s, steps);
      && Size(t.queues) == Size(s.queues) + n && |t.producers| == |s.producers|
      && forall i | n <= i < |s.producers| :: t.producers[i] == Admitted(r)
  {
    steps := [];
    if n > 0 {
      steps := PushTogether(maxSize, s, r, n - 1);
      OneStep(maxSize, Outcome(maxSize, s, steps), Push(n - 1));
      RunConcatenates(maxSize, s, steps, [Push(n - 1)]);
      steps := steps + [Push(n - 1)];
    }
  }

  /**
   The configured limit itself holds in every run exactly when there is one producer at most or the limit is
   zero; with more, some run reaches `max_size + producers - 1`.
   */
  lemma LimitHoldsIff(maxSize: nat, producers: nat)
    requires producers >= 1
    ensures (forall steps | ValidRun(maxSize, Initial(producers), steps) ::
               Size(Outcome(maxSize, Initial(producers), steps).queues) <= maxSize)
       <==> producers == 1 || maxSize == 0
    ensures maxSize >= 1 ==> exists steps ::
      ValidRun(maxSize, Initial(producers), steps)
      && Size(Outcome(maxSize, Initial(producers), steps).queues) == maxSize + producers - 1
  {
    if maxSize >= 1 {
      var steps := Overfill(maxSize, producers, Request(0, Normal));
    }
    forall steps | ValidRun(maxSize, Initial(producers), steps)
      ensures Size(Outcome(maxSize, Initial(producers), steps).queues) <= maxSize + producers - 1
      ensures maxSize == 0 ==> Size(Outcome(maxSize, Initial(producers), steps).queues) == 0
    {
      QueueBound(maxSize, producers, steps);
      if maxSize == 0 {
        NothingAdmitted(Initial(producers), steps);
      }
    }
  }

  lemma Overfill(maxSize: nat, producers: nat, r: Request) returns (steps: seq<Step>)
    requires producers >= 1 && maxSize >= 1
    ensures ValidRun(maxSize, Initial(producers), steps)
    ensures Size(Outcome(maxSize, Initial(producers), steps).queues) == maxSize + producers - 1
  {
    var s0 := Initial(producers);
    var a := Fill(maxSize, producers, r, maxSize - 1);
    var b := PassTogether(maxSize, Outcome(maxSize, s0, a), r, producers);
    RunConcatenates(maxSize, s0, a, b);
    var c := PushTogether(maxSize, Outcome(maxSize, s0, a + b), r, producers);
    RunConcatenates(maxSize, s0, a + b, c);
    steps := a + b + c;
  }

  lemma {:induction false} NothingAdmitted(s: State, steps: seq<Step>)
    requires ValidRun(0, s, steps) && Size(s.queues) == 0
    requires forall i | 0 <= i < |s.producers| :: s.producers[i] == Ready
    ensures Size(Outcome(0, s, steps).queues) == 0
    decreases |steps|
  {
    if steps != [] {
      if steps[0].Next? {
        PopShrinks(s.queues, steps[0].fair, steps[0].pick);
      }
      NothingAdmitted(Apply(0, s, steps[0]), steps[1..]);
    }
  }
}
