/** What the priority queue guarantees over whole runs: order, conservation, and how long a request waits. */
module QueueLaws {
  import opened Wrappers
  import opened Collections
  import opened PriorityOrder

  function Class(i: nat): Request -> bool { (r: Request) => Index(r.priority) == i }

  // ----- Pushing and draining sorts stably -----

  function AllPushed(s: seq<Request>): Queues {
    if s == [] then NO_REQUESTS else Pushed(AllPushed(s[..|s| - 1]), s[|s| - 1])
  }

  /** What repeated `pop` returns until the queue is empty. */
  function Drained(qs: Queues): seq<Request>
    decreases Size(qs)
  {
    match Highest(qs)
    case None => []
    case Some(i) => [qs[i][0]] + Drained(TakenFrom(qs, i))
  }

  lemma {:induction false} PushedClasses(s: seq<Request>, i: nat)
    requires i < 4
    ensures AllPushed(s)[i] == Filter(s, Class(i))
  {
    if s != [] {
      var front, last := s[..|s| - 1], s[|s| - 1];
      PushedClasses(front, i);
      FilterAppend(front, [last], Class(i));
      assert s == front + [last];
      assert Filter([last], Class(i)) == if Class(i)(last) then [last] else [];
    }
  }

  lemma {:induction false} DrainedByClass(qs: Queues)
    ensures Drained(qs) == qs[3] + qs[2] + qs[1] + qs[0]
    decreases Size(qs)
  {
    match Highest(qs)
    case None =>
    case Some(i) =>
      DrainedByClass(TakenFrom(qs, i));
      FrontOfConcatenation(qs[3], qs[2], qs[1], qs[0], i);
  }

  /** The first element of four sequences one after the other is that of the first non-empty one. */
  lemma FrontOfConcatenation(a: seq<Request>, b: seq<Request>, c: seq<Request>, d: seq<Request>, i: nat)
    ensures i == 3 && a != [] ==> a + b + c + d == [a[0]] + (a[1..] + b + c + d)
    ensures i == 2 && a == [] && b != [] ==> a + b + c + d == [b[0]] + (a + b[1..] + c + d)
    ensures i == 1 && a == b == [] && c != [] ==> a + b + c + d == [c[0]] + (a + b + c[1..] + d)
    ensures i == 0 && a == b == c == [] && d != [] ==> a + b + c + d == [d[0]] + (a + b + c + d[1..])
  {
  }

  const DESCENDING: (Request, Request) -> bool := (a: Request, b: Request) => Index(a.priority) >= Index(b.priority)

  /** `t` has the elements of `s` with higher priorities first and equal priorities in their old order. */
  ghost predicate IsStableSort(s: seq<Request>, t: seq<Request>) {
    && Pairwise(t, DESCENDING)
    && (forall i: nat | i < 4 :: Filter(t, Class(i)) == Filter(s, Class(i)))
  }

  /** Pushing any sequence and popping until empty returns its stable sort by descending priority, and nothing else. */
  lemma DrainIsTheStableSort(s: seq<Request>, t: seq<Request>)
    ensures IsStableSort(s, t) <==> t == Drained(AllPushed(s))
  {
    DrainedByClass(AllPushed(s));
    forall i: nat | i < 4
      ensures AllPushed(s)[i] == Filter(s, Class(i))
    {
      PushedClasses(s, i);
    }
    if IsStableSort(s, t) {
      SortedByClass(t);
    }
    ClassesSorted(AllPushed(s));
    if t == Drained(AllPushed(s)) {
      forall i: nat | i < 4
        ensures Filter(t, Class(i)) == AllPushed(s)[i]
      {
        ClassOfConcatenation(AllPushed(s), i);
      }
    }
  }

  lemma ClassesSorted(qs: Queues)
    ensures Pairwise(qs[3] + qs[2] + qs[1] + qs[0], DESCENDING)
  {
    var t := qs[3] + qs[2] + qs[1] + qs[0];
    var n3, n2, n1 := |qs[3]|, |qs[3]| + |qs[2]|, |qs[3]| + |qs[2]| + |qs[1]|;
    assert forall k | 0 <= k < |t| ::
        Index(t[k].priority) == if k < n3 then 3 else if k < n2 then 2 else if k < n1 then 1 else 0;
  }

  lemma ClassOfConcatenation(qs: Queues, i: nat)
    requires i < 4
    ensures Filter(qs[3] + qs[2] + qs[1] + qs[0], Class(i)) == qs[i]
  {
    FilterAppend(qs[3] + qs[2] + qs[1], qs[0], Class(i));
    FilterAppend(qs[3] + qs[2], qs[1], Class(i));
    FilterAppend(qs[3], qs[2], Class(i));
    ClassOfQueue(qs, 0, i);
    ClassOfQueue(qs, 1, i);
    ClassOfQueue(qs, 2, i);
    ClassOfQueue(qs, 3, i);
  }

  lemma ClassOfQueue(qs: Queues, j: nat, i: nat)
    requires i < 4 && j < 4
    ensures Filter(qs[j], Class(i)) == if i == j then qs[j] else []
  {
    if i == j {
      FilterAll(qs[j], Class(i));
    } else {
      FilterNone(qs[j], Class(i));
    }
  }

  /** `head` when it belongs to class `i`. */
  function Own(head: Request, i: nat): seq<Request> { if Index(head.priority) == i then [head] else [] }

  lemma FilterHead(t: seq<Request>, i: nat)
    requires t != []
    ensures Filter(t, Class(i)) == Own(t[0], i) + Filter(t[1..], Class(i))
  {
  }

  /** After its first element, a descending sequence is descending and has no higher priorities. */
  lemma DescendingTail(t: seq<Request>, i: nat)
    requires t != [] && Pairwise(t, DESCENDING)
    ensures Pairwise(t[1..], DESCENDING)
    ensures i > Index(t[0].priority) ==> Filter(t[1..], Class(i)) == []
  {
    var rest := t[1..];
    forall k | 0 <= k < |rest|
      ensures Index(t[0].priority) >= Index(rest[k].priority)
    {
      assert DESCENDING(t[0], t[k + 1]);
    }
    if i > Index(t[0].priority) {
      FilterNone(rest, Class(i));
    }
  }

  /** A sequence in descending order of priority is its four classes one after the other. */
  lemma {:induction false} SortedByClass(t: seq<Request>)
    requires Pairwise(t, DESCENDING)
    ensures t == Filter(t, Class(3)) + Filter(t, Class(2)) + Filter(t, Class(1)) + Filter(t, Class(0))
  {
    if t != [] {
      var head, rest := t[0], t[1..];
      forall i: nat
        ensures i > Index(head.priority) ==> Filter(rest, Class(i)) == []
        ensures Filter(t, Class(i)) == Own(head, i) + Filter(rest, Class(i))
      {
        FilterHead(t, i);
        DescendingTail(t, i);
      }
      DescendingTail(t, 0);
      hide Filter;
      hide Pairwise;
      SortedByClass(rest);
      Prepended(head, Filter(rest, Class(3)), Filter(rest, Class(2)), Filter(rest, Class(1)), Filter(rest, Class(0)));
      assert t == [head] + rest;
    }
  }

  lemma Prepended(head: Request, a: seq<Request>, b: seq<Request>, c: seq<Request>, d: seq<Request>)
    requires Index(head.priority) < 3 ==> a == []
    requires Index(head.priority) < 2 ==> b == []
    requires Index(head.priority) < 1 ==> c == []
    ensures [head] + (a + b + c + d)
         == (Own(head, 3) + a) + (Own(head, 2) + b) + (Own(head, 1) + c) + (Own(head, 0) + d)
  {
  }

  // ----- Any run: each class stays first-in-first-out and nothing is lost -----

  datatype Op = PushOp(request: Request) | PopOp(fair: bool, pick: nat)

  datatype Run = Run(queues: Queues, pushed: seq<Request>, popped: seq<Request>)

  function Step(run: Run, op: Op): Run {
    match op
    case PushOp(r) => run.(queues := Pushed(run.queues, r), pushed := run.pushed + [r])
    case PopOp(fair, pick) =>
      var (qs, r) := PoppedFair(run.queues, fair, pick);
      run.(queues := qs, popped := if r.Some? then run.popped + [r.value] else run.popped)
  }

  function After(ops: seq<Op>): Run {
    if ops == [] then Run(NO_REQUESTS, [], []) else Step(After(ops[..|ops| - 1]), ops[|ops| - 1])
  }

  /** In every class the requests popped, then those still queued, are the requests pushed, in order. */
  ghost predicate ClassConserved(run: Run, i: nat)
    requires i < 4
  {
    Filter(run.pushed, Class(i)) == Filter(run.popped, Class(i)) + run.queues[i]
  }

  lemma {:induction false} EveryClassIsFifo(ops: seq<Op>, i: nat)
    requires i < 4
    ensures ClassConserved(After(ops), i)
  {
    if ops != [] {
      EveryClassIsFifo(ops[..|ops| - 1], i);
      StepKeepsClass(After(ops[..|ops| - 1]), ops[|ops| - 1], i);
    }
  }

  lemma StepKeepsClass(run: Run, op: Op, i: nat)
    requires i < 4 && ClassConserved(run, i)
    ensures ClassConserved(Step(run, op), i)
  {
    match op
    case PushOp(r) => PushKeepsClass(run, r, i);
    case PopOp(fair, pick) => PopKeepsClass(run, fair, pick, i);
  }

  lemma PushKeepsClass(run: Run, r: Request, i: nat)
    requires i < 4 && ClassConserved(run, i)
    ensures ClassConserved(Step(run, PushOp(r)), i)
  {
    hide Filter;
    FilterAppend(run.pushed, [r], Class(i));
    FilterOne(r, i);
    assert Filter(run.popped, Class(i)) + (run.queues[i] + Own(r, i))
        == (Filter(run.popped, Class(i)) + run.queues[i]) + Own(r, i);
  }

  lemma PopKeepsClass(run: Run, fair: bool, pick: nat, i: nat)
    requires i < 4 && ClassConserved(run, i)
    ensures ClassConserved(Step(run, PopOp(fair, pick)), i)
  {
    hide Filter;
    var j := PoppedFrom(run.queues, fair, pick);
    NothingPopped(run.queues, fair, pick);
    hide PoppedFair;
    if PoppedFair(run.queues, fair, pick).1.Some? {
      var r := run.queues[j][0];
      FilterAppend(run.popped, [r], Class(i));
      FilterOne(r, i);
      assert run.queues[j] == [r] + run.queues[j][1..];
    }
  }

  lemma FilterOne(r: Request, i: nat)
    ensures Filter([r], Class(i)) == Own(r, i)
  {
    assert [r][1..] == [];
  }

  /** Whatever the random choices, a pop takes the front of some queue, and fails only when all are empty. */
  lemma PoppedFrom(qs: Queues, fair: bool, pick: nat) returns (j: nat)
    ensures PoppedFair(qs, fair, pick).1.None? <==> Size(qs) == 0
    ensures PoppedFair(qs, fair, pick).1.Some? ==>
      j < 4 && qs[j] != [] && PoppedFair(qs, fair, pick) == (TakenFrom(qs, j), Some(qs[j][0]))
  {
    if fair && Available(qs) != [] {
      j := Available(qs)[pick % |Available(qs)|];
    } else {
      j := if Highest(qs).Some? then Highest(qs).value else 0;
    }
  }

  /** The fair mode can serve any queue that is not empty. */
  lemma FairServesAnyQueue(qs: Queues, j: nat) returns (pick: nat)
    requires j < 4 && qs[j] != []
    ensures PoppedFair(qs, true, pick) == (TakenFrom(qs, j), Some(qs[j][0]))
  {
    var available := Available(qs);
    assert j in available by {
      AvailableBelow(qs, 4, j);
    }
    pick :| pick < |available| && available[pick] == j;
    SmallRemainder(pick, |available|);
  }

  lemma SmallRemainder(a: nat, n: nat)
    requires a < n
    ensures a % n == a
  {
  }

  lemma {:induction false} AvailableBelow(qs: Queues, n: nat, j: nat)
    requires n <= 4
    ensures j in NonEmptyBelow(qs, n) <==> j < n && qs[j] != []
  {
    if n > 0 {
      AvailableBelow(qs, n - 1, j);
    }
  }

  ghost predicate Balanced(run: Run) {
    && multiset(run.pushed) == multiset(run.popped) + Queued(run.queues)
    && |run.pushed| == |run.popped| + Size(run.queues)
  }

  lemma PushKeepsBalance(run: Run, r: Request)
    requires Balanced(run)
    ensures Balanced(Step(run, PushOp(r)))
  {
    hide Queued;
    hide Size;
    QueuedPushed(run.queues, r);
  }

  lemma PopKeepsBalance(run: Run, fair: bool, pick: nat)
    requires Balanced(run)
    ensures Balanced(Step(run, PopOp(fair, pick)))
  {
    var j := PoppedFrom(run.queues, fair, pick);
    NothingPopped(run.queues, fair, pick);
    hide Queued;
    hide PoppedFair;
    if PoppedFair(run.queues, fair, pick).1.Some? {
      QueuedTaken(run.queues, j);
    }
  }

  lemma NothingPopped(qs: Queues, fair: bool, pick: nat)
    ensures PoppedFair(qs, fair, pick).1.None? ==> PoppedFair(qs, fair, pick).0 == qs
  {
  }

  /** Requests are conserved: what was pushed is what was popped and what is still queued. */
  lemma {:induction false} Conserved(ops: seq<Op>)
    ensures multiset(After(ops).pushed) == multiset(After(ops).popped) + Queued(After(ops).queues)
    ensures |After(ops).pushed| == |After(ops).popped| + Size(After(ops).queues)
  {
    BalancedAfter(ops);
  }

  lemma {:induction false} BalancedAfter(ops: seq<Op>)
    ensures Balanced(After(ops))
  {
    if ops != [] {
      hide Balanced;
      var run, op := After(ops[..|ops| - 1]), ops[|ops| - 1];
      BalancedAfter(ops[..|ops| - 1]);
      match op
      case PushOp(r) => PushKeepsBalance(run, r);
      case PopOp(fair, pick) => PopKeepsBalance(run, fair, pick);
    }
  }

  lemma QueuedPushed(qs: Queues, r: Request)
    ensures Queued(Pushed(qs, r)) == Queued(qs) + multiset{r} && Size(Pushed(qs, r)) == Size(qs) + 1
  {
  }

  lemma QueuedTaken(qs: Queues, j: nat)
    requires j < 4 && qs[j] != []
    ensures Queued(TakenFrom(qs, j)) + multiset{qs[j][0]} == Queued(qs) && Size(TakenFrom(qs, j)) == Size(qs) - 1
  {
    assert qs[j] == [qs[j][0]] + qs[j][1..];
  }

  function Queued(qs: Queues): multiset<Request> {
    multiset(qs[0]) + multiset(qs[1]) + multiset(qs[2]) + multiset(qs[3])
  }

  // ----- How long a request waits under `pop` -----

  datatype Event = Arrives(request: Request) | Served

  function Apply(qs: Queues, e: Event): Queues {
    match e case Arrives(r) => Pushed(qs, r) case Served => Popped(qs).0
  }

  function ApplyAll(qs: Queues, events: seq<Event>): Queues {
    if events == [] then qs else Apply(ApplyAll(qs, events[..|events| - 1]), events[|events| - 1])
  }

  /** How many requests a pop serves before the one at position `k` of queue `p`. */
  function Ahead(qs: Queues, p: nat, k: nat): nat
    requires p < 4
  {
    k + (if p < 1 then |qs[1]| else 0) + (if p < 2 then |qs[2]| else 0) + (if p < 3 then |qs[3]| else 0)
  }

  /** Where the request at position `k` of queue `p` is after some events, or None once it was served. */
  function Position(qs: Queues, p: nat, k: nat, events: seq<Event>): Option<nat>
    requires p < 4
  {
    if events == [] then Some(k)
    else
      var front := events[..|events| - 1];
      match Position(qs, p, k, front)
      case None => None
      case Some(j) =>
        if events[|events| - 1].Served? && Highest(ApplyAll(qs, front)) == Some(p) then
          if j == 0 then None else Some(j - 1)
        else Some(j)
  }

  function Serves(events: seq<Event>): nat {
    if events == [] then 0
    else Serves(events[..|events| - 1]) + (if events[|events| - 1].Served? then 1 else 0)
  }

  function HigherArrivals(events: seq<Event>, p: nat): nat {
    if events == [] then 0
    else
      var e := events[|events| - 1];
      HigherArrivals(events[..|events| - 1], p)
      + (if e.Arrives? && Index(e.request.priority) > p then 1 else 0)
  }

  /**
   While a request waits, it is found where `Position` says, and the pops so far, plus those still due before
   it, are exactly the requests that were ahead of it and the higher-priority ones that arrived since.
   */
  lemma {:induction false} WaitAccounting(qs: Queues, p: nat, k: nat, events: seq<Event>)
    requires p < 4 && k < |qs[p]| && Position(qs, p, k, events).Some?
    ensures var j := Position(qs, p, k, events).value;
      var now := ApplyAll(qs, events);
      && j < |now[p]| && now[p][j] == qs[p][k]
      && Serves(events) + Ahead(now, p, j) == Ahead(qs, p, k) + HigherArrivals(events, p)
  {
    if events != [] {
      var front, e := events[..|events| - 1], events[|events| - 1];
      WaitAccounting(qs, p, k, front);
      EventAccounting(ApplyAll(qs, front), p, Position(qs, p, k, front).value, e);
    }
  }

  lemma EventAccounting(qs: Queues, p: nat, j: nat, e: Event)
    requires p < 4 && j < |qs[p]|
    ensures var now := Apply(qs, e);
      if e.Arrives? then
        j < |now[p]| && now[p][j] == qs[p][j]
        && Ahead(now, p, j) == Ahead(qs, p, j) + (if Index(e.request.priority) > p then 1 else 0)
      else if Highest(qs) != Some(p) then
        j < |now[p]| && now[p][j] == qs[p][j] && Ahead(now, p, j) == Ahead(qs, p, j) - 1
      else
        Ahead(qs, p, j) == j && (j > 0 ==> now[p][j - 1] == qs[p][j] && Ahead(now, p, j - 1) == j - 1)
  {
  }

  /**
   A waiting request is returned by exactly that pop which follows as many pops as there were requests ahead
   of it plus requests of strictly higher priority that arrived while it waited.
   */
  lemma ServedExactlyInTurn(qs: Queues, p: nat, k: nat, events: seq<Event>)
    requires p < 4 && k < |qs[p]| && events != []
    requires Position(qs, p, k, events[..|events| - 1]).Some? && Position(qs, p, k, events).None?
    ensures events[|events| - 1].Served?
    ensures Popped(ApplyAll(qs, events[..|events| - 1])).1 == Some(qs[p][k])
    ensures Serves(events) == Ahead(qs, p, k) + HigherArrivals(events, p) + 1
  {
    var front := events[..|events| - 1];
    WaitAccounting(qs, p, k, front);
    EventAccounting(ApplyAll(qs, front), p, Position(qs, p, k, front).value, Served);
  }

  /** So a request still waits only while fewer pops have happened than that. */
  lemma WaitsAtMost(qs: Queues, p: nat, k: nat, events: seq<Event>)
    requires p < 4 && k < |qs[p]| && Position(qs, p, k, events).Some?
    ensures Serves(events) <= Ahead(qs, p, k) + HigherArrivals(events, p)
  {
    WaitAccounting(qs, p, k, events);
  }
}
