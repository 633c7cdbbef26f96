/** Four first-in-first-out queues, one per priority: what each operation does to them. */
module PriorityOrder {
  import opened Wrappers

  datatype Priority = Low | Normal | High | Critical

  function Index(p: Priority): (i: nat)
    ensures i < 4
  {
    match p case Low => 0 case Normal => 1 case High => 2 case Critical => 3
  }

  datatype Request = Request(id: nat, priority: Priority)

  /** Queue `i` holds requests of priority index `i` only. */
  type Queues = qs: seq<seq<Request>> | |qs| == 4
    && forall i, k | 0 <= i < 4 && 0 <= k < |qs[i]| :: Index(qs[i][k].priority) == i
    witness [[], [], [], []]

  const NO_REQUESTS: Queues := [[], [], [], []]

  function Size(qs: Queues): nat { |qs[0]| + |qs[1]| + |qs[2]| + |qs[3]| }

  function Pushed(qs: Queues, r: Request): Queues {
    qs[Index(r.priority) := qs[Index(r.priority)] + [r]]
  }

  function TakenFrom(qs: Queues, i: nat): Queues
    requires i < 4 && qs[i] != []
  {
    qs[i := qs[i][1..]]
  }

  /** The highest priority index with a waiting request. */
  function Highest(qs: Queues): Option<nat> {
    if qs[3] != [] then Some(3)
    else if qs[2] != [] then Some(2)
    else if qs[1] != [] then Some(1)
    else if qs[0] != [] then Some(0)
    else None
  }

  function Popped(qs: Queues): (Queues, Option<Request>) {
    match Highest(qs)
    case None => (qs, None)
    case Some(i) => (TakenFrom(qs, i), Some(qs[i][0]))
  }

  /** The indices below `n` of the queues that are not empty, lowest first. */
  function NonEmptyBelow(qs: Queues, n: nat): (available: seq<nat>)
    requires n <= 4
    ensures forall k | 0 <= k < |available| :: available[k] < 4 && qs[available[k]] != []
  {
    if n == 0 then [] else NonEmptyBelow(qs, n - 1) + (if qs[n - 1] != [] then [n - 1] else [])
  }

  function Available(qs: Queues): (available: seq<nat>)
    ensures forall k | 0 <= k < |available| :: available[k] < 4 && qs[available[k]] != []
  {
    NonEmptyBelow(qs, 4)
  }

  /** With `fair` the random choice `pick` selects any non-empty queue; otherwise the highest one is served. */
  function PoppedFair(qs: Queues, fair: bool, pick: nat): (Queues, Option<Request>) {
    if fair && Available(qs) != [] then
      var i := Available(qs)[pick % |Available(qs)|];
      (TakenFrom(qs, i), Some(qs[i][0]))
    else Popped(qs)
  }

  /** The levels by name: critical above high above normal above low. */
  predicate Above(a: Priority, b: Priority) {
    || (a == Critical && b != Critical)
    || (a == High && (b == Normal || b == Low))
    || (a == Normal && b == Low)
  }

  lemma IndexOrder(a: Priority, b: Priority)
    ensures Above(a, b) <==> Index(a) > Index(b)
    ensures Index(a) == Index(b) <==> a == b
  {
  }

  /** A pop fails only when nothing is queued; otherwise nothing queued is above the request it returns. */
  lemma PoppedIsHighest(qs: Queues)
    ensures Popped(qs).1.None? <==> forall i | 0 <= i < 4 :: qs[i] == []
    ensures Popped(qs).1.Some? ==> forall i, k | 0 <= i < 4 && 0 <= k < |qs[i]| ::
      !Above(qs[i][k].priority, Popped(qs).1.value.priority)
  {
    if Popped(qs).1.Some? {
      var r := Popped(qs).1.value;
      forall i, k | 0 <= i < 4 && 0 <= k < |qs[i]|
        ensures !Above(qs[i][k].priority, r.priority)
      {
        IndexOrder(qs[i][k].priority, r.priority);
      }
    }
  }
}
