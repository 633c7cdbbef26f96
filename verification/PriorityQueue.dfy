/** The priority queue as the program keeps it: an array of four queues and a cached count. */
module PriorityQueue {
  import opened Wrappers
  import opened PriorityOrder

  class PriorityQueue {
    const queues: array<seq<Request>>
    var totalCount: nat

    /** Each queue holds its own priority only, and the cached count is the sum of the lengths. */
    ghost predicate Valid()
      reads this, queues
    {
      && queues.Length == 4
      && (forall i, k | 0 <= i < 4 && 0 <= k < |queues[i]| :: Index(queues[i][k].priority) == i)
      && totalCount == |queues[0]| + |queues[1]| + |queues[2]| + |queues[3]|
    }

    function View(): Queues
      reads this, queues
      requires Valid()
    {
      queues[..]
    }

    constructor ()
      ensures Valid() && fresh(queues) && View() == NO_REQUESTS
    {
      queues := new seq<Request>[4](i => []);
      totalCount := 0;
    }

    method Push(request: Request)
      requires Valid()
      modifies this, queues
      ensures Valid() && View() == Pushed(old(View()), request)
      ensures totalCount == old(totalCount) + 1
    {
      var i := Index(request.priority);
      queues[i] := queues[i] + [request];
      totalCount := totalCount + 1;
    }

    method Pop() returns (r: Option<Request>)
      requires Valid()
      modifies this, queues
      ensures Valid() && (View(), r) == Popped(old(View()))
      ensures totalCount == old(totalCount) - (if r.Some? then 1 else 0)
    {
      var i := 4;
      while i > 0
        invariant i <= 4
        invariant forall j | i <= j < 4 :: queues[j] == []
        invariant queues[..] == old(queues[..]) && totalCount == old(totalCount)
      {
        i := i - 1;
        if queues[i] != [] {
          r := Some(queues[i][0]);
          Take(i);
          return;
        }
      }
      r := None;
    }

    /** Removes the front of one queue and corrects the count. */
    method Take(i: nat)
      requires Valid() && i < 4 && queues[i] != []
      modifies this, queues
      ensures Valid() && View() == TakenFrom(old(View()), i)
      ensures totalCount == old(totalCount) - 1
    {
      queues[i] := queues[i][1..];
      totalCount := totalCount - 1;
    }

    method AvailableQueues() returns (available: seq<nat>)
      requires Valid()
      ensures available == Available(View())
    {
      available := [];
      for i := 0 to 4
        invariant available == NonEmptyBelow(View(), i)
      {
        if queues[i] != [] {
          available := available + [i];
        }
      }
    }

    /** `draw` is the random number compared with the weight, `pick` the random choice among queues. */
    method PopFair(fairWeight: real, draw: real, pick: nat) returns (r: Option<Request>)
      requires Valid()
      modifies this, queues
      ensures Valid() && (View(), r) == PoppedFair(old(View()), draw < fairWeight, pick)
      ensures draw >= fairWeight ==> (View(), r) == Popped(old(View()))
      ensures totalCount == old(totalCount) - (if r.Some? then 1 else 0)
    {
      if draw < fairWeight {
        var available := AvailableQueues();
        if available != [] {
          var selected := available[pick % |available|];
          r := Some(queues[selected][0]);
          Take(selected);
          return;
        }
      }
      r := Pop();
    }

    method Len() returns (n: nat)
      requires Valid()
      ensures n == Size(View())
    {
      n := totalCount;
    }

    method LenByPriority(p: Priority) returns (n: nat)
      requires Valid()
      ensures n == |View()[Index(p)]|
    {
      n := |queues[Index(p)]|;
    }
  }
}
