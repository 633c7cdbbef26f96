/** Option and Result, and the few facts about sequences and finite sets that several models share. */
module Wrappers {
  datatype Option<+T> = None | Some(value: T)

  datatype Result<+T, +E> = Success(value: T) | Failure(error: E)
}

module Collections {
  /** No element occurs twice. */
  ghost predicate NoDup<T>(s: seq<T>) {
    forall i, j | 0 <= i < j < |s| :: s[i] != s[j]
  }

  /** The positions of `s` whose element satisfies `p`. */
  ghost function Positions<T>(s: seq<T>, p: T -> bool): set<nat> {
    set i: nat | i < |s| && p(s[i])
  }

  /** How many positions of `s` satisfy `p`. */
  ghost function Count<T>(s: seq<T>, p: T -> bool): nat {
    |Positions(s, p)|
  }

  lemma SizeWithout<T>(a: set<T>, x: T)
    ensures |a| == |a - {x}| + (if x in a then 1 else 0)
  {
    if x in a {
      assert a == (a - {x}) + {x};
    } else {
      assert a == a - {x};
    }
  }

  lemma CountUpdate<T>(s: seq<T>, i: nat, x: T, p: T -> bool)
    requires i < |s|
    ensures Count(s[i := x], p)
         == Count(s, p) - (if p(s[i]) then 1 else 0) + (if p(x) then 1 else 0)
  {
    var before, after := Positions(s, p), Positions(s[i := x], p);
    assert before - {i} == after - {i};
    SizeWithout(before, i);
    SizeWithout(after, i);
  }

  lemma SubsetSize<T>(a: set<T>, b: set<T>)
    requires a <= b
    ensures |a| <= |b|
  {
    if a != {} {
      var x :| x in a;
      SubsetSize(a - {x}, b - {x});
    }
  }

  lemma {:induction false} CountAtMost<T>(s: seq<T>, p: T -> bool)
    ensures Count(s, p) <= |s|
  {
    if |s| == 0 {
      assert Positions(s, p) == {};
    } else {
      var last := |s| - 1;
      CountAtMost(s[..last], p);
      assert Positions(s, p) == Positions(s[..last], p) + (if p(s[last]) then {last} else {});
    }
  }

  lemma {:induction false} CountAll<T>(s: seq<T>, p: T -> bool)
    requires forall k | 0 <= k < |s| :: p(s[k])
    ensures Count(s, p) == |s|
  {
    if |s| == 0 {
      assert Positions(s, p) == {};
    } else {
      var last := |s| - 1;
      CountAll(s[..last], p);
      assert Positions(s, p) == Positions(s[..last], p) + {last};
    }
  }

  lemma CountMonotone<T>(s: seq<T>, p: T -> bool, q: T -> bool)
    requires forall x :: p(x) ==> q(x)
    ensures Count(s, p) <= Count(s, q)
  {
    SubsetSize(Positions(s, p), Positions(s, q));
  }

  lemma CountNone<T>(s: seq<T>, p: T -> bool)
    requires forall x | x in s :: !p(x)
    ensures Count(s, p) == 0
  {
    assert Positions(s, p) == {};
  }

  ghost function Elements<T>(s: seq<T>): set<T> {
    set x | x in s
  }

  lemma {:induction false} NoDupSize<T>(s: seq<T>)
    requires NoDup(s)
    ensures |Elements(s)| == |s|
  {
    if |s| > 0 {
      var front, last := s[..|s| - 1], s[|s| - 1];
      NoDupSize(front);
      assert s == front + [last];
      assert Elements(s) == Elements(front) + {last};
      assert last !in front;
    }
  }

  /** Distinct positions that all satisfy `p` are at most as many as `Count` says. */
  lemma DistinctPositions<T>(ids: seq<nat>, s: seq<T>, p: T -> bool)
    requires NoDup(ids)
    requires forall i | i in ids :: i < |s| && p(s[i])
    ensures |ids| <= Count(s, p)
  {
    NoDupSize(ids);
    SubsetSize(Elements(ids), Positions(s, p));
  }

  function Sum(s: seq<nat>): nat {
    if s == [] then 0 else Sum(s[..|s| - 1]) + s[|s| - 1]
  }

  lemma SumPush(s: seq<nat>, x: nat)
    ensures Sum(s + [x]) == Sum(s) + x
  {
    assert (s + [x])[..|s|] == s;
  }

  function Filter<T>(s: seq<T>, p: T -> bool): seq<T> {
    if s == [] then []
    else (if p(s[0]) then [s[0]] else []) + Filter(s[1..], p)
  }

  lemma {:induction false} FilterAppend<T>(a: seq<T>, b: seq<T>, p: T -> bool)
    ensures Filter(a + b, p) == Filter(a, p) + Filter(b, p)
  {
    if a == [] {
      assert a + b == b;
    } else {
      var head := if p(a[0]) then [a[0]] else [];
      FilterAppend(a[1..], b, p);
      calc {
        Filter(a + b, p);
        { assert (a + b)[0] == a[0] && (a + b)[1..] == a[1..] + b; }
        head + Filter(a[1..] + b, p);
        head + (Filter(a[1..], p) + Filter(b, p));
        (head + Filter(a[1..], p)) + Filter(b, p);
        Filter(a, p) + Filter(b, p);
      }
    }
  }

  lemma {:induction false} FilterMember<T>(s: seq<T>, p: T -> bool, x: T)
    ensures x in Filter(s, p) <==> x in s && p(x)
  {
    if s != [] {
      FilterMember(s[1..], p, x);
    }
  }

  lemma {:induction false} FilterAll<T>(s: seq<T>, p: T -> bool)
    requires forall x | x in s :: p(x)
    ensures Filter(s, p) == s
  {
    if s != [] {
      FilterAll(s[1..], p);
    }
  }

  lemma {:induction false} FilterNone<T>(s: seq<T>, p: T -> bool)
    requires forall x | x in s :: !p(x)
    ensures Filter(s, p) == []
  {
    if s != [] {
      FilterNone(s[1..], p);
    }
  }

  /** Every earlier element is related to every later one. */
  ghost predicate Pairwise<T>(s: seq<T>, r: (T, T) -> bool) {
    forall i, j | 0 <= i < j < |s| :: r(s[i], s[j])
  }

  lemma InsertPairwise<T>(s: seq<T>, k: nat, x: T, r: (T, T) -> bool)
    requires k <= |s| && Pairwise(s, r)
    requires forall j | 0 <= j < k :: r(s[j], x)
    requires forall j | k <= j < |s| :: r(x, s[j])
    ensures Pairwise(s[..k] + [x] + s[k..], r)
  {
  }

  lemma {:induction false} FilterPairwise<T>(s: seq<T>, p: T -> bool, r: (T, T) -> bool)
    requires Pairwise(s, r)
    ensures Pairwise(Filter(s, p), r)
  {
    if s != [] {
      var rest := Filter(s[1..], p);
      FilterPairwise(s[1..], p, r);
      forall k | 0 <= k < |rest|
        ensures r(s[0], rest[k])
      {
        FilterMember(s[1..], p, rest[k]);
      }
    }
  }

  lemma {:induction false} FilterLength<T>(s: seq<T>, p: T -> bool)
    ensures |Filter(s, p)| <= |s|
    ensures (exists x :: x in s && !p(x)) ==> |Filter(s, p)| < |s|
  {
    if s != [] {
      FilterLength(s[1..], p);
    }
  }

  lemma FilterNoDup<T>(s: seq<T>, p: T -> bool)
    requires NoDup(s)
    ensures NoDup(Filter(s, p))
  {
    FilterPairwise(s, p, (a, b) => a != b);
  }
}
