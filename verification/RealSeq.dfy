/** Sums, maxima and the stable descending order of a sequence of reals. */
module RealSeq {
  import opened Collections

  /** The sum of the first `n` elements. */
  function PrefixSum(s: seq<real>, n: nat): real
    requires n <= |s|
  {
    if n == 0 then 0.0 else PrefixSum(s, n - 1) + s[n - 1]
  }

  function Total(s: seq<real>): real { PrefixSum(s, |s|) }

  ghost predicate NonNegative(s: seq<real>) { forall i | 0 <= i < |s| :: s[i] >= 0.0 }

  ghost predicate AllPositive(s: seq<real>) { forall i | 0 <= i < |s| :: s[i] > 0.0 }

  lemma {:induction false} PrefixSumMonotone(s: seq<real>, m: nat, n: nat)
    requires NonNegative(s) && m <= n <= |s|
    ensures PrefixSum(s, m) <= PrefixSum(s, n)
    decreases n - m
  {
    if m < n {
      PrefixSumMonotone(s, m, n - 1);
    }
  }

  lemma {:induction false} PrefixSumScaled(s: seq<real>, t: seq<real>, d: real, n: nat)
    requires |s| == |t| && n <= |s| && d != 0.0
    requires forall i | 0 <= i < |s| :: t[i] == s[i] / d
    ensures PrefixSum(t, n) == PrefixSum(s, n) / d
  {
    if n > 0 {
      PrefixSumScaled(s, t, d, n - 1);
    }
  }

  lemma {:induction false} PrefixSumZero(s: seq<real>, n: nat)
    requires n <= |s| && forall i | 0 <= i < |s| :: s[i] == 0.0
    ensures PrefixSum(s, n) == 0.0
  {
    if n > 0 {
      PrefixSumZero(s, n - 1);
    }
  }

  lemma {:induction false} PrefixSumConstant(s: seq<real>, x: real, n: nat)
    requires n <= |s| && forall i | 0 <= i < |s| :: s[i] == x
    ensures PrefixSum(s, n) == n as real * x
  {
    if n > 0 {
      PrefixSumConstant(s, x, n - 1);
      assert (n - 1) as real * x + x == n as real * x;
    }
  }

  /** The element is part of the total. */
  lemma TotalAtLeast(s: seq<real>, i: nat)
    requires NonNegative(s) && i < |s|
    ensures Total(s) >= s[i]
  {
    PrefixSumMonotone(s, 0, i);
    PrefixSumMonotone(s, i + 1, |s|);
  }

  // ----- The stable order by descending value -----

  /** Where index `i` goes among indices already in order: after every element that is not smaller. */
  function Insert(s: seq<real>, order: seq<nat>, i: nat): seq<nat>
    requires i < |s| && forall j | 0 <= j < |order| :: order[j] < |s|
  {
    if order == [] || s[order[0]] < s[i] then [i] + order
    else [order[0]] + Insert(s, order[1..], i)
  }

  /** Index `a` comes before index `b`: its value is larger, or equal and it is the smaller index. */
  predicate Ahead(s: seq<real>, a: nat, b: nat) {
    a < |s| && b < |s| && (s[a] > s[b] || (s[a] == s[b] && a < b))
  }

  function AheadIn(s: seq<real>): (nat, nat) -> bool { (a: nat, b: nat) => Ahead(s, a, b) }

  /** `order` lists the indices below `n`, larger values first and equal values by index. */
  ghost predicate Descending(s: seq<real>, order: seq<nat>, n: nat) {
    && |order| == n <= |s|
    && (forall j | 0 <= j < n :: order[j] < n)
    && Pairwise(order, AheadIn(s))
  }

  lemma DescendingDistinct(s: seq<real>, order: seq<nat>, n: nat)
    requires Descending(s, order, n)
    ensures NoDup(order)
    ensures forall a, b | 0 <= a <= b < n :: s[order[a]] >= s[order[b]]
  {
    var ahead := AheadIn(s);
    assert forall a, b | 0 <= a < b < n :: ahead(order[a], order[b]);
  }

  lemma {:induction false} InsertPlace(s: seq<real>, order: seq<nat>, i: nat) returns (k: nat)
    requires i < |s| && forall j | 0 <= j < |order| :: order[j] < |s|
    ensures k <= |order| && Insert(s, order, i) == order[..k] + [i] + order[k..]
    ensures forall j | 0 <= j < k :: s[order[j]] >= s[i]
    ensures k < |order| ==> s[order[k]] < s[i]
  {
    if order == [] || s[order[0]] < s[i] {
      k := 0;
    } else {
      k := InsertPlace(s, order[1..], i);
      k := k + 1;
      assert order[..k] == [order[0]] + order[1..][..k - 1] && order[k..] == order[1..][k - 1..];
    }
  }

  lemma InsertDescending(s: seq<real>, order: seq<nat>, n: nat)
    requires n < |s| && Descending(s, order, n)
    ensures Descending(s, Insert(s, order, n), n + 1)
  {
    var k := InsertPlace(s, order, n);
    DescendingDistinct(s, order, n);
    forall j | k <= j < n
      ensures AheadIn(s)(n, order[j])
    {
      assert s[order[k]] >= s[order[j]];
    }
    hide Insert;
    InsertPairwise(order, k, n, AheadIn(s));
    InsertBelow(order, k, n);
  }

  lemma InsertBelow(order: seq<nat>, k: nat, n: nat)
    requires k <= |order| == n && forall j | 0 <= j < n :: order[j] < n
    ensures var t := order[..k] + [n] + order[k..]; |t| == n + 1 && forall j | 0 <= j < n + 1 :: t[j] < n + 1
  {
  }

  function FirstOrdered(s: seq<real>, n: nat): (order: seq<nat>)
    requires n <= |s|
    ensures forall j | 0 <= j < |order| :: order[j] < |s|
    ensures Descending(s, order, n)
  {
    if n == 0 then []
    else
      var shorter := FirstOrdered(s, n - 1);
      InsertDescending(s, shorter, n - 1);
      Insert(s, shorter, n - 1)
  }

  /** The indices of `s` as a stable sort by descending value leaves them. */
  function Order(s: seq<real>): (order: seq<nat>)
    ensures Descending(s, order, |s|)
  {
    FirstOrdered(s, |s|)
  }

  /** A descending order of all indices lists each of them. */
  lemma OrderComplete(s: seq<real>, order: seq<nat>, i: nat)
    requires Descending(s, order, |s|) && i < |s|
    ensures i in order
  {
    var all := (x: real) => true;
    DescendingDistinct(s, order, |s|);
    if i !in order {
      assert NoDup(order + [i]);
      DistinctPositions(order + [i], s, all);
      CountAtMost(s, all);
    }
  }

  /** `b` is the first of the largest elements. */
  ghost predicate FirstMax(s: seq<real>, b: nat) {
    b < |s| && forall j | 0 <= j < |s| :: s[j] < s[b] || (s[j] == s[b] && b <= j)
  }

  lemma OrderStartsWithFirstMax(s: seq<real>)
    requires s != []
    ensures FirstMax(s, Order(s)[0])
  {
    var order := Order(s);
    var ahead := AheadIn(s);
    forall j | 0 <= j < |s|
      ensures s[j] < s[order[0]] || (s[j] == s[order[0]] && order[0] <= j)
    {
      OrderComplete(s, order, j);
      var a :| 0 <= a < |order| && order[a] == j;
      assert a > 0 ==> ahead(order[0], order[a]);
    }
  }
}
