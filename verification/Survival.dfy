/** Which tokens pass the three filters of the sampler, said of the probabilities alone. */
module Survival {
  import opened Collections
  import opened RealSeq
  import opened Sampler
  import opened SamplerLaws

  /** The mass, among the first `n` tokens, of those that are likelier than token `i`, or equally likely and earlier. */
  function MassAhead(probs: seq<real>, i: nat, n: nat): real
    requires i < |probs| && n <= |probs|
  {
    if n == 0 then 0.0
    else
      var x := probs[n - 1];
      MassAhead(probs, i, n - 1) + if x > probs[i] || (x == probs[i] && n - 1 < i) then x else 0.0
  }

  /** In the descending order, one index is ahead of another exactly if it stands before it. */
  lemma AheadIff(s: seq<real>, a: nat, b: nat)
    requires a < |s| && b < |s|
    ensures Ahead(s, Order(s)[a], Order(s)[b]) <==> a < b
  {
    var order, ahead := Order(s), AheadIn(s);
    assert a < b ==> ahead(order[a], order[b]);
    assert b < a ==> ahead(order[b], order[a]);
  }

  lemma {:induction false} NothingAhead(s: seq<real>, i: nat, n: nat)
    requires i < |s| && n <= |s| && forall j: nat | j < n :: !Ahead(s, j, i)
    ensures MassAhead(s, i, n) == 0.0
  {
    if n > 0 {
      assert !Ahead(s, n - 1, i);
      NothingAhead(s, i, n - 1);
    }
  }

  /** Ahead of `y` are those ahead of `x`, and `x` itself. */
  lemma {:induction false} OneMoreAhead(s: seq<real>, x: nat, y: nat, n: nat)
    requires x < |s| && y < |s| && n <= |s|
    requires forall j: nat | j < n :: Ahead(s, j, y) <==> Ahead(s, j, x) || j == x
    ensures MassAhead(s, y, n) == MassAhead(s, x, n) + if x < n then s[x] else 0.0
  {
    if n > 0 {
      assert Ahead(s, n - 1, y) <==> Ahead(s, n - 1, x) || n - 1 == x;
      OneMoreAhead(s, x, y, n - 1);
    }
  }

  /** The mass of a prefix of the descending order is the mass ahead of the token that follows it. */
  lemma {:induction false} MassOfPrefix(s: seq<real>, a: nat)
    requires a < |s|
    ensures Mass(s, a) == MassAhead(s, Order(s)[a], |s|)
  {
    var order := Order(s);
    forall j: nat | j < |s|
      ensures Ahead(s, j, order[a]) <==> a > 0 && (Ahead(s, j, order[a - 1]) || j == order[a - 1])
    {
      OrderComplete(s, order, j);
      var k :| 0 <= k < |order| && order[k] == j;
      AheadIff(s, k, a);
      if a > 0 {
        AheadIff(s, k, a - 1);
      }
    }
    if a == 0 {
      NothingAhead(s, order[0], |s|);
    } else {
      MassOfPrefix(s, a - 1);
      OneMoreAhead(s, order[a - 1], order[a], |s|);
    }
  }

  lemma {:induction false} MassMonotone(s: seq<real>, m: nat, n: nat)
    requires NonNegative(s) && m <= n <= |s|
    ensures Mass(s, m) <= Mass(s, n)
    decreases n - m
  {
    if m < n {
      MassMonotone(s, m, n - 1);
    }
  }

  /** Little enough mass is ahead of token `i`; the first token always passes. */
  predicate WithinMass(probs: seq<real>, topP: real, i: nat)
    requires i < |probs|
  {
    MassAhead(probs, i, |probs|) <= topP || MassAhead(probs, i, |probs|) == 0.0
  }

  /** The cutoff lies behind the first place and every place with little enough mass before it. */
  lemma CutoffDecides(probs: seq<real>, topP: real, a: nat)
    requires NonNegative(probs) && a < |probs|
    ensures a < Cutoff(probs, topP, 0) <==> a == 0 || Mass(probs, a) <= topP
  {
    hide Mass;
    var m := Cutoff(probs, topP, 0);
    CutoffShortest(probs, topP, 0);
    if m <= a {
      MassMonotone(probs, m, a);
    }
  }

  lemma MassPositive(probs: seq<real>, a: nat)
    requires NonNegative(probs) && 0 < a < |probs| && probs[Order(probs)[a]] > 0.0
    ensures Mass(probs, a) > 0.0
  {
    DescendingDistinct(probs, Order(probs), |probs|);
    assert Mass(probs, 1) == probs[Order(probs)[0]];
    MassMonotone(probs, 1, a);
  }

  /** Top-p keeps a token exactly if the tokens ahead of it do not already exceed the limit. */
  lemma TopPKeepsIff(probs: seq<real>, topP: real, i: nat)
    requires NonNegative(probs) && i < |probs| && probs[i] > 0.0
    ensures |TopP(probs, topP)| == |probs| && (TopP(probs, topP)[i] > 0.0 <==> WithinMass(probs, topP, i))
  {
    OrderComplete(probs, Order(probs), i);
    var a :| 0 <= a < |probs| && Order(probs)[a] == i;
    PlaceDecides(probs, Cutoff(probs, topP, 0), a);
    CutoffDecides(probs, topP, a);
    MassOfPrefix(probs, a);
    hide Cutoff;
    hide MassAhead;
    assert a == 0 ==> Mass(probs, a) == 0.0;
    if a > 0 {
      MassPositive(probs, a);
    }
  }

  lemma PlaceDecides(probs: seq<real>, m: nat, a: nat)
    requires a < |probs| && m <= |probs|
    ensures Order(probs)[a] in Order(probs)[..m] <==> a < m
  {
    var order := Order(probs);
    DescendingDistinct(probs, order, |probs|);
    if a < m {
      assert order[..m][a] == order[a];
    }
  }

  /** Setting small probabilities to zero leaves the mass ahead of a larger one alone. */
  lemma {:induction false} MassAheadKept(probs: seq<real>, threshold: real, i: nat, n: nat)
    requires AllPositive(probs) && i < |probs| && n <= |probs| && probs[i] >= threshold
    ensures MassAhead(AtLeast(probs, threshold), i, n) == MassAhead(probs, i, n)
  {
    if n > 0 {
      MassAheadKept(probs, threshold, i, n - 1);
    }
  }

  /** At most `k` tokens are likelier, where zero stands for no limit. */
  ghost predicate AmongTop(probs: seq<real>, k: nat, i: nat)
    requires i < |probs|
  {
    k == 0 || LargerThan(probs, probs[i]) <= k
  }

  /** What top-k leaves, if the parameters switch it on. */
  function AfterTopK(p: SamplingParams, probs: seq<real>): seq<real> {
    if p.topK > 0 && p.topK < |probs| then TopK(probs, p.topK) else probs
  }

  lemma AfterTopKIff(p: SamplingParams, probs: seq<real>, i: nat)
    requires AllPositive(probs) && i < |probs|
    ensures |AfterTopK(p, probs)| == |probs| && NonNegative(AfterTopK(p, probs))
    ensures AfterTopK(p, probs)[i] == if AmongTop(probs, p.topK, i) then probs[i] else 0.0
    ensures AmongTop(probs, p.topK, i) ==>
      MassAhead(AfterTopK(p, probs), i, |probs|) == MassAhead(probs, i, |probs|)
  {
    if p.topK > 0 && p.topK < |probs| {
      TopKKeepsIff(probs, p.topK, i);
      if AmongTop(probs, p.topK, i) {
        MassAheadKept(probs, TopKThreshold(probs, p.topK), i, |probs|);
      }
    } else {
      CountAtMost(probs, (x: real) => x > probs[i]);
    }
  }

  lemma BeforeMinPIff(p: SamplingParams, probs: seq<real>, i: nat)
    requires AllPositive(probs) && i < |probs|
    ensures |BeforeMinP(p, probs)| == |probs|
    ensures BeforeMinP(p, probs)[i] > 0.0
       <==> AmongTop(probs, p.topK, i) && (p.topP < 1.0 ==> WithinMass(probs, p.topP, i))
  {
    var a := AfterTopK(p, probs);
    AfterTopKIff(p, probs, i);
    assert BeforeMinP(p, probs) == if p.topP < 1.0 then TopP(a, p.topP) else a;
    if AmongTop(probs, p.topK, i) {
      TopPKeepsIff(a, p.topP, i);
    }
  }

  lemma MinPKeeps(probs: seq<real>, minP: real, first: nat, i: nat, threshold: real)
    requires FirstMax(probs, first) && probs[first] > 0.0 && NonNegative(probs) && i < |probs|
    requires threshold == minP * probs[first]
    ensures |MinP(probs, minP)| == |probs|
    ensures MinP(probs, minP)[i] == if probs[i] < threshold then 0.0 else probs[i]
  {
    LargestIsFirstMax(probs, first);
  }

  lemma FirstOfLargest(probs: seq<real>, best: nat) returns (first: nat)
    requires best < |probs| && forall j | 0 <= j < |probs| :: probs[j] <= probs[best]
    ensures FirstMax(probs, first) && probs[first] == probs[best]
  {
    first := Order(probs)[0];
    OrderStartsWithFirstMax(probs);
  }

  /**
   A token passes all three filters exactly if at most `top_k` tokens are likelier, the tokens ahead of it have not
   more than `top_p` of the mass, and it is at least `min_p` times as likely as the likeliest token. The filters
   apply one after the other, but each condition is about the original probabilities.
   */
  lemma SurvivesIff(p: SamplingParams, probs: seq<real>, i: nat, best: nat)
    requires AllPositive(probs) && i < |probs| && best < |probs|
    requires forall j | 0 <= j < |probs| :: probs[j] <= probs[best]
    ensures |Filtered(p, probs)| == |probs|
    ensures Filtered(p, probs)[i] > 0.0
       <==> AmongTop(probs, p.topK, i) && (p.topP < 1.0 ==> WithinMass(probs, p.topP, i))
            && (p.minP > 0.0 ==> probs[i] >= p.minP * probs[best])
    ensures Filtered(p, probs)[i] == probs[i] || Filtered(p, probs)[i] == 0.0
  {
    hide WithinMass;
    hide AmongTop;
    hide Filtered;
    hide BeforeMinP;
    hide MinP;
    var f, threshold := BeforeMinP(p, probs), p.minP * probs[best];
    var first := FirstOfLargest(probs, best);
    BeforeMinPThins(p, probs, first);
    BeforeMinPIff(p, probs, i);
    BeforeMinPKeeps(p, probs, i);
    FilteredLast(p, probs);
    MinPKeeps(f, p.minP, first, i, threshold);
  }

  lemma BeforeMinPKeeps(p: SamplingParams, probs: seq<real>, i: nat)
    requires i < |probs|
    ensures |BeforeMinP(p, probs)| == |probs| && (BeforeMinP(p, probs)[i] == probs[i] || BeforeMinP(p, probs)[i] == 0.0)
  {
  }

  lemma FilteredLast(p: SamplingParams, probs: seq<real>)
    ensures Filtered(p, probs) == if p.minP > 0.0 then MinP(BeforeMinP(p, probs), p.minP) else BeforeMinP(p, probs)
  {
  }
}
