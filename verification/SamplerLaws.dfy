/** What the sampler's filters, renormalisation and walk guarantee. */
module SamplerLaws {
  import opened Collections
  import opened RealSeq
  import opened Sampler

  // ----- Softmax -----

  /** Positive probabilities that sum to one. */
  lemma SoftmaxDistribution(logits: seq<real>, exp: real -> real)
    requires logits != [] && (forall x :: exp(x) > 0.0)
    ensures |Softmax(logits, exp)| == |logits|
    ensures AllPositive(Softmax(logits, exp)) && Total(Softmax(logits, exp)) == 1.0
  {
    var exps := Exps(logits, exp);
    ExpsPositive(logits, exp);
    assert NonNegative(exps);
    DividedSums(exps, Total(exps));
    assert forall i | 0 <= i < |exps| :: exps[i] > 0.0;
  }

  /** The probabilities are in the order of the logits. */
  lemma SoftmaxMonotone(logits: seq<real>, exp: real -> real, i: nat, j: nat)
    requires logits != [] && (forall x :: exp(x) > 0.0) && (forall x, y :: x <= y ==> exp(x) <= exp(y))
    requires i < |logits| && j < |logits| && logits[i] <= logits[j]
    ensures Softmax(logits, exp)[i] <= Softmax(logits, exp)[j]
  {
    ExpsPositive(logits, exp);
    QuotientMonotone(Exps(logits, exp)[i], Exps(logits, exp)[j], Total(Exps(logits, exp)));
  }

  lemma QuotientMonotone(x: real, y: real, d: real)
    requires x <= y && d > 0.0
    ensures x / d <= y / d
  {
  }

  // ----- Penalties -----

  function Pow(x: real, n: nat): real { if n == 0 then 1.0 else x * Pow(x, n - 1) }

  lemma {:induction false} PowPositive(x: real, n: nat)
    requires x > 0.0
    ensures Pow(x, n) > 0.0
  {
    if n > 0 {
      PowPositive(x, n - 1);
    }
  }

  /** A positive logit divided by the factor, any other logit multiplied by it. */
  function Damped(x: real, factor: real): real
    requires factor > 0.0
  {
    if x > 0.0 then x / factor else x * factor
  }

  /**
   What the repeated updates make of a token that occurred `n` times: for a positive penalty it is damped by the
   n-th power of the penalty; under a negative one each update undoes the one before.
   */
  lemma RepetitionCompounds(logits: seq<real>, tokens: seq<nat>, penalty: real, i: nat)
    requires penalty != 0.0 && i < |logits|
    ensures |Repeated(logits, tokens, penalty)| == |logits|
    ensures penalty > 0.0 ==>
      && Pow(penalty, Occurrences(tokens, i)) > 0.0
      && Repeated(logits, tokens, penalty)[i] == Damped(logits[i], Pow(penalty, Occurrences(tokens, i)))
    ensures penalty < 0.0 ==>
      Repeated(logits, tokens, penalty)[i]
      == if Occurrences(tokens, i) % 2 == 0 then logits[i] else Penalised(logits[i], penalty)
  {
    RepeatedLength(logits, tokens, penalty);
    if penalty > 0.0 {
      PositiveCompounds(logits, tokens, penalty, i);
    } else {
      NegativeAlternates(logits, tokens, penalty, i);
    }
  }

  lemma {:induction false} NegativeAlternates(logits: seq<real>, tokens: seq<nat>, penalty: real, i: nat)
    requires penalty < 0.0 && i < |logits|
    ensures |Repeated(logits, tokens, penalty)| == |logits|
    ensures Repeated(logits, tokens, penalty)[i]
         == if Occurrences(tokens, i) % 2 == 0 then logits[i] else Penalised(logits[i], penalty)
    decreases |tokens|
  {
    hide Penalised;
    if tokens != [] {
      var front, t := tokens[..|tokens| - 1], tokens[|tokens| - 1];
      NegativeAlternates(logits, front, penalty, i);
      assert Occurrences(tokens, i) == Occurrences(front, i) + (if t == i then 1 else 0) by {
        OccurrencesPush(front, t);
        assert tokens == front + [t];
      }
      PenalisedTwice(logits[i], penalty);
      var before := Repeated(logits, front, penalty);
      assert Repeated(logits, tokens, penalty)[i] == if t == i then Penalised(before[i], penalty) else before[i];
    }
  }

  lemma PenalisedTwice(x: real, penalty: real)
    requires penalty < 0.0
    ensures Penalised(Penalised(x, penalty), penalty) == x
  {
    if x > 0.0 {
      var y := x / penalty;
      assert y * penalty == x;
      assert y <= 0.0;
    } else if x < 0.0 {
      var y := x * penalty;
      assert y > 0.0 && y / penalty == x;
    }
  }

  lemma {:induction false} PositiveCompounds(logits: seq<real>, tokens: seq<nat>, penalty: real, i: nat)
    requires penalty > 0.0 && i < |logits|
    ensures |Repeated(logits, tokens, penalty)| == |logits|
    ensures Pow(penalty, Occurrences(tokens, i)) > 0.0
    ensures Repeated(logits, tokens, penalty)[i] == Damped(logits[i], Pow(penalty, Occurrences(tokens, i)))
    decreases |tokens|
  {
    hide Damped;
    PowPositive(penalty, Occurrences(tokens, i));
    if tokens == [] {
      DampedByOne(logits[i]);
    } else {
      var front, t := tokens[..|tokens| - 1], tokens[|tokens| - 1];
      var n := Occurrences(front, i);
      PositiveCompounds(logits, front, penalty, i);
      assert Occurrences(tokens, i) == n + (if t == i then 1 else 0) by {
        OccurrencesPush(front, t);
        assert tokens == front + [t];
      }
      var before := Repeated(logits, front, penalty);
      if t == i {
        assert Repeated(logits, tokens, penalty)[i] == Penalised(before[i], penalty);
        OneMore(logits[i], Pow(penalty, n), penalty, Pow(penalty, n + 1));
      } else {
        assert Repeated(logits, tokens, penalty)[i] == before[i];
      }
    }
  }

  lemma DampedByOne(x: real)
    ensures Damped(x, 1.0) == x
  {
  }

  lemma OneMore(x: real, factor: real, penalty: real, product: real)
    requires factor > 0.0 && penalty > 0.0 && product == penalty * factor
    ensures product > 0.0 && Penalised(Damped(x, factor), penalty) == Damped(x, product)
  {
    if x > 0.0 {
      var y := x / factor;
      assert y > 0.0 && y * factor == x;
      var z := y / penalty;
      assert z * product == (z * penalty) * factor;
    } else {
      assert x * factor <= 0.0;
    }
  }

  // ----- Top-k -----

  /** How many entries are strictly larger than `v`. */
  ghost function LargerThan(probs: seq<real>, v: real): nat { Count(probs, (x: real) => x > v) }

  /** An entry survives top-k exactly when at most `k` entries are strictly larger: none of the k largest is dropped. */
  lemma TopKKeepsIff(probs: seq<real>, k: nat, i: nat)
    requires k < |probs| && i < |probs|
    ensures probs[i] >= TopKThreshold(probs, k) <==> LargerThan(probs, probs[i]) <= k
  {
    var order, larger := Order(probs), (x: real) => x > probs[i];
    DescendingDistinct(probs, order, |probs|);
    if probs[i] < probs[order[k]] {
      var first := order[..k + 1];
      assert forall j | j in first :: j < |probs| && larger(probs[j]) by {
        forall j | j in first
          ensures j < |probs| && larger(probs[j])
        {
          var a :| 0 <= a < |first| && first[a] == j;
          assert order[a] == j;
        }
      }
      DistinctPositions(first, probs, larger);
    } else {
      var first := order[..k];
      forall j | j in Positions(probs, larger)
        ensures j in Elements(first)
      {
        OrderComplete(probs, order, j);
        var a :| 0 <= a < |order| && order[a] == j;
        assert a < k && first[a] == j;
      }
      SubsetSize(Positions(probs, larger), Elements(first));
      NoDupSize(first);
    }
  }

  /**
   The threshold is the (k+1)-th largest value, so top-k keeps more than `k` tokens: with positive
   probabilities at least `k + 1` entries stay non-zero.
   */
  lemma TopKKeepsMoreThanK(probs: seq<real>, k: nat)
    requires k < |probs| && AllPositive(probs)
    ensures Count(TopK(probs, k), (x: real) => x > 0.0) >= k + 1
  {
    var order, positive := Order(probs), (x: real) => x > 0.0;
    var first := order[..k + 1];
    DescendingDistinct(probs, order, |probs|);
    forall j | j in first
      ensures j < |TopK(probs, k)| && positive(TopK(probs, k)[j])
    {
      var a :| 0 <= a < |first| && first[a] == j;
      assert order[a] == j;
    }
    DistinctPositions(first, TopK(probs, k), positive);
  }

  // ----- Top-p -----

  /** The kept tokens are a shortest sorted prefix whose mass exceeds `topP`; if there is none, everything is kept. */
  lemma {:induction false} CutoffShortest(probs: seq<real>, topP: real, n: nat)
    requires n <= |probs|
    ensures var m := Cutoff(probs, topP, n);
      && (forall k | n < k < m :: Mass(probs, k) <= topP)
      && (n < m ==> Mass(probs, m) > topP || m == |probs|)
      && ((exists k :: n < k <= |probs| && Mass(probs, k) > topP) ==> Mass(probs, m) > topP)
    decreases |probs| - n
  {
    hide Mass;
    if n < |probs| && Mass(probs, n + 1) <= topP {
      CutoffShortest(probs, topP, n + 1);
      if exists k :: n < k <= |probs| && Mass(probs, k) > topP {
        var k :| n < k <= |probs| && Mass(probs, k) > topP;
        assert n + 1 < k;
      }
    }
  }

  /** Top-p keeps exactly the entries of that prefix, and no dropped entry is larger than a kept one. */
  lemma TopPKeepsPrefix(probs: seq<real>, topP: real, i: nat, j: nat)
    requires i < |probs| && j < |probs|
    requires i in Order(probs)[..Cutoff(probs, topP, 0)] && j !in Order(probs)[..Cutoff(probs, topP, 0)]
    ensures TopP(probs, topP)[i] == probs[i] && TopP(probs, topP)[j] == 0.0
    ensures probs[j] <= probs[i]
  {
    var order, m := Order(probs), Cutoff(probs, topP, 0);
    DescendingDistinct(probs, order, |probs|);
    OrderComplete(probs, order, j);
    var a :| 0 <= a < m && order[..m][a] == i;
    assert forall b | 0 <= b < m :: order[b] == order[..m][b];
    var b :| 0 <= b < |order| && order[b] == j;
    assert m <= b;
  }

  // ----- Some maximal token survives all three filters -----

  /** A filter that leaves entry `b` alone and every other entry as it was or zero. */
  ghost predicate Thins(before: seq<real>, after: seq<real>, b: nat) {
    && |after| == |before| && b < |before| && after[b] == before[b]
    && forall j | 0 <= j < |before| :: after[j] == before[j] || after[j] == 0.0
  }

  lemma ThinsKeepsFirstMax(before: seq<real>, after: seq<real>, b: nat)
    requires Thins(before, after, b) && FirstMax(before, b) && before[b] > 0.0 && NonNegative(before)
    ensures FirstMax(after, b) && after[b] > 0.0 && NonNegative(after)
  {
  }

  lemma TopKThins(probs: seq<real>, k: nat, b: nat)
    requires FirstMax(probs, b)
    ensures k < |probs| ==> Thins(probs, TopK(probs, k), b)
  {
    if k < |probs| {
      assert probs[Order(probs)[k]] <= probs[b];
    }
  }

  lemma FirstMaxUnique(probs: seq<real>, a: nat, b: nat)
    requires FirstMax(probs, a) && FirstMax(probs, b)
    ensures a == b
  {
    assert probs[a] == probs[b];
  }

  lemma TopPThins(probs: seq<real>, topP: real, b: nat)
    requires FirstMax(probs, b)
    ensures Thins(probs, TopP(probs, topP), b)
  {
    OrderStartsWithFirstMax(probs);
    FirstMaxUnique(probs, b, Order(probs)[0]);
    var m := Cutoff(probs, topP, 0);
    assert m >= 1;
    assert Order(probs)[..m][0] == b;
  }

  lemma {:induction false} LargestFromZeroIsMax(s: seq<real>)
    requires NonNegative(s)
    ensures forall i | 0 <= i < |s| :: s[i] <= LargestFromZero(s)
    ensures s == [] || LargestFromZero(s) in s || LargestFromZero(s) == 0.0
    ensures LargestFromZero(s) >= 0.0
    decreases |s|
  {
    if s != [] {
      LargestFromZeroIsMax(s[..|s| - 1]);
      assert s[|s| - 1] in s;
      assert forall x | x in s[..|s| - 1] :: x in s;
    }
  }

  lemma LargestIsFirstMax(s: seq<real>, b: nat)
    requires FirstMax(s, b) && s[b] > 0.0 && NonNegative(s)
    ensures LargestFromZero(s) == s[b]
  {
    LargestFromZeroIsMax(s);
  }

  /** Min-p leaves a maximal token alone for `minP <= 1`, and zeroes everything for a larger one. */
  lemma MinPThinsIff(probs: seq<real>, minP: real, b: nat)
    requires FirstMax(probs, b) && probs[b] > 0.0 && NonNegative(probs)
    ensures minP <= 1.0 ==> Thins(probs, MinP(probs, minP), b)
    ensures minP > 1.0 ==> forall i | 0 <= i < |probs| :: MinP(probs, minP)[i] == 0.0
  {
    LargestIsFirstMax(probs, b);
    var threshold := minP * LargestFromZero(probs);
    ThresholdAgainst(minP, probs[b], threshold);
    assert MinP(probs, minP) == AtLeast(probs, threshold);
    AtLeastThins(probs, threshold, b);
  }

  lemma AtLeastThins(probs: seq<real>, threshold: real, b: nat)
    requires FirstMax(probs, b)
    ensures threshold <= probs[b] ==> Thins(probs, AtLeast(probs, threshold), b)
    ensures threshold > probs[b] ==> forall i | 0 <= i < |probs| :: AtLeast(probs, threshold)[i] == 0.0
  {
  }

  lemma ThresholdAgainst(factor: real, x: real, threshold: real)
    requires x > 0.0 && threshold == factor * x
    ensures threshold <= x <==> factor <= 1.0
  {
  }

  /** What the filters before min-p leave. */
  function BeforeMinP(p: SamplingParams, probs: seq<real>): seq<real> {
    Filtered(p.(minP := 0.0), probs)
  }

  lemma BeforeMinPThins(p: SamplingParams, probs: seq<real>, b: nat)
    requires FirstMax(probs, b) && probs[b] > 0.0 && NonNegative(probs)
    ensures var f := BeforeMinP(p, probs);
      |f| == |probs| && FirstMax(f, b) && f[b] == probs[b] && NonNegative(f)
  {
    var a := if p.topK > 0 && p.topK < |probs| then TopK(probs, p.topK) else probs;
    TopKThins(probs, p.topK, b);
    ThinsKeepsFirstMax(probs, a, b);
    TopPThins(a, p.topP, b);
    ThinsKeepsFirstMax(a, BeforeMinP(p, probs), b);
  }

  /**
   The first maximal token keeps its probability through all three filters exactly when `min_p` is at most
   one; otherwise nothing is left, and renormalisation falls back to the uniform distribution.
   */
  lemma MaximalTokenSurvivesIff(p: SamplingParams, probs: seq<real>, b: nat)
    requires FirstMax(probs, b) && AllPositive(probs)
    ensures |Filtered(p, probs)| == |probs| && NonNegative(Filtered(p, probs))
    ensures p.minP <= 1.0 <==> Filtered(p, probs)[b] == probs[b]
    ensures p.minP <= 1.0 <==> Total(Filtered(p, probs)) > 0.0
  {
    var f, g := BeforeMinP(p, probs), Filtered(p, probs);
    BeforeMinPThins(p, probs, b);
    assert g == if p.minP > 0.0 then MinP(f, p.minP) else f;
    MinPThinsIff(f, p.minP, b);
    if p.minP <= 1.0 {
      assert NonNegative(g) && g[b] > 0.0;
      TotalAtLeast(g, b);
    } else {
      PrefixSumZero(g, |g|);
    }
  }

  // ----- Renormalisation -----

  /** The renormalised survivors sum to one; without survivors every token gets the same share. */
  lemma RenormalisedSums(probs: seq<real>)
    requires probs != [] && NonNegative(probs)
    ensures |Renormalised(probs)| == |probs| && NonNegative(Renormalised(probs)) && Total(Renormalised(probs)) == 1.0
    ensures Total(probs) > 0.0 ==> forall i | 0 <= i < |probs| :: Renormalised(probs)[i] > 0.0 <==> probs[i] > 0.0
    ensures Total(probs) <= 0.0 ==> forall i | 0 <= i < |probs| :: Renormalised(probs)[i] == 1.0 / |probs| as real
  {
    if Total(probs) > 0.0 {
      DividedSums(probs, Total(probs));
    } else {
      UniformSums(Renormalised(probs));
    }
  }

  lemma DividedSums(probs: seq<real>, total: real)
    requires NonNegative(probs) && Total(probs) == total > 0.0
    ensures NonNegative(Divided(probs, total)) && Total(Divided(probs, total)) == 1.0
    ensures forall i | 0 <= i < |probs| :: Divided(probs, total)[i] > 0.0 <==> probs[i] > 0.0
  {
    PrefixSumScaled(probs, Divided(probs, total), total, |probs|);
    forall i | 0 <= i < |probs|
      ensures Divided(probs, total)[i] >= 0.0
      ensures Divided(probs, total)[i] > 0.0 <==> probs[i] > 0.0
    {
      QuotientSign(probs[i], total);
    }
  }

  lemma QuotientSign(x: real, d: real)
    requires d > 0.0
    ensures (x / d > 0.0 <==> x > 0.0) && (x / d >= 0.0 <==> x >= 0.0)
  {
  }

  lemma UniformSums(q: seq<real>)
    requires q != [] && forall i | 0 <= i < |q| :: q[i] == 1.0 / |q| as real
    ensures NonNegative(q) && Total(q) == 1.0
  {
    var share := 1.0 / |q| as real;
    assert share * |q| as real == 1.0 && share > 0.0;
    PrefixSumConstant(q, share, |q|);
  }

  /** Renormalisation keeps the ratio of any two tokens. */
  lemma RatiosKept(probs: seq<real>, i: nat, j: nat)
    requires i < |probs| && j < |probs| && Total(probs) > 0.0
    ensures Renormalised(probs)[i] * probs[j] == Renormalised(probs)[j] * probs[i]
  {
    SameRatio(probs[i], probs[j], Total(probs));
  }

  lemma SameRatio(x: real, y: real, d: real)
    requires d != 0.0
    ensures x / d * y == y / d * x
  {
  }

  // ----- The walk inverts the cumulative distribution -----

  /** For a draw in (0, 1] the walk stops at `i` exactly when the draw lies in the i-th slice of the total. */
  lemma WalkInvertsSum(probs: seq<real>, r: real, i: nat)
    requires probs != [] && NonNegative(probs) && Total(probs) == 1.0 && 0.0 < r <= 1.0 && i < |probs|
    ensures Walk(probs, r, 0, 0.0) == i <==> PrefixSum(probs, i) < r <= PrefixSum(probs, i + 1)
  {
    var w := WalkFrom(probs, r, 0);
    if w < i {
      PrefixSumMonotone(probs, w + 1, i);
    } else if i < w {
      PrefixSumMonotone(probs, i + 1, w);
    }
  }

  lemma {:induction false} WalkFrom(probs: seq<real>, r: real, i: nat) returns (w: nat)
    requires probs != [] && NonNegative(probs) && i <= |probs| && PrefixSum(probs, i) < r <= Total(probs)
    ensures w == Walk(probs, r, i, PrefixSum(probs, i)) && i <= w < |probs|
    ensures PrefixSum(probs, w) < r <= PrefixSum(probs, w + 1)
    decreases |probs| - i
  {
    if PrefixSum(probs, i + 1) >= r {
      w := i;
    } else {
      w := WalkFrom(probs, r, i + 1);
    }
  }

  /**
   A draw in [0, 1) returns a token of positive probability exactly when it is not zero or the first token
   has positive probability: at zero the walk stops at index 0 even if that token was filtered out.
   */
  lemma WalkReturnsSurvivorIff(probs: seq<real>, r: real)
    requires probs != [] && NonNegative(probs) && Total(probs) == 1.0 && 0.0 <= r < 1.0
    ensures Walk(probs, r, 0, 0.0) < |probs|
    ensures probs[Walk(probs, r, 0, 0.0)] > 0.0 <==> r > 0.0 || probs[0] > 0.0
  {
    if r > 0.0 {
      var w := WalkFrom(probs, r, 0);
    }
  }

  /** Filters, renormalisation and walk, on any positive probabilities. */
  lemma DrawnSurvives(p: SamplingParams, probs: seq<real>, r: real)
    requires probs != [] && AllPositive(probs) && p.minP <= 1.0 && 0.0 < r < 1.0
    ensures var f := Filtered(p, probs);
      var d := Renormalised(f);
      var w := Walk(d, r, 0, 0.0);
      && |f| == |d| == |probs| && w < |f| && f[w] > 0.0 && PrefixSum(d, w) < r <= PrefixSum(d, w + 1)
  {
    hide Filtered;
    hide Renormalised;
    hide PrefixSum;
    OrderStartsWithFirstMax(probs);
    MaximalTokenSurvivesIff(p, probs, Order(probs)[0]);
    RenormalisedSums(Filtered(p, probs));
    var d := Renormalised(Filtered(p, probs));
    WalkReturnsSurvivorIff(d, r);
    WalkInvertsSum(d, r, Walk(d, r, 0, 0.0));
  }

  /**
   The sampler as a whole, for a temperature other than zero: the token drawn has the i-th slice of the
   unit interval, and for `min_p <= 1` and a positive draw it passed all three filters.
   */
  lemma SampledTokenSurvives(p: SamplingParams, logits: seq<real>, previous: seq<nat>, exp: real -> real, r: real)
    requires logits != [] && p.repetitionPenalty != 0.0 && p.temperature != 0.0 && forall x :: exp(x) > 0.0
    requires p.minP <= 1.0 && 0.0 < r < 1.0
    ensures var d := Distribution(p, logits, previous, exp);
      var w := Walk(d, r, 0, 0.0);
      && w < |logits| && PrefixSum(d, w) < r <= PrefixSum(d, w + 1)
      && |Filtered(p, Softmax(Scaled(p, Adjusted(p, logits, previous)), exp))| == |logits|
      && Filtered(p, Softmax(Scaled(p, Adjusted(p, logits, previous)), exp))[w] > 0.0
  {
    hide Filtered;
    hide Walk;
    RepeatedLength(logits, previous, p.repetitionPenalty);
    SoftmaxDistribution(Scaled(p, Adjusted(p, logits, previous)), exp);
    DrawnSurvives(p, Softmax(Scaled(p, Adjusted(p, logits, previous)), exp), r);
  }

  /** Nothing but temperature one and a minimum probability of one: only maximal tokens survive. */
  predicate OnlyMaximal(p: SamplingParams) {
    && p.temperature == 1.0 && p.topK == 0 && p.topP == 1.0 && p.minP == 1.0
    && p.repetitionPenalty == 1.0 && p.frequencyPenalty == 0.0 && p.presencePenalty == 0.0
  }

  /** Such a call filters the first token out, and a draw of zero returns it all the same. */
  lemma ZeroDrawReturnsFiltered(p: SamplingParams, logits: seq<real>, previous: seq<nat>, exp: real -> real, i: nat)
    requires OnlyMaximal(p) && (forall x :: exp(x) > 0.0) && (forall x, y :: x < y ==> exp(x) < exp(y))
    requires i < |logits| && logits[0] < logits[i]
    ensures |Filtered(p, Softmax(logits, exp))| == |logits| && Filtered(p, Softmax(logits, exp))[0] == 0.0
    ensures Distribution(p, logits, previous, exp)[0] == 0.0
    ensures Walk(Distribution(p, logits, previous, exp), 0.0, 0, 0.0) == 0
  {
    var probs := Softmax(logits, exp);
    SoftmaxDistribution(logits, exp);
    SoftmaxStrict(logits, exp, 0, i);
    LargestFromZeroIsMax(probs);
    assert probs[0] < LargestFromZero(probs);
    OrderStartsWithFirstMax(probs);
    MaximalTokenSurvivesIff(p, probs, Order(probs)[0]);
    RenormalisedSums(Filtered(p, probs));
    assert Distribution(p, logits, previous, exp) == Renormalised(Filtered(p, probs));
  }

  lemma SoftmaxStrict(logits: seq<real>, exp: real -> real, i: nat, j: nat)
    requires logits != [] && (forall x :: exp(x) > 0.0) && (forall x, y :: x < y ==> exp(x) < exp(y))
    requires i < |logits| && j < |logits| && logits[i] < logits[j]
    ensures Softmax(logits, exp)[i] < Softmax(logits, exp)[j]
  {
    ExpsPositive(logits, exp);
    QuotientStrict(Exps(logits, exp)[i], Exps(logits, exp)[j], Total(Exps(logits, exp)));
  }

  lemma QuotientStrict(x: real, y: real, d: real)
    requires x < y && d > 0.0
    ensures x / d < y / d
  {
  }
}
