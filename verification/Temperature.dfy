/** What penalties and temperature do to the probabilities of the sampler. */
module Temperature {
  import opened RealFacts
  import opened RealSeq
  import opened Sampler
  import opened SamplerLaws

  // ----- Penalties and temperature, on the probabilities themselves -----

  /**
   The logit of token `i` before temperature: damped by the repetition penalty to the power of its occurrences, less
   the frequency penalty for each occurrence, less the presence penalty if it occurred at all.
   */
  lemma AdjustedLogit(p: SamplingParams, logits: seq<real>, previous: seq<nat>, i: nat)
    requires p.repetitionPenalty > 0.0 && i < |logits|
    ensures |Adjusted(p, logits, previous)| == |logits|
    ensures var n := Occurrences(previous, i);
      var damping := Pow(p.repetitionPenalty, n);
      && damping > 0.0
      && Adjusted(p, logits, previous)[i]
         == (if logits[i] > 0.0 then logits[i] / damping else logits[i] * damping)
            - n as real * p.frequencyPenalty - (if n > 0 then p.presencePenalty else 0.0)
  {
    hide Repeated;
    hide Pow;
    hide Occurrences;
    hide FrequencyPenalised;
    RepeatedDamps(logits, previous, p.repetitionPenalty, i);
    var x, n := Repeated(logits, previous, p.repetitionPenalty)[i], Occurrences(previous, i);
    WithFrequency(x, n, p.frequencyPenalty, p.presencePenalty);
  }

  lemma RepeatedDamps(logits: seq<real>, previous: seq<nat>, penalty: real, i: nat)
    requires penalty > 0.0 && i < |logits|
    ensures |Repeated(logits, previous, penalty)| == |logits| && Pow(penalty, Occurrences(previous, i)) > 0.0
    ensures Repeated(logits, previous, penalty)[i] == Damped(logits[i], Pow(penalty, Occurrences(previous, i)))
    ensures penalty == 1.0 ==> Repeated(logits, previous, penalty)[i] == logits[i]
  {
    hide Occurrences;
    hide Repeated;
    RepeatedLength(logits, previous, penalty);
    RepetitionCompounds(logits, previous, penalty, i);
    PowOfOne(Occurrences(previous, i));
    hide Pow;
    DampedByOne(logits[i]);
    hide Damped;
  }

  lemma WithFrequency(x: real, n: nat, frequency: real, presence: real)
    ensures FrequencyPenalised(x, n, frequency, presence)
         == x - n as real * frequency - (if n > 0 then presence else 0.0)
    ensures frequency == 0.0 && presence == 0.0 ==> FrequencyPenalised(x, n, frequency, presence) == x
  {
  }

  lemma {:induction false} PowOfOne(n: nat)
    ensures Pow(1.0, n) == 1.0
  {
    if n > 0 {
      PowOfOne(n - 1);
    }
  }

  /** The exponential turns sums into products. */
  ghost predicate Multiplicative(exp: real -> real) { forall x, y :: exp(x + y) == Times(exp(x), exp(y)) }

  lemma ExpOfSum(exp: real -> real, x: real, y: real, sum: real)
    requires Multiplicative(exp) && sum == x + y
    ensures exp(sum) == Times(exp(x), exp(y))
  {
  }

  /** The quotient of two softmax probabilities is the exponential of the difference of their logits. */
  lemma SoftmaxRatio(logits: seq<real>, exp: real -> real, i: nat, j: nat)
    requires (forall x :: exp(x) > 0.0) && Multiplicative(exp) && i < |logits| && j < |logits|
    ensures |Softmax(logits, exp)| == |logits|
    ensures Softmax(logits, exp)[i] == Times(Softmax(logits, exp)[j], exp(logits[i] - logits[j]))
  {
    hide Multiplicative;
    hide Total;
    ExpsPositive(logits, exp);
    var m, total := Largest(logits), Total(Exps(logits, exp));
    var x, y := logits[i] - m, logits[j] - m;
    ExpOfSum(exp, logits[i] - logits[j], y, x);
    QuotientProduct(exp(x), exp(y), exp(logits[i] - logits[j]), total);
  }

  lemma QuotientProduct(x: real, y: real, e: real, d: real)
    requires d != 0.0 && x == Times(e, y)
    ensures x / d == Times(y / d, e)
  {
    var q := y / d;
    assert q * d == y;
    assert q * e * d == x;
  }

  /** A token that passes the filters keeps its probability. */
  lemma FilteredKeeps(p: SamplingParams, probs: seq<real>, i: nat)
    requires i < |probs|
    ensures |Filtered(p, probs)| == |probs|
    ensures Filtered(p, probs)[i] == probs[i] || Filtered(p, probs)[i] == 0.0
  {
  }

  /**
   Of two tokens that pass the filters, the quotient of their probabilities is the exponential of the difference of
   their penalised logits divided by the temperature.
   */
  lemma TemperatureRatio(p: SamplingParams, logits: seq<real>, previous: seq<nat>, exp: real -> real, i: nat, j: nat)
    requires (forall x :: exp(x) > 0.0) && Multiplicative(exp)
    requires p.repetitionPenalty != 0.0 && p.temperature != 0.0 && p.minP <= 1.0
    requires i < |logits| && j < |logits|
    requires Distribution(p, logits, previous, exp)[i] > 0.0 && Distribution(p, logits, previous, exp)[j] > 0.0
    ensures |Adjusted(p, logits, previous)| == |logits|
    ensures var d, a := Distribution(p, logits, previous, exp), Adjusted(p, logits, previous);
      d[i] == Times(d[j], exp((a[i] - a[j]) / p.temperature))
  {
    hide Multiplicative;
    RepeatedLength(logits, previous, p.repetitionPenalty);
    var a := Adjusted(p, logits, previous);
    ScaledRatio(p, a, exp, i, j);
    var probs := Softmax(Scaled(p, a), exp);
    SoftmaxDistribution(Scaled(p, a), exp);
    SurvivorRatio(p, probs, i, j, exp((a[i] - a[j]) / p.temperature));
  }

  lemma SurvivorRatio(p: SamplingParams, probs: seq<real>, i: nat, j: nat, e: real)
    requires AllPositive(probs) && p.minP <= 1.0 && i < |probs| && j < |probs| && probs[i] == Times(probs[j], e)
    requires var d := Renormalised(Filtered(p, probs)); i < |d| && j < |d| && d[i] > 0.0 && d[j] > 0.0
    ensures var d := Renormalised(Filtered(p, probs)); d[i] == Times(d[j], e)
  {
    hide Times;
    OrderStartsWithFirstMax(probs);
    MaximalTokenSurvivesIff(p, probs, Order(probs)[0]);
    FilteredKeeps(p, probs, i);
    FilteredKeeps(p, probs, j);
    hide Filtered;
    var f := Filtered(p, probs);
    RenormalisedSums(f);
    RenormalisedRatio(f, i, j, e);
  }

  lemma ScaledRatio(p: SamplingParams, a: seq<real>, exp: real -> real, i: nat, j: nat)
    requires (forall x :: exp(x) > 0.0) && Multiplicative(exp) && p.temperature != 0.0 && i < |a| && j < |a|
    ensures |Softmax(Scaled(p, a), exp)| == |a|
    ensures Softmax(Scaled(p, a), exp)[i]
         == Times(Softmax(Scaled(p, a), exp)[j], exp((a[i] - a[j]) / p.temperature))
  {
    hide Multiplicative;
    hide Softmax;
    hide Scaled;
    ScaledDifference(p, a, i, j);
    SoftmaxRatio(Scaled(p, a), exp, i, j);
  }

  lemma ScaledDifference(p: SamplingParams, a: seq<real>, i: nat, j: nat)
    requires p.temperature != 0.0 && i < |a| && j < |a|
    ensures |Scaled(p, a)| == |a| && Scaled(p, a)[i] - Scaled(p, a)[j] == (a[i] - a[j]) / p.temperature
  {
    DividedDifference(a[i], a[j], p.temperature);
  }

  lemma DividedDifference(x: real, y: real, t: real)
    requires t != 0.0
    ensures x / t - y / t == (x - y) / t
  {
  }

  lemma RenormalisedRatio(f: seq<real>, i: nat, j: nat, e: real)
    requires i < |f| && j < |f| && f[i] == Times(f[j], e) && Total(f) > 0.0
    ensures Renormalised(f)[i] == Times(Renormalised(f)[j], e)
  {
    TimesCommutes(f[j], e);
    QuotientProduct(f[i], f[j], e, Total(f));
  }

  // ----- A lower temperature favours the maximum -----

  /** No filter is switched on. */
  predicate Unfiltered(p: SamplingParams) { p.topK == 0 && p.topP >= 1.0 && p.minP <= 0.0 }

  /** The terms that the share of token `i` divides one by. */
  function Terms(a: seq<real>, exp: real -> real, i: nat, t: real): seq<real>
    requires i < |a| && t != 0.0
  {
    seq(|a|, j requires 0 <= j < |a| => exp((a[j] - a[i]) / t))
  }

  /** Unfiltered, the share of a token is one divided by the sum of these terms. */
  lemma ShareOfTerms(p: SamplingParams, logits: seq<real>, previous: seq<nat>, exp: real -> real, i: nat)
    requires (forall x :: exp(x) > 0.0) && Multiplicative(exp)
    requires p.repetitionPenalty != 0.0 && p.temperature != 0.0 && Unfiltered(p) && i < |logits|
    ensures |Adjusted(p, logits, previous)| == |logits|
    ensures Distribution(p, logits, previous, exp)[i] > 0.0
    ensures Times(Distribution(p, logits, previous, exp)[i],
                  Total(Terms(Adjusted(p, logits, previous), exp, i, p.temperature))) == 1.0
  {
    hide Multiplicative;
    hide Times;
    hide Distribution;
    RepeatedLength(logits, previous, p.repetitionPenalty);
    var a, d := Adjusted(p, logits, previous), Distribution(p, logits, previous, exp);
    hide Adjusted;
    UnfilteredDistribution(p, logits, previous, exp);
    forall j | 0 <= j < |a|
      ensures d[j] == Times(d[i], Terms(a, exp, i, p.temperature)[j])
    {
      TemperatureRatio(p, logits, previous, exp, j, i);
    }
    PrefixSumTimes(Terms(a, exp, i, p.temperature), d, d[i], |a|);
  }

  lemma UnfilteredDistribution(p: SamplingParams, logits: seq<real>, previous: seq<nat>, exp: real -> real)
    requires (forall x :: exp(x) > 0.0) && Multiplicative(exp)
    requires p.repetitionPenalty != 0.0 && p.temperature != 0.0 && Unfiltered(p) && logits != []
    ensures AllPositive(Distribution(p, logits, previous, exp)) && Total(Distribution(p, logits, previous, exp)) == 1.0
  {
    RepeatedLength(logits, previous, p.repetitionPenalty);
    var probs := Softmax(Scaled(p, Adjusted(p, logits, previous)), exp);
    SoftmaxDistribution(Scaled(p, Adjusted(p, logits, previous)), exp);
    assert Filtered(p, probs) == probs;
    RenormalisedSums(probs);
  }

  lemma {:induction false} PrefixSumTimes(s: seq<real>, t: seq<real>, x: real, n: nat)
    requires |s| == |t| && n <= |s| && forall i | 0 <= i < |s| :: t[i] == Times(x, s[i])
    ensures PrefixSum(t, n) == Times(x, PrefixSum(s, n))
  {
    hide Times;
    TimesZero(x);
    TimesCommutes(x, 0.0);
    if n > 0 {
      PrefixSumTimes(s, t, x, n - 1);
      Distribute(x, PrefixSum(s, n - 1), s[n - 1]);
    }
  }

  lemma Distribute(x: real, y: real, z: real)
    ensures Times(x, y + z) == Times(x, y) + Times(x, z)
  {
  }

  lemma {:induction false} SmallerSum(s: seq<real>, t: seq<real>, n: nat)
    requires |s| == |t| && n <= |s| && forall i | 0 <= i < |s| :: s[i] <= t[i]
    ensures PrefixSum(s, n) <= PrefixSum(t, n)
  {
    if n > 0 {
      SmallerSum(s, t, n - 1);
    }
  }

  /** Without filters, lowering the temperature never lowers the share of a maximal token. */
  lemma ColderFavoursMaximum(p: SamplingParams, colder: real, logits: seq<real>, previous: seq<nat>, exp: real -> real,
                             i: nat)
    requires (forall x :: exp(x) > 0.0) && Multiplicative(exp) && (forall x, y :: x <= y ==> exp(x) <= exp(y))
    requires p.repetitionPenalty != 0.0 && 0.0 < colder <= p.temperature && Unfiltered(p) && i < |logits|
    requires |Adjusted(p, logits, previous)| == |logits|
    requires forall j | 0 <= j < |logits| :: Adjusted(p, logits, previous)[j] <= Adjusted(p, logits, previous)[i]
    ensures Distribution(p, logits, previous, exp)[i]
         <= Distribution(p.(temperature := colder), logits, previous, exp)[i]
  {
    hide Multiplicative;
    hide Times;
    hide Distribution;
    var q := p.(temperature := colder);
    assert Adjusted(q, logits, previous) == Adjusted(p, logits, previous);
    hide Adjusted;
    ShareOfTerms(p, logits, previous, exp, i);
    ShareOfTerms(q, logits, previous, exp, i);
    hide Terms;
    ColderShare(Adjusted(p, logits, previous), exp, i, p.temperature, Distribution(p, logits, previous, exp)[i],
                colder, Distribution(q, logits, previous, exp)[i]);
  }

  lemma ColderShare(a: seq<real>, exp: real -> real, i: nat, warmer: real, x: real, colder: real, y: real)
    requires (forall x, y :: x <= y ==> exp(x) <= exp(y)) && 0.0 < colder <= warmer
    requires i < |a| && forall j | 0 <= j < |a| :: a[j] <= a[i]
    requires x > 0.0 && Times(x, Total(Terms(a, exp, i, warmer))) == 1.0
    requires y > 0.0 && Times(y, Total(Terms(a, exp, i, colder))) == 1.0
    ensures x <= y
  {
    hide Times;
    var warm, cold := Terms(a, exp, i, warmer), Terms(a, exp, i, colder);
    forall j | 0 <= j < |a|
      ensures cold[j] <= warm[j]
    {
      DividedByLess(a[j] - a[i], colder, warmer);
    }
    SmallerSum(cold, warm, |a|);
    InverseOrder(x, Total(warm), y, Total(cold));
  }

  lemma DividedByLess(x: real, s: real, t: real)
    requires x <= 0.0 && 0.0 < s <= t
    ensures x / s <= x / t
  {
    var q, r := x / s, x / t;
    assert q * s == x && r * t == x;
    NotBelow(r, s, t);
    Monotone(q, r, s);
  }

  /** For a negative factor, the product with the larger number is the smaller one. */
  lemma NotBelow(r: real, s: real, t: real)
    requires r * t <= 0.0 && 0.0 < s <= t
    ensures r * t <= r * s
  {
    var d := t - s;
    assert r * t == r * s + r * d;
    NegativeFactor(r, t);
    Products(r, d);
  }

  lemma NegativeFactor(r: real, t: real)
    requires r * t <= 0.0 && t > 0.0
    ensures r <= 0.0
  {
  }

  lemma Products(r: real, d: real)
    requires r <= 0.0 && d >= 0.0
    ensures r * d <= 0.0
  {
  }

  lemma Monotone(q: real, r: real, s: real)
    requires q * s <= r * s && s > 0.0
    ensures q <= r
  {
    var d := q - r;
    assert d * s == q * s - r * s;
    NegativeFactor(d, s);
  }

  lemma InverseOrder(x: real, s: real, y: real, t: real)
    requires x > 0.0 && y > 0.0 && Times(x, s) == 1.0 && Times(y, t) == 1.0 && t <= s
    ensures x <= y
  {
    var d := s - t;
    assert y * s == 1.0 + y * d;
    assert y * d >= 0.0;
    assert (y - x) * s == y * s - 1.0;
    assert s > 0.0;
    ProductSign(s, y - x, s * (y - x));
  }
}
