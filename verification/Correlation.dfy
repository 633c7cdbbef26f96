/** Pearson correlation over real arithmetic; the square root is any function that is one. */
module Correlation {
  import opened Wrappers
  import opened Numbers
  import opened RealSeq
  import opened RealFacts

  /** The machine epsilon of 64-bit floats, 2^-52. */
  const EPSILON: real := 1.0 / 4503599627370496.0

  ghost predicate IsSqrt(sqrt: real -> real) {
    forall x | x >= 0.0 :: sqrt(x) >= 0.0 && sqrt(x) * sqrt(x) == x
  }

  function Mean(a: seq<real>): real
    requires a != []
  {
    Total(a) / |a| as real
  }

  /** The sum of the products of the first `n` deviations from `ma` and `mb`. */
  function Cov(a: seq<real>, b: seq<real>, ma: real, mb: real, n: nat): real
    requires n <= |a| && n <= |b|
  {
    if n == 0 then 0.0 else Cov(a, b, ma, mb, n - 1) + Times(a[n - 1] - ma, b[n - 1] - mb)
  }

  function CovOf(a: seq<real>, b: seq<real>): real
    requires |a| == |b| > 0
  {
    Cov(a, b, Mean(a), Mean(b), |a|)
  }

  function VarOf(a: seq<real>): real
    requires a != []
  {
    CovOf(a, a)
  }

  function Denominator(a: seq<real>, b: seq<real>, sqrt: real -> real): real
    requires |a| == |b| > 0
  {
    sqrt(Times(VarOf(a), VarOf(b)))
  }

  /** No result for fewer than two points or a denominator below epsilon. */
  function Pearson(a: seq<real>, b: seq<real>, sqrt: real -> real): Option<real>
    requires |a| == |b|
  {
    if |a| < 2 then None
    else
      var denom := Denominator(a, b, sqrt);
      if denom < EPSILON then None else Some(CovOf(a, b) / denom)
  }

  method PearsonCorrelation(a: seq<real>, b: seq<real>, sqrt: real -> real) returns (r: Option<real>)
    requires |a| == |b|
    ensures r == Pearson(a, b, sqrt)
  {
    var n := |a|;
    if n < 2 {
      return None;
    }
    var meanA, meanB := Mean(a), Mean(b);
    var cov, varA, varB := 0.0, 0.0, 0.0;
    for i := 0 to n
      invariant cov == Cov(a, b, meanA, meanB, i)
      invariant varA == Cov(a, a, meanA, meanA, i) && varB == Cov(b, b, meanB, meanB, i)
    {
      var da := a[i] - meanA;
      var db := b[i] - meanB;
      cov := cov + da * db;
      varA := varA + da * da;
      varB := varB + db * db;
    }
    var denom := sqrt(Times(varA, varB));
    if denom < EPSILON {
      return None;
    }
    r := Some(cov / denom);
  }

  function Deviations(a: seq<real>): seq<real> {
    if a == [] then [] else seq(|a|, i requires 0 <= i < |a| => a[i] - Mean(a))
  }

  /** The mean is the value from which the deviations cancel. */
  lemma DeviationsCancel(a: seq<real>)
    ensures Total(Deviations(a)) == 0.0
  {
    if a != [] {
      var n := |a| as real;
      PrefixSumShifted(a, Deviations(a), Mean(a), |a|);
      assert Mean(a) * n == Total(a);
    }
  }

  lemma {:induction false} PrefixSumShifted(a: seq<real>, d: seq<real>, m: real, n: nat)
    requires |d| == |a| && n <= |a| && forall i | 0 <= i < |a| :: d[i] == a[i] - m
    ensures PrefixSum(d, n) == PrefixSum(a, n) - m * n as real
  {
    if n > 0 {
      PrefixSumShifted(a, d, m, n - 1);
      assert m * (n - 1) as real + m == m * n as real;
    }
  }

  // ----- Cauchy-Schwarz -----

  /** The sum of the squared residuals of the first `n` points. */
  function Residuals(a: seq<real>, b: seq<real>, ma: real, mb: real, p: real, q: real, n: nat): real
    requires n <= |a| && n <= |b|
  {
    if n == 0 then 0.0
    else Residuals(a, b, ma, mb, p, q, n - 1) + Square(Residual(p, q, a[n - 1] - ma, b[n - 1] - mb))
  }

  lemma {:induction false} ResidualsExpand(a: seq<real>, b: seq<real>, ma: real, mb: real, p: real, q: real, n: nat)
    requires n <= |a| && n <= |b|
    ensures Residuals(a, b, ma, mb, p, q, n)
         == Expansion(p, q, Cov(a, a, ma, ma, n), Cov(b, b, mb, mb, n), Cov(a, b, ma, mb, n))
  {
    hide Expansion;
    hide Times;
    hide Residual;
    if n == 0 {
      EmptyExpansion(p, q);
    } else {
      ResidualsExpand(a, b, ma, mb, p, q, n - 1);
      ExpansionStep(p, q, a[n - 1] - ma, b[n - 1] - mb,
                    Cov(a, a, ma, ma, n - 1), Cov(b, b, mb, mb, n - 1), Cov(a, b, ma, mb, n - 1));
    }
  }

  lemma {:induction false} ResidualsZeroIff(a: seq<real>, b: seq<real>, ma: real, mb: real, p: real, q: real, n: nat)
    requires n <= |a| && n <= |b|
    ensures Residuals(a, b, ma, mb, p, q, n) >= 0.0
    ensures Residuals(a, b, ma, mb, p, q, n) == 0.0
       <==> forall i | 0 <= i < n :: Residual(p, q, a[i] - ma, b[i] - mb) == 0.0
  {
    hide Times;
    hide Square;
    hide Residual;
    if n > 0 {
      ResidualsZeroIff(a, b, ma, mb, p, q, n - 1);
      SquareFacts(Residual(p, q, a[n - 1] - ma, b[n - 1] - mb));
    }
  }

  lemma {:induction false} VarianceZero(a: seq<real>, b: seq<real>, ma: real, mb: real, n: nat)
    requires n <= |a| && n <= |b|
    ensures Cov(a, a, ma, ma, n) >= 0.0
    ensures Cov(a, a, ma, ma, n) == 0.0 ==> Cov(a, b, ma, mb, n) == 0.0
  {
    hide Times;
    if n > 0 {
      VarianceZero(a, b, ma, mb, n - 1);
      SquareFacts(a[n - 1] - ma);
      TimesZero(b[n - 1] - mb);
    }
  }

  /** The accumulators of the loop, for any two series: cov^2 <= var_a * var_b. */
  lemma CauchySchwarz(a: seq<real>, b: seq<real>, ma: real, mb: real, n: nat)
    requires n <= |a| && n <= |b|
    ensures Cov(a, a, ma, ma, n) >= 0.0 && Cov(b, b, mb, mb, n) >= 0.0
    ensures Square(Cov(a, b, ma, mb, n)) <= Times(Cov(a, a, ma, ma, n), Cov(b, b, mb, mb, n))
  {
    hide Expansion;
    hide Times;
    var va, vb, c := Cov(a, a, ma, ma, n), Cov(b, b, mb, mb, n), Cov(a, b, ma, mb, n);
    VarianceZero(a, b, ma, mb, n);
    VarianceZero(b, a, mb, ma, n);
    ResidualsExpand(a, b, ma, mb, va, c, n);
    ResidualsZeroIff(a, b, ma, mb, va, c, n);
    Discriminant(va, vb, c);
  }

  /** A returned coefficient lies between -1 and 1. */
  lemma CoefficientBound(a: seq<real>, b: seq<real>, sqrt: real -> real)
    requires |a| == |b| && IsSqrt(sqrt) && Pearson(a, b, sqrt).Some?
    ensures -1.0 <= Pearson(a, b, sqrt).value <= 1.0
  {
    DenominatorSquared(a, b, sqrt);
    CauchySchwarz(a, b, Mean(a), Mean(b), |a|);
    QuotientWithin(CovOf(a, b), Denominator(a, b, sqrt));
  }

  lemma DenominatorSquared(a: seq<real>, b: seq<real>, sqrt: real -> real)
    requires |a| == |b| > 0 && IsSqrt(sqrt)
    ensures Denominator(a, b, sqrt) >= 0.0 && Times(VarOf(a), VarOf(b)) >= 0.0
    ensures Square(Denominator(a, b, sqrt)) == Times(VarOf(a), VarOf(b))
  {
    CauchySchwarz(a, b, Mean(a), Mean(b), |a|);
    SquareFacts(CovOf(a, b));
    RootSquared(sqrt, Times(VarOf(a), VarOf(b)));
  }

  lemma RootSquared(sqrt: real -> real, x: real)
    requires IsSqrt(sqrt) && x >= 0.0
    ensures sqrt(x) >= 0.0 && Square(sqrt(x)) == x
  {
  }

  lemma {:induction false} CovSymmetric(a: seq<real>, b: seq<real>, ma: real, mb: real, n: nat)
    requires n <= |a| && n <= |b|
    ensures Cov(a, b, ma, mb, n) == Cov(b, a, mb, ma, n)
  {
    hide Times;
    if n > 0 {
      CovSymmetric(a, b, ma, mb, n - 1);
      TimesCommutes(a[n - 1] - ma, b[n - 1] - mb);
    }
  }

  /** The coefficient does not depend on the order of its arguments. */
  lemma CoefficientSymmetric(a: seq<real>, b: seq<real>, sqrt: real -> real)
    requires |a| == |b|
    ensures Pearson(a, b, sqrt) == Pearson(b, a, sqrt)
  {
    hide Times;
    if |a| >= 2 {
      CovSymmetric(a, b, Mean(a), Mean(b), |a|);
      TimesCommutes(VarOf(a), VarOf(b));
    }
  }

  // ----- Rescaling -----

  function Rescaled(a: seq<real>, scale: real, shift: real): seq<real> {
    seq(|a|, i requires 0 <= i < |a| => Affine(scale, a[i], shift))
  }

  lemma {:induction false} PrefixSumRescaled(a: seq<real>, scale: real, shift: real, n: nat)
    requires n <= |a|
    ensures PrefixSum(Rescaled(a, scale, shift), n) == scale * PrefixSum(a, n) + n as real * shift
  {
    if n > 0 {
      PrefixSumRescaled(a, scale, shift, n - 1);
      assert scale * (PrefixSum(a, n - 1) + a[n - 1]) == scale * PrefixSum(a, n - 1) + scale * a[n - 1];
      assert (n - 1) as real * shift + shift == n as real * shift;
    }
  }

  lemma MeanRescaled(a: seq<real>, scale: real, shift: real)
    requires a != []
    ensures Mean(Rescaled(a, scale, shift)) == Affine(scale, Mean(a), shift)
  {
    PrefixSumRescaled(a, scale, shift, |a|);
    QuotientAffine(Total(a), |a| as real, scale, shift, Total(Rescaled(a, scale, shift)));
  }

  lemma {:induction false} CovRescaled(a: seq<real>, b: seq<real>, ma: real, mb: real,
                                       s: real, u: real, t: real, v: real, n: nat)
    requires n <= |a| && n <= |b|
    ensures Cov(Rescaled(a, s, u), Rescaled(b, t, v), Affine(s, ma, u), Affine(t, mb, v), n)
         == Times(Times(s, t), Cov(a, b, ma, mb, n))
  {
    hide Times;
    hide Affine;
    if n == 0 {
      TimesZero(Times(s, t));
      TimesCommutes(Times(s, t), 0.0);
    } else {
      CovRescaled(a, b, ma, mb, s, u, t, v, n - 1);
      DeviationProduct(a[n - 1], ma, s, u, b[n - 1], mb, t, v, Cov(a, b, ma, mb, n - 1));
    }
  }

  /** What rescaling both series does to the accumulators. */
  lemma AccumulatorsRescaled(a: seq<real>, b: seq<real>, s: real, u: real, t: real, v: real)
    requires |a| == |b| > 0
    ensures CovOf(Rescaled(a, s, u), Rescaled(b, t, v)) == Times(Times(s, t), CovOf(a, b))
    ensures VarOf(Rescaled(a, s, u)) == Times(Times(s, s), VarOf(a))
    ensures VarOf(Rescaled(b, t, v)) == Times(Times(t, t), VarOf(b))
  {
    hide Times;
    MeanRescaled(a, s, u);
    MeanRescaled(b, t, v);
    CovRescaled(a, a, Mean(a), Mean(a), s, u, s, u, |a|);
    CovRescaled(b, b, Mean(b), Mean(b), t, v, t, v, |a|);
    CovRescaled(a, b, Mean(a), Mean(b), s, u, t, v, |a|);
  }

  lemma SqrtUnique(sqrt: real -> real, x: real, y: real)
    requires IsSqrt(sqrt) && y >= 0.0 && Square(y) == x
    ensures sqrt(x) == y
  {
    SquareFacts(y);
    RootSquared(sqrt, x);
    SquareInjective(sqrt(x), y);
  }

  /** Rescaling the series multiplies the denominator by the absolute value of both factors. */
  lemma DenominatorRescaled(a: seq<real>, b: seq<real>, sqrt: real -> real, s: real, u: real, t: real, v: real)
    requires |a| == |b| > 0 && IsSqrt(sqrt)
    ensures Denominator(Rescaled(a, s, u), Rescaled(b, t, v), sqrt) == Times(Abs(Times(s, t)), Denominator(a, b, sqrt))
  {
    hide Times;
    hide Abs;
    var d, root := Denominator(a, b, sqrt), Times(Abs(Times(s, t)), Denominator(a, b, sqrt));
    DenominatorSquared(a, b, sqrt);
    AccumulatorsRescaled(a, b, s, u, t, v);
    ProductRescaled(d, s, t, VarOf(a), VarOf(b));
    SqrtUnique(sqrt, Square(root), root);
  }

  /**
   Shifting either series, and scaling it by whatever factor, leaves the coefficient as it is, except that it
   changes its sign with the sign of the product of the factors. Since the denominator is compared with a fixed
   epsilon, the rescaled pair has a coefficient exactly when the old denominator times the absolute value of that
   product is at least epsilon.
   */
  lemma CoefficientRescaled(a: seq<real>, b: seq<real>, sqrt: real -> real, s: real, u: real, t: real, v: real)
    requires |a| == |b| >= 2 && IsSqrt(sqrt)
    ensures var rescaled := Pearson(Rescaled(a, s, u), Rescaled(b, t, v), sqrt);
      && (rescaled.Some? <==> Times(Abs(Times(s, t)), Denominator(a, b, sqrt)) >= EPSILON)
      && (rescaled.Some? && Pearson(a, b, sqrt).Some? ==>
            rescaled.value == if Times(s, t) > 0.0 then Pearson(a, b, sqrt).value else -Pearson(a, b, sqrt).value)
  {
    hide Times;
    hide Abs;
    hide Denominator;
    hide CovOf;
    var d, c, st := Denominator(a, b, sqrt), CovOf(a, b), Times(s, t);
    var a2, b2 := Rescaled(a, s, u), Rescaled(b, t, v);
    DenominatorRescaled(a, b, sqrt, s, u, t, v);
    AccumulatorsRescaled(a, b, s, u, t, v);
    AbsZero(st, d);
    if d >= EPSILON && st != 0.0 {
      QuotientRescaled(c, d, CovOf(a2, b2), Denominator(a2, b2, sqrt), st);
    }
  }

  lemma AbsZero(x: real, y: real)
    ensures x == 0.0 ==> Times(Abs(x), y) == 0.0
  {
  }

  // ----- Perfect correlation -----

  /** All deviations of `b` are the same multiple of those of `a`. */
  ghost predicate Proportional(a: seq<real>, b: seq<real>)
    requires |a| == |b| > 0
  {
    forall i | 0 <= i < |a| :: Residual(VarOf(a), CovOf(a, b), a[i] - Mean(a), b[i] - Mean(b)) == 0.0
  }

  /** `b` is `a` under a linear map. */
  ghost predicate Linear(a: seq<real>, b: seq<real>) {
    exists scale, shift :: b == Rescaled(a, scale, shift)
  }

  lemma ProportionalIffLinear(a: seq<real>, b: seq<real>)
    requires |a| == |b| > 0 && VarOf(a) > 0.0
    ensures Proportional(a, b) <==> Linear(a, b)
  {
    hide CovOf;
    hide Mean;
    if Proportional(a, b) {
      var scale := CovOf(a, b) / VarOf(a);
      var shift := Mean(b) - scale * Mean(a);
      forall i | 0 <= i < |a|
        ensures b[i] == Affine(scale, a[i], shift)
      {
        assert Residual(VarOf(a), CovOf(a, b), a[i] - Mean(a), b[i] - Mean(b)) == 0.0;
        LineThrough(VarOf(a), CovOf(a, b), a[i], Mean(a), b[i], Mean(b), scale);
      }
      assert b == Rescaled(a, scale, shift);
    }
    if Linear(a, b) {
      var scale, shift :| b == Rescaled(a, scale, shift);
      LinearAccumulators(a, scale, shift);
      forall i | 0 <= i < |a|
        ensures Residual(VarOf(a), CovOf(a, b), a[i] - Mean(a), b[i] - Mean(b)) == 0.0
      {
        OnTheLine(VarOf(a), CovOf(a, b), a[i], Mean(a), b[i], Mean(b), scale, shift);
      }
    }
  }

  lemma LineThrough(va: real, c: real, x: real, mx: real, y: real, my: real, scale: real)
    requires va > 0.0 && Residual(va, c, x - mx, y - my) == 0.0 && scale == c / va
    ensures y == Affine(scale, x, my - scale * mx)
  {
    var dx, dy := x - mx, y - my;
    assert scale * va == c;
    assert (scale * dx) * va == (scale * va) * dx;
    assert dy * va == c * dx;
    assert dy == scale * dx by {
      ProductSign(va, dy - scale * dx, va * (dy - scale * dx));
    }
    assert scale * dx == scale * x - scale * mx;
  }

  lemma OnTheLine(va: real, c: real, x: real, mx: real, y: real, my: real, scale: real, shift: real)
    requires c == Times(scale, va) && y == Affine(scale, x, shift) && my == Affine(scale, mx, shift)
    ensures Residual(va, c, x - mx, y - my) == 0.0
  {
    var dx := x - mx;
    assert y - my == scale * dx;
    assert va * (scale * dx) == (scale * va) * dx;
  }

  lemma LinearAccumulators(a: seq<real>, scale: real, shift: real)
    requires a != []
    ensures CovOf(a, Rescaled(a, scale, shift)) == Times(scale, VarOf(a))
    ensures Mean(Rescaled(a, scale, shift)) == Affine(scale, Mean(a), shift)
  {
    MeanRescaled(a, scale, shift);
    MeanRescaled(a, 1.0, 0.0);
    CovRescaled(a, a, Mean(a), Mean(a), 1.0, 0.0, scale, shift, |a|);
    assert Rescaled(a, 1.0, 0.0) == a;
    assert Times(1.0, scale) == scale;
  }

  /** The coefficient is 1 or -1 exactly when the second series is a linear function of the first. */
  lemma PerfectIffLinear(a: seq<real>, b: seq<real>, sqrt: real -> real)
    requires |a| == |b| && IsSqrt(sqrt) && Pearson(a, b, sqrt).Some?
    ensures Pearson(a, b, sqrt).value == 1.0 || Pearson(a, b, sqrt).value == -1.0 <==> Linear(a, b)
  {
    PerfectIffProportional(a, b, sqrt);
    DenominatorSquared(a, b, sqrt);
    SquareFacts(Denominator(a, b, sqrt));
    FactorNonZero(VarOf(a), VarOf(b));
    VarianceZero(a, a, Mean(a), Mean(a), |a|);
    ProportionalIffLinear(a, b);
  }

  lemma PerfectIffProportional(a: seq<real>, b: seq<real>, sqrt: real -> real)
    requires |a| == |b| && IsSqrt(sqrt) && Pearson(a, b, sqrt).Some?
    ensures Pearson(a, b, sqrt).value == 1.0 || Pearson(a, b, sqrt).value == -1.0 <==> Proportional(a, b)
  {
    hide Expansion;
    hide Residual;
    var n, ma, mb := |a|, Mean(a), Mean(b);
    var va, vb, c, d := VarOf(a), VarOf(b), CovOf(a, b), Denominator(a, b, sqrt);
    DenominatorSquared(a, b, sqrt);
    VarianceZero(a, a, ma, ma, n);
    UnitQuotient(c, d);
    ResidualsExpand(a, b, ma, mb, va, c, n);
    ResidualsZeroIff(a, b, ma, mb, va, c, n);
    SquareFacts(d);
    FactorNonZero(va, vb);
    Discriminant(va, vb, c);
  }

  lemma FactorNonZero(x: real, y: real)
    ensures Times(x, y) != 0.0 ==> x != 0.0
  {
  }

  // ----- Cross-metric insights -----

  datatype Insight = Insight(first: nat, second: nat, confidence: real, positive: bool, dataPoints: nat)

  /** The insight for a pair of metrics, over the common prefix of their readings. */
  function PairInsight(metrics: seq<seq<real>>, i: nat, j: nat, sqrt: real -> real): Option<Insight>
    requires i < |metrics| && j < |metrics|
  {
    var n := Min(|metrics[i]|, |metrics[j]|);
    if n < 3 then None
    else
      match Pearson(metrics[i][..n], metrics[j][..n], sqrt)
      case None => None
      case Some(r) => if Abs(r) > 0.7 then Some(Insight(i, j, Abs(r), r > 0.0, n)) else None
  }

  /** The insights of the pairs (i, i + 1) to (i, j - 1), in that order. */
  ghost function RowInsights(metrics: seq<seq<real>>, i: nat, j: nat, sqrt: real -> real): seq<Insight>
    requires i < j <= |metrics|
  {
    if j == i + 1 then []
    else
      RowInsights(metrics, i, j - 1, sqrt)
      + match PairInsight(metrics, i, j - 1, sqrt) case None => [] case Some(x) => [x]
  }

  /** The insights of the first `i` rows. */
  ghost function Insights(metrics: seq<seq<real>>, i: nat, sqrt: real -> real): seq<Insight>
    requires i <= |metrics|
  {
    if i == 0 then []
    else Insights(metrics, i - 1, sqrt) + RowInsights(metrics, i - 1, |metrics|, sqrt)
  }

  /** The body of the inner loop. */
  method CorrelatePair(metrics: seq<seq<real>>, i: nat, j: nat, sqrt: real -> real) returns (insight: Option<Insight>)
    requires i < |metrics| && j < |metrics|
    ensures insight == PairInsight(metrics, i, j, sqrt)
  {
    hide Pearson;
    var a, b := metrics[i], metrics[j];
    var n := Min(|a|, |b|);
    if n < 3 {
      return None;
    }
    var corr := PearsonCorrelation(a[..n], b[..n], sqrt);
    if corr.Some? && Abs(corr.value) > 0.7 {
      return Some(Insight(i, j, Abs(corr.value), corr.value > 0.0, n));
    }
    insight := None;
  }

  method CorrelatePairs(metrics: seq<seq<real>>, sqrt: real -> real) returns (insights: seq<Insight>)
    ensures insights == Insights(metrics, |metrics|, sqrt)
  {
    hide PairInsight;
    insights := [];
    for i := 0 to |metrics|
      invariant insights == Insights(metrics, i, sqrt)
    {
      ghost var above := insights;
      for j := i + 1 to |metrics|
        invariant insights == above + RowInsights(metrics, i, j, sqrt)
      {
        var insight := CorrelatePair(metrics, i, j, sqrt);
        if insight.Some? {
          insights := insights + [insight.value];
        }
      }
    }
  }

  lemma {:induction false} RowInsightsIff(metrics: seq<seq<real>>, i: nat, j: nat, sqrt: real -> real, x: Insight)
    requires i < j <= |metrics|
    ensures x in RowInsights(metrics, i, j, sqrt)
       <==> x.first == i < x.second < j && PairInsight(metrics, x.first, x.second, sqrt) == Some(x)
  {
    if i + 1 < j {
      RowInsightsIff(metrics, i, j - 1, sqrt, x);
    }
  }

  /** The insights reported are exactly those of the pairs of distinct metrics that correlate. */
  lemma {:induction false} InsightsIff(metrics: seq<seq<real>>, i: nat, sqrt: real -> real, x: Insight)
    requires i <= |metrics|
    ensures x in Insights(metrics, i, sqrt)
       <==> x.first < i && x.first < x.second < |metrics|
            && PairInsight(metrics, x.first, x.second, sqrt) == Some(x)
  {
    hide PairInsight;
    hide RowInsights;
    if i > 0 {
      var above, row := Insights(metrics, i - 1, sqrt), RowInsights(metrics, i - 1, |metrics|, sqrt);
      assert x in above + row <==> x in above || x in row;
      InsightsIff(metrics, i - 1, sqrt, x);
      RowInsightsIff(metrics, i - 1, |metrics|, sqrt, x);
    }
  }

  /** Every reported confidence lies above 0.7 and is at most 1. */
  lemma ConfidenceRange(metrics: seq<seq<real>>, sqrt: real -> real, x: Insight)
    requires IsSqrt(sqrt) && x in Insights(metrics, |metrics|, sqrt)
    ensures 0.7 < x.confidence <= 1.0
    ensures x.first < x.second < |metrics|
    ensures 3 <= x.dataPoints <= |metrics[x.first]| && x.dataPoints <= |metrics[x.second]|
  {
    InsightsIff(metrics, |metrics|, sqrt, x);
    CoefficientBound(metrics[x.first][..x.dataPoints], metrics[x.second][..x.dataPoints], sqrt);
  }

  /**
   The insight of two metrics, in full: there is one exactly if both have at least three readings and the
   coefficient of the first n of each, n being the smaller number of readings, is above 0.7 or below -0.7. Its
   confidence is the distance of the coefficient from zero.
   */
  lemma InsightIff(metrics: seq<seq<real>>, i: nat, j: nat, sqrt: real -> real)
    requires i < |metrics| && j < |metrics|
    ensures var a, b := metrics[i], metrics[j];
      var n := if |a| <= |b| then |a| else |b|;
      var r := Pearson(a[..n], b[..n], sqrt);
      && (PairInsight(metrics, i, j, sqrt).Some? <==> n >= 3 && r.Some? && (r.value > 0.7 || r.value < -0.7))
      && (PairInsight(metrics, i, j, sqrt).Some? ==>
            var x := PairInsight(metrics, i, j, sqrt).value;
            && x.first == i && x.second == j && x.dataPoints == n
            && (x.positive <==> r.value > 0.7)
            && (x.confidence == r.value || x.confidence == -r.value) && x.confidence > 0.7)
  {
  }

  /** Without a coefficient there are fewer than two points, or the product of the variances has a root below 2^-52. */
  lemma NoCoefficientIff(a: seq<real>, b: seq<real>, sqrt: real -> real)
    requires |a| == |b|
    ensures Pearson(a, b, sqrt).None?
       <==> |a| < 2 || sqrt(Times(VarOf(a), VarOf(b))) * 4503599627370496.0 < 1.0
  {
  }
}
