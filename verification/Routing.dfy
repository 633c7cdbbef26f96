/** The A/B router: a deterministic split of numbered requests between two models. */
module Routing {
  import opened Wrappers
  import opened Collections
  import opened Numbers

  datatype Variant = A | B

  datatype RouteError = PercentageOutOfRange | EmptyName | NoMinimumSamples | SameModel | FeatureDisabled

  datatype TrafficSplit = TrafficSplit(modelA: string, modelB: string, percentageA: real)

  function NewSplit(modelA: string, modelB: string, percentageA: real): (r: Result<TrafficSplit, RouteError>)
    ensures r.Success? <==> 0.0 <= percentageA <= 100.0
  {
    if !(0.0 <= percentageA <= 100.0) then Failure(PercentageOutOfRange)
    else Success(TrafficSplit(modelA, modelB, percentageA))
  }

  function PercentageB(split: TrafficSplit): real { 100.0 - split.percentageA }

  datatype TestConfig = TestConfig(name: string, split: TrafficSplit, minSamples: nat, enabled: bool)

  function ConfigError(c: TestConfig): Option<RouteError> {
    if c.name == "" then Some(EmptyName)
    else if c.minSamples == 0 then Some(NoMinimumSamples)
    else if c.split.modelA == c.split.modelB then Some(SameModel)
    else None
  }

  class ABRouter {
    var config: TestConfig
    var speedsA: seq<real>
    var speedsB: seq<real>
    var requestCount: nat

    ghost function View(): Router
      reads this
    {
      Router(config, speedsA, speedsB, requestCount)
    }

    constructor (config: TestConfig)
      ensures View() == Fresh(config)
    {
      this.config := config;
      speedsA, speedsB, requestCount := [], [], 0;
    }

    static method New(config: TestConfig) returns (r: Result<ABRouter, RouteError>)
      ensures r.Success? <==> config.name != "" && config.minSamples > 0 && config.split.modelA != config.split.modelB
      ensures r.Failure? ==>
        r.error == if config.name == "" then EmptyName
                   else if config.minSamples == 0 then NoMinimumSamples else SameModel
      ensures r.Success? ==> fresh(r.value) && r.value.View() == Fresh(config)
    {
      match ConfigError(config)
      case Some(e) =>
        r := Failure(e);
      case None =>
        var router := new ABRouter(config);
        r := Success(router);
    }

    method Route() returns (r: Result<(Variant, string), RouteError>)
      modifies this
      ensures View() == Routed(old(View()))
      ensures r == match Choice(old(View()))
                   case None => Failure(FeatureDisabled)
                   case Some(v) => Success((v, if v == A then config.split.modelA else config.split.modelB))
    {
      if !config.enabled {
        return Failure(FeatureDisabled);
      }
      requestCount := requestCount + 1;
      var bucket := ((requestCount - 1) % 100) as real;
      if bucket < config.split.percentageA {
        r := Success((A, config.split.modelA));
      } else {
        r := Success((B, config.split.modelB));
      }
    }

    method RecordMetric(variant: Variant, tokensPerSecond: real)
      modifies this
      ensures View() == Recorded(old(View()), variant, tokensPerSecond)
    {
      match variant
      case A => speedsA := speedsA + [tokensPerSecond];
      case B => speedsB := speedsB + [tokensPerSecond];
    }

    method Average(variant: Variant) returns (r: Option<real>)
      ensures r == AverageOf(if variant.A? then speedsA else speedsB)
    {
      var speeds := if variant.A? then speedsA else speedsB;
      if speeds == [] {
        return None;
      }
      var total := 0.0;
      for i := 0 to |speeds|
        invariant total == SpeedSum(speeds[..i])
      {
        total := total + speeds[i];
        assert speeds[..i + 1][..i] == speeds[..i];
      }
      assert speeds[..|speeds|] == speeds;
      r := Some(total / |speeds| as real);
    }

    method HasSufficientSamples() returns (b: bool)
      ensures b <==> Sufficient(View())
    {
      b := |speedsA| >= config.minSamples && |speedsB| >= config.minSamples;
    }

    method Rollback() returns (winner: Option<string>)
      modifies this
      ensures View() == RolledBack(old(View()))
      ensures winner == match Winner(View())
                        case None => None
                        case Some(v) => Some(if v == A then config.split.modelA else config.split.modelB)
    {
      config := config.(enabled := false);
      var a := Average(A);
      var b := Average(B);
      if a.Some? && b.Some? {
        winner := Some(if a.value >= b.value then config.split.modelA else config.split.modelB);
      } else if a.Some? {
        winner := Some(config.split.modelA);
      } else if b.Some? {
        winner := Some(config.split.modelB);
      } else {
        winner := None;
      }
    }
  }

  // ----- The router as a value -----

  datatype Router = Router(config: TestConfig, speedsA: seq<real>, speedsB: seq<real>, requestCount: nat)

  function Fresh(c: TestConfig): Router { Router(c, [], [], 0) }

  /** The variant of the request with zero-based number `k`. */
  function Pick(p: real, k: nat): Variant {
    if (k % 100) as real < p then A else B
  }

  function Choice(r: Router): Option<Variant> {
    if r.config.enabled then Some(Pick(r.config.split.percentageA, r.requestCount)) else None
  }

  function Routed(r: Router): Router {
    if r.config.enabled then r.(requestCount := r.requestCount + 1) else r
  }

  function Recorded(r: Router, v: Variant, speed: real): Router {
    if v.A? then r.(speedsA := r.speedsA + [speed]) else r.(speedsB := r.speedsB + [speed])
  }

  function RolledBack(r: Router): Router { r.(config := r.config.(enabled := false)) }

  function SpeedSum(s: seq<real>): real {
    if s == [] then 0.0 else SpeedSum(s[..|s| - 1]) + s[|s| - 1]
  }

  function AverageOf(s: seq<real>): Option<real> {
    if s == [] then None else Some(SpeedSum(s) / |s| as real)
  }

  /** The variant with the better average speed; a variant without measurements loses, and A wins ties. */
  function Winner(r: Router): Option<Variant> {
    match (AverageOf(r.speedsA), AverageOf(r.speedsB))
    case (Some(a), Some(b)) => Some(if a >= b then A else B)
    case (Some(_), None) => Some(A)
    case (None, Some(_)) => Some(B)
    case (None, None) => None
  }

  /** An average times the number of measurements is their sum. */
  lemma AverageLaws(s: seq<real>)
    requires s != []
    ensures AverageOf(s).Some? && AverageOf(s).value * |s| as real == SpeedSum(s)
  {
    var n := |s| as real;
    var q := SpeedSum(s) / n;
    assert q * n == SpeedSum(s);
  }

  /** Equal measurements average to themselves. */
  lemma AverageOfEquals(s: seq<real>, x: real)
    requires s != [] && forall k | 0 <= k < |s| :: s[k] == x
    ensures AverageOf(s) == Some(x)
  {
    ConstantSum(s, x);
    AverageLaws(s);
    Cancelled(AverageOf(s).value, x, |s| as real);
  }

  lemma Cancelled(x: real, y: real, n: real)
    requires n > 0.0 && x * n == y * n
    ensures x == y
  {
    var d := x - y;
    assert d * n == 0.0;
  }

  lemma {:induction false} ConstantSum(s: seq<real>, x: real)
    requires forall k | 0 <= k < |s| :: s[k] == x
    ensures SpeedSum(s) == x * |s| as real
  {
    if s != [] {
      var front := s[..|s| - 1];
      ConstantSum(front, x);
      assert x * |front| as real + x == x * |s| as real;
    }
  }

  /** With measurements of both, A wins exactly if its average is not below that of B. */
  lemma FasterWins(r: Router)
    requires r.speedsA != [] && r.speedsB != []
    ensures Winner(r).Some?
    ensures Winner(r) == Some(A)
       <==> SpeedSum(r.speedsA) / |r.speedsA| as real >= SpeedSum(r.speedsB) / |r.speedsB| as real
  {
  }

  /** Both variants have as many measurements as the configuration asks for. */
  predicate Sufficient(r: Router) { |r.speedsA| >= r.config.minSamples && |r.speedsB| >= r.config.minSamples }

  /**
   A rollback is documented to return no model if data is insufficient. In fact it returns none only without any
   measurement, so the documentation is right exactly when there are enough or none.
   */
  lemma DocumentedRollbackHoldsIff(r: Router)
    requires ConfigError(r.config).None?
    ensures Winner(r).None? <==> r.speedsA == [] && r.speedsB == []
    ensures (Winner(r).None? <==> !Sufficient(r)) <==> Sufficient(r) || (r.speedsA == [] && r.speedsB == [])
  {
    assert AverageOf(r.speedsA).None? <==> r.speedsA == [];
    assert AverageOf(r.speedsB).None? <==> r.speedsB == [];
  }

  /** One measurement decides, however many the configuration asks for. */
  lemma OneMeasurementDecides(c: TestConfig, v: Variant, speed: real)
    ensures Winner(RolledBack(Recorded(Fresh(c), v, speed))) == Some(v)
  {
  }

  // ----- The share of variant A -----

  /** The least integer at or above `p`. */
  function Ceil(p: real): int { -((-p).Floor) }

  /** Requests for A among those numbered `from` up to but not including `to`. */
  function CountA(p: real, from: nat, to: nat): nat
    requires from <= to
  {
    if from == to then 0
    else CountA(p, from, to - 1) + if Pick(p, to - 1).A? then 1 else 0
  }

  /**
   How many of a hundred requests go to A: the percentage rounded up. A percentage set directly in the
   configuration may lie outside the range that a new split accepts, and then stands for none or all.
   */
  function Quota(p: real): int { Max(0, Min(100, Ceil(p))) }

  lemma PickIff(p: real, k: nat)
    ensures 0 <= Quota(p) <= 100 && (0.0 <= p <= 100.0 ==> Quota(p) == Ceil(p))
    ensures Pick(p, k).A? <==> k % 100 < Quota(p)
  {
  }

  lemma {:induction false} CountAdds(p: real, a: nat, b: nat, c: nat)
    requires a <= b <= c
    ensures CountA(p, a, c) == CountA(p, a, b) + CountA(p, b, c)
  {
    if b < c {
      CountAdds(p, a, b, c - 1);
    }
  }

  lemma NextHundred(n: nat)
    ensures (n + 1) % 100 == if n % 100 == 99 then 0 else n % 100 + 1
    ensures (n + 1) / 100 == if n % 100 == 99 then n / 100 + 1 else n / 100
  {
  }

  /** One block of `c` for each full hundred, and the start of another. */
  function Share(n: nat, c: int): int { (n / 100) * c + Min(n % 100, c) }

  /** After `n` requests A was chosen its quota of times for each full hundred, and for the start of the next one. */
  lemma {:induction false} ExactCount(p: real, n: nat)
    ensures CountA(p, 0, n) == Share(n, Quota(p))
  {
    hide Quota;
    hide Pick;
    PickIff(p, n);
    if n > 0 {
      ExactCount(p, n - 1);
      PickIff(p, n - 1);
      NextHundred(n - 1);
      FullBlock(n - 1, Quota(p));
    }
  }

  lemma FullBlock(n: nat, c: int)
    ensures (n / 100 + 1) * c == (n / 100) * c + c
  {
  }

  /** Any hundred consecutive requests, wherever they start, hold exactly the quota of A's. */
  lemma AnyHundred(p: real, from: nat)
    ensures CountA(p, from, from + 100) == Quota(p)
  {
    hide Quota;
    hide Pick;
    CountAdds(p, 0, from, from + 100);
    ExactCount(p, from);
    ExactCount(p, from + 100);
    PickIff(p, from);
    assert (from + 100) % 100 == from % 100 && (from + 100) / 100 == from / 100 + 1;
    FullBlock(from, Quota(p));
  }

  /**
   What the accepted range means for the traffic: in any hundred consecutive requests A gets its percentage rounded
   up and B its own rounded down, A gets none only for zero percent, and all as soon as its percentage exceeds 99.
   */
  lemma AcceptedSplitShares(modelA: string, modelB: string, p: real, from: nat)
    requires NewSplit(modelA, modelB, p).Success?
    ensures var split := NewSplit(modelA, modelB, p).value;
      var a := CountA(split.percentageA, from, from + 100);
      && split.modelA == modelA && split.modelB == modelB && split.percentageA == p
      && 100 - a == PercentageB(split).Floor && 0 <= a <= 100
      && p <= a as real < p + 1.0
      && (a == 0 <==> p == 0.0) && (a == 100 <==> p > 99.0)
  {
    AnyHundred(p, from);
    PickIff(p, 0);
    FloorOfComplement(p);
  }

  lemma FloorOfComplement(p: real)
    ensures (100.0 - p).Floor == 100 - Ceil(p)
    ensures p <= Ceil(p) as real < p + 1.0
  {
  }

  /** By how much the A's exceed their share, times 100. */
  function Lead(p: real, n: nat): real { 100.0 * CountA(p, 0, n) as real - n as real * p }

  /** The lead after the `r`-th request of a block, for the whole percentage `c`. */
  function Excess(c: int, r: nat): int { if r < c then r * (100 - c) else c * (100 - r) }

  function Most(c: int): int { c * (100 - c) }

  lemma WholeShare(n: nat, c: int)
    ensures 100 * Share(n, c) - n * c == Excess(c, n % 100)
  {
    var q, r := n / 100, n % 100;
    assert n == 100 * q + r;
    assert n * c == 100 * (q * c) + r * c;
  }

  lemma WholeProduct(n: nat, c: int)
    ensures n as real * c as real == (n * c) as real
  {
  }

  /** For a whole percentage. */
  lemma WholeLead(p: real, c: int, n: nat)
    requires p == c as real && 0 <= c <= 100
    ensures Lead(p, n) == Excess(c, n % 100) as real
  {
    hide Excess;
    hide Share;
    ExactCount(p, n);
    PickIff(p, 0);
    assert Ceil(p) == c;
    WholeShare(n, c);
    WholeProduct(n, c);
  }

  /** For a whole percentage the lead is never negative and at most p * (100 - p), which is at most 2500. */
  lemma WholeLeadBounded(p: real, c: int, n: nat)
    requires p == c as real && 0 <= c <= 100
    ensures 0.0 <= Lead(p, n) <= (c * (100 - c)) as real <= 2500.0
  {
    hide Excess;
    hide Lead;
    WholeLead(p, c, n);
    ExcessRange(c, n % 100);
  }

  lemma ExcessRange(c: int, r: nat)
    requires 0 <= c <= 100 && r < 100
    ensures 0 <= Excess(c, r) <= Most(c) <= 2500
  {
    SquareOfDistance(c);
    if r < c {
      NoMore(r, c, 100 - c);
    } else {
      NoMore(100 - r, 100 - c, c);
    }
  }

  lemma NoMore(x: int, y: int, z: int)
    requires 0 <= x <= y && z >= 0
    ensures 0 <= x * z <= y * z
  {
  }

  lemma SquareOfDistance(c: int)
    ensures c * (100 - c) <= 2500
  {
    assert (50 - c) * (50 - c) >= 0;
    assert (50 - c) * (50 - c) == 2500 - c * (100 - c);
  }

  /** The bound is met: after the last A of a block. */
  lemma WholeLeadReached(p: real, c: int, m: nat)
    requires p == c as real && 0 <= c < 100
    ensures Lead(p, 100 * m + c) == (c * (100 - c)) as real
  {
    hide Lead;
    BlockRemainder(m, c);
    WholeLead(p, c, 100 * m + c);
  }

  lemma BlockRemainder(m: nat, c: nat)
    requires c < 100
    ensures (100 * m + c) % 100 == c
  {
  }

  lemma HundredsShare(m: nat, c: int)
    requires c >= 0
    ensures Share(100 * m, c) == m * c
  {
    assert (100 * m) / 100 == m;
  }

  lemma HundredsLead(p: real, m: nat, c: int, count: int)
    requires count == m * c
    ensures 100.0 * count as real - (100 * m) as real * p == 100.0 * m as real * (c as real - p)
  {
    var x, y := m as real, c as real;
    WholeProduct(m, c);
    assert 100.0 * x * (y - p) == 100.0 * (x * y) - 100.0 * x * p;
  }

  /** The difference between quota and percentage recurs in every hundred. */
  lemma LeadAfterHundreds(p: real, m: nat)
    ensures Lead(p, 100 * m) == 100.0 * m as real * (Quota(p) as real - p)
  {
    hide Share;
    hide Quota;
    hide CountA;
    ExactCount(p, 100 * m);
    PickIff(p, 0);
    HundredsShare(m, Quota(p));
    HundredsLead(p, m, Quota(p), CountA(p, 0, 100 * m));
  }

  ghost predicate LeadWithin(p: real, bound: real) {
    forall n: nat :: -bound <= Lead(p, n) <= bound
  }

  /**
   The split stays within a fixed distance of its share exactly when the percentage is a whole number from 0 to
   100, whatever percentage the configuration holds.
   */
  lemma LeadBoundedIff(p: real)
    ensures (exists bound :: LeadWithin(p, bound)) <==> 0.0 <= p <= 100.0 && p == Ceil(p) as real
  {
    PickIff(p, 0);
    if p == Quota(p) as real {
      forall n: nat
        ensures -2500.0 <= Lead(p, n) <= 2500.0
      {
        WholeLeadBounded(p, Quota(p), n);
      }
      assert LeadWithin(p, 2500.0);
    } else {
      forall bound
        ensures !LeadWithin(p, bound)
      {
        ExceedsBound(p, bound);
      }
    }
  }

  lemma ExceedsBound(p: real, bound: real)
    requires p != Quota(p) as real
    ensures exists n: nat :: Lead(p, n) > bound || Lead(p, n) < -bound
  {
    var excess := Quota(p) as real - p;
    var distance := if excess < 0.0 then -excess else excess;
    var m := if bound < 0.0 then 1 else (bound / distance).Floor + 1;
    LeadAfterHundreds(p, m);
    LargeMultiple(bound, distance, m);
    Opposite(100.0 * m as real, excess);
    assert Lead(p, 100 * m) > bound || Lead(p, 100 * m) < -bound;
  }

  lemma Opposite(x: real, y: real)
    ensures x * (-y) == -(x * y)
  {
  }

  lemma LargeMultiple(bound: real, excess: real, m: nat)
    requires excess > 0.0 && m as real >= 1.0 && (bound >= 0.0 ==> m as real > bound / excess)
    ensures 100.0 * m as real * excess > bound
  {
    var x := m as real * excess;
    assert x > 0.0;
    if bound >= 0.0 {
      assert bound / excess * excess == bound;
      assert x > bound;
    }
    assert 100.0 * m as real * excess == 100.0 * x;
  }

  // ----- Runs -----

  datatype Call = RouteCall | RecordCall(variant: Variant, speed: real) | RollbackCall

  function After(r: Router, calls: seq<Call>): Router {
    if calls == [] then r
    else
      var before := After(r, calls[..|calls| - 1]);
      match calls[|calls| - 1]
      case RouteCall => Routed(before)
      case RecordCall(v, speed) => Recorded(before, v, speed)
      case RollbackCall => RolledBack(before)
  }

  /** The variants the successful routes of a run return, in order. */
  function Choices(r: Router, calls: seq<Call>): seq<Variant> {
    if calls == [] then []
    else
      var front := calls[..|calls| - 1];
      Choices(r, front)
      + if calls[|calls| - 1].RouteCall? && Choice(After(r, front)).Some? then [Choice(After(r, front)).value] else []
  }

  function VariantsUpTo(p: real, n: nat): seq<Variant> {
    seq(n, k requires 0 <= k < n => Pick(p, k))
  }

  /** Measurements and rollbacks never disturb the split: the n successful routes are requests 0 to n - 1. */
  lemma {:induction false} RoutesAreNumbered(c: TestConfig, calls: seq<Call>)
    ensures After(Fresh(c), calls).requestCount == |Choices(Fresh(c), calls)|
    ensures After(Fresh(c), calls).config.split == c.split
    ensures Choices(Fresh(c), calls) == VariantsUpTo(c.split.percentageA, |Choices(Fresh(c), calls)|)
  {
    if calls != [] {
      RoutesAreNumbered(c, calls[..|calls| - 1]);
    }
  }

  /** No route succeeds after a rollback. */
  lemma {:induction false} DisabledForGood(r: Router, calls: seq<Call>, more: seq<Call>)
    requires RollbackCall in calls
    ensures Choices(r, calls + more) == Choices(r, calls)
    ensures !After(r, calls + more).config.enabled
  {
    if more == [] {
      assert calls + more == calls;
      StaysDisabled(r, calls);
    } else {
      assert (calls + more)[..|calls + more| - 1] == calls + more[..|more| - 1];
      DisabledForGood(r, calls, more[..|more| - 1]);
    }
  }

  lemma {:induction false} StaysDisabled(r: Router, calls: seq<Call>)
    requires RollbackCall in calls
    ensures !After(r, calls).config.enabled
  {
    var last := |calls| - 1;
    if calls[last] != RollbackCall {
      assert calls == calls[..last] + [calls[last]];
      StaysDisabled(r, calls[..last]);
    }
  }

  lemma {:induction false} ChosenA(p: real, n: nat)
    ensures Count(VariantsUpTo(p, n), v => v == A) == CountA(p, 0, n)
  {
    var isA: Variant -> bool := v => v == A;
    if n == 0 {
      assert Positions(VariantsUpTo(p, 0), isA) == {};
    } else {
      ChosenA(p, n - 1);
      var shorter, longer := Positions(VariantsUpTo(p, n - 1), isA), Positions(VariantsUpTo(p, n), isA);
      assert longer == shorter + if Pick(p, n - 1).A? then {n - 1} else {};
    }
  }

  /** Over any run of a fresh router, its successful routes chose A exactly as often as the closed form says. */
  lemma RunCount(c: TestConfig, calls: seq<Call>)
    ensures var n := |Choices(Fresh(c), calls)|;
      Count(Choices(Fresh(c), calls), v => v == A) == Share(n, Quota(c.split.percentageA))
  {
    var chosen := Choices(Fresh(c), calls);
    RoutesAreNumbered(c, calls);
    ChosenA(c.split.percentageA, |chosen|);
    ExactCount(c.split.percentageA, |chosen|);
    assert Positions(chosen, v => v == A)
        == Positions(VariantsUpTo(c.split.percentageA, |chosen|), v => v == A);
  }
}
