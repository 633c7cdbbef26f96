/**
 Token sampling over real arithmetic: in-place penalties, softmax, the three filters, renormalisation and
 the cumulative walk. `exp` is any function from reals to reals; the random draw is a parameter.
 */
module Sampler {
  import opened Wrappers
  import opened Collections
  import opened RealSeq

  datatype SamplingParams = SamplingParams(
    temperature: real, topK: nat, topP: real, minP: real,
    repetitionPenalty: real, frequencyPenalty: real, presencePenalty: real)

  datatype SamplerError = EmptyLogits

  // ----- Penalties -----

  function Penalised(x: real, penalty: real): real
    requires penalty != 0.0
  {
    if x > 0.0 then x / penalty else x * penalty
  }

  /** One penalty per occurrence of a token that is an index of the logits. */
  function Repeated(logits: seq<real>, tokens: seq<nat>, penalty: real): seq<real>
    requires penalty != 0.0
    decreases |tokens|
  {
    if tokens == [] then logits
    else
      var before := Repeated(logits, tokens[..|tokens| - 1], penalty);
      var t := tokens[|tokens| - 1];
      if t < |before| then before[t := Penalised(before[t], penalty)] else before
  }

  method ApplyRepetitionPenalty(logits: array<real>, previous: seq<nat>, penalty: real)
    requires penalty != 0.0
    modifies logits
    ensures logits[..] == Repeated(old(logits[..]), previous, penalty)
  {
    for k := 0 to |previous|
      invariant logits[..] == Repeated(old(logits[..]), previous[..k], penalty)
    {
      assert previous[..k + 1][..k] == previous[..k];
      var idx := previous[k];
      if idx < logits.Length {
        logits[idx] := Penalised(logits[idx], penalty);
      }
    }
    assert previous[..|previous|] == previous;
  }

  function Occurrences(tokens: seq<nat>, t: nat): nat { |Filter(tokens, (x: nat) => x == t)| }

  lemma OccurrencesPush(tokens: seq<nat>, token: nat)
    ensures forall t :: Occurrences(tokens + [token], t) == Occurrences(tokens, t) + (if t == token then 1 else 0)
  {
    forall t
      ensures Occurrences(tokens + [token], t) == Occurrences(tokens, t) + (if t == token then 1 else 0)
    {
      FilterAppend(tokens, [token], (x: nat) => x == t);
    }
  }

  /** Each logit whose token occurred loses the presence penalty once and the frequency penalty per occurrence. */
  function FrequencyPenalised(x: real, count: nat, frequency: real, presence: real): real {
    if count == 0 then x else x - frequency * count as real - presence
  }

  /** How often each token of a sequence occurs in it. */
  method CountTokens(tokens: seq<nat>) returns (counts: map<nat, nat>)
    ensures forall t :: t in counts <==> Occurrences(tokens, t) > 0
    ensures forall t | t in counts :: counts[t] == Occurrences(tokens, t)
  {
    counts := map[];
    for k := 0 to |tokens|
      invariant forall t :: t in counts <==> Occurrences(tokens[..k], t) > 0
      invariant forall t | t in counts :: counts[t] == Occurrences(tokens[..k], t)
    {
      var token := tokens[k];
      assert tokens[..k + 1] == tokens[..k] + [token];
      OccurrencesPush(tokens[..k], token);
      counts := counts[token := (if token in counts then counts[token] else 0) + 1];
    }
    assert tokens[..|tokens|] == tokens;
  }

  method PenaliseToken(logits: array<real>, idx: nat, count: nat, frequency: real, presence: real)
    requires idx < logits.Length && count > 0
    modifies logits
    ensures logits[idx] == FrequencyPenalised(old(logits[idx]), count, frequency, presence)
    ensures forall i | 0 <= i < logits.Length && i != idx :: logits[i] == old(logits[i])
  {
    logits[idx] := logits[idx] - frequency * count as real;
    logits[idx] := logits[idx] - presence;
  }

  method ApplyFrequencyPresencePenalty(logits: array<real>, previous: seq<nat>, frequency: real, presence: real)
    modifies logits
    ensures forall i | 0 <= i < logits.Length ::
      logits[i] == FrequencyPenalised(old(logits[i]), Occurrences(previous, i), frequency, presence)
  {
    var counts := CountTokens(previous);
    ghost var start := logits[..];
    var keys := counts.Keys;
    while keys != {}
      invariant keys <= counts.Keys
      invariant forall i | 0 <= i < logits.Length && (i !in counts || i in keys) :: logits[i] == start[i]
      invariant forall i | 0 <= i < logits.Length && i in counts && i !in keys ::
        logits[i] == FrequencyPenalised(start[i], counts[i], frequency, presence)
      decreases |keys|
    {
      var idx :| idx in keys;
      keys := keys - {idx};
      if idx < logits.Length {
        PenaliseToken(logits, idx, counts[idx], frequency, presence);
      }
    }
    forall i: nat | i < logits.Length
      ensures logits[i] == FrequencyPenalised(start[i], Occurrences(previous, i), frequency, presence)
    {
      assert i in counts || Occurrences(previous, i) == 0;
    }
  }

  // ----- Argmax and softmax -----

  /** The last of the largest elements, which is what `max_by` over an iterator returns. */
  ghost predicate LastMax(s: seq<real>, b: nat) {
    b < |s| && forall j | 0 <= j < |s| :: s[j] < s[b] || (s[j] == s[b] && j <= b)
  }

  /** For no values at all, index 0. */
  method ArgMax(values: seq<real>) returns (best: nat)
    ensures if values == [] then best == 0 else LastMax(values, best)
  {
    best := 0;
    if values == [] {
      return;
    }
    for i := 1 to |values|
      invariant best < i
      invariant forall j | 0 <= j < i :: values[j] < values[best] || (values[j] == values[best] && j <= best)
    {
      if values[i] >= values[best] {
        best := i;
      }
    }
  }

  function Largest(s: seq<real>): (m: real)
    requires s != []
    ensures m in s && forall i | 0 <= i < |s| :: s[i] <= m
    decreases |s|
  {
    if |s| == 1 then s[0]
    else
      var m := Largest(s[..|s| - 1]);
      if s[|s| - 1] > m then s[|s| - 1] else m
  }

  function Exps(logits: seq<real>, exp: real -> real): seq<real>
    requires logits != []
  {
    seq(|logits|, i requires 0 <= i < |logits| => exp(logits[i] - Largest(logits)))
  }

  lemma ExpsPositive(logits: seq<real>, exp: real -> real)
    requires logits != [] && forall x :: exp(x) > 0.0
    ensures AllPositive(Exps(logits, exp)) && Total(Exps(logits, exp)) > 0.0
  {
    assert AllPositive(Exps(logits, exp));
    TotalAtLeast(Exps(logits, exp), 0);
  }

  function Divided(s: seq<real>, d: real): seq<real>
    requires d != 0.0
  {
    seq(|s|, i requires 0 <= i < |s| => s[i] / d)
  }

  function Softmax(logits: seq<real>, exp: real -> real): seq<real>
    requires logits != [] && forall x :: exp(x) > 0.0
  {
    ExpsPositive(logits, exp);
    Divided(Exps(logits, exp), Total(Exps(logits, exp)))
  }

  // ----- The three filters -----

  /** What is left of a sequence when everything below a threshold is set to zero. */
  function AtLeast(probs: seq<real>, threshold: real): seq<real> {
    seq(|probs|, i requires 0 <= i < |probs| => if probs[i] < threshold then 0.0 else probs[i])
  }

  method ZeroBelow(probs: array<real>, threshold: real)
    modifies probs
    ensures probs[..] == AtLeast(old(probs[..]), threshold)
  {
    for i := 0 to probs.Length
      invariant forall j | i <= j < probs.Length :: probs[j] == old(probs[j])
      invariant forall j | 0 <= j < i :: probs[j] == AtLeast(old(probs[..]), threshold)[j]
    {
      if probs[i] < threshold {
        probs[i] := 0.0;
      }
    }
  }

  /** The threshold is the value at position `k` of the descending order, that is the (k+1)-th largest. */
  function TopKThreshold(probs: seq<real>, k: nat): real {
    if k < |probs| then probs[Order(probs)[k]] else 0.0
  }

  function TopK(probs: seq<real>, k: nat): seq<real> { AtLeast(probs, TopKThreshold(probs, k)) }

  method ApplyTopK(probs: array<real>, k: nat)
    modifies probs
    ensures probs[..] == TopK(old(probs[..]), k)
  {
    ZeroBelow(probs, TopKThreshold(probs[..], k));
  }

  /** The mass of the first `n` tokens of the descending order. */
  function Mass(probs: seq<real>, n: nat): real
    requires n <= |probs|
  {
    if n == 0 then 0.0 else Mass(probs, n - 1) + probs[Order(probs)[n - 1]]
  }

  /** The shortest sorted prefix, of more than `n` tokens, with mass above `topP`, or everything. */
  function Cutoff(probs: seq<real>, topP: real, n: nat): (m: nat)
    requires n <= |probs|
    ensures n <= m <= |probs|
    decreases |probs| - n
  {
    if n == |probs| then n
    else if Mass(probs, n + 1) > topP then n + 1
    else Cutoff(probs, topP, n + 1)
  }

  function Keeping(probs: seq<real>, kept: seq<nat>): seq<real> {
    seq(|probs|, i requires 0 <= i < |probs| => if i in kept then probs[i] else 0.0)
  }

  function TopP(probs: seq<real>, topP: real): seq<real> {
    Keeping(probs, Order(probs)[..Cutoff(probs, topP, 0)])
  }

  method FindCutoff(probs: array<real>, topP: real) returns (cutoff: nat)
    ensures cutoff == Cutoff(probs[..], topP, 0)
  {
    var order := Order(probs[..]);
    var cumsum := 0.0;
    for i := 0 to |order|
      invariant cumsum == Mass(probs[..], i)
      invariant Cutoff(probs[..], topP, 0) == Cutoff(probs[..], topP, i)
    {
      cumsum := cumsum + probs[order[i]];
      if cumsum > topP {
        return i + 1;
      }
    }
    cutoff := |order|;
  }

  method ApplyTopP(probs: array<real>, topP: real)
    modifies probs
    ensures probs[..] == TopP(old(probs[..]), topP)
  {
    var cutoff := FindCutoff(probs, topP);
    var kept := Order(probs[..])[..cutoff];
    for i := 0 to probs.Length
      invariant forall j | i <= j < probs.Length :: probs[j] == old(probs[j])
      invariant forall j | 0 <= j < i :: probs[j] == Keeping(old(probs[..]), kept)[j]
    {
      if i !in kept {
        probs[i] := 0.0;
      }
    }
  }

  /** Folding with `max` from zero. */
  function LargestFromZero(s: seq<real>): real {
    if s == [] then 0.0
    else
      var m := LargestFromZero(s[..|s| - 1]);
      if s[|s| - 1] > m then s[|s| - 1] else m
  }

  function MinP(probs: seq<real>, minP: real): seq<real> { AtLeast(probs, minP * LargestFromZero(probs)) }

  method FoldMax(probs: array<real>) returns (largest: real)
    ensures largest == LargestFromZero(probs[..])
  {
    largest := 0.0;
    for i := 0 to probs.Length
      invariant largest == LargestFromZero(probs[..i])
    {
      assert probs[..i + 1][..i] == probs[..i];
      if probs[i] > largest {
        largest := probs[i];
      }
    }
    assert probs[..probs.Length] == probs[..];
  }

  method ApplyMinP(probs: array<real>, minP: real)
    modifies probs
    ensures probs[..] == MinP(old(probs[..]), minP)
  {
    var largest := FoldMax(probs);
    ZeroBelow(probs, minP * largest);
  }

  /** The filters that the parameters switch on, in order. */
  function Filtered(p: SamplingParams, probs: seq<real>): seq<real> {
    var a := if p.topK > 0 && p.topK < |probs| then TopK(probs, p.topK) else probs;
    var b := if p.topP < 1.0 then TopP(a, p.topP) else a;
    if p.minP > 0.0 then MinP(b, p.minP) else b
  }

  // ----- Renormalisation and the walk -----

  function Renormalised(probs: seq<real>): seq<real>
    requires probs != []
  {
    if Total(probs) > 0.0 then Divided(probs, Total(probs))
    else seq(|probs|, i => 1.0 / |probs| as real)
  }

  /** The first index from `i` on at which the running sum reaches `r`, else the last index. */
  function Walk(probs: seq<real>, r: real, i: nat, cumsum: real): nat
    requires i <= |probs| && probs != []
    decreases |probs| - i
  {
    if i == |probs| then |probs| - 1
    else if cumsum + probs[i] >= r then i
    else Walk(probs, r, i + 1, cumsum + probs[i])
  }

  /** The logits after penalties and temperature. */
  function Adjusted(p: SamplingParams, logits: seq<real>, previous: seq<nat>): seq<real>
    requires p.repetitionPenalty != 0.0
  {
    var a := if p.repetitionPenalty != 1.0 then Repeated(logits, previous, p.repetitionPenalty) else logits;
    if p.frequencyPenalty != 0.0 || p.presencePenalty != 0.0
    then seq(|a|, i requires 0 <= i < |a| =>
           FrequencyPenalised(a[i], Occurrences(previous, i), p.frequencyPenalty, p.presencePenalty))
    else a
  }

  function Scaled(p: SamplingParams, logits: seq<real>): seq<real>
    requires p.temperature != 0.0
  {
    if p.temperature != 1.0 then Divided(logits, p.temperature) else logits
  }

  lemma {:induction false} RepeatedLength(logits: seq<real>, tokens: seq<nat>, penalty: real)
    requires penalty != 0.0
    ensures |Repeated(logits, tokens, penalty)| == |logits|
    decreases |tokens|
  {
    if tokens != [] {
      RepeatedLength(logits, tokens[..|tokens| - 1], penalty);
    }
  }

  /** The probabilities from which a token is finally drawn. */
  function Distribution(p: SamplingParams, logits: seq<real>, previous: seq<nat>, exp: real -> real): (d: seq<real>)
    requires logits != [] && p.repetitionPenalty != 0.0 && p.temperature != 0.0 && forall x :: exp(x) > 0.0
    ensures |d| == |logits|
  {
    RepeatedLength(logits, previous, p.repetitionPenalty);
    Renormalised(Filtered(p, Softmax(Scaled(p, Adjusted(p, logits, previous)), exp)))
  }

  method Sample(p: SamplingParams, rawLogits: seq<real>, previous: seq<nat>, exp: real -> real, r: real)
    returns (result: Result<nat, SamplerError>)
    requires p.repetitionPenalty != 0.0 && forall x :: exp(x) > 0.0
    ensures rawLogits == [] ==> result == Failure(EmptyLogits)
    ensures rawLogits != [] && p.temperature == 0.0
      ==> result.Success? && LastMax(Adjusted(p, rawLogits, previous), result.value)
    ensures rawLogits != [] && p.temperature != 0.0
      ==> result == Success(Walk(Distribution(p, rawLogits, previous, exp), r, 0, 0.0))
  {
    if rawLogits == [] {
      return Failure(EmptyLogits);
    }
    RepeatedLength(rawLogits, previous, p.repetitionPenalty);
    var logits := new real[|rawLogits|](i requires 0 <= i < |rawLogits| => rawLogits[i]);
    assert logits[..] == rawLogits;
    if p.repetitionPenalty != 1.0 {
      ApplyRepetitionPenalty(logits, previous, p.repetitionPenalty);
    }
    if p.frequencyPenalty != 0.0 || p.presencePenalty != 0.0 {
      ApplyFrequencyPresencePenalty(logits, previous, p.frequencyPenalty, p.presencePenalty);
    }
    assert logits[..] == Adjusted(p, rawLogits, previous);
    if p.temperature == 0.0 {
      var best := ArgMax(logits[..]);
      return Success(best);
    }
    var token := Draw(p, logits[..], exp, r);
    result := Success(token);
  }

  /** Temperature, softmax, filters, renormalisation and the walk. */
  method Draw(p: SamplingParams, adjusted: seq<real>, exp: real -> real, r: real) returns (token: nat)
    requires adjusted != [] && p.temperature != 0.0 && forall x :: exp(x) > 0.0
    ensures token == Walk(Renormalised(Filtered(p, Softmax(Scaled(p, adjusted), exp))), r, 0, 0.0)
  {
    var start := Softmax(Scaled(p, adjusted), exp);
    var probs := new real[|start|](i requires 0 <= i < |start| => start[i]);
    assert probs[..] == start;
    ApplyFilters(p, probs);
    Renormalise(probs);
    token := WalkOver(probs, r);
  }

  method ApplyFilters(p: SamplingParams, probs: array<real>)
    modifies probs
    ensures probs[..] == Filtered(p, old(probs[..]))
  {
    if p.topK > 0 && p.topK < probs.Length {
      ApplyTopK(probs, p.topK);
    }
    if p.topP < 1.0 {
      ApplyTopP(probs, p.topP);
    }
    if p.minP > 0.0 {
      ApplyMinP(probs, p.minP);
    }
  }

  method WalkOver(probs: array<real>, r: real) returns (token: nat)
    requires probs.Length > 0
    ensures token == Walk(probs[..], r, 0, 0.0)
  {
    var cumsum := 0.0;
    for i := 0 to probs.Length
      invariant Walk(probs[..], r, 0, 0.0) == Walk(probs[..], r, i, cumsum)
    {
      cumsum := cumsum + probs[i];
      if cumsum >= r {
        return i;
      }
    }
    token := probs.Length - 1;
  }

  method Renormalise(probs: array<real>)
    requires probs.Length > 0
    modifies probs
    ensures probs[..] == Renormalised(old(probs[..]))
  {
    ghost var start := probs[..];
    var sum := 0.0;
    for i := 0 to probs.Length
      invariant probs[..] == start && sum == PrefixSum(start, i)
    {
      sum := sum + probs[i];
    }
    var uniform := 1.0 / probs.Length as real;
    for i := 0 to probs.Length
      invariant forall j | i <= j < probs.Length :: probs[j] == start[j]
      invariant forall j | 0 <= j < i :: probs[j] == if sum > 0.0 then start[j] / sum else uniform
    {
      probs[i] := if sum > 0.0 then probs[i] / sum else uniform;
    }
  }
}
