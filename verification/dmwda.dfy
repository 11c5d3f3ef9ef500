/** The simulation of the difficulty algorithm, over exact real numbers. */
module Dmwda {
  const TargetTime: real := 480.0
  const Minimum: int := 10000

  function Max(a: real, b: real): (r: real) {
    if a < b then b else a
  }

  function Min(a: real, b: real): (r: real) {
    if b < a then b else a
  }

  function MinInt(a: int, b: int): (r: int) {
    if b < a then b else a
  }

  function Sum(s: seq<real>): (r: real) {
    if s == [] then 0.0 else Sum(s[..|s| - 1]) + s[|s| - 1]
  }

  function Total(s: seq<int>): (r: int) {
    if s == [] then 0 else Total(s[..|s| - 1]) + s[|s| - 1]
  }

  predicate Positive(s: seq<real>) {
    forall i :: 0 <= i < |s| ==> s[i] > 0.0
  }

  lemma {:induction false} SumPositive(s: seq<real>)
    requires Positive(s)
    ensures Sum(s) >= 0.0 && (s != [] ==> Sum(s) > 0.0)
  {
    if s != [] {
      SumPositive(s[..|s| - 1]);
    }
  }

  /** `np.mean` */
  function Mean(s: seq<real>): (r: real)
    requires s != []
  {
    Sum(s) / |s| as real
  }

  lemma MeanPositive(s: seq<real>)
    requires Positive(s) && s != []
    ensures Mean(s) > 0.0
  {
    SumPositive(s);
  }

  /** `np.std`: any number. */
  const Deviation: seq<real> -> real

  // ----- moving averages

  predicate InRange(t: real) {
    48.0 <= t <= 4800.0
  }

  /** A block time cut to the range from 48 to 4800. */
  function Clamped(t: real): (r: real)
    ensures InRange(r) && (InRange(t) ==> r == t)
  {
    Max(48.0, Min(4800.0, t))
  }

  /** The block times `1..n`, cut to that range and weighted by their indices. */
  function Weighted(times: seq<real>, n: nat): (r: real)
    requires n < |times| || n == 0
  {
    if n == 0 then 0.0 else Weighted(times, n - 1) + Clamped(times[n]) * n as real
  }

  lemma WeightedStep(times: seq<real>, n: nat)
    requires 0 < n < |times|
    ensures Weighted(times, n) == Weighted(times, n - 1) + Clamped(times[n]) * n as real
  {
  }

  function Weights(n: nat): (r: real) {
    if n == 0 then 0.0 else Weights(n - 1) + n as real
  }

  /** How many block times an average takes in. */
  function Reach(times: seq<real>, window: nat): (n: nat) {
    if |times| == 0 then 0 else if |times| - 1 < window then |times| - 1 else window
  }

  function Average(times: seq<real>, window: nat): (r: real) {
    var n := Reach(times, window);
    if Weights(n) > 0.0 then Weighted(times, n) / Weights(n) else TargetTime
  }

  lemma {:induction false} WeightedBounds(times: seq<real>, n: nat)
    requires n < |times| || n == 0
    ensures 48.0 * Weights(n) <= Weighted(times, n) <= 4800.0 * Weights(n) && Weights(n) >= 0.0 && (n > 0 ==> Weights(n) > 0.0)
  {
    hide Weighted, Weights, Clamped;
    WeightsStep(n);
    if n > 0 {
      WeightedBounds(times, n - 1);
      WeightedStep(times, n);
      Accumulate(Weighted(times, n - 1), Weights(n - 1), Clamped(times[n]), n as real);
    } else {
      NoneWeighted(times);
    }
  }

  lemma WeightsStep(n: nat)
    ensures Weights(n) == if n == 0 then 0.0 else Weights(n - 1) + n as real
  {
  }

  lemma Scaled(a: real, b: real, w: real)
    requires a <= b && w >= 0.0
    ensures a * w <= b * w
  {
  }

  lemma Accumulate(x: real, y: real, t: real, w: real)
    requires 48.0 * y <= x <= 4800.0 * y && 48.0 <= t <= 4800.0 && w >= 0.0
    ensures 48.0 * (y + w) <= x + t * w <= 4800.0 * (y + w)
  {
    Scaled(48.0, t, w);
    Scaled(t, 4800.0, w);
  }

  lemma Sign(p: real, w: real)
    requires w > 0.0 && p * w >= 0.0
    ensures p >= 0.0
  {
  }

  lemma Quotient(a: real, x: real, b: real, w: real)
    requires w > 0.0 && a * w <= x <= b * w
    ensures a <= x / w <= b
  {
    var q := x / w;
    assert q * w == x;
    assert (q - a) * w == x - a * w && (b - q) * w == b * w - x;
    Sign(q - a, w);
    Sign(b - q, w);
  }

  /** Every moving average lies between 48 and 4800; it is 480 if there is nothing to average. */
  lemma AverageBounds(times: seq<real>, window: nat)
    ensures 48.0 <= Average(times, window) <= 4800.0 && (|times| < 2 || window == 0 ==> Average(times, window) == 480.0)
  {
    var n := Reach(times, window);
    WeightedBounds(times, n);
    if Weights(n) > 0.0 {
      Quotient(48.0, Weighted(times, n), 4800.0, Weights(n));
    }
  }

  lemma {:induction false} WeightedPrefix(times: seq<real>, n: nat, m: nat)
    requires n < m <= |times|
    ensures Weighted(times[..m], n) == Weighted(times, n)
  {
    if n > 0 {
      WeightedPrefix(times, n - 1, m);
    }
  }

  /** An average does not move: it takes in the first block times of the chain, whatever comes later. */
  lemma AverageIsFixed(times: seq<real>, more: seq<real>, window: nat)
    requires |times| > window
    ensures Average(times + more, window) == Average(times, window)
  {
    WeightedPrefix(times + more, window, |times|);
    assert (times + more)[..|times|] == times;
  }

  /** Two ways in which a chain may go on: with a fast block, or with a slow one. */
  function Fast(times: seq<real>): (more: seq<real>) {
    if times == [] then [48.0, 48.0] else [48.0]
  }

  function Slow(times: seq<real>): (more: seq<real>) {
    if times == [] then [48.0, 4800.0] else [4800.0]
  }

  lemma Greater(x: real, d: real, w: real)
    requires w > 0.0 && d > 0.0
    ensures x / w < (x + d) / w
  {
    assert (x + d) / w == x / w + d / w;
    Positivity(d, w);
  }

  lemma Positivity(d: real, w: real)
    requires w > 0.0 && d > 0.0
    ensures d / w > 0.0
  {
    assert d / w * w == d;
  }

  /** As long as the window is not full, the next block moves the average. */
  lemma AverageMoves(times: seq<real>, window: nat)
    requires |times| <= window && window > 0
    ensures Average(times + Fast(times), window) < Average(times + Slow(times), window)
  {
    var fast, slow := times + Fast(times), times + Slow(times);
    var n := if times == [] then 1 else |times|;
    assert Reach(fast, window) == n && Reach(slow, window) == n;
    assert fast[n] == 48.0 && slow[n] == 4800.0 && fast[..n] == slow[..n];
    WeightedPrefix(fast, n - 1, n);
    WeightedPrefix(slow, n - 1, n);
    WeightedBounds(fast, n);
    assert Weighted(slow, n) == Weighted(fast, n) + 4752.0 * n as real;
    Greater(Weighted(fast, n), 4752.0 * n as real, Weights(n));
  }

  /** So it is fixed exactly when the window is full. */
  lemma FixedIff(times: seq<real>, window: nat)
    ensures (forall x, y :: Average(times + x, window) == Average(times + y, window)) <==> |times| > window || window == 0
  {
    if |times| > window {
      forall x, y
        ensures Average(times + x, window) == Average(times + y, window)
      {
        AverageIsFixed(times, x, window);
        AverageIsFixed(times, y, window);
      }
    } else if window > 0 {
      AverageMoves(times, window);
    }
  }

  method CalculateLwma(times: seq<real>, window: nat) returns (r: real)
    ensures r == Average(times, window)
  {
    if |times| < 2 {
      return 480.0;
    }
    var weightedSum, weightSum := 0.0, 0.0;
    var stop := MinInt(|times|, window + 1);
    for i := 1 to stop
      invariant weightedSum == Weighted(times, i - 1) && weightSum == Weights(i - 1)
    {
      var solveTime := Max(48.0, Min(4800.0, times[i]));
      weightedSum := weightedSum + solveTime * i as real;
      weightSum := weightSum + i as real;
    }
    r := if weightSum > 0.0 then weightedSum / weightSum else 480.0;
  }

  // ----- confidence

  method CalculateConfidence(times: seq<real>, index: nat) returns (confidence: real)
    requires index < |times| && Positive(times)
    ensures 0.1 <= confidence <= 1.0
  {
    if index < 10 {
      return 0.5;
    }
    var recent := times[index - 10..index + 1];
    if |recent| < 2 {
      return 0.5;
    }
    MeanPositive(recent);
    var cv := Deviation(recent) / Mean(recent);
    confidence := Max(0.1, Min(1.0, 1.0 - cv));
  }

  /** The combined average: the confidence cancels. */
  lemma ConfidenceCancels(s: real, m: real, l: real, c: real)
    requires c > 0.0
    ensures 0.4 * c + 0.4 * c + 0.2 * c > 0.0
    ensures (s * (0.4 * c) + m * (0.4 * c) + l * (0.2 * c)) / (0.4 * c + 0.4 * c + 0.2 * c) == 0.4 * s + 0.4 * m + 0.2 * l
  {
    var x := 0.4 * s + 0.4 * m + 0.2 * l;
    assert 0.4 * c + 0.4 * c + 0.2 * c == c;
    assert s * (0.4 * c) + m * (0.4 * c) + l * (0.2 * c) == x * c;
    assert x * c / c == x;
  }

  /** The average of the three windows at block `i`. */
  function Combined(times: seq<real>, i: nat): (r: real) {
    0.4 * Average(times, MinInt(i, 15)) + 0.4 * Average(times, MinInt(i, 45)) + 0.2 * Average(times, MinInt(i, 120))
  }

  // ----- one step

  /** The block times that tell whether there is an emergency. */
  function Recent(times: seq<real>, i: nat): (s: seq<real>)
    requires i < |times|
    ensures s != []
  {
    times[if i < 5 then 0 else i - 5..i + 1]
  }

  /** The factor by which the difficulty should change at block `i`. */
  function Ratio(times: seq<real>, i: nat): (r: real)
    requires i < |times| && Positive(times)
  {
    var average := Mean(Recent(times, i));
    MeanPositive(Recent(times, i));
    if average < TargetTime * 0.1 || average > TargetTime / 0.1 then Max(0.1, Min(1.0 / 0.1, TargetTime / average))
    else
      CombinedBounds(times, i);
      Max(0.5, Min(4.0, TargetTime / Combined(times, i)))
  }

  lemma RatioBounds(times: seq<real>, i: nat)
    requires i < |times| && Positive(times)
    ensures 0.1 <= Ratio(times, i) <= 10.0
  {
  }

  /** The new difficulty: the old one times the factor, smoothed, and not below the minimum. */
  function Next(d: int, ratio: real): (r: int) {
    var wanted := (d as real * ratio).Floor;
    var smooth := (0.3 * wanted as real + (1.0 - 0.3) * d as real).Floor;
    if smooth < Minimum then Minimum else smooth
  }

  lemma FloorBounds(x: real)
    ensures x - 1.0 < x.Floor as real <= x
  {
  }

  lemma ProductBounds(x: real, ratio: real)
    requires x >= 0.0 && 0.1 <= ratio <= 10.0
    ensures 0.1 * x <= x * ratio <= 10.0 * x
  {
    Scaled(0.1, ratio, x);
    Scaled(ratio, 10.0, x);
    assert ratio * x == x * ratio;
  }

  /** How far one step can go. */
  lemma NextBounds(d: int, ratio: real)
    requires d >= Minimum && 0.1 <= ratio <= 10.0
    ensures Next(d, ratio) >= Minimum && 0.73 * d as real - 2.0 <= Next(d, ratio) as real <= 3.7 * d as real
  {
    var x := d as real;
    ProductBounds(x, ratio);
    var p := x * ratio;
    FloorBounds(p);
    var wanted := p.Floor as real;
    var q := 0.3 * wanted + (1.0 - 0.3) * x;
    FloorBounds(q);
  }

  /** The difficulty at each block: unchanged in the first three, then step by step. */
  function Difficulties(times: seq<real>, initial: int, n: nat): (ds: seq<int>)
    requires Positive(times) && (n < |times| || n == 0)
    ensures |ds| == n + 1
  {
    if n == 0 then [initial]
    else
      var before := Difficulties(times, initial, n - 1);
      before + [if n < 3 then initial else Next(before[n - 1], Ratio(times, n))]
  }

  lemma DifficultiesStep(times: seq<real>, initial: int, n: nat)
    requires Positive(times) && (n < |times| || n == 0)
    ensures n == 0 ==> Difficulties(times, initial, n) == [initial]
    ensures n > 0 ==> var before := Difficulties(times, initial, n - 1);
                      Difficulties(times, initial, n) == before + [if n < 3 then initial else Next(before[n - 1], Ratio(times, n))]
  {
  }

  /** The first three blocks have the initial difficulty, and each one behind them takes a step from the one before it. */
  ghost predicate Stepwise(times: seq<real>, initial: int, ds: seq<int>)
    requires Positive(times)
  {
    && (forall k :: 0 <= k < 3 && k < |ds| ==> ds[k] == initial)
    && (forall k {:trigger ds[k]} :: 3 <= k < |ds| && k < |times| ==> ds[k] == Next(ds[k - 1], Ratio(times, k)))
  }

  lemma {:induction false} RunSteps(times: seq<real>, initial: int, n: nat)
    requires Positive(times) && (n < |times| || n == 0)
    ensures Stepwise(times, initial, Difficulties(times, initial, n))
  {
    hide Difficulties, Next, Ratio, Positive;
    DifficultiesStep(times, initial, n);
    if n > 0 {
      RunSteps(times, initial, n - 1);
    }
  }

  /** The difficulties are at or above the minimum, and from the fourth block on each is bounded by the one before it. */
  ghost predicate Bounded(ds: seq<int>) {
    && (forall i :: 0 <= i < |ds| ==> ds[i] >= Minimum)
    && (forall i {:trigger ds[i]} :: 3 <= i < |ds| ==> 0.73 * ds[i - 1] as real - 2.0 <= ds[i] as real <= 3.7 * ds[i - 1] as real)
  }

  lemma BoundedMore(ds: seq<int>, d: int)
    requires Bounded(ds) && ds != [] && d >= Minimum
    requires |ds| >= 3 ==> 0.73 * ds[|ds| - 1] as real - 2.0 <= d as real <= 3.7 * ds[|ds| - 1] as real
    ensures Bounded(ds + [d])
  {
  }

  /** Every run stays within these bounds. */
  lemma {:induction false} RunBounds(times: seq<real>, initial: int, n: nat)
    requires Positive(times) && (n < |times| || n == 0) && initial >= Minimum
    ensures Bounded(Difficulties(times, initial, n))
  {
    hide Difficulties, Next, Ratio, Positive;
    DifficultiesStep(times, initial, n);
    if n > 0 {
      RunBounds(times, initial, n - 1);
      var before := Difficulties(times, initial, n - 1);
      if n >= 3 {
        RatioBounds(times, n);
        NextBounds(before[n - 1], Ratio(times, n));
        BoundedMore(before, Next(before[n - 1], Ratio(times, n)));
      } else {
        BoundedMore(before, initial);
      }
    }
  }

  // ----- the weight of each block time

  lemma {:induction false} WeightsClosed(n: nat)
    ensures 2.0 * Weights(n) == n as real * (n as real + 1.0)
  {
    if n > 0 {
      WeightsClosed(n - 1);
    }
  }

  /** The part that block time `k` has in an average over `n` of them: the first has none, and the others have more the later they are. */
  function Share(k: nat, n: nat): (r: real) {
    if 1 <= k <= n then 2.0 * k as real / (n as real * (n as real + 1.0)) else 0.0
  }

  lemma NoneWeighted(times: seq<real>)
    ensures Weighted(times, 0) == 0.0
  {
  }

  lemma {:induction false} WeightedChange(times: seq<real>, n: nat, k: nat, t: real)
    requires (n < |times| || n == 0) && k < |times| && InRange(times[k]) && InRange(t)
    ensures Weighted(times[k := t], n) == Weighted(times, n) + (if 1 <= k <= n then (t - times[k]) * k as real else 0.0)
  {
    hide Weighted, Clamped;
    if n > 0 {
      WeightedChange(times, n - 1, k, t);
      WeightedStep(times, n);
      WeightedStep(times[k := t], n);
    } else {
      NoneWeighted(times);
      NoneWeighted(times[k := t]);
    }
  }

  lemma Spread(x: real, d: real, k: real, w: real)
    requires w > 0.0
    ensures (x + d * k) / w == x / w + d * (k / w)
  {
    var q := k / w;
    assert q * w == k;
    assert d * k == d * q * w;
    assert (x / w + d * q) * w == x + d * k;
  }

  lemma ShareIs(k: nat, n: nat)
    requires 1 <= k <= n
    ensures Weights(n) > 0.0 && k as real / Weights(n) == Share(k, n)
  {
    WeightsClosed(n);
    var w, x := Weights(n), n as real * (n as real + 1.0);
    assert x > 0.0;
    Doubled(k as real, w);
  }

  lemma Doubled(k: real, w: real)
    requires w > 0.0
    ensures 2.0 * k / (2.0 * w) == k / w
  {
    var q := k / w;
    assert q * w == k;
    assert 2.0 * k == q * (2.0 * w);
  }

  /** A change of one block time changes an average by its part in it. */
  lemma AverageChange(times: seq<real>, window: nat, k: nat, t: real)
    requires window < |times| && k < |times| && InRange(times[k]) && InRange(t)
    ensures Average(times[k := t], window) == Average(times, window) + (t - times[k]) * Share(k, window)
  {
    hide Weighted, Share;
    WeightedChange(times, window, k, t);
    if 1 <= k <= window {
      ShareIs(k, window);
      Spread(Weighted(times, window), t - times[k], k as real, Weights(window));
    } else {
      NoShare(k, window);
    }
  }

  lemma NoShare(k: nat, n: nat)
    requires !(1 <= k <= n)
    ensures Share(k, n) == 0.0
  {
  }

  /** The part that block time `k` has in the combined average at block `i`: the windows end at blocks 15, 45 and 120. */
  lemma CombinedChange(times: seq<real>, i: nat, k: nat, t: real)
    requires i < |times| && k < |times| && InRange(times[k]) && InRange(t)
    ensures Combined(times[k := t], i) == Combined(times, i) + (t - times[k])
            * (0.4 * Share(k, if i < 15 then i else 15) + 0.4 * Share(k, if i < 45 then i else 45) + 0.2 * Share(k, if i < 120 then i else 120))
  {
    hide Average, Share;
    AverageChange(times, MinInt(i, 15), k, t);
    AverageChange(times, MinInt(i, 45), k, t);
    AverageChange(times, MinInt(i, 120), k, t);
  }

  // ----- the direction of a step

  ghost predicate NoSlower(times: seq<real>, slower: seq<real>) {
    |times| == |slower| && forall k :: 0 <= k < |times| ==> times[k] <= slower[k]
  }

  lemma ClampedMonotone(t: real, u: real)
    requires t <= u
    ensures Clamped(t) <= Clamped(u)
  {
  }

  lemma AccumulateMore(x: real, y: real, t: real, u: real, w: real)
    requires x <= y && t <= u && w >= 0.0
    ensures x + t * w <= y + u * w
  {
    Scaled(t, u, w);
    Added(x, y, t * w, u * w);
  }

  lemma Added(x: real, y: real, p: real, q: real)
    requires x <= y && p <= q
    ensures x + p <= y + q
  {
  }

  lemma {:induction false} WeightedMonotone(times: seq<real>, slower: seq<real>, n: nat)
    requires NoSlower(times, slower) && (n < |times| || n == 0)
    ensures Weighted(times, n) <= Weighted(slower, n)
  {
    hide Weighted, Clamped;
    if n > 0 {
      WeightedMonotone(times, slower, n - 1);
      WeightedStep(times, n);
      WeightedStep(slower, n);
      ClampedMonotone(times[n], slower[n]);
      AccumulateMore(Weighted(times, n - 1), Weighted(slower, n - 1), Clamped(times[n]), Clamped(slower[n]), n as real);
    } else {
      NoneWeighted(times);
      NoneWeighted(slower);
    }
  }

  lemma Divided(x: real, y: real, w: real)
    requires x <= y && w > 0.0
    ensures x / w <= y / w
  {
    if x < y {
      Greater(x, y - x, w);
    }
  }

  lemma AverageMonotone(times: seq<real>, slower: seq<real>, window: nat)
    requires NoSlower(times, slower)
    ensures Average(times, window) <= Average(slower, window)
  {
    var n := Reach(times, window);
    WeightedMonotone(times, slower, n);
    if Weights(n) > 0.0 {
      Divided(Weighted(times, n), Weighted(slower, n), Weights(n));
    }
  }

  lemma CombinedMonotone(times: seq<real>, slower: seq<real>, i: nat)
    requires NoSlower(times, slower)
    ensures Combined(times, i) <= Combined(slower, i)
  {
    hide Average;
    AverageMonotone(times, slower, MinInt(i, 15));
    AverageMonotone(times, slower, MinInt(i, 45));
    AverageMonotone(times, slower, MinInt(i, 120));
  }

  lemma {:induction false} SumMonotone(s: seq<real>, t: seq<real>)
    requires NoSlower(s, t)
    ensures Sum(s) <= Sum(t)
    decreases |s|
  {
    if s != [] {
      SumMonotone(s[..|s| - 1], t[..|t| - 1]);
    }
  }

  lemma Inverse(x: real, y: real)
    requires 0.0 < x <= y
    ensures 0.0 < TargetTime / y <= TargetTime / x && TargetTime / x * x == TargetTime
  {
    var p, q := TargetTime / x, TargetTime / y;
    assert p * x == TargetTime && q * y == TargetTime;
    Positivity(TargetTime, y);
    Scaled(x, y, q);
    assert (p - q) * x >= 0.0;
    Sign(p - q, x);
  }

  /** The factor is exactly 10 when the last six blocks took less than 48 on average, exactly one tenth when they took more than
      4800, and otherwise between one half and 4. */
  lemma RatioKinds(times: seq<real>, i: nat)
    requires i < |times| && Positive(times)
    ensures var m := Mean(Recent(times, i));
            if m < 48.0 then Ratio(times, i) == 10.0
            else if m > 4800.0 then Ratio(times, i) == 0.1
            else 0.5 <= Ratio(times, i) <= 4.0
    ensures var m, c := Mean(Recent(times, i)), Combined(times, i);
            48.0 <= m <= 4800.0 ==>
              && (c <= 120.0 ==> Ratio(times, i) == 4.0) && (c >= 960.0 ==> Ratio(times, i) == 0.5)
              && (120.0 <= c <= 960.0 ==> Ratio(times, i) * c == 480.0)
  {
    hide Combined, Mean;
    var m, c := Mean(Recent(times, i)), Combined(times, i);
    MeanPositive(Recent(times, i));
    CombinedBounds(times, i);
    Thresholds(m);
    Thresholds(c);
  }

  /** The last six block times decide about an emergency. */
  lemma EmergencyIff(times: seq<real>, i: nat)
    requires 5 <= i < |times| && Positive(times)
    ensures var sum := times[i - 5] + times[i - 4] + times[i - 3] + times[i - 2] + times[i - 1] + times[i];
            (Ratio(times, i) == 10.0 <==> sum < 288.0) && (Ratio(times, i) == 0.1 <==> sum > 28800.0)
  {
    hide Mean, Ratio;
    RatioKinds(times, i);
    SixMean(times, i);
  }

  lemma SixMean(times: seq<real>, i: nat)
    requires 5 <= i < |times|
    ensures 6.0 * Mean(Recent(times, i)) == times[i - 5] + times[i - 4] + times[i - 3] + times[i - 2] + times[i - 1] + times[i]
  {
    var s := Recent(times, i);
    assert |s| == 6;
    assert s[..5][..4] == s[..4] && s[..4][..3] == s[..3] && s[..3][..2] == s[..2] && s[..2][..1] == s[..1] && s[..1][..0] == [];
    assert Sum(s[..1]) == s[0];
    assert Sum(s[..3]) == s[0] + s[1] + s[2];
    assert Sum(s[..5]) == Sum(s[..3]) + s[3] + s[4];
    assert Sum(s) == Sum(s[..5]) + s[5];
  }

  lemma Thresholds(x: real)
    requires x > 0.0
    ensures TargetTime / x * x == 480.0
    ensures (x < 48.0 ==> TargetTime / x > 10.0) && (x > 4800.0 ==> TargetTime / x < 0.1)
    ensures (TargetTime / x >= 4.0 <==> x <= 120.0) && (TargetTime / x <= 0.5 <==> x >= 960.0)
  {
    var q := TargetTime / x;
    assert q * x == 480.0;
    Limits(q, x);
  }

  lemma Limits(q: real, x: real)
    requires x > 0.0 && q * x == 480.0
    ensures (x < 48.0 ==> q > 10.0) && (x > 4800.0 ==> q < 0.1) && (q >= 4.0 <==> x <= 120.0) && (q <= 0.5 <==> x >= 960.0)
  {
    Reciprocal(q, x, 10.0, 48.0);
    Reciprocal(q, x, 4.0, 120.0);
    Reciprocal(q, x, 0.5, 960.0);
    Reciprocal(q, x, 0.1, 4800.0);
  }

  lemma Reciprocal(q: real, x: real, c: real, b: real)
    requires x > 0.0 && c > 0.0 && q * x == c * b
    ensures (q > c <==> x < b) && (q < c <==> x > b)
  {
    Compared(q, c, x);
    Compared(x, b, c);
    assert c * x == x * c && c * b == b * c;
  }

  lemma Compared(q: real, c: real, x: real)
    requires x > 0.0
    ensures q > c <==> q * x > c * x
    ensures q < c <==> q * x < c * x
  {
    if q > c {
      assert (q - c) * x > 0.0;
    } else if q < c {
      assert (c - q) * x > 0.0;
    }
  }

  lemma MeanMonotone(times: seq<real>, slower: seq<real>, i: nat)
    requires NoSlower(times, slower) && i < |times|
    ensures Mean(Recent(times, i)) <= Mean(Recent(slower, i))
  {
    hide Sum;
    var s, t := Recent(times, i), Recent(slower, i);
    SumMonotone(s, t);
    Divided(Sum(s), Sum(t), |s| as real);
  }

  /** Shorter block times never give a smaller factor. */
  lemma RatioMonotone(times: seq<real>, slower: seq<real>, i: nat)
    requires i < |times| && Positive(times) && Positive(slower) && NoSlower(times, slower)
    ensures Ratio(times, i) >= Ratio(slower, i)
  {
    hide Combined, Mean, NoSlower, Positive;
    SameSize(times, slower);
    RatioKinds(times, i);
    RatioKinds(slower, i);
    MeanMonotone(times, slower, i);
    CombinedMonotone(times, slower, i);
    CombinedBounds(times, i);
    Inverse(Combined(times, i), Combined(slower, i));
  }

  lemma SameSize(times: seq<real>, slower: seq<real>)
    requires NoSlower(times, slower)
    ensures |times| == |slower|
  {
  }

  lemma Products(x: real, less: real, y: real, ratio: real)
    requires 0.0 <= x <= y && 0.0 <= less <= ratio
    ensures x * less <= y * ratio
  {
    Scaled(x, y, less);
    Scaled(less, ratio, y);
    assert y * less == less * y && y * ratio == ratio * y;
  }

  /** The new difficulty, from the wanted one before it is rounded. */
  function Settle(d: int, p: real): (r: int) {
    var smooth := (0.3 * p.Floor as real + (1.0 - 0.3) * d as real).Floor;
    if smooth < Minimum then Minimum else smooth
  }

  lemma NextSettles(d: int, ratio: real)
    ensures Next(d, ratio) == Settle(d, d as real * ratio)
  {
  }

  lemma NextMonotone(d: int, ratio: real, e: int, less: real)
    requires 0 <= e <= d && 0.0 <= less <= ratio
    ensures Next(e, less) <= Next(d, ratio)
  {
    hide Next;
    NextSettles(d, ratio);
    NextSettles(e, less);
    Products(e as real, less, d as real, ratio);
    Smoothed(e as real, e as real * less, d as real, d as real * ratio);
  }

  lemma Smoothed(x: real, p: real, y: real, q: real)
    requires x <= y && p <= q
    ensures (0.3 * p.Floor as real + (1.0 - 0.3) * x).Floor <= (0.3 * q.Floor as real + (1.0 - 0.3) * y).Floor
  {
    FloorMonotone(p, q);
    FloorMonotone(0.3 * p.Floor as real + (1.0 - 0.3) * x, 0.3 * q.Floor as real + (1.0 - 0.3) * y);
  }

  lemma FloorMonotone(x: real, y: real)
    requires x <= y
    ensures x.Floor <= y.Floor
  {
  }

  /** A chain whose blocks are found faster never has the smaller difficulty. */
  lemma {:induction false} RunMonotone(times: seq<real>, slower: seq<real>, initial: int, n: nat, k: nat)
    requires Positive(times) && Positive(slower) && NoSlower(times, slower) && (n < |times| || n == 0) && initial >= Minimum && k <= n
    ensures (n < |slower| || n == 0) && Difficulties(times, initial, n)[k] >= Difficulties(slower, initial, n)[k]
    decreases n
  {
    hide Difficulties, Next, Ratio, Positive, NoSlower;
    SameSize(times, slower);
    DifficultiesStep(times, initial, n);
    DifficultiesStep(slower, initial, n);
    if n > 0 {
      RunMonotone(times, slower, initial, n - 1, if k == n then n - 1 else k);
      if k == n && n >= 3 {
        var d, e := Difficulties(times, initial, n - 1)[n - 1], Difficulties(slower, initial, n - 1)[n - 1];
        AtLeastMinimum(slower, initial, n - 1);
        RatioMonotone(times, slower, n);
        RatioBounds(slower, n);
        NextMonotone(d, Ratio(times, n), e, Ratio(slower, n));
      }
    }
  }

  lemma AtLeastMinimum(times: seq<real>, initial: int, n: nat)
    requires Positive(times) && (n < |times| || n == 0) && initial >= Minimum
    ensures Difficulties(times, initial, n)[n] >= Minimum
  {
    hide Difficulties;
    RunBounds(times, initial, n);
  }

  // ----- a steady chain

  ghost predicate Steady(times: seq<real>, t: real) {
    forall k :: 0 <= k < |times| ==> times[k] == t
  }

  lemma {:induction false} SteadyWeighted(times: seq<real>, t: real, n: nat)
    requires Steady(times, t) && InRange(t) && (n < |times| || n == 0)
    ensures Weighted(times, n) == t * Weights(n)
  {
    if n > 0 {
      SteadyWeighted(times, t, n - 1);
    }
  }

  lemma SteadyAverage(times: seq<real>, t: real, window: nat)
    requires Steady(times, t) && InRange(t) && |times| >= 2 && window >= 1
    ensures Average(times, window) == t
  {
    var n := Reach(times, window);
    WeightedBounds(times, n);
    SteadyWeighted(times, t, n);
    assert t * Weights(n) / Weights(n) == t;
  }

  lemma {:induction false} SteadySum(s: seq<real>, t: real)
    requires Steady(s, t)
    ensures Sum(s) == t * |s| as real
  {
    if s != [] {
      SteadySum(s[..|s| - 1], t);
    }
  }

  lemma SteadyMean(s: seq<real>, t: real)
    requires Steady(s, t) && s != []
    ensures Mean(s) == t
  {
    SteadySum(s, t);
    assert t * |s| as real / |s| as real == t;
  }

  /** With blocks that all take the time `t`, the factor brings it to 480, as far as its limits allow. */
  lemma SteadyRatio(times: seq<real>, t: real, i: nat)
    requires Steady(times, t) && t > 0.0 && 1 <= i < |times|
    ensures Positive(times)
    ensures t < 48.0 ==> Ratio(times, i) == 10.0
    ensures 48.0 <= t <= 120.0 ==> Ratio(times, i) == 4.0
    ensures 120.0 <= t <= 960.0 ==> Ratio(times, i) * t == 480.0
    ensures 960.0 <= t <= 4800.0 ==> Ratio(times, i) == 0.5
    ensures t > 4800.0 ==> Ratio(times, i) == 0.1
  {
    hide Average, Mean, Ratio;
    RatioKinds(times, i);
    SteadyMean(Recent(times, i), t);
    if InRange(t) {
      SteadyAverage(times, t, MinInt(i, 15));
      SteadyAverage(times, t, MinInt(i, 45));
      SteadyAverage(times, t, MinInt(i, 120));
    }
  }

  /** At the target time the difficulty stays what it is. */
  lemma {:induction false} SteadyRun(times: seq<real>, initial: int, n: nat)
    requires Steady(times, 480.0) && (n < |times| || n == 0) && initial >= 10000
    ensures Positive(times) && forall k :: 0 <= k <= n ==> Difficulties(times, initial, n)[k] == initial
  {
    hide Difficulties, Next, Ratio;
    DifficultiesStep(times, initial, n);
    if n > 0 {
      SteadyRun(times, initial, n - 1);
      if n >= 3 {
        SteadyRatio(times, 480.0, n);
        NextSame(initial, Ratio(times, n));
      }
    }
  }

  lemma NextSame(d: int, ratio: real)
    requires d >= 10000 && ratio * 480.0 == 480.0
    ensures Next(d, ratio) == d
  {
    assert ratio == 1.0 && d as real * ratio == d as real;
  }

  /** A step goes three tenths of the way to the wanted difficulty, rounded down twice. */
  lemma NextClose(d: int, ratio: real)
    ensures var way := d as real + 0.3 * (d as real * ratio - d as real);
            if Next(d, ratio) > 10000 then way - 1.3 < Next(d, ratio) as real <= way else Next(d, ratio) == 10000 && way < 10001.3
  {
    var p := d as real * ratio;
    FloorBounds(p);
    var q := 0.3 * p.Floor as real + (1.0 - 0.3) * d as real;
    FloorBounds(q);
  }

  /** The combined average as the source computes it. */
  method CombinedLwma(times: seq<real>, i: nat) returns (combined: real)
    requires i < |times| && Positive(times)
    ensures combined == Combined(times, i)
  {
    hide Average, Positive;
    var short := CalculateLwma(times, MinInt(i, 15));
    var medium := CalculateLwma(times, MinInt(i, 45));
    var long := CalculateLwma(times, MinInt(i, 120));
    var confidence := CalculateConfidence(times, i);
    ConfidenceCancels(short, medium, long, confidence);
    var shortWeight, mediumWeight, longWeight := 0.4 * confidence, 0.4 * confidence, 0.2 * confidence;
    combined := (short * shortWeight + medium * mediumWeight + long * longWeight) / (shortWeight + mediumWeight + longWeight);
  }

  lemma CombinedBounds(times: seq<real>, i: nat)
    ensures 48.0 <= Combined(times, i) <= 4800.0
  {
    AverageBounds(times, MinInt(i, 15));
    AverageBounds(times, MinInt(i, 45));
    AverageBounds(times, MinInt(i, 120));
  }

  /** From block 120 on, the combined average is one and the same number: it no longer reacts to the block times. */
  lemma CombinedIsFixed(times: seq<real>, more: seq<real>, i: nat)
    requires |times| > 120 && i >= 120
    ensures Combined(times + more, i) == Combined(times, 120)
  {
    AverageIsFixed(times, more, 15);
    AverageIsFixed(times, more, 45);
    AverageIsFixed(times, more, 120);
  }

  lemma AverageTurns(times: seq<real>, window: nat)
    requires window > 0
    ensures Average(times + Fast(times), window) <= Average(times + Slow(times), window)
  {
    if |times| > window {
      AverageIsFixed(times, Fast(times), window);
      AverageIsFixed(times, Slow(times), window);
    } else {
      AverageMoves(times, window);
    }
  }

  /** And it reacts to them as long as there are no more than 120. */
  lemma CombinedFixedIff(times: seq<real>, i: nat)
    requires i >= 120
    ensures (forall x, y :: Combined(times + x, i) == Combined(times + y, i)) <==> |times| > 120
  {
    if |times| > 120 {
      forall x, y
        ensures Combined(times + x, i) == Combined(times + y, i)
      {
        CombinedIsFixed(times, x, i);
        CombinedIsFixed(times, y, i);
      }
    } else {
      AverageTurns(times, 15);
      AverageTurns(times, 45);
      AverageMoves(times, 120);
      assert Combined(times + Fast(times), i) < Combined(times + Slow(times), i);
    }
  }

  /** The factor as the source computes it. */
  method ComputeRatio(times: seq<real>, i: nat) returns (ratio: real)
    requires i < |times| && Positive(times)
    ensures ratio == Ratio(times, i)
  {
    hide Combined, Sum, Average;
    var recent := times[if i < 5 then 0 else i - 5..i + 1];
    var average := Mean(recent);
    MeanPositive(recent);
    if average < TargetTime * 0.1 || average > TargetTime / 0.1 {
      ratio := TargetTime / average;
      ratio := Max(0.1, Min(1.0 / 0.1, ratio));
    } else {
      var combined := CombinedLwma(times, i);
      CombinedBounds(times, i);
      ratio := TargetTime / combined;
      ratio := Max(0.5, Min(4.0, ratio));
    }
  }

  method NewDifficulty(times: seq<real>, i: nat, last: int) returns (d: int)
    requires i < |times| && Positive(times)
    ensures d == Next(last, Ratio(times, i))
  {
    hide Ratio, Next;
    var ratio := ComputeRatio(times, i);
    d := Adjust(last, ratio);
  }

  method Adjust(last: int, ratio: real) returns (d: int)
    ensures d == Next(last, ratio)
  {
    var wanted := (last as real * ratio).Floor;
    var smooth := (0.3 * wanted as real + (1.0 - 0.3) * last as real).Floor;
    d := if smooth < Minimum then Minimum else smooth;
  }

  /** Runs the simulation: the timestamps are running sums of the block times, and the cumulative difficulties running sums of the
      difficulties in front of each block, on top of the initial one. */
  method Simulate(times: seq<real>, initial: int) returns (timestamps: seq<real>, difficulties: seq<int>, cumulative: seq<int>)
    requires Positive(times)
    ensures var n := if |times| == 0 then 0 else |times| - 1;
            && |timestamps| == |difficulties| == |cumulative| == n + 1 && difficulties == Difficulties(times, initial, n)
            && (forall k :: 0 <= k <= n ==> cumulative[k] == initial + Total(difficulties[..k]))
            && (forall k :: 1 <= k <= n ==> timestamps[k] == Sum(times[1..k + 1])) && timestamps[0] == 0.0
    ensures Stepwise(times, initial, difficulties) && (initial >= 10000 ==> Bounded(difficulties))
    ensures initial >= 10000 && Steady(times, 480.0) ==> forall k :: 0 <= k < |difficulties| ==> difficulties[k] == initial
  {
    hide Next, Ratio, Positive, Difficulties, Bounded, Steady, Stepwise;
    DifficultiesStep(times, initial, 0);
    difficulties, timestamps, cumulative := [initial], [0.0], [initial];
    var i := 1;
    while i < |times|
      invariant 1 <= i && (i <= |times| || i == 1)
      invariant |timestamps| == |difficulties| == |cumulative| == i && difficulties == Difficulties(times, initial, i - 1)
      invariant forall k :: 0 <= k < i ==> cumulative[k] == initial + Total(difficulties[..k])
      invariant forall k :: 1 <= k < i ==> timestamps[k] == Sum(times[1..k + 1])
      invariant timestamps[0] == 0.0
    {
      timestamps := timestamps + [timestamps[i - 1] + times[i]];
      cumulative := cumulative + [cumulative[i - 1] + difficulties[i - 1]];
      SumMore(times, i);
      DifficultiesStep(times, initial, i);
      TotalMore(difficulties, i);
      var d := initial;
      if i >= 3 {
        d := NewDifficulty(times, i, difficulties[i - 1]);
      }
      ghost var was := difficulties;
      difficulties := difficulties + [d];
      forall k | 0 <= k <= i
        ensures difficulties[..k] == was[..k]
      {
      }
      i := i + 1;
    }
    RunSteps(times, initial, i - 1);
    if initial >= 10000 {
      RunBounds(times, initial, i - 1);
      if Steady(times, 480.0) {
        SteadyRun(times, initial, i - 1);
      }
    }
  }

  lemma SumMore(times: seq<real>, i: nat)
    requires 1 <= i < |times|
    ensures Sum(times[1..i + 1]) == (if i == 1 then 0.0 else Sum(times[1..i])) + times[i]
  {
    assert times[1..i + 1][..i - 1] == times[1..i];
  }

  lemma TotalMore(ds: seq<int>, i: nat)
    requires 1 <= i <= |ds|
    ensures Total(ds[..i]) == Total(ds[..i - 1]) + ds[i - 1]
  {
    assert ds[..i][..i - 1] == ds[..i - 1];
  }
}
