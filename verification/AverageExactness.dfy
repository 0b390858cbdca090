/** Exactly when the validator's average can be trusted: which patterns of validations
with and without a key keep it at or above every sample's minimum, and which keep it at
or below the mean of the samples. */
module AverageExactness {
  import opened Arithmetic
  import opened ValidationStats

  // ---- Exactly when the average is at least every sample's minimum --------------------

  /** The same validations had a key. */
  predicate SamePattern(a: seq<Validation>, b: seq<Validation>) {
    |a| == |b| && forall i :: 0 <= i < |a| ==> a[i].NoKey? == b[i].NoKey?
  }

  /** Whatever times are measured, the average is not below the smallest. */
  ghost predicate NeverBelowSamples(history: seq<Validation>) {
    forall h: seq<Validation>, least: nat ::
      SamePattern(h, history) && AtLeast(h, least) ==> After(h).average >= least
  }

  function Ones(history: seq<Validation>): (ones: seq<Validation>)
    ensures SamePattern(ones, history)
    ensures forall i :: 0 <= i < |ones| && ones[i].Checked? ==> ones[i].elapsed == 1
  {
    seq(|history|, i requires 0 <= i < |history| => if history[i].NoKey? then NoKey else Checked(true, 1))
  }

  lemma {:induction false} OnesStayZero(history: seq<Validation>)
    requires history != [] && history[0].NoKey?
    requires forall i :: 0 <= i < |history| && history[i].Checked? ==> history[i].elapsed == 1
    ensures After(history).average == 0
  {
    var before := history[..|history| - 1];
    CountsAddUp(before);
    if before != [] {
      OnesStayZero(before);
    }
  }

  /** The average stays at or above the smallest sample, whatever the samples are,
  exactly when the first validation had a key. */
  lemma AboveMinimumExactly(history: seq<Validation>)
    requires history != []
    ensures NeverBelowSamples(history) <==> history[0].Checked?
  {
    if history[0].Checked? {
      forall h: seq<Validation>, least: nat | SamePattern(h, history) && AtLeast(h, least)
        ensures After(h).average >= least
      {
        assert h[0].Checked?;
        AverageAboveMinimum(h, least);
      }
    } else {
      var h := Ones(history);
      assert h[0].NoKey?;
      OnesStayZero(h);
      assert AtLeast(h, 1);
    }
  }

  // ---- Exactly when the average is at most the mean of the samples ---------------------

  function Samples(history: seq<Validation>): nat {
    if history == [] then 0
    else Samples(history[..|history| - 1]) + if history[|history| - 1].Checked? then 1 else 0
  }

  /** Without rounding, the average keeps Parts / Whole of the first sample: each later
  sample, the n-th validation, leaves (n - 1) / n of it. */
  function Parts(history: seq<Validation>): nat {
    if history == [] then 0
    else
      var before := history[..|history| - 1];
      if history[|history| - 1].NoKey? then Parts(before)
      else if Samples(before) == 0 then 1
      else Parts(before) * |before|
  }

  function Whole(history: seq<Validation>): nat {
    if history == [] then 1
    else
      var before := history[..|history| - 1];
      if history[|history| - 1].NoKey? then Whole(before) else Whole(before) * |history|
  }

  /** The mean of the samples is never exceeded, whatever they are. */
  ghost predicate NeverAboveMean(history: seq<Validation>) {
    forall h: seq<Validation> :: SamePattern(h, history) ==> Samples(h) * After(h).average <= TotalTime(h)
  }

  lemma {:induction false} PatternDecides(a: seq<Validation>, b: seq<Validation>)
    requires SamePattern(a, b)
    ensures Samples(a) == Samples(b) && Parts(a) == Parts(b) && Whole(a) == Whole(b)
  {
    if a != [] {
      PatternDecides(a[..|a| - 1], b[..|b| - 1]);
    }
  }

  /** No later sample weighs more than the first. */
  lemma {:induction false} FirstWeighsMost(history: seq<Validation>)
    ensures Whole(history) >= 1
    ensures Samples(history) > 0 ==> Parts(history) * |history| >= Whole(history)
    ensures Samples(history) == 0 ==> Whole(history) == 1
  {
    if history != [] {
      var before := history[..|history| - 1];
      FirstWeighsMost(before);
      MulAtLeast(Whole(before), 1, |history|);
      if Samples(before) > 0 {
        MulAtLeast(|history|, |before|, Parts(before));
        MulAtLeast(Parts(before) * |before|, Whole(before), |history|);
      }
    }
  }

  lemma {:induction false} NoSampleNoTime(history: seq<Validation>)
    requires Samples(history) == 0
    ensures After(history).average == 0 && TotalTime(history) == 0
  {
    if history != [] {
      NoSampleNoTime(history[..|history| - 1]);
    }
  }

  /** One more sample keeps the average within the first sample's share of the total. */
  lemma ShareStep(w: nat, p: nat, n: nat, average: nat, total: nat, x: nat)
    requires w * average <= p * total && w <= p * n
    ensures w * (n + 1) * Blend(average, n, x) <= p * n * (total + x)
  {
    var next := Blend(average, n, x);
    FloorDiv(average * n + x, n + 1);
    MulAtLeast(average * n + x, (n + 1) * next, w);
    MulAtLeast(p * total, w * average, n);
    MulAtLeast(p * n, w, x);
    ShareArithmetic(w, p, n, average, total, x, next);
  }

  lemma Spread(w: nat, a: nat, n: nat, x: nat)
    ensures w * (a * n + x) == w * a * n + w * x
  {
    Reassociate(w, a, n);
  }

  lemma Gather(p: nat, n: nat, total: nat, x: nat)
    ensures p * n * (total + x) == p * total * n + p * n * x
  {
    assert p * n * total == p * total * n;
  }

  lemma ShareArithmetic(w: nat, p: nat, n: nat, average: nat, total: nat, x: nat, next: nat)
    requires w * (average * n + x) >= w * ((n + 1) * next)
    requires p * total * n >= w * average * n
    requires p * n * x >= w * x
    ensures w * (n + 1) * next <= p * n * (total + x)
  {
    Spread(w, average, n, x);
    Gather(p, n, total, x);
    Reassociate(w, n + 1, next);
  }

  lemma FirstSample(n: nat, x: nat)
    ensures (n + 1) * Blend(0, n, x) <= x
  {
    FloorDiv(x, n + 1);
  }

  lemma {:induction false} AverageWithinShare(history: seq<Validation>)
    ensures Whole(history) * After(history).average <= Parts(history) * TotalTime(history)
  {
    if history != [] {
      var before := history[..|history| - 1];
      var n := |before|;
      AverageWithinShare(before);
      FirstWeighsMost(before);
      CountsAddUp(before);
      if history[n].Checked? {
        var x := history[n].elapsed;
        if Samples(before) > 0 {
          ShareStep(Whole(before), Parts(before), n, After(before).average, TotalTime(before), x);
        } else {
          NoSampleNoTime(before);
          FirstSample(n, x);
        }
      }
    }
  }

  /** The first sample is `x`, all others are zero. */
  function Spike(history: seq<Validation>, x: nat): (spike: seq<Validation>)
    ensures SamePattern(spike, history)
  {
    if history == [] then []
    else
      var before, last := history[..|history| - 1], history[|history| - 1];
      Spike(before, x) + [if last.NoKey? then NoKey else Checked(true, if Samples(before) == 0 then x else 0)]
  }

  lemma SpikeStep(c: nat, p: nat, n: nat)
    ensures Blend(c * (n + 1) * p, n, 0) == c * (p * n)
  {
    assert c * (n + 1) * p * n == c * (p * n) * (n + 1);
    ExactQuotient(c * (p * n), n + 1);
  }

  lemma SpikeFirst(c: nat, n: nat)
    ensures Blend(0, n, c * (n + 1)) == c
  {
    ExactQuotient(c, n + 1);
  }

  lemma Regroup(c: nat, w: nat, n: nat)
    ensures c * (w * n) == (c * n) * w
  {
  }

  lemma {:induction false} SpikeAverage(history: seq<Validation>, c: nat, x: nat)
    requires Samples(history) > 0 && x == c * Whole(history)
    ensures After(Spike(history, x)).average == c * Parts(history) && TotalTime(Spike(history, x)) == x
  {
    var before, n := history[..|history| - 1], |history| - 1;
    var spike, rest := Spike(history, x), Spike(before, x);
    assert spike[..n] == rest;
    CountsAddUp(rest);
    PatternDecides(rest, before);
    if history[n].NoKey? {
      SpikeAverage(before, c, x);
    } else if Samples(before) == 0 {
      NoSampleNoTime(rest);
      FirstWeighsMost(before);
      SpikeFirst(c, n);
    } else {
      Regroup(c, Whole(before), n + 1);
      SpikeAverage(before, c * (n + 1), x);
      SpikeStep(c, Parts(before), n);
    }
  }

  lemma ShareOfMean(m: nat, p: nat, w: nat, average: nat, total: nat)
    requires m * p <= w && w >= 1 && w * average <= p * total
    ensures m * average <= total
  {
    MulAtLeast(p * total, w * average, m);
    MulAtLeast(w, m * p, total);
    assert m * (p * total) == m * p * total;
    assert m * (w * average) == w * (m * average);
    assert w * (total + 1) == w * total + w;
    Cancel(w, total + 1, m * average);
  }

  /** The share kept of the first sample is at most one of the number of samples. */
  predicate FairShare(history: seq<Validation>) {
    Samples(history) * Parts(history) <= Whole(history)
  }

  lemma FairIsBelowMean(history: seq<Validation>)
    requires FairShare(history)
    ensures Samples(history) * After(history).average <= TotalTime(history)
  {
    AverageWithinShare(history);
    FirstWeighsMost(history);
    ShareOfMean(Samples(history), Parts(history), Whole(history), After(history).average, TotalTime(history));
  }

  lemma SpikeIsAboveMean(history: seq<Validation>)
    requires !FairShare(history)
    ensures
      var spike := Spike(history, Whole(history));
      SamePattern(spike, history) && Samples(spike) * After(spike).average > TotalTime(spike)
  {
    SpikeAverage(history, 1, Whole(history));
    PatternDecides(Spike(history, Whole(history)), history);
  }

  /** The average never exceeds the mean of the samples, whatever the samples are,
  exactly when the share it keeps of the first is fair. */
  lemma BelowMeanExactly(history: seq<Validation>)
    ensures NeverAboveMean(history) <==> FairShare(history)
  {
    if FairShare(history) {
      forall h: seq<Validation> | SamePattern(h, history)
        ensures Samples(h) * After(h).average <= TotalTime(h)
      {
        PatternDecides(h, history);
        FairIsBelowMean(h);
      }
    } else {
      SpikeIsAboveMean(history);
    }
  }

  /** Some validation without a key was followed by a sample. */
  predicate HasGap(history: seq<Validation>) {
    if history == [] then false
    else
      var before := history[..|history| - 1];
      if history[|history| - 1].Checked? then NoKeys(before) > 0 else HasGap(before)
  }

  lemma GapIdentity(m: nat, n: nat, p: nat)
    requires m <= n
    ensures (m + 1) * (p * n) == m * p * (n + 1) + p * (n - m)
  {
  }

  lemma Excess(q: nat, w: nat, n: nat)
    requires q >= w
    ensures q * n == w * n + (q - w) * n
  {
  }

  /** One more sample after `n` validations, `m` of them samples, with shares p of w. */
  lemma GapStep(m: nat, n: nat, p: nat, w: nat)
    requires m * p >= w && m <= n && p >= 1
    ensures (m + 1) * (p * n) >= w * (n + 1)
    ensures (m + 1) * (p * n) == w * (n + 1) <==> m == n && m * p == w
  {
    GapIdentity(m, n, p);
    Excess(m * p, w, n + 1);
    ZeroProduct(m * p - w, n + 1);
    ZeroProduct(n - m, p);
    assert p * (n - m) == (n - m) * p;
  }

  lemma {:induction false} ShareWithGap(history: seq<Validation>)
    requires history != [] && history[0].Checked?
    ensures Samples(history) + NoKeys(history) == |history| && Parts(history) >= 1
    ensures Samples(history) * Parts(history) >= Whole(history) >= 1
    ensures Samples(history) * Parts(history) == Whole(history) <==> !HasGap(history)
    ensures NoKeys(history) == 0 ==> !HasGap(history)
  {
    if |history| == 1 {
      assert history[..0] == [];
    } else {
      var before := history[..|history| - 1];
      ShareWithGap(before);
      assert Samples(before) >= 1;
      if history[|before|].Checked? {
        MulAtLeast(Parts(before), 1, |before|);
        GapStep(Samples(before), |before|, Parts(before), Whole(before));
        MulAtLeast(Whole(before), 1, |history|);
      }
    }
  }

  /** If the first validation had a key, the average never exceeds the mean of the
  samples exactly when no validation without a key lies between two samples. */
  lemma BelowMeanWithoutGap(history: seq<Validation>)
    requires history != [] && history[0].Checked?
    ensures NeverAboveMean(history) <==> !HasGap(history)
  {
    BelowMeanExactly(history);
    ShareWithGap(history);
  }
}
