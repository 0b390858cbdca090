/** The validator's statistics: counters, and an average kept in whole microseconds by
rounding down at every step. */
module ValidationStats {
  import opened Arithmetic
  import opened Basics
  import opened DnssecKeys

  /** How a validation went: without a key, or with a verdict after some time. */
  datatype Validation = NoKey | Checked(valid: bool, elapsed: nat)

  datatype Stats = Stats(total: nat, successful: nat, failed: nat, average: nat)

  const ZERO := Stats(0, 0, 0, 0)

  /** The total counts every validation; time and verdict only those that had a key. */
  function Update(s: Stats, v: Validation): Stats {
    var total := s.total + 1;
    match v
    case NoKey => s.(total := total)
    case Checked(valid, elapsed) =>
      Stats(total, s.successful + (if valid then 1 else 0), s.failed + (if valid then 0 else 1),
            Blend(s.average, s.total, elapsed))
  }

  /** The average of `n` samples, extended by one more and rounded down. */
  function Blend(average: nat, n: nat, x: nat): nat {
    (average * n + x) / (n + 1)
  }

  /** The outcome of validating a signature that took `elapsed` microseconds. */
  function Outcome(answer: Option<bool>, elapsed: nat): Validation {
    match answer case None => NoKey case Some(valid) => Checked(valid, elapsed)
  }

  class Validator {
    const keyManager: KeyManager
    var totalValidations: nat
    var successfulValidations: nat
    var failedValidations: nat
    var averageTimeUs: nat

    constructor (keyManager: KeyManager)
      ensures this.keyManager == keyManager && Value() == ZERO
    {
      this.keyManager := keyManager;
      totalValidations, successfulValidations, failedValidations, averageTimeUs := 0, 0, 0, 0;
    }

    function Value(): Stats
      reads this
    {
      Stats(totalValidations, successfulValidations, failedValidations, averageTimeUs)
    }

    method UpdateTimingStats(elapsed: nat)
      modifies this`averageTimeUs
      ensures totalValidations >= 1 ==>
                averageTimeUs == (old(averageTimeUs) * (totalValidations - 1) + elapsed) / totalValidations
      ensures totalValidations == 0 ==> averageTimeUs == elapsed
    {
      if totalValidations >= 1 {
        var previous := totalValidations - 1;
        averageTimeUs := (averageTimeUs * previous + elapsed) / totalValidations;
      } else {
        averageTimeUs := elapsed;
      }
    }

    method ValidateRrsig(request: Request, signature: Bytes, now: int, elapsed: nat) returns (answer: Option<bool>)
      modifies this
      ensures answer == Validate(keyManager.config, old(keyManager.Value()), request, signature, now)
      ensures Value() == Update(old(Value()), Outcome(answer, elapsed))
    {
      totalValidations := totalValidations + 1;
      var key := keyManager.GetActiveKey(request.algorithm, now);
      match key
      case None => return None;
      case Some(key) =>
        var valid := signature == keyManager.config.mac(key.material, request.data);
        UpdateTimingStats(elapsed);
        if valid {
          successfulValidations := successfulValidations + 1;
        } else {
          failedValidations := failedValidations + 1;
        }
        return Some(valid);
    }
  }

  // ---- Histories -----------------------------------------------------------------

  function After(history: seq<Validation>): Stats {
    if history == [] then ZERO else Update(After(history[..|history| - 1]), history[|history| - 1])
  }

  function TotalTime(history: seq<Validation>): nat {
    if history == [] then 0
    else
      var last := |history| - 1;
      TotalTime(history[..last]) + match history[last] case NoKey => 0 case Checked(_, elapsed) => elapsed
  }

  predicate AllChecked(history: seq<Validation>) {
    forall i :: 0 <= i < |history| ==> history[i].Checked?
  }

  /** Every time measured was at least `least`. */
  predicate AtLeast(history: seq<Validation>, least: nat) {
    forall i :: 0 <= i < |history| && history[i].Checked? ==> history[i].elapsed >= least
  }

  function NoKeys(history: seq<Validation>): nat {
    if history == [] then 0
    else NoKeys(history[..|history| - 1]) + if history[|history| - 1].NoKey? then 1 else 0
  }

  /** How many signatures were found valid, or not. */
  function Verdicts(history: seq<Validation>, valid: bool): nat {
    if history == [] then 0
    else
      var last := history[|history| - 1];
      Verdicts(history[..|history| - 1], valid) + if last.Checked? && last.valid == valid then 1 else 0
  }

  /** Every validation is counted once: as a success if the signature was valid, as a
  failure if it was not, or only in the total if there was no key. */
  lemma {:induction false} CountsAddUp(history: seq<Validation>)
    ensures
      var s := After(history);
      && s.successful == Verdicts(history, true) && s.failed == Verdicts(history, false)
      && s.total == |history| == s.successful + s.failed + NoKeys(history)
  {
    if history != [] {
      CountsAddUp(history[..|history| - 1]);
    }
  }

  /** An average of `n` samples lost at most 0 + 1 + ... + (n - 1) to rounding. */
  ghost predicate LostAtMost(n: nat, average: nat, total: nat) {
    0 <= 2 * (total - n * average) <= n * (n - 1)
  }

  /** Extending the average by a sample loses at most `n` more. */
  lemma BlendLoses(n: nat, average: nat, total: nat, x: nat)
    requires LostAtMost(n, average, total)
    ensures LostAtMost(n + 1, Blend(average, n, x), total + x)
  {
    FloorDiv(average * n + x, n + 1);
    LossStep(n, average, total, x, Blend(average, n, x));
  }

  lemma LossStep(n: nat, average: nat, total: nat, x: nat, next: nat)
    requires LostAtMost(n, average, total)
    requires average * n + x - n <= (n + 1) * next <= average * n + x
    ensures LostAtMost(n + 1, next, total + x)
  {
    assert (n + 1) * n == n * (n - 1) + 2 * n;
  }

  lemma {:induction false} LostTime(history: seq<Validation>)
    requires AllChecked(history)
    ensures LostAtMost(|history|, After(history).average, TotalTime(history))
  {
    if history != [] {
      var before, x := history[..|history| - 1], history[|history| - 1].elapsed;
      LostTime(before);
      CountsAddUp(before);
      BlendLoses(|before|, After(before).average, TotalTime(before), x);
    }
  }

  /** Samples 0, 1, ..., n - 1: each is just too small to lift the average from zero. */
  function Staircase(n: nat): seq<Validation> {
    if n == 0 then [] else Staircase(n - 1) + [Checked(true, n - 1)]
  }

  lemma StepTooSmall(k: nat)
    ensures Blend(0, k, k) == 0
  {
    FloorDiv(k, k + 1);
  }

  lemma Triangle(n: nat, total: nat)
    requires n >= 1 && 2 * total == (n - 1) * (n - 2)
    ensures 2 * (total + (n - 1)) == n * (n - 1)
  {
    assert n * (n - 1) == (n - 1) * (n - 2) + 2 * (n - 1);
  }

  lemma OneMoreStair(history: seq<Validation>, n: nat)
    requires |history| == n && AllChecked(history) && After(history).average == 0
    ensures
      var next := history + [Checked(true, n)];
      AllChecked(next) && After(next).average == 0 && TotalTime(next) == TotalTime(history) + n
  {
    assert (history + [Checked(true, n)])[..n] == history;
    CountsAddUp(history);
    StepTooSmall(n);
  }

  lemma {:induction false} StaircaseState(n: nat)
    ensures |Staircase(n)| == n && AllChecked(Staircase(n))
    ensures After(Staircase(n)).average == 0 && 2 * TotalTime(Staircase(n)) == n * (n - 1)
  {
    if n > 0 {
      StaircaseState(n - 1);
      OneMoreStair(Staircase(n - 1), n - 1);
      Triangle(n, TotalTime(Staircase(n - 1)));
    }
  }

  /** Rounding can lose as much as that, for every number of samples. */
  lemma LossIsReached(n: nat) returns (history: seq<Validation>)
    ensures |history| == n && AllChecked(history)
    ensures 2 * (TotalTime(history) - n * After(history).average) == n * (n - 1)
  {
    history := Staircase(n);
    StaircaseState(n);
  }

  lemma BlendAtLeast(average: nat, n: nat, x: nat, least: nat)
    requires x >= least && (n == 0 || average >= least)
    ensures Blend(average, n, x) >= least
  {
    if n >= 1 {
      assert average * n == least * n + (average - least) * n;
    }
    assert least * (n + 1) == least * n + least;
    DivAtLeast(average * n + x, n + 1, least);
  }

  /** If the first validation had a key, the average is never below the smallest
  sample, even if later ones had none. */
  lemma {:induction false} AverageAboveMinimum(history: seq<Validation>, least: nat)
    requires history != [] && history[0].Checked? && AtLeast(history, least)
    ensures After(history).average >= least
  {
    var last := |history| - 1;
    CountsAddUp(history[..last]);
    if last > 0 {
      AverageAboveMinimum(history[..last], least);
    }
    if history[last].Checked? {
      BlendAtLeast(After(history[..last]).average, last, history[last].elapsed, least);
    }
  }

  lemma MeanBound(n: nat, average: nat, total: nat)
    requires n >= 1 && LostAtMost(n, average, total)
    ensures average as real <= total as real / n as real
    ensures total as real / n as real - average as real <= (n as real - 1.0) / 2.0
  {
    var rn, ra, rt := n as real, average as real, total as real;
    var slack := (rn - 1.0) / 2.0;
    RealProduct(n, average);
    RealProduct(n, n - 1);
    Distribute(ra, slack, rn);
    AtMostQuotient(rt, rn, ra);
    AtLeastQuotient(rt, rn, ra + slack);
  }

  /** Every validation without a key replaced by a sample equal to the average so far. */
  function Filled(history: seq<Validation>): seq<Validation> {
    if history == [] then []
    else
      var before, last := history[..|history| - 1], history[|history| - 1];
      Filled(before) + [if last.NoKey? then Checked(true, After(before).average) else last]
  }

  lemma BlendSame(average: nat, n: nat)
    ensures Blend(average, n, average) == average
  {
    assert average * n + average == average * (n + 1);
    ExactQuotient(average, n + 1);
  }

  /** To the average, a validation without a key is a sample equal to the average. */
  lemma {:induction false} FilledAverage(history: seq<Validation>)
    ensures |Filled(history)| == |history| && AllChecked(Filled(history))
    ensures After(Filled(history)).average == After(history).average
  {
    if history != [] {
      var before, full := history[..|history| - 1], Filled(history);
      FilledAverage(before);
      assert full[..|full| - 1] == Filled(before);
      CountsAddUp(before);
      CountsAddUp(Filled(before));
      BlendSame(After(before).average, |before|);
    }
  }

  lemma {:induction false} FilledIsSame(history: seq<Validation>)
    requires AllChecked(history)
    ensures Filled(history) == history
  {
    if history != [] {
      FilledIsSame(history[..|history| - 1]);
    }
  }

  /** Over any n validations the stored average is at most the mean of their times, and
  below it by at most (n - 1) / 2, where a validation without a key counts as one that
  took the average so far. */
  lemma AverageErrorBound(history: seq<Validation>)
    requires history != []
    ensures
      var n, average := |history| as real, After(history).average as real;
      var mean := TotalTime(Filled(history)) as real / n;
      && average <= mean && mean - average <= (n - 1.0) / 2.0
      && (AllChecked(history) ==> mean == TotalTime(history) as real / n)
  {
    FilledAverage(history);
    if AllChecked(history) {
      FilledIsSame(history);
    }
    LostTime(Filled(history));
    MeanBound(|history|, After(history).average, TotalTime(Filled(history)));
  }

  // ---- Validations without a key distort the average ---------------------------------

  lemma {:induction false} OnlyNoKeys(k: nat)
    ensures After(seq(k, _ => NoKey)) == Stats(k, 0, 0, 0)
  {
    if k > 0 {
      assert seq(k, _ => NoKey)[..k - 1] == seq(k - 1, _ => NoKey);
      OnlyNoKeys(k - 1);
    }
  }

  /** After `k` validations without a key the first sample is divided by k + 1, so the
  average is below the only sample unless k or the sample is zero. */
  lemma NoKeysDilute(k: nat, valid: bool, elapsed: nat)
    ensures
      var average := After(seq(k, _ => NoKey) + [Checked(valid, elapsed)]).average;
      && average == elapsed / (k + 1)
      && (average < elapsed <==> k > 0 && elapsed > 0)
  {
    var history := seq(k, _ => NoKey) + [Checked(valid, elapsed)];
    assert history[..|history| - 1] == seq(k, _ => NoKey);
    OnlyNoKeys(k);
    Diluted(elapsed, k);
  }

  lemma Diluted(x: nat, k: nat)
    ensures x / (k + 1) < x <==> k > 0 && x > 0
  {
    if k > 0 && x > 0 {
      FloorDiv(x, k + 1);
      Cancel(k + 1, x, x / (k + 1));
    }
  }

  /** A validation without a key after the first sample can lift the average above the
  mean of the samples. */
  lemma LateNoKeyInflates() returns (history: seq<Validation>)
    ensures |history| == 3 && NoKeys(history) == 1 && history[0].Checked?
    ensures 2 * After(history).average > TotalTime(history)
  {
    history := [Checked(true, 10), NoKey, Checked(true, 0)];
    var one, two := [Checked(true, 10)], [Checked(true, 10), NoKey];
    assert one[..0] == [] && two[..1] == one && history[..2] == two;
    assert After(one).average == 10 && TotalTime(one) == 10 && NoKeys(one) == 0;
    assert After(two) == Stats(2, 1, 0, 10) && TotalTime(two) == 10 && NoKeys(two) == 1;
  }
}
