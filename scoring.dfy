/**
 * The precision score of lib/scoring.ts. The source computes
 * `1000 * exp(-0.32188 * diff)`, returns 1000 for an exact guess, 0 when the
 * value is below 5 and the rounded value otherwise. The model uses the
 * integer table those rules give for whole-minute differences and proves,
 * in module Decay, that the table is what the rules give for every real
 * number enclosing exp(-0.32188).
 */
module Scoring {

  const BasePoints := 1000

  /** Minutes from which the noise floor turns the score to 0. */
  const CutOff := 17

  function Abs(x: int): nat {
    if x < 0 then -x else x
  }

  /** The score of a guess that is `d` minutes away from the arrival time. */
  function ScoreOfDiff(d: nat): (r: nat)
    ensures r <= BasePoints
    ensures r == BasePoints <==> d == 0
    ensures r == 0 <==> d >= CutOff
    ensures r != 0 ==> r >= 5
  {
    if d == 0 then BasePoints
    else if d == 1 then 725
    else if d == 2 then 525
    else if d == 3 then 381
    else if d == 4 then 276
    else if d == 5 then 200
    else if d == 6 then 145
    else if d == 7 then 105
    else if d == 8 then 76
    else if d == 9 then 55
    else if d == 10 then 40
    else if d == 11 then 29
    else if d == 12 then 21
    else if d == 13 then 15
    else if d == 14 then 11
    else if d == 15 then 8
    else if d == 16 then 6
    else 0
  }

  /** `calculateHugoScore(targetMinutes, actualMinutes)`. */
  function HugoScore(target: int, actual: int): (r: nat)
    ensures r <= BasePoints
    ensures r == BasePoints <==> target == actual
    ensures r == 0 <==> Abs(target - actual) >= CutOff
    ensures r != 0 ==> r >= 5
  {
    ScoreOfDiff(Abs(target - actual))
  }

  /** The score depends on the distance only, so the arguments commute. */
  lemma HugoScoreSymmetric(target: int, actual: int)
    ensures HugoScore(target, actual) == HugoScore(actual, target)
  {
  }

  /** One more minute of error never raises the score. */
  lemma ScoreStep(d: nat)
    ensures ScoreOfDiff(d + 1) <= ScoreOfDiff(d)
  {
  }

  /** The score is non-increasing in the minute difference. */
  lemma {:induction false} ScoreNonIncreasing(d1: nat, d2: nat)
    requires d1 <= d2
    ensures ScoreOfDiff(d2) <= ScoreOfDiff(d1)
    decreases d2 - d1
  {
    if d1 < d2 {
      ScoreNonIncreasing(d1 + 1, d2);
      ScoreStep(d1);
    }
  }

  /** A guess closer to the arrival time never scores less. */
  lemma CloserScoresHigher(actual: int, g1: int, g2: int)
    requires Abs(actual - g1) <= Abs(actual - g2)
    ensures HugoScore(actual, g2) <= HugoScore(actual, g1)
  {
    ScoreNonIncreasing(Abs(actual - g1), Abs(actual - g2));
  }

  /** The calibration the decay constant was chosen for: 5 minutes give 200. */
  lemma FiveMinutesScoreTwoHundred()
    ensures ScoreOfDiff(5) == 200
  {
  }

  /** `timeToMinutes(date)`: hours and minutes of a Date as minutes since midnight. */
  function TimeToMinutes(hours: nat, minutes: nat): (t: nat)
    requires hours < 24 && minutes < 60
    ensures t < 1440
    ensures t / 60 == hours && t % 60 == minutes
  {
    hours * 60 + minutes
  }
}

/**
 * The exponential decay behind the score table. `Math.exp(-0.32188)` is
 * 0.7247851593...; every real `e` in [ELo, EHi] stands for it, and for each
 * such `e` the source's rounding rules applied to `1000 * e^d` give the table.
 */
module Decay {
  import opened Scoring

  const ELo: real := 0.72478
  const EHi: real := 0.72479

  function Pow(x: real, n: nat): (p: real)
    ensures 0.0 <= x ==> 0.0 <= p
  {
    if n == 0 then 1.0 else x * Pow(x, n - 1)
  }

  /** Six-decimal lower bounds of ELo^d, for d up to CutOff. */
  const LoPow: seq<real> := [1.0, 0.72478, 0.525306, 0.380731, 0.275946, 0.2,
    0.144956, 0.105061, 0.076146, 0.055189, 0.039999, 0.02899, 0.021011,
    0.015228, 0.011036, 0.007998, 0.005796, 0.0042]

  /** Six-decimal upper bounds of EHi^d, for d up to CutOff. */
  const HiPow: seq<real> := [1.0, 0.72479, 0.525321, 0.380748, 0.275963, 0.200016,
    0.14497, 0.105073, 0.076156, 0.055198, 0.040007, 0.028997, 0.021017,
    0.015233, 0.011041, 0.008003, 0.005801, 0.004205]

  /** `score < 5 ? 0 : Math.round(score)` for a non-negative score. */
  function RoundScore(x: real): nat
    requires 0.0 <= x
  {
    if x < 5.0 then 0 else (x + 0.5).Floor as nat
  }

  /** The score the source computes with `e` in place of exp(-0.32188). */
  function DecayScore(e: real, d: nat): nat
    requires 0.0 <= e
  {
    if d == 0 then BasePoints else RoundScore(1000.0 * Pow(e, d))
  }

  lemma MulMonotone(a: real, b: real, c: real, d: real)
    requires 0.0 <= a <= b && 0.0 <= c <= d
    ensures a * c <= b * d
  {
    assert a * c <= b * c by {
      assert (b - a) * c >= 0.0;
    }
    assert b * c <= b * d by {
      assert b * (d - c) >= 0.0;
    }
  }

  lemma {:induction false} PowMonotoneInBase(x: real, y: real, n: nat)
    requires 0.0 <= x <= y
    ensures Pow(x, n) <= Pow(y, n)
  {
    if n > 0 {
      PowMonotoneInBase(x, y, n - 1);
      MulMonotone(x, y, Pow(x, n - 1), Pow(y, n - 1));
    }
  }

  lemma ScaleDown(x: real, p: real)
    requires 0.0 <= x <= 1.0 && 0.0 <= p
    ensures x * p <= p
  {
    MulMonotone(x, 1.0, p, p);
  }

  lemma {:induction false} PowShrinks(x: real, m: nat, n: nat)
    requires 0.0 <= x <= 1.0 && m <= n
    ensures Pow(x, n) <= Pow(x, m)
    decreases n - m
  {
    if m < n {
      PowShrinks(x, m, n - 1);
      var p := Pow(x, n - 1);
      ScaleDown(x, p);
      assert Pow(x, n) == x * p;
    }
  }

  lemma {:induction false} PowEnclosed(d: nat)
    requires d <= CutOff
    ensures LoPow[d] <= Pow(ELo, d) && Pow(EHi, d) <= HiPow[d]
  {
    if d > 0 {
      PowEnclosed(d - 1);
      BoundsStep(d);
      MulMonotone(ELo, ELo, LoPow[d - 1], Pow(ELo, d - 1));
      MulMonotone(EHi, EHi, Pow(EHi, d - 1), HiPow[d - 1]);
    }
  }

  /** Each bound is one rounded multiplication away from the previous one. */
  lemma BoundsStep(d: nat)
    requires 0 < d <= CutOff
    ensures 0.0 <= LoPow[d - 1] && LoPow[d] <= ELo * LoPow[d - 1]
    ensures EHi * HiPow[d - 1] <= HiPow[d]
  {
  }

  /** The bounds leave every table entry's rounding and noise floor decided. */
  lemma BoundsDecideTable(d: nat)
    requires 0 < d < CutOff
    ensures 5.0 <= 1000.0 * LoPow[d]
    ensures ScoreOfDiff(d) as real - 0.5 <= 1000.0 * LoPow[d]
    ensures 1000.0 * HiPow[d] < ScoreOfDiff(d) as real + 0.5
  {
  }

  lemma RoundsTo(x: real, lo: real, hi: real, t: nat)
    requires lo <= x <= hi
    requires 5.0 <= lo && t as real - 0.5 <= lo && hi < t as real + 0.5
    ensures RoundScore(x) == t
  {
  }

  /** The table is the source's formula, rounded as the source rounds it. */
  lemma {:induction false} TableIsRoundedDecay(e: real, d: nat)
    requires ELo <= e <= EHi
    ensures DecayScore(e, d) == ScoreOfDiff(d)
  {
    if d > 0 {
      PowMonotoneInBase(ELo, e, d);
      PowMonotoneInBase(e, EHi, d);
      var x := 1000.0 * Pow(e, d);
      var lo, hi := 1000.0 * Pow(ELo, d), 1000.0 * Pow(EHi, d);
      if d >= CutOff {
        PowShrinks(EHi, CutOff, d);
        PowEnclosed(CutOff);
      } else {
        PowEnclosed(d);
        BoundsDecideTable(d);
        RoundsTo(x, 1000.0 * LoPow[d], 1000.0 * HiPow[d], ScoreOfDiff(d));
      }
    }
  }
}
