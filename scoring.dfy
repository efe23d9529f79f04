/**
  Final scoring of a quiz session: the rounded percentage of correct answers
  and the performance tier chosen from it, as the results screen shows them.
 */
module Scoring {

  /** The four performance tiers, lowest first. */
  datatype Tier = KeepTrying | NotBad | GoodJob | Excellent

  /** Position of a tier in the order KeepTrying < NotBad < GoodJob < Excellent. */
  function Rank(t: Tier): nat {
    match t
    case KeepTrying => 0
    case NotBad => 1
    case GoodJob => 2
    case Excellent => 3
  }

  /** A percentage qualifies for a tier when it reaches the tier's threshold;
      the lowest tier has none. */
  predicate Meets(percentage: int, t: Tier) {
    match t
    case KeepTrying => true
    case NotBad => percentage >= 50
    case GoodJob => percentage >= 70
    case Excellent => percentage >= 90
  }

  /** Heading shown for a tier. */
  function Title(t: Tier): string {
    match t
    case Excellent => "Excellent!"
    case GoodJob => "Good Job!"
    case NotBad => "Not Bad!"
    case KeepTrying => "Keep Trying!"
  }

  /** Message shown under the heading for a tier. */
  function Text(t: Tier): string {
    match t
    case Excellent => "You're a quiz master! Keep up the great work."
    case GoodJob => "Well done! You have a solid understanding."
    case NotBad => "You're on the right track. Keep practicing!"
    case KeepTrying => "Don't give up! Review the material and try again."
  }

  /** The share of correct answers in percent, rounded half up to a whole
      number: the integer nearest to 100 * correct / total. */
  function Percentage(correct: int, total: int): (r: int)
    requires 0 < total && 0 <= correct
    ensures 2 * total * r <= 200 * correct + total < 2 * total * r + 2 * total
    ensures 0 <= r
    ensures correct <= total ==> r <= 100
  {
    var r := (200 * correct + total) / (2 * total);
    DivBounds(200 * correct + total, 2 * total);
    if correct <= total then
      assert 2 * total * r <= 2 * total * 100 + total;
      BelowNextMultiple(r, 100, 2 * total);
      r
    else
      r
  }

  /** The tier chosen by the thresholds 90, 70 and 50: the highest tier the
      percentage qualifies for. */
  function PerformanceTier(percentage: int): (r: Tier)
    ensures Meets(percentage, r)
    ensures forall t :: Meets(percentage, t) ==> Rank(t) <= Rank(r)
  {
    if percentage >= 90 then Excellent
    else if percentage >= 70 then GoodJob
    else if percentage >= 50 then NotBad
    else KeepTrying
  }

  /** What the results screen shows: the score, the percentage, the number of
      correct answers, the tier and the tier's heading and message. */
  datatype Summary = Summary(
    finalScore: int,
    percentage: int,
    correctAnswers: int,
    tier: Tier,
    title: string,
    text: string)

  /** The summary of a session that answered `correct` of `total` questions
      correctly and holds `score` points. */
  function Summarize(score: int, correct: int, total: int): (r: Summary)
    requires 0 < total && 0 <= correct <= total
    ensures r.finalScore == score && r.correctAnswers == correct
    ensures r.percentage == Percentage(correct, total) && 0 <= r.percentage <= 100
    ensures r.tier == PerformanceTier(r.percentage)
    ensures Meets(r.percentage, r.tier)
    ensures forall t :: Meets(r.percentage, t) ==> Rank(t) <= Rank(r.tier)
    ensures r.title == Title(r.tier) && r.text == Text(r.tier)
  {
    var p := Percentage(correct, total);
    var tier := PerformanceTier(p);
    Summary(score, p, correct, tier, Title(tier), Text(tier))
  }

  /** More correct answers never give a lower percentage. */
  lemma PercentageMonotone(c1: int, c2: int, total: int)
    requires 0 < total && 0 <= c1 <= c2
    ensures Percentage(c1, total) <= Percentage(c2, total)
  {
    var p1, p2 := Percentage(c1, total), Percentage(c2, total);
    assert 2 * total * p1 < 2 * total * p2 + 2 * total;
    BelowNextMultiple(p1, p2, 2 * total);
  }

  /** No correct answer gives 0 percent; all correct gives 100 percent. */
  lemma PercentageExtremes(total: int)
    requires 0 < total
    ensures Percentage(0, total) == 0
    ensures Percentage(total, total) == 100
  {
    var p := Percentage(total, total);
    assert 2 * total * 100 < 2 * total * p + 2 * total;
    BelowNextMultiple(99, p, 2 * total);
  }

  /** A higher percentage never gives a lower tier. */
  lemma TierMonotone(p: int, q: int)
    requires p <= q
    ensures Rank(PerformanceTier(p)) <= Rank(PerformanceTier(q))
  {
  }

  // Arithmetic helpers for the rounding proofs.

  /** Floor division by a positive divisor brackets the dividend. */
  lemma DivBounds(x: int, d: int)
    requires 0 < d
    ensures d * (x / d) <= x < d * (x / d) + d
  {
  }

  /** a * d < b * d + d with d > 0 forces a <= b. */
  lemma BelowNextMultiple(a: int, b: int, d: int)
    requires 0 < d && d * a < d * b + d
    ensures a <= b
  {
    assert d * (a - b) < d;
    MulAtLeast(d, a - b);
  }

  /** A positive number times a factor of at least one is at least itself. */
  lemma MulAtLeast(d: int, k: int)
    requires 0 < d
    ensures k >= 1 ==> d * k >= d
  {
  }
}
