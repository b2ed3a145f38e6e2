/**
 * The fixed weighted score of one loop candidate: lower is better. Distance accuracy is measured
 * against the user's original target; the overlap penalty is one minus the overlap ratio.
 */
module Scoring {

  const DistanceWeight: real := 1.5
  const OverlapWeight: real := 2.0

  function Abs(x: real): (r: real)
    ensures r >= 0.0 && (r == x || r == -x)
  {
    if x < 0.0 then -x else x
  }

  /** `abs(actual_dist - target_dist_meters) / target_dist_meters`; Python raises for a zero target. */
  function DistanceScore(actual: real, target: real): real
    requires target != 0.0
  {
    Abs(actual - target) / target
  }

  /** `(dist_score * 1.5) + ((1.0 - overlap_ratio) * 2.0)`. */
  function FinalScore(distScore: real, overlapRatio: real): real
  {
    distScore * DistanceWeight + (1.0 - overlapRatio) * OverlapWeight
  }

  /** Dividing by a positive target keeps the order of the errors. */
  lemma DivideKeepsOrder(x: real, y: real, t: real)
    requires t > 0.0 && x < y
    ensures x / t < y / t
  {
    var d := y / t - x / t;
    assert d * t == y - x;
  }

  /**
   * For a positive target and a ratio in [0, 1] the score is never negative, and it is zero
   * exactly when the distance hits the target and the path does not overlap itself.
   */
  lemma ScoreZeroExactlyWhenPerfect(actual: real, target: real, overlapRatio: real)
    requires target > 0.0 && 0.0 <= overlapRatio <= 1.0
    ensures FinalScore(DistanceScore(actual, target), overlapRatio) >= 0.0
    ensures FinalScore(DistanceScore(actual, target), overlapRatio) == 0.0
            <==> actual == target && overlapRatio == 1.0
  {
    var e := Abs(actual - target);
    if e > 0.0 {
      DivideKeepsOrder(0.0, e, target);
    }
    assert e == 0.0 ==> DistanceScore(actual, target) == 0.0;
  }

  /** With the same overlap, a route whose distance is nearer the target scores strictly lower. */
  lemma NearerDistanceScoresLower(nearer: real, farther: real, target: real, overlapRatio: real)
    requires target > 0.0
    requires Abs(nearer - target) < Abs(farther - target)
    ensures FinalScore(DistanceScore(nearer, target), overlapRatio)
            < FinalScore(DistanceScore(farther, target), overlapRatio)
  {
    DivideKeepsOrder(Abs(nearer - target), Abs(farther - target), target);
  }

  /** With the same distance score, a route that overlaps itself less scores strictly lower. */
  lemma LessOverlapScoresLower(distScore: real, lower: real, higher: real)
    requires lower < higher
    ensures FinalScore(distScore, higher) < FinalScore(distScore, lower)
  {
  }
}
