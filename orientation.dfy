/**
 * Skew correction, `correct_orientation`. The rotated-rectangle fit and the
 * affine resampling are library calls; what the pipeline itself decides is
 * how the rectangle's angle is folded into a skew, over exact reals.
 */
module Orientation {

  /**
   * The skew for a fitted-rectangle angle `a`. It turns the rectangle by the
   * same amount modulo a quarter turn, and for the angle range [-90, 0) the
   * rectangle fit reports, lands in (-45, 45].
   */
  function FoldAngle(a: real): (r: real)
    ensures r == -a || r == -a - 90.0
    ensures -90.0 <= a < 0.0 ==> -45.0 < r <= 45.0
  {
    if a < -45.0 then -(90.0 + a) else -a
  }

  /** The rectangle angle in [-90, 0) that folds to a skew in (-45, 45]. */
  function UnfoldAngle(r: real): (a: real)
    ensures -45.0 < r <= 45.0 ==> -90.0 <= a < 0.0
  {
    if r <= 0.0 then -90.0 - r else -r
  }

  /** Every skew in (-45, 45] is reached, from exactly one angle in [-90, 0). */
  lemma FoldUnfold(r: real)
    requires -45.0 < r <= 45.0
    ensures FoldAngle(UnfoldAngle(r)) == r
  {
  }

  lemma UnfoldFold(a: real)
    requires -90.0 <= a < 0.0
    ensures UnfoldAngle(FoldAngle(a)) == a
  {
  }

  /**
   * Under the newer rectangle-fit convention, angles in (0, 90], the fold
   * always negates and the skew lands in [-90, 0), outside (-45, 45] for
   * every angle above 45.
   */
  lemma FoldPositiveAngle(a: real)
    requires 0.0 < a <= 90.0
    ensures FoldAngle(a) == -a && -90.0 <= FoldAngle(a) < 0.0
    ensures a > 45.0 ==> FoldAngle(a) <= -45.0
  {
  }
}
