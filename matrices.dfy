/** Boolean matrices, as `np.zeros((rows, cols), dtype=bool)` and `tolist()` give them. */
module Matrices {

  type BoolMatrix = seq<seq<bool>>

  /** Exactly `rows` rows of exactly `cols` cells. */
  predicate IsMatrix(m: BoolMatrix, rows: int, cols: int) {
    |m| == rows && forall i :: 0 <= i < |m| ==> |m[i]| == cols
  }

  /** `matrix.tolist()`: the rows of a two-dimensional array. */
  function Rows(a: array2<bool>): (m: BoolMatrix)
    reads a
    ensures IsMatrix(m, a.Length0, a.Length1)
    ensures forall i, j :: 0 <= i < a.Length0 && 0 <= j < a.Length1 ==> m[i][j] == a[i, j]
  {
    seq(a.Length0, i reads a requires 0 <= i < a.Length0 =>
      seq(a.Length1, j reads a requires 0 <= j < a.Length1 => a[i, j]))
  }
}
