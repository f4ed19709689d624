/**
 * Scoring, `score = int(np.sum(bubble_matrix == answer_key))` and
 * `total = rows * cols`: the number of cells where the sheet and the key
 * agree, both marked or both blank.
 */
module Scoring {
  import opened Matrices

  /** Number of positions where two rows of equal length agree. */
  function RowAgreement(a: seq<bool>, b: seq<bool>): (n: nat)
    requires |a| == |b|
    ensures n <= |a|
  {
    if |a| == 0 then 0
    else RowAgreement(a[..|a| - 1], b[..|b| - 1]) + (if a[|a| - 1] == b[|b| - 1] then 1 else 0)
  }

  predicate SameShape(m: BoolMatrix, k: BoolMatrix) {
    |m| == |k| && forall i :: 0 <= i < |m| ==> |m[i]| == |k[i]|
  }

  /** Number of cells (i, j) with `m[i][j] == k[i][j]`. */
  function Score(m: BoolMatrix, k: BoolMatrix): nat
    requires SameShape(m, k)
  {
    if |m| == 0 then 0
    else Score(m[..|m| - 1], k[..|k| - 1]) + RowAgreement(m[|m| - 1], k[|k| - 1])
  }

  /** The number of cells of a rows x cols sheet. */
  function Total(rows: int, cols: int): int {
    rows * cols
  }

  /** For two rows x cols matrices the score lies between 0 and the number of cells. */
  lemma {:induction false} ScoreBounds(m: BoolMatrix, k: BoolMatrix, rows: nat, cols: nat)
    requires IsMatrix(m, rows, cols) && IsMatrix(k, rows, cols)
    ensures 0 <= Score(m, k) <= Total(rows, cols)
  {
    if rows > 0 {
      ScoreBounds(m[..rows - 1], k[..rows - 1], rows - 1, cols);
      assert (rows - 1) * cols + cols == rows * cols;
    }
  }

  lemma {:induction false} RowAgreementFull(a: seq<bool>, b: seq<bool>)
    requires |a| == |b|
    ensures RowAgreement(a, b) == |a| <==> a == b
  {
    if |a| > 0 {
      RowAgreementFull(a[..|a| - 1], b[..|b| - 1]);
      if a[..|a| - 1] == b[..|b| - 1] && a[|a| - 1] == b[|b| - 1] {
        assert a == a[..|a| - 1] + [a[|a| - 1]];
        assert b == b[..|b| - 1] + [b[|b| - 1]];
      }
    }
  }

  lemma {:induction false} RowAgreementNone(a: seq<bool>, b: seq<bool>)
    requires |a| == |b|
    ensures RowAgreement(a, b) == 0 <==> forall j :: 0 <= j < |a| ==> a[j] != b[j]
  {
    if |a| > 0 {
      RowAgreementNone(a[..|a| - 1], b[..|b| - 1]);
    }
  }

  /** Full marks exactly when the sheet equals the key. */
  lemma {:induction false} ScoreFullIffEqual(m: BoolMatrix, k: BoolMatrix, rows: nat, cols: nat)
    requires IsMatrix(m, rows, cols) && IsMatrix(k, rows, cols)
    ensures Score(m, k) == Total(rows, cols) <==> m == k
  {
    if rows > 0 {
      var m', k' := m[..rows - 1], k[..rows - 1];
      ScoreFullIffEqual(m', k', rows - 1, cols);
      ScoreBounds(m', k', rows - 1, cols);
      RowAgreementFull(m[rows - 1], k[rows - 1]);
      assert (rows - 1) * cols + cols == rows * cols;
      if m' == k' && m[rows - 1] == k[rows - 1] {
        assert m == m' + [m[rows - 1]];
        assert k == k' + [k[rows - 1]];
      }
    }
  }

  /** Zero exactly when the sheet and the key differ in every cell. */
  lemma {:induction false} ScoreZeroIffOpposite(m: BoolMatrix, k: BoolMatrix, rows: nat, cols: nat)
    requires IsMatrix(m, rows, cols) && IsMatrix(k, rows, cols)
    ensures Score(m, k) == 0 <==> forall i, j :: 0 <= i < rows && 0 <= j < cols ==> m[i][j] != k[i][j]
  {
    if rows > 0 {
      var m', k' := m[..rows - 1], k[..rows - 1];
      ScoreZeroIffOpposite(m', k', rows - 1, cols);
      RowAgreementNone(m[rows - 1], k[rows - 1]);
      assert forall i, j :: 0 <= i < rows - 1 && 0 <= j < cols ==> m'[i][j] == m[i][j] && k'[i][j] == k[i][j];
    }
  }

  /** The key with every cell flipped. */
  function Negate(k: BoolMatrix): (n: BoolMatrix)
    ensures |n| == |k| && forall i :: 0 <= i < |k| ==> |n[i]| == |k[i]| && forall j :: 0 <= j < |k[i]| ==> n[i][j] == !k[i][j]
  {
    seq(|k|, i requires 0 <= i < |k| => seq(|k[i]|, j requires 0 <= j < |k[i]| => !k[i][j]))
  }

  lemma {:induction false} RowAgreementComplement(a: seq<bool>, b: seq<bool>, nb: seq<bool>)
    requires |a| == |b| == |nb| && forall j :: 0 <= j < |b| ==> nb[j] == !b[j]
    ensures RowAgreement(a, b) + RowAgreement(a, nb) == |a|
  {
    if |a| > 0 {
      RowAgreementComplement(a[..|a| - 1], b[..|b| - 1], nb[..|nb| - 1]);
    }
  }

  /**
   * Every cell counts, blank ones included: the agreements with a key and
   * with its negation add up to the total.
   */
  lemma {:induction false} ScoreComplement(m: BoolMatrix, k: BoolMatrix, rows: nat, cols: nat)
    requires IsMatrix(m, rows, cols) && IsMatrix(k, rows, cols)
    ensures IsMatrix(Negate(k), rows, cols)
    ensures Score(m, k) + Score(m, Negate(k)) == Total(rows, cols)
  {
    var nk := Negate(k);
    if rows > 0 {
      var m', k', nk' := m[..rows - 1], k[..rows - 1], nk[..rows - 1];
      assert Negate(k') == nk';
      ScoreComplement(m', k', rows - 1, cols);
      RowAgreementComplement(m[rows - 1], k[rows - 1], nk[rows - 1]);
      assert (rows - 1) * cols + cols == rows * cols;
    }
  }
}
