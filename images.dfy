/**
 * Grayscale images as rows of intensities, and the NumPy operations the
 * pipeline applies to them: the basic slice `img[r0:r1, c0:c1]` (with
 * non-negative bounds, which NumPy clamps to the image) and the pixel sum,
 * count and mean behind `np.mean`.
 */
module Images {

  /** A grayscale image, row by row. */
  type Gray = seq<seq<int>>

  /** Number of columns, as `img.shape[1]` (0 for an image without rows). */
  function Width(img: Gray): nat {
    if |img| == 0 then 0 else |img[0]|
  }

  /** Rectangular, with 8-bit intensities. */
  predicate IsImage(img: Gray) {
    forall r :: 0 <= r < |img| ==>
      |img[r]| == Width(img) && forall c :: 0 <= c < |img[r]| ==> 0 <= img[r][c] <= 255
  }

  /** The index range a Python slice `s[lo:hi]` selects from a sequence of length `len`. */
  function SliceBounds(lo: nat, hi: nat, len: nat): (b: (nat, nat))
    ensures b.0 <= b.1 <= len
    ensures lo <= hi <= len ==> b == (lo, hi)
    ensures hi <= lo ==> b.0 == b.1
  {
    var a := if lo < len then lo else len;
    var e := if hi < len then hi else len;
    (a, if e < a then a else e)
  }

  function SliceRow(row: seq<int>, lo: nat, hi: nat): seq<int> {
    var b := SliceBounds(lo, hi, |row|);
    row[b.0..b.1]
  }

  /**
   * `img[r0:r1, c0:c1]`. Inside the image the slice is exactly the rectangle
   * `[r0, r1) x [c0, c1)`; anything outside is clamped away, as in NumPy.
   */
  function Slice2D(img: Gray, r0: nat, r1: nat, c0: nat, c1: nat): (s: Gray)
    ensures |s| <= |img|
    ensures IsImage(img) ==> IsImage(s)
    ensures IsImage(img) && r0 <= r1 <= |img| && c0 <= c1 <= Width(img) ==>
      |s| == r1 - r0 &&
      (forall r :: 0 <= r < |s| ==> |s[r]| == c1 - c0) &&
      (forall r, c :: 0 <= r < r1 - r0 && 0 <= c < c1 - c0 ==> s[r][c] == img[r0 + r][c0 + c])
  {
    var b := SliceBounds(r0, r1, |img|);
    var s := seq(b.1 - b.0, k requires 0 <= k < b.1 - b.0 => SliceRow(img[b.0 + k], c0, c1));
    var cb := SliceBounds(c0, c1, Width(img));
    assert IsImage(img) ==> forall r :: 0 <= r < |s| ==> s[r] == img[b.0 + r][cb.0..cb.1] by {
      if IsImage(img) {
        forall r | 0 <= r < |s|
          ensures s[r] == img[b.0 + r][cb.0..cb.1]
        {
          assert |img[b.0 + r]| == Width(img);
          assert s[r] == SliceRow(img[b.0 + r], c0, c1);
          assert SliceBounds(c0, c1, |img[b.0 + r]|) == cb;
        }
      }
    }
    assert IsImage(img) ==> IsImage(s) by {
      if IsImage(img) {
        SliceRowsIsImage(s, cb.1 - cb.0);
      }
    }
    s
  }

  lemma SliceRowsIsImage(s: Gray, w: nat)
    requires forall r :: 0 <= r < |s| ==> |s[r]| == w && forall c :: 0 <= c < w ==> 0 <= s[r][c] <= 255
    ensures IsImage(s)
  {
  }

  function RowSum(row: seq<int>): int {
    if |row| == 0 then 0 else RowSum(row[..|row| - 1]) + row[|row| - 1]
  }

  /** Sum of all pixels. */
  function Sum(img: Gray): int {
    if |img| == 0 then 0 else Sum(img[..|img| - 1]) + RowSum(img[|img| - 1])
  }

  /** Number of pixels, `img.size`. */
  function Count(img: Gray): nat {
    if |img| == 0 then 0 else Count(img[..|img| - 1]) + |img[|img| - 1]|
  }

  /** `np.mean` of a non-empty image, in exact arithmetic. */
  function Mean(img: Gray): real
    requires Count(img) > 0
  {
    Sum(img) as real / Count(img) as real
  }

  /** A rectangular image of h rows of width w has h * w pixels. */
  lemma {:induction false} CountRect(img: Gray, w: nat)
    requires forall r :: 0 <= r < |img| ==> |img[r]| == w
    ensures Count(img) == |img| * w
  {
    if |img| > 0 {
      CountRect(img[..|img| - 1], w);
    }
  }

  /** Dividing by a positive count preserves order: `s / n < t` exactly when `s < t * n`. */
  lemma DivBelow(s: real, n: real, t: real)
    requires n > 0.0
    ensures s / n < t <==> s < t * n
  {
    var q := s / n;
    assert q * n == s;
    if q < t {
      assert q * n < t * n;
    } else {
      assert t * n <= q * n;
    }
  }

  /** For a non-empty region, "mean below t" is exactly the integer test `sum < t * count`. */
  lemma MeanBelowIff(img: Gray, t: int)
    requires Count(img) > 0
    ensures Mean(img) < t as real <==> Sum(img) < t * Count(img)
  {
    DivBelow(Sum(img) as real, Count(img) as real, t as real);
    assert (t * Count(img)) as real == t as real * Count(img) as real;
  }
}
