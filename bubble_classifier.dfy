/**
 * Bubble classification, `detect_filled_bubbles`: tile the grid into
 * rows x cols cells of `h // rows` by `w // cols` pixels and mark a cell
 * filled when its mean intensity is below 127.
 */
module BubbleClassifier {
  import opened Wrappers
  import opened Images
  import opened Matrices
  import opened OmrErrors

  /** The fixed intensity cut-off: a darker cell is a marked bubble. */
  const FillThreshold: int := 127

  /** `gray[i*bh:(i+1)*bh, j*bw:(j+1)*bw]`, the pixels of cell (i, j). */
  function Cell(gray: Gray, i: nat, j: nat, bh: nat, bw: nat): Gray {
    Slice2D(gray, i * bh, (i + 1) * bh, j * bw, (j + 1) * bw)
  }

  /**
   * `np.mean(roi) < 127`. The mean of an empty region is NaN, and NaN is
   * not below anything, so an empty cell reads as unfilled.
   */
  predicate IsFilled(roi: Gray) {
    Count(roi) > 0 && Mean(roi) < FillThreshold as real
  }

  /** What `detect_filled_bubbles` returns for a grayscale grid, or the exception it raises. */
  function Classify(gray: Gray, rows: int, cols: int): (r: Result<BoolMatrix, Error>)
    ensures r.Failure? <==> |gray| == 0 || Width(gray) == 0 || rows <= 0 || cols <= 0
    ensures r.Failure? ==>
      r.error == (if |gray| == 0 || Width(gray) == 0 then EmptyImage
                  else if rows < 0 || cols < 0 then NegativeDimensions
                  else DivisionByZero)
    ensures r.Success? ==> IsMatrix(r.value, rows, cols)
    ensures r.Success? ==> forall i, j :: 0 <= i < rows && 0 <= j < cols ==>
      r.value[i][j] == IsFilled(Cell(gray, i, j, |gray| / rows, Width(gray) / cols))
  {
    if |gray| == 0 || Width(gray) == 0 then Failure(EmptyImage)
    else if rows < 0 || cols < 0 then Failure(NegativeDimensions)
    else if rows == 0 || cols == 0 then Failure(DivisionByZero)
    else
      var bh := |gray| / rows;
      var bw := Width(gray) / cols;
      Success(seq(rows, i requires 0 <= i < rows =>
        seq(cols, j requires 0 <= j < cols => IsFilled(Cell(gray, i, j, bh, bw)))))
  }

  /**
   * For a rectangular image, cell (i, j) holds exactly the `bh x bw` pixels
   * `gray[i*bh + r][j*bw + c]`: no cell reaches past the image.
   */
  lemma CellShape(gray: Gray, rows: nat, cols: nat, i: nat, j: nat)
    requires IsImage(gray) && 0 < rows && 0 < cols && i < rows && j < cols
    ensures var bh, bw := |gray| / rows, Width(gray) / cols;
      var roi := Cell(gray, i, j, bh, bw);
      && |roi| == bh
      && (forall r :: 0 <= r < bh ==> |roi[r]| == bw)
      && (forall r, c :: 0 <= r < bh && 0 <= c < bw ==> roi[r][c] == gray[i * bh + r][j * bw + c])
  {
    RowsFit(|gray|, rows, i);
    RowsFit(Width(gray), cols, j);
  }

  /** Cell (i, j) of a rectangular image has `bh` rows of `bw` pixels. */
  lemma CellDims(gray: Gray, rows: nat, cols: nat, i: nat, j: nat)
    requires IsImage(gray) && 0 < rows && 0 < cols && i < rows && j < cols
    ensures var bh, bw := |gray| / rows, Width(gray) / cols;
      var roi := Cell(gray, i, j, bh, bw);
      |roi| == bh && forall r :: 0 <= r < bh ==> |roi[r]| == bw
  {
    RowsFit(|gray|, rows, i);
    RowsFit(Width(gray), cols, j);
  }

  /**
   * Cell (i, j) holds `bh * bw` pixels, and it is filled exactly when they
   * sum to less than 127 per pixel.
   */
  lemma CellContents(gray: Gray, rows: nat, cols: nat, i: nat, j: nat)
    requires IsImage(gray) && 0 < rows && 0 < cols && i < rows && j < cols
    ensures var bh, bw := |gray| / rows, Width(gray) / cols;
      var roi := Cell(gray, i, j, bh, bw);
      && Count(roi) == bh * bw
      && (IsFilled(roi) <==> bh * bw > 0 && Sum(roi) < FillThreshold * Count(roi))
  {
    var bh, bw := |gray| / rows, Width(gray) / cols;
    var roi := Cell(gray, i, j, bh, bw);
    CellDims(gray, rows, cols, i, j);
    CountRect(roi, bw);
    FilledBelow(roi);
  }

  /** A region is filled exactly when its pixels sum to less than 127 per pixel. */
  lemma FilledBelow(roi: Gray)
    ensures IsFilled(roi) <==> Count(roi) > 0 && Sum(roi) < FillThreshold * Count(roi)
  {
    if Count(roi) > 0 {
      MeanBelowIff(roi, FillThreshold);
    }
  }

  /** Multiplying by a natural number preserves order. */
  lemma {:induction false} MulMono(a: nat, b: nat, c: nat)
    requires a <= b
    ensures a * c <= b * c
    decreases b - a
  {
    if a < b {
      MulMono(a + 1, b, c);
      assert (a + 1) * c == a * c + c;
    }
  }

  /** The cells of a tiling by `len / n` never pass the end: `(i + 1) * (len / n) <= len`. */
  lemma RowsFit(len: nat, n: nat, i: nat)
    requires 0 < n && i < n
    ensures i * (len / n) <= (i + 1) * (len / n) <= len
  {
    var q := len / n;
    MulMono(i, i + 1, q);
    MulMono(i + 1, n, q);
    assert n * q <= len;
  }

  /** A pixel of cell i of a tiling by `b` lies in the first `n * b` positions. */
  lemma TileInside(n: nat, b: nat, i: nat, r: nat)
    requires i < n && r < b
    ensures i * b + r < n * b
  {
    assert (i + 1) * b == i * b + b;
    MulMono(i + 1, n, b);
  }

  /**
   * Only the top-left `(rows * bh) x (cols * bw)` pixels are ever read: two
   * images of the same size that agree there are classified alike, whatever
   * the remainder rows and columns hold.
   */
  lemma TopLeftOnly(g1: Gray, g2: Gray, rows: int, cols: int)
    requires IsImage(g1) && IsImage(g2) && |g1| == |g2| && Width(g1) == Width(g2)
    requires 0 < rows && 0 < cols
    requires forall r, c :: 0 <= r < rows * (|g1| / rows) && 0 <= c < cols * (Width(g1) / cols) ==>
      g1[r][c] == g2[r][c]
    ensures Classify(g1, rows, cols) == Classify(g2, rows, cols)
  {
    if |g1| > 0 && Width(g1) > 0 {
      var bh, bw := |g1| / rows, Width(g1) / cols;
      var m := Classify(g2, rows, cols).value;
      forall i, j | 0 <= i < rows && 0 <= j < cols
        ensures m[i][j] == IsFilled(Cell(g1, i, j, bh, bw))
      {
        CellsAgree(g1, g2, rows, cols, i, j);
      }
      ClassifiedMatrix(g1, rows, cols, m);
    }
  }

  /** A cell lies in the top-left region, so two images that agree there have the same cell. */
  lemma CellsAgree(g1: Gray, g2: Gray, rows: nat, cols: nat, i: nat, j: nat)
    requires IsImage(g1) && IsImage(g2) && |g1| == |g2| && Width(g1) == Width(g2)
    requires 0 < rows && 0 < cols && i < rows && j < cols
    requires forall r, c :: 0 <= r < rows * (|g1| / rows) && 0 <= c < cols * (Width(g1) / cols) ==>
      g1[r][c] == g2[r][c]
    ensures Cell(g1, i, j, |g1| / rows, Width(g1) / cols) == Cell(g2, i, j, |g1| / rows, Width(g1) / cols)
  {
    var bh, bw := |g1| / rows, Width(g1) / cols;
    RowsFit(|g1|, rows, i);
    RowsFit(Width(g1), cols, j);
    MulMono(i + 1, rows, bh);
    MulMono(j + 1, cols, bw);
    SliceAgree(g1, g2, i * bh, (i + 1) * bh, j * bw, (j + 1) * bw);
  }

  /** Two images that agree on a rectangle have the same slice of it. */
  lemma SliceAgree(g1: Gray, g2: Gray, r0: nat, r1: nat, c0: nat, c1: nat)
    requires IsImage(g1) && IsImage(g2) && |g1| == |g2| && Width(g1) == Width(g2)
    requires r0 <= r1 <= |g1| && c0 <= c1 <= Width(g1)
    requires forall r, c :: r0 <= r < r1 && c0 <= c < c1 ==> g1[r][c] == g2[r][c]
    ensures Slice2D(g1, r0, r1, c0, c1) == Slice2D(g2, r0, r1, c0, c1)
  {
    var s1, s2 := Slice2D(g1, r0, r1, c0, c1), Slice2D(g2, r0, r1, c0, c1);
    forall r | 0 <= r < r1 - r0 ensures s1[r] == s2[r] {
      forall c | 0 <= c < c1 - c0 ensures s1[r][c] == s2[r][c] {
        assert g1[r0 + r][c0 + c] == g2[r0 + r][c0 + c];
      }
    }
  }

  /**
   * When the grid has fewer pixel rows than bubble rows (or fewer pixel
   * columns than bubble columns) every cell is empty, and every bubble reads
   * as unfilled.
   */
  lemma SmallGridUnfilled(gray: Gray, rows: int, cols: int)
    requires IsImage(gray) && |gray| > 0 && Width(gray) > 0 && 0 < rows && 0 < cols
    requires |gray| < rows || Width(gray) < cols
    ensures Classify(gray, rows, cols).Success?
    ensures forall i, j :: 0 <= i < rows && 0 <= j < cols ==> !Classify(gray, rows, cols).value[i][j]
  {
    var bh, bw := |gray| / rows, Width(gray) / cols;
    assert bh == 0 || bw == 0;
    forall i, j | 0 <= i < rows && 0 <= j < cols
      ensures !IsFilled(Cell(gray, i, j, bh, bw))
    {
      CellContents(gray, rows, cols, i, j);
    }
  }

  /** A matrix whose every cell is classified as `Classify` does is its result. */
  lemma ClassifiedMatrix(gray: Gray, rows: int, cols: int, m: BoolMatrix)
    requires |gray| > 0 && Width(gray) > 0 && 0 < rows && 0 < cols && IsMatrix(m, rows, cols)
    requires forall i, j :: 0 <= i < rows && 0 <= j < cols ==>
      m[i][j] == IsFilled(Cell(gray, i, j, |gray| / rows, Width(gray) / cols))
    ensures Classify(gray, rows, cols) == Success(m)
  {
    var c := Classify(gray, rows, cols).value;
    forall i | 0 <= i < rows ensures c[i] == m[i] {
      assert |c[i]| == cols;
      forall j | 0 <= j < cols ensures c[i][j] == m[i][j] {
      }
    }
    assert c == m;
  }

  /** `detect_filled_bubbles`: fill `bubble_matrix` cell by cell in nested loops. */
  method ClassifyBubbles(gray: Gray, rows: int, cols: int) returns (r: Result<BoolMatrix, Error>)
    ensures r == Classify(gray, rows, cols)
  {
    var h, w := |gray|, Width(gray);
    if h == 0 || w == 0 {
      return Failure(EmptyImage);
    }
    if rows < 0 || cols < 0 {
      return Failure(NegativeDimensions);
    }
    if rows == 0 || cols == 0 {
      return Failure(DivisionByZero);
    }
    var matrix := new bool[rows, cols];
    var bh := h / rows;
    var bw := w / cols;
    for i := 0 to rows
      invariant forall a, b :: 0 <= a < i && 0 <= b < cols ==>
        matrix[a, b] == IsFilled(Cell(gray, a, b, bh, bw))
    {
      for j := 0 to cols
        invariant forall a, b :: 0 <= a < i && 0 <= b < cols ==>
          matrix[a, b] == IsFilled(Cell(gray, a, b, bh, bw))
        invariant forall b :: 0 <= b < j ==> matrix[i, b] == IsFilled(Cell(gray, i, b, bh, bw))
      {
        matrix[i, j] := IsFilled(Cell(gray, i, j, bh, bw));
      }
    }
    var m := Rows(matrix);
    ClassifiedMatrix(gray, rows, cols, m);
    r := Success(m);
  }
}
