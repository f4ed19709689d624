/**
 * The stages `process_omr` runs inside its `try` block, in order: load the
 * image, correct the orientation, locate the grid, classify the bubbles,
 * load the key and score. What the image library computes from the pixels
 * comes in as a `Scan`: the rectangle angle (or `None` when the fit raised),
 * the rotated grayscale image, and the contours of its edge map.
 */
module Pipeline {
  import opened Wrappers
  import opened Images
  import opened Matrices
  import opened OmrErrors
  import opened Orientation
  import opened GridLocator
  import opened BubbleClassifier
  import opened AnswerKey
  import opened Scoring

  /** What the image library reports for an image that `cv2.imread` could decode. */
  datatype Scan = Scan(rawAngle: Option<real>, rectified: Gray, contours: seq<Contour>)

  /** The result record returned to the client. */
  datatype ScoreResult = ScoreResult(
    rotationAngle: real,
    gridCoords: Box,
    bubbleMatrix: BoolMatrix,
    score: int,
    total: int)

  /**
   * The stages in order; the first exception ends the pipeline. `scan` is
   * `None` when the saved image does not decode, `keyFile` is `None` when the
   * key file does not open.
   */
  function Evaluate(scan: Option<Scan>, imagePath: string, rows: int, cols: int,
                    keyFile: Option<Fields>, keyPath: string): (r: Result<ScoreResult, Error>)
    ensures scan.None? ==> r == Failure(ImageNotFound(imagePath))
    ensures r.Success? ==>
      && scan.Some? && scan.value.rawAngle.Some?
      && r.value.rotationAngle == FoldAngle(scan.value.rawAngle.value)
      && 0 < rows && 0 < cols
      && IsMatrix(r.value.bubbleMatrix, rows, cols)
      && r.value.total == rows * cols
      && 0 <= r.value.score <= r.value.total
  {
    if scan.None? then Failure(ImageNotFound(imagePath))
    else if scan.value.rawAngle.None? then Failure(OrientationFailed)
    else
      var angle := FoldAngle(scan.value.rawAngle.value);
      var region :- LocateGrid(scan.value.rectified, scan.value.contours);
      var bubbles :- Classify(region.image, rows, cols);
      var key :- LoadKey(keyFile, keyPath, rows, cols);
      ScoreBounds(bubbles, key, rows, cols);
      Success(ScoreResult(angle, region.box, bubbles, Score(bubbles, key), Total(rows, cols)))
  }

  /**
   * A successful evaluation reports the box of the first contour of strictly
   * greatest area, the classification of that crop, and the number of cells
   * where it agrees with the loaded key.
   */
  lemma EvaluateSuccess(scan: Option<Scan>, imagePath: string, rows: int, cols: int,
                        keyFile: Option<Fields>, keyPath: string)
    requires Evaluate(scan, imagePath, rows, cols, keyFile, keyPath).Success?
    ensures var s := scan.value;
      var r := Evaluate(scan, imagePath, rows, cols, keyFile, keyPath).value;
      && (exists k: nat :: IsFirstLargest(s.contours, k) && r.gridCoords == s.contours[k].box)
      && Classify(Crop(s.rectified, r.gridCoords), rows, cols) == Success(r.bubbleMatrix)
      && LoadKey(keyFile, keyPath, rows, cols).Success?
      && r.score == Score(r.bubbleMatrix, LoadKey(keyFile, keyPath, rows, cols).value)
  {
    LocateGridSpec(scan.value.rectified, scan.value.contours);
  }

  /**
   * A sheet without any contour of positive area yields no score at all:
   * once the image decodes and the angle is fitted, the pipeline stops with
   * "Bubble grid not found.".
   */
  lemma NoGridNoScore(scan: Scan, imagePath: string, rows: int, cols: int,
                      keyFile: Option<Fields>, keyPath: string)
    requires scan.rawAngle.Some?
    requires forall j :: 0 <= j < |scan.contours| ==> scan.contours[j].area <= 0.0
    ensures Evaluate(Some(scan), imagePath, rows, cols, keyFile, keyPath) == Failure(GridNotFound)
  {
    LocateGridSpec(scan.rectified, scan.contours);
  }

  /** The `try` block of `process_omr`, stage by stage. */
  method EvaluateOmr(scan: Option<Scan>, imagePath: string, rows: int, cols: int,
                     keyFile: Option<Fields>, keyPath: string) returns (r: Result<ScoreResult, Error>)
    ensures r == Evaluate(scan, imagePath, rows, cols, keyFile, keyPath)
  {
    if scan.None? {
      return Failure(ImageNotFound(imagePath));
    }
    var s := scan.value;
    if s.rawAngle.None? {
      return Failure(OrientationFailed);
    }
    var angle := FoldAngle(s.rawAngle.value);
    var region :- DetectBubbleGrid(s.rectified, s.contours);
    var bubbles :- ClassifyBubbles(region.image, rows, cols);
    var key :- LoadAnswerKey(keyFile, keyPath, rows, cols);
    ScoreBounds(bubbles, key, rows, cols);
    r := Success(ScoreResult(angle, region.box, bubbles, Score(bubbles, key), Total(rows, cols)));
  }
}
