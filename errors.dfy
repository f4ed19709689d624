/** The exceptions the pipeline can raise, one constructor per cause. */
module OmrErrors {

  datatype Error =
    /** `load_image`: `cv2.imread` returned nothing for the path. */
    | ImageNotFound(path: string)
    /** `correct_orientation`: the rotated-rectangle fit raised (a library error). */
    | OrientationFailed
    /** `detect_bubble_grid`: no contour with positive area. */
    | GridNotFound
    /** `detect_filled_bubbles`: the grayscale conversion refuses an empty crop. */
    | EmptyImage
    /** `np.zeros` with a negative number of rows or columns. */
    | NegativeDimensions
    /** `h // rows` or `w // cols` with a zero divisor. */
    | DivisionByZero
    /** `open` of the answer-key file failed. */
    | KeyFileNotFound(path: string)
    /** `int(val)` raised for field `field` of line `line`. */
    | KeyFieldNotInteger(line: nat, field: nat)
    /** `key_matrix[line, field]` is outside the rows x cols matrix. */
    | KeyIndexOutOfRange(line: nat, field: nat)

  /** The message of the exceptions whose text the pipeline itself writes. */
  function Message(e: Error): (m: string)
    ensures m == "Bubble grid not found." <==> e == GridNotFound
    ensures m != "" <==> e.ImageNotFound? || e.GridNotFound?
    ensures e.ImageNotFound? ==> |m| >= 17 && m[17..] == e.path
  {
    match e
    case ImageNotFound(path) =>
      assert ("Image not found: " + path)[0] == 'I';
      "Image not found: " + path
    case GridNotFound => "Bubble grid not found."
    case _ => ""
  }
}
