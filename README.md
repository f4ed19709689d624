# SmartOMR evaluation core, in Dafny

This project models the discrete logic of the SmartOMR bubble-sheet evaluator and proves properties of it.
The evaluator reads a photographed answer sheet and straightens it by the angle of the rectangle fitted around its ink.
It then crops the sheet to the largest contour of its edge map and tiles the crop into `rows x cols` cells.
A cell counts as a marked bubble when its mean intensity is below 127.
A CSV answer key is loaded into a boolean matrix of the same shape.
The score is the number of cells where sheet and key agree.
The web backend wraps this pipeline in a `/process` handler.
That handler applies form defaults, saves the upload, and records a `results` row and an `audit_log` row, but only on success.

The OpenCV calls are inputs to the model, not part of it.
For each sheet the model takes the fitted rectangle's angle, the rotated grayscale image, and each contour of its edge map reduced to an area and a bounding box (`Pipeline.Scan`).
Everything the code decides downstream of those library results is modelled: the angle fold, the first-maximum selection and its failure, NumPy's crop, the cell tiling and the threshold test, the key parser and its error cases, the score, and the handler's control flow.

Modules, one per component, in dependency order:

- `Wrappers` holds `Option` and `Result`.
- `Images` models grayscale images and NumPy slicing, with sum, count and mean.
- `PyInt` models the part of Python's `int(text)` that the code uses.
- `OmrErrors` lists the exceptions.
- `Matrices` models boolean matrices and `tolist()`.
- `Orientation` holds the angle fold.
- `GridLocator` models `detect_bubble_grid`.
- `BubbleClassifier` models `detect_filled_bubbles`.
- `AnswerKey` models `load_answer_key`.
- `Scoring` holds the score and the total.
- `Pipeline` chains the stages of the `try` block.
- `Backend` models `process_omr`, with the two tables as append-only sequences.

The loops of the source become methods with loop invariants.
`SelectLargest` keeps `largest_area` and the chosen contour as loop state.
`ClassifyBubbles` and `LoadAnswerKey` fill a fresh `array2<bool>` in nested loops.
`ProcessOmr` updates the fields of a server object.
Each method is proved equal to a pure specification function, and the lemmas state what those functions mean.

Behaviour of the code that is easy to miss:

- The classifier never reads the remainder pixels. Cell `(i, j)` is `[i*bh, (i+1)*bh) x [j*bw, (j+1)*bw)`, and the last row and column of cells do not absorb the leftover pixels.
- The key loader checks no shape. Missing lines and missing fields stay False. A key with 4 of 5 lines loads and is scored. Only a field at an index outside the matrix, or a field that is not an integer, raises.
- There is no explicit check for a blank sheet before the rectangle fit. Whatever the fit library does with an empty point set is an input here: `Scan.rawAngle` is `None` when the fit raises.
- The skew lands in (-45, 45] only under the rectangle-angle convention of older OpenCV releases, where `minAreaRect` reports angles in [-90, 0) (`Orientation.FoldAngle`). Recent releases report angles in (0, 90]. For those the fold only negates, so the skew lies in [-90, 0) and is at or below -45 for any angle above 45 (`Orientation.FoldPositiveAngle`).
- The scorer does not compare shapes. Both matrices are `rows x cols` by construction, and the model proves it.

## Model

| member | source | states |
|---|---|---|
| `Orientation.FoldAngle` | omr_processing/omr_core.py:21-25 | the skew equals the negated angle, less 90 when the angle is below -45, so the fold keeps the turn modulo a quarter turn; for an angle in [-90, 0) the skew lies in (-45, 45] |
| `Orientation.FoldUnfold` | omr_processing/omr_core.py:22-25 | every skew in (-45, 45] is the fold of some rectangle angle in [-90, 0) |
| `Orientation.UnfoldFold` | omr_processing/omr_core.py:22-25 | on [-90, 0) the fold is one-to-one: unfolding the skew gives back the angle |
| `Orientation.FoldPositiveAngle` | omr_processing/omr_core.py:21-25 | for angles in (0, 90] the fold only negates, so the skew falls in [-90, 0), and at or below -45 for angles above 45 |
| `Images.Slice2D` | omr_processing/omr_core.py:69 | NumPy's `img[r0:r1, c0:c1]`: inside the image the slice is exactly the rectangle, pixel (r, c) being (r0 + r, c0 + c); it never grows the image and keeps it rectangular |
| `Images.MeanBelowIff` | omr_processing/omr_core.py:70-72 | for a non-empty region, a mean below t is exactly a pixel sum below t times the pixel count |
| `GridLocator.Crop` | omr_processing/omr_core.py:53 | `img[y:y+h, x:x+w]` of a box inside the image has h rows of w pixels, with crop[r][c] == img[y+r][x+c] |
| `GridLocator.FirstLargestIsFirstMaximum` | omr_processing/omr_core.py:43-49 | the running maximum picks a contour exactly when one has positive area, and then picks the first of strictly greatest area: earlier ones are strictly smaller and later ones are no larger |
| `GridLocator.FirstLargestUnique` | omr_processing/omr_core.py:45-49 | at most one contour is the first of strictly greatest positive area, so ties go to the earlier contour |
| `GridLocator.SelectLargest` | omr_processing/omr_core.py:43-49 | the selection loop returns exactly that contour, or nothing when every area is 0 or less |
| `GridLocator.LocateGridSpec` | omr_processing/omr_core.py:50-54 | "Bubble grid not found." exactly when no contour has positive area; otherwise the result is the crop of the chosen contour's box, and the coordinates returned are that box |
| `GridLocator.DetectBubbleGrid` | omr_processing/omr_core.py:43-54 | raises the grid-not-found error exactly when no contour has positive area, and otherwise returns the crop of the chosen box |
| `BubbleClassifier.Classify` | omr_processing/omr_core.py:58-72 | fails exactly for an empty crop, a negative shape (from `np.zeros`) or a zero rows or cols value (from `h // rows`), in that order; otherwise the matrix has exactly rows x cols cells, and cell (i, j) is the fill test of the cell at (i·bh, j·bw) |
| `BubbleClassifier.CellDims` | omr_processing/omr_core.py:61-69 | cell (i, j) of a rectangular image has bh = h // rows rows of bw = w // cols pixels |
| `BubbleClassifier.CellShape` | omr_processing/omr_core.py:61-69 | with bh = h // rows and bw = w // cols, cell (i, j) of a rectangular image is exactly the bh x bw pixels gray[i*bh + r][j*bw + c]; no cell reaches past the image |
| `BubbleClassifier.CellContents` | omr_processing/omr_core.py:61-72 | cell (i, j) has bh·bw pixels, and it is filled exactly when bh·bw > 0 and its pixels sum to less than 127 per pixel |
| `BubbleClassifier.FilledBelow` | omr_processing/omr_core.py:70-72 | `np.mean(roi) < 127` holds exactly for a non-empty region whose sum is below 127 times its pixel count; an empty region (NaN mean) is never filled |
| `BubbleClassifier.TopLeftOnly` | omr_processing/omr_core.py:61-69 | two images of one size that agree on the top-left (rows·bh) x (cols·bw) pixels get the same matrix, so the remainder pixels are never read |
| `BubbleClassifier.SmallGridUnfilled` | omr_processing/omr_core.py:61-72 | when h < rows or w < cols every cell is empty, its mean is NaN, and every bubble reads unfilled |
| `BubbleClassifier.ClassifyBubbles` | omr_processing/omr_core.py:56-73 | the nested loops that fill `bubble_matrix` compute exactly `Classify`, errors included |
| `Matrices.Rows` | backend/app.py:58 | `tolist()` of a two-dimensional array gives its rows, with each cell unchanged |
| `PyInt.ParseInt` | omr_processing/omr_core.py:83 | a digit string parses to its decimal value, and anything that parses is non-empty |
| `PyInt.ParseIntNoneIff` | omr_processing/omr_core.py:83 | `int` raises exactly when, after an optional '+' or '-', nothing follows or a non-digit follows |
| `PyInt.ParseCanonical` | omr_processing/omr_core.py:83 | a text that parses to n is an optional sign, then '0's, then exactly the digits `str` prints for abs(n); with no sign or '+' n ≥ 0, and with '-' n ≤ 0 |
| `PyInt.ParseOneIff` | omr_processing/omr_core.py:83 | `int(val) == 1` holds exactly for an optional '+', any number of '0's, then '1' |
| `PyInt.ParseShowInt` | omr_processing/omr_core.py:83 | parsing the decimal text of any integer, negatives included, gives that integer back |
| `PyInt.ParseIntExamples` | omr_processing/omr_core.py:83 | "1", "01" and "+1" parse to 1; "0" and "2" parse to other values; "", "-", "1.0" and "x" do not parse |
| `AnswerKey.FieldError` | omr_processing/omr_core.py:83 | storing a field fails exactly when `int(val)` fails or the index is outside the matrix; when it fails, the error is the `int` failure exactly when `int(val)` fails, so that failure is reported before the index |
| `AnswerKey.KeyCellText` | omr_processing/omr_core.py:80-83 | a key cell is True exactly when line i has a field j written as an optional '+', then '0's, then '1' |
| `AnswerKey.LoadKey` | omr_processing/omr_core.py:75-84 | a loaded key is rows x cols, and cell (i, j) is True exactly when line i has a field j that parses to the integer 1 |
| `AnswerKey.LoadKeyFails` | omr_processing/omr_core.py:78-84 | loading fails exactly for a negative shape, a file that does not open, or some field that is not an integer or sits at line index ≥ rows or field index ≥ cols |
| `AnswerKey.LoadKeyFirstError` | omr_processing/omr_core.py:81-83 | the error names the first failing field in reading order and says why it fails; every earlier field is fine |
| `AnswerKey.ShortKeyLoads` | omr_processing/omr_core.py:78-83 | a key with missing lines or short lines loads without error; the cells it leaves out stay False, and a present field reads True only when it parses to exactly 1, that is, when `ParseOneIff` says it spells 1 |
| `AnswerKey.LoadAnswerKey` | omr_processing/omr_core.py:75-84 | the nested loops that fill `key_matrix` compute exactly `LoadKey`, and they return no partial matrix on error |
| `Scoring.ScoreBounds` | backend/app.py:54-60 | for two rows x cols matrices, 0 ≤ score ≤ total = rows·cols |
| `Scoring.ScoreFullIffEqual` | backend/app.py:54 | the score is full marks exactly when the sheet equals the key |
| `Scoring.ScoreZeroIffOpposite` | backend/app.py:54 | the score is zero exactly when sheet and key differ in every cell |
| `Scoring.ScoreComplement` | backend/app.py:54 | blank cells count as much as marked ones: the agreements with a key and with its negation add to the total |
| `Pipeline.Evaluate` | backend/app.py:48-61 | an undecodable image fails with "Image not found"; a success has a folded angle, a rows x cols matrix with rows, cols > 0, total = rows·cols and 0 ≤ score ≤ total |
| `Pipeline.EvaluateSuccess` | backend/app.py:50-60 | a success reports the box of the first strictly largest contour, the classification of its crop, and the agreement count with the loaded key |
| `Pipeline.NoGridNoScore` | backend/app.py:51 | with no contour of positive area the pipeline stops at grid location, whatever the key, so no score is produced |
| `Pipeline.EvaluateOmr` | backend/app.py:48-61 | running the stage methods in order computes exactly `Evaluate` |
| `OmrErrors.Message` | omr_processing/omr_core.py:50-51 | the text "Bubble grid not found." identifies the grid error and no other; only this exception and image-not-found (raised at omr_core.py line 10) have a text of the code's own, and the image-not-found text ends with the path |
| `Backend.FormIntReadsBack` | backend/app.py:43-44 | a `rows` or `cols` field written as `str(n)` reads back as n whatever the default; a field that reads as n is n's digits after an optional sign and '0's |
| `Backend.Respond` | backend/app.py:38-73 | without an image the response is the 400 "No image uploaded"; a stage error or a result is returned exactly when the form parses and the upload is written; a result has total = rows·cols and 0 ≤ score ≤ total |
| `Backend.DefaultRequest` | backend/app.py:43-45 | a request without form fields is scored as 5 x 20 against `answer_keys/SetA_key.csv`, out of 100 |
| `Backend.NoGridResponse` | backend/app.py:72-73 | a sheet without a positive-area contour gets a 500 whose message is "Bubble grid not found." |
| `Backend.OmrServer.ProcessOmr` | backend/app.py:38-73 | the response is `Respond`; the upload is kept whenever it was written, even if a stage then fails; each table gains exactly one row (filename, score, rows·cols, time) or (filename, "processed", time), and only on success |

## Left out

- The OpenCV primitives are inputs, not models: colour conversion, Gaussian blur, Otsu threshold, `minAreaRect`, the rotation matrix, `warpAffine`, Canny, `findContours`, `contourArea` and `boundingRect`. They are foreign numeric code on floating point. So the model does not prove that the rotated image keeps the input's size, or that bounding boxes lie inside the image.
- The point set given to `minAreaRect` is not modelled: omr_core.py:20 builds it as (row, col) pairs of the ink pixels, and the fitted angle is an input (`Scan.rawAngle`).
- The rotation by the folded angle about `(w // 2, h // 2)` (omr_core.py:26-29) is not modelled: `Scan.rectified` is an input with no link to `rawAngle`.
- The colour-to-gray conversion in `detect_filled_bubbles` is folded into the input. `Scan.rectified` is already grayscale. Cropping commutes with a per-pixel conversion, so the crop of the gray image stands for the gray of the crop.
- Text of library exceptions: `ServerError` carries the error kind. `OmrErrors.Message` gives only the texts the source writes itself.
- Image and key file I/O are parameters: `load_image`, `save_image`, `open`, and the write of the uploaded file. `Scan` is `None` for an image that does not decode, `KeyFile` is `None` for a path that does not open, and `saved` says whether the upload was written.
- The command-line driver (`__main__` of omr_core.py) and its printing are left out.
- CSV dialect handling (quoting, escapes, delimiters) is left out. The key comes in already split into lines of fields.
- PyInt.ParseInt: accepts only an optional sign followed by ASCII digits. Python's `int` also accepts surrounding whitespace, `_` between digits and non-ASCII decimal digits. Those strings are rejected here.
- Backend.FormInt: shares the same restriction on what `int` accepts.
- Flask routing, request and response objects, and JSON serialisation are left out. The status route is left out too.
- The sqlite schema, connections and commit are left out. The two tables are append-only sequences that start empty. Database failures are not modelled.
- Timestamps are parameters (`resultTime`, `auditTime`), not clock readings.
- Concurrency between requests is left out.
- Floating point is left out. The pipeline's angle and contour areas are exact reals, and `np.mean` is an exact rational mean.
- The dashboard (dashboard/app.py) is left out. It is a Streamlit UI with an HTTP client and pandas analytics.
