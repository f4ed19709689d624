/**
 * The `/process` handler of the web backend, `process_omr`: read the form
 * with its defaults, save the upload, run the pipeline and, only when every
 * stage and the score succeeded, append one row to the `results` table and
 * one to the `audit_log` table. The two tables are modelled as append-only
 * sequences; the clock readings and the outcome of writing the uploaded file
 * are parameters.
 */
module Backend {
  import opened Wrappers
  import opened PyInt
  import opened OmrErrors
  import opened AnswerKey
  import opened Pipeline

  const DefaultRows: int := 5
  const DefaultCols: int := 20
  const DefaultKeyPath: string := "answer_keys/SetA_key.csv"
  const UploadFolder: string := "data/uploads"
  const NoImageMessage: string := "No image uploaded"

  /** The parts of a `/process` request the handler reads. */
  datatype Request = Request(
    hasImage: bool,
    filename: string,
    rowsField: Option<string>,
    colsField: Option<string>,
    keyField: Option<string>)

  datatype Response =
    /** 400 with `{'error': 'No image uploaded'}`. */
    | BadRequest(message: string)
    /** An exception raised outside the `try` block: the web framework's own 500 page. */
    | Unhandled
    /** 500 with `{'error': str(e)}` for an exception raised by a stage. */
    | ServerError(error: Error)
    /** 200 with the result record. */
    | Processed(result: ScoreResult)

  datatype ResultRow = ResultRow(filename: string, score: int, total: int, timestamp: string)

  datatype AuditRow = AuditRow(filename: string, action: string, timestamp: string)

  /** `int(request.form.get(name, default))`: the default when absent, else Python's `int` of the text. */
  function FormInt(field: Option<string>, default: int): Option<int> {
    match field
    case None => Some(default)
    case Some(text) => ParseInt(text)
  }

  /**
   * A form field written as `str(n)` reads back as n, whatever the default,
   * and a field that reads as n has the text of n after an optional sign and
   * leading zeros.
   */
  lemma FormIntReadsBack(n: int, default: int, text: string)
    ensures FormInt(Some(ShowInt(n)), default) == Some(n)
    ensures FormInt(Some(text), default) == Some(n) ==>
      var d, t := Unsigned(text), ShowNat(if n < 0 then -n else n);
      |t| <= |d| && IsZeros(d[..|d| - |t|]) && d[|d| - |t|..] == t
  {
    ParseShowInt(n);
    ParseCanonical(text);
  }

  /** `request.form.get(name, default)` for a text field. */
  function FormText(field: Option<string>, default: string): string {
    match field
    case None => default
    case Some(text) => text
  }

  /** `os.path.join(dir, name)`: an absolute name replaces the directory. */
  function JoinPath(dir: string, name: string): string {
    if |name| > 0 && name[0] == '/' then name else dir + "/" + name
  }

  function UploadPath(filename: string): string {
    JoinPath(UploadFolder, filename)
  }

  /** What opening an answer-key path gives: its lines of fields, or nothing. */
  function KeyFile(keyFiles: map<string, Fields>, path: string): Option<Fields> {
    if path in keyFiles then Some(keyFiles[path]) else None
  }

  /** The rows and columns the request asks for, when both fields parse. */
  function Shape(req: Request): Option<(int, int)> {
    var rows := FormInt(req.rowsField, DefaultRows);
    var cols := FormInt(req.colsField, DefaultCols);
    if rows.Some? && cols.Some? then Some((rows.value, cols.value)) else None
  }

  /** The handler reaches the write of the uploaded file, and the write succeeds. */
  predicate Saves(req: Request, saved: bool) {
    req.hasImage && Shape(req).Some? && saved
  }

  /**
   * The response of `process_omr`. A request without an image gets a 400
   * before anything else; a rows or cols field that is not an integer, or a
   * failed write of the upload, raises outside the `try`; otherwise the
   * pipeline's first exception becomes a 500 and a success the result record.
   */
  function Respond(req: Request, saved: bool, scan: Option<Scan>, keyFiles: map<string, Fields>): (r: Response)
    ensures !req.hasImage ==> r == BadRequest(NoImageMessage)
    ensures (r.ServerError? || r.Processed?) <==> Saves(req, saved)
    ensures r.Processed? ==>
      var shape := Shape(req).value;
      r.result.total == shape.0 * shape.1 && 0 <= r.result.score <= r.result.total
  {
    if !req.hasImage then BadRequest(NoImageMessage)
    else if Shape(req).None? || !saved then Unhandled
    else
      var (rows, cols) := Shape(req).value;
      var keyPath := FormText(req.keyField, DefaultKeyPath);
      match Evaluate(scan, UploadPath(req.filename), rows, cols, KeyFile(keyFiles, keyPath), keyPath)
      case Success(result) => Processed(result)
      case Failure(e) => ServerError(e)
  }

  /**
   * A request that leaves out rows, cols and the key path is evaluated as a
   * 5 x 20 sheet against `answer_keys/SetA_key.csv`, out of 100.
   */
  lemma DefaultRequest(filename: string, saved: bool, scan: Option<Scan>, keyFiles: map<string, Fields>)
    requires saved
    ensures var r := Respond(Request(true, filename, None, None, None), saved, scan, keyFiles);
      var e := Evaluate(scan, UploadPath(filename), 5, 20, KeyFile(keyFiles, "answer_keys/SetA_key.csv"),
                        "answer_keys/SetA_key.csv");
      && (e.Success? ==> r == Processed(e.value) && r.result.total == 100)
      && (e.Failure? ==> r == ServerError(e.error))
  {
  }

  /**
   * A saved sheet whose edge map has no contour of positive area gets a
   * 500 whose message is "Bubble grid not found.", and never a score.
   */
  lemma NoGridResponse(req: Request, scan: Scan, keyFiles: map<string, Fields>)
    requires req.hasImage && Shape(req).Some? && scan.rawAngle.Some?
    requires forall j :: 0 <= j < |scan.contours| ==> scan.contours[j].area <= 0.0
    ensures Respond(req, true, Some(scan), keyFiles) == ServerError(GridNotFound)
    ensures Message(Respond(req, true, Some(scan), keyFiles).error) == "Bubble grid not found."
  {
    var (rows, cols) := Shape(req).value;
    var keyPath := FormText(req.keyField, DefaultKeyPath);
    NoGridNoScore(scan, UploadPath(req.filename), rows, cols, KeyFile(keyFiles, keyPath), keyPath);
  }

  /** The backend's persistent state: uploaded files and the two database tables. */
  class OmrServer {
    var uploads: seq<string>
    var results: seq<ResultRow>
    var auditLog: seq<AuditRow>

    /** A server over an empty upload folder and empty tables. */
    constructor ()
      ensures uploads == [] && results == [] && auditLog == []
    {
      uploads, results, auditLog := [], [], [];
    }

    /**
     * `process_omr`. The uploaded file is written before the pipeline runs,
     * so it stays even when a stage fails; the `results` and `audit_log`
     * rows are appended only for a response that carries a score.
     */
    method ProcessOmr(req: Request, saved: bool, scan: Option<Scan>, keyFiles: map<string, Fields>,
                      resultTime: string, auditTime: string) returns (resp: Response)
      modifies this
      ensures resp == Respond(req, saved, scan, keyFiles)
      ensures uploads == old(uploads) + (if Saves(req, saved) then [UploadPath(req.filename)] else [])
      ensures results == old(results) +
        (if resp.Processed? then [ResultRow(req.filename, resp.result.score, resp.result.total, resultTime)] else [])
      ensures auditLog == old(auditLog) +
        (if resp.Processed? then [AuditRow(req.filename, "processed", auditTime)] else [])
    {
      if !req.hasImage {
        return BadRequest(NoImageMessage);
      }
      var rowsValue := FormInt(req.rowsField, DefaultRows);
      if rowsValue.None? {
        return Unhandled;
      }
      var colsValue := FormInt(req.colsField, DefaultCols);
      if colsValue.None? {
        return Unhandled;
      }
      var rows, cols := rowsValue.value, colsValue.value;
      var keyPath := FormText(req.keyField, DefaultKeyPath);
      var imagePath := UploadPath(req.filename);
      if !saved {
        return Unhandled;
      }
      uploads := uploads + [imagePath];
      var outcome := EvaluateOmr(scan, imagePath, rows, cols, KeyFile(keyFiles, keyPath), keyPath);
      match outcome
      case Failure(e) =>
        resp := ServerError(e);
      case Success(result) =>
        results := results + [ResultRow(req.filename, result.score, rows * cols, resultTime)];
        auditLog := auditLog + [AuditRow(req.filename, "processed", auditTime)];
        resp := Processed(result);
    }
  }
}
