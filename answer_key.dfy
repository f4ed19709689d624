/**
 * Answer-key loading, `load_answer_key`: start from an all-False
 * rows x cols matrix and, for every field of every CSV line, store
 * `int(val) == 1` at (line, field). The CSV reader is a library call, so
 * the file comes in already split into lines of fields; `None` stands for
 * a file that cannot be opened.
 */
module AnswerKey {
  import opened Wrappers
  import opened PyInt
  import opened Matrices
  import opened OmrErrors

  /** The lines of a CSV file, each a list of fields. */
  type Fields = seq<seq<string>>

  /** Cell (i, j) of a loaded key: field j of line i exists and is the integer 1. */
  predicate KeyCell(lines: Fields, i: nat, j: nat) {
    i < |lines| && j < |lines[i]| && ParseInt(lines[i][j]) == Some(1)
  }

  /** A key cell is True exactly when its field is written as an optional '+', then '0's, then '1'. */
  lemma KeyCellText(lines: Fields, i: nat, j: nat)
    ensures KeyCell(lines, i, j) <==> i < |lines| && j < |lines[i]| && SpellsOne(lines[i][j])
  {
    if i < |lines| && j < |lines[i]| {
      ParseOneIff(lines[i][j]);
    }
  }

  /** Storing field j of line i succeeds: `int(val)` parses and (i, j) is inside the matrix. */
  predicate FieldOk(lines: Fields, rows: int, cols: int, i: nat, j: nat)
    requires i < |lines| && j < |lines[i]|
  {
    ParseInt(lines[i][j]).Some? && i < rows && j < cols
  }

  /** The exception storing field j of line i raises: `int(val)` first, then the index. */
  function FieldError(lines: Fields, rows: int, cols: int, i: nat, j: nat): (e: Option<Error>)
    requires i < |lines| && j < |lines[i]|
    ensures e.None? <==> FieldOk(lines, rows, cols, i, j)
    ensures e.Some? ==> (e.value.KeyFieldNotInteger? <==> ParseInt(lines[i][j]).None?)
  {
    if ParseInt(lines[i][j]).None? then Some(KeyFieldNotInteger(i, j))
    else if i >= rows || j >= cols then Some(KeyIndexOutOfRange(i, j))
    else None
  }

  /** The first failing field of line i from field j on. */
  function FirstErrorInLine(lines: Fields, rows: int, cols: int, i: nat, j: nat): Option<Error>
    requires i < |lines| && j <= |lines[i]|
    decreases |lines[i]| - j
  {
    if j == |lines[i]| then None
    else if FieldError(lines, rows, cols, i, j).Some? then FieldError(lines, rows, cols, i, j)
    else FirstErrorInLine(lines, rows, cols, i, j + 1)
  }

  /** The first failing field, in reading order, of the lines from line i on. */
  function FirstErrorFrom(lines: Fields, rows: int, cols: int, i: nat): Option<Error>
    requires i <= |lines|
    decreases |lines| - i
  {
    if i == |lines| then None
    else if FirstErrorInLine(lines, rows, cols, i, 0).Some? then FirstErrorInLine(lines, rows, cols, i, 0)
    else FirstErrorFrom(lines, rows, cols, i + 1)
  }

  /** What `load_answer_key` returns, or the exception it raises. */
  function LoadKey(file: Option<Fields>, path: string, rows: int, cols: int): (r: Result<BoolMatrix, Error>)
    ensures r.Success? ==> IsMatrix(r.value, rows, cols)
    ensures r.Success? ==>
      file.Some? && forall i, j :: 0 <= i < rows && 0 <= j < cols ==> r.value[i][j] == KeyCell(file.value, i, j)
  {
    if rows < 0 || cols < 0 then Failure(NegativeDimensions)
    else if file.None? then Failure(KeyFileNotFound(path))
    else
      var lines := file.value;
      match FirstErrorFrom(lines, rows, cols, 0)
      case Some(e) => Failure(e)
      case None => Success(seq(rows, i requires 0 <= i < rows =>
                     seq(cols, j requires 0 <= j < cols => KeyCell(lines, i, j))))
  }

  /** No field of line i from j on fails exactly when the scan of the line finds nothing. */
  lemma {:induction false} InLineNoneIff(lines: Fields, rows: int, cols: int, i: nat, j: nat)
    requires i < |lines| && j <= |lines[i]|
    ensures FirstErrorInLine(lines, rows, cols, i, j).None? <==>
      forall b :: j <= b < |lines[i]| ==> FieldOk(lines, rows, cols, i, b)
    decreases |lines[i]| - j
  {
    if j < |lines[i]| {
      InLineNoneIff(lines, rows, cols, i, j + 1);
      if FieldOk(lines, rows, cols, i, j) {
        assert FirstErrorInLine(lines, rows, cols, i, j) == FirstErrorInLine(lines, rows, cols, i, j + 1);
      } else {
        assert FirstErrorInLine(lines, rows, cols, i, j).Some?;
      }
    }
  }

  /** The error found in a line is that of a failing field, and every field before it is fine. */
  lemma {:induction false} InLineFirst(lines: Fields, rows: int, cols: int, i: nat, j: nat)
    requires i < |lines| && j <= |lines[i]|
    requires FirstErrorInLine(lines, rows, cols, i, j).Some?
    ensures exists b :: (j <= b < |lines[i]| &&
      FirstErrorInLine(lines, rows, cols, i, j) == FieldError(lines, rows, cols, i, b) &&
      !FieldOk(lines, rows, cols, i, b) &&
      forall b' :: j <= b' < b ==> FieldOk(lines, rows, cols, i, b'))
    decreases |lines[i]| - j
  {
    if FieldError(lines, rows, cols, i, j).None? {
      InLineFirst(lines, rows, cols, i, j + 1);
    }
  }

  lemma {:induction false} FromNoneIff(lines: Fields, rows: int, cols: int, i: nat)
    requires i <= |lines|
    ensures FirstErrorFrom(lines, rows, cols, i).None? <==>
      forall a, b :: i <= a < |lines| && 0 <= b < |lines[a]| ==> FieldOk(lines, rows, cols, a, b)
    decreases |lines| - i
  {
    if i < |lines| {
      InLineNoneIff(lines, rows, cols, i, 0);
      FromNoneIff(lines, rows, cols, i + 1);
    }
  }

  lemma {:induction false} FromFirst(lines: Fields, rows: int, cols: int, i: nat)
    requires i <= |lines|
    requires FirstErrorFrom(lines, rows, cols, i).Some?
    ensures exists a, b :: (i <= a < |lines| && 0 <= b < |lines[a]| &&
      FirstErrorFrom(lines, rows, cols, i) == FieldError(lines, rows, cols, a, b) &&
      !FieldOk(lines, rows, cols, a, b) &&
      forall a', b' :: i <= a' < |lines| && 0 <= b' < |lines[a']| && (a' < a || (a' == a && b' < b)) ==>
        FieldOk(lines, rows, cols, a', b'))
    decreases |lines| - i
  {
    if FirstErrorInLine(lines, rows, cols, i, 0).Some? {
      InLineFirst(lines, rows, cols, i, 0);
      var b :| 0 <= b < |lines[i]| &&
        FirstErrorInLine(lines, rows, cols, i, 0) == FieldError(lines, rows, cols, i, b) &&
        !FieldOk(lines, rows, cols, i, b) &&
        forall b' :: 0 <= b' < b ==> FieldOk(lines, rows, cols, i, b');
      assert i <= i < |lines| && 0 <= b < |lines[i]|;
    } else {
      InLineNoneIff(lines, rows, cols, i, 0);
      FromFirst(lines, rows, cols, i + 1);
    }
  }

  /**
   * Loading fails exactly in these cases: a negative shape, a file that does
   * not open, or some field that is not an integer or lies outside the
   * rows x cols matrix (line index >= rows or field index >= cols).
   */
  lemma LoadKeyFails(file: Option<Fields>, path: string, rows: int, cols: int)
    ensures LoadKey(file, path, rows, cols).Failure? <==>
      rows < 0 || cols < 0 || file.None? ||
      exists i, j :: 0 <= i < |file.value| && 0 <= j < |file.value[i]| &&
        (ParseInt(file.value[i][j]).None? || i >= rows || j >= cols)
  {
    if rows >= 0 && cols >= 0 && file.Some? {
      var lines := file.value;
      FromNoneIff(lines, rows, cols, 0);
      if FirstErrorFrom(lines, rows, cols, 0).None? {
        forall i, j | 0 <= i < |lines| && 0 <= j < |lines[i]|
          ensures !(ParseInt(lines[i][j]).None? || i >= rows || j >= cols)
        {
          assert FieldOk(lines, rows, cols, i, j);
        }
      } else {
        FromFirst(lines, rows, cols, 0);
        var a, b :| 0 <= a < |lines| && 0 <= b < |lines[a]| && !FieldOk(lines, rows, cols, a, b);
        assert ParseInt(lines[a][b]).None? || a >= rows || b >= cols;
      }
    }
  }

  /**
   * When loading fails on the fields, the error names the first failing
   * field in reading order, says why it fails, and no earlier field fails.
   */
  lemma LoadKeyFirstError(lines: Fields, path: string, rows: int, cols: int)
    requires rows >= 0 && cols >= 0
    requires LoadKey(Some(lines), path, rows, cols).Failure?
    ensures var e := LoadKey(Some(lines), path, rows, cols).error;
      (e.KeyFieldNotInteger? || e.KeyIndexOutOfRange?) &&
      e.line < |lines| && e.field < |lines[e.line]| &&
      (e.KeyFieldNotInteger? <==> ParseInt(lines[e.line][e.field]).None?) &&
      (e.KeyIndexOutOfRange? ==> e.line >= rows || e.field >= cols) &&
      forall a, b :: 0 <= a < |lines| && 0 <= b < |lines[a]| && (a < e.line || (a == e.line && b < e.field)) ==>
        FieldOk(lines, rows, cols, a, b)
  {
    FromFirst(lines, rows, cols, 0);
    var a, b :| 0 <= a < |lines| && 0 <= b < |lines[a]| &&
      FirstErrorFrom(lines, rows, cols, 0) == FieldError(lines, rows, cols, a, b) &&
      !FieldOk(lines, rows, cols, a, b) &&
      forall a', b' :: 0 <= a' < |lines| && 0 <= b' < |lines[a']| && (a' < a || (a' == a && b' < b)) ==>
        FieldOk(lines, rows, cols, a', b');
    var e := LoadKey(Some(lines), path, rows, cols).error;
    assert e == FieldError(lines, rows, cols, a, b).value;
    assert e.line == a && e.field == b;
    assert (e.KeyFieldNotInteger? || e.KeyIndexOutOfRange?) && e.line < |lines| && e.field < |lines[e.line]|;
    assert e.KeyFieldNotInteger? <==> ParseInt(lines[e.line][e.field]).None?;
    assert e.KeyIndexOutOfRange? ==> e.line >= rows || e.field >= cols;
  }

  /**
   * A key with missing lines or short lines loads without error when its
   * fields are fine: the cells it does not mention stay False, and a field
   * reads True only when it parses to exactly 1 (so "0" and "2" read False).
   */
  lemma ShortKeyLoads(lines: Fields, path: string, rows: nat, cols: nat)
    requires |lines| <= rows
    requires forall i, j :: 0 <= i < |lines| && 0 <= j < |lines[i]| ==> j < cols && ParseInt(lines[i][j]).Some?
    ensures LoadKey(Some(lines), path, rows, cols).Success?
    ensures forall i, j :: 0 <= i < rows && 0 <= j < cols && (i >= |lines| || j >= |lines[i]|) ==>
      !LoadKey(Some(lines), path, rows, cols).value[i][j]
    ensures forall i, j :: 0 <= i < |lines| && 0 <= j < |lines[i]| ==>
      (ParseInt(lines[i][j]) == Some(1)) == LoadKey(Some(lines), path, rows, cols).value[i][j]
  {
    assert forall i, j :: 0 <= i < |lines| && 0 <= j < |lines[i]| ==> FieldOk(lines, rows, cols, i, j);
    FromNoneIff(lines, rows, cols, 0);
    forall i, j | 0 <= i < |lines| && 0 <= j < |lines[i]|
      ensures (ParseInt(lines[i][j]) == Some(1)) == LoadKey(Some(lines), path, rows, cols).value[i][j]
    {
      assert ParseInt(lines[i][j]).Some? && j < cols;
    }
  }

  /** `load_answer_key`: fill `key_matrix` field by field in nested loops. */
  method LoadAnswerKey(file: Option<Fields>, path: string, rows: int, cols: int) returns (r: Result<BoolMatrix, Error>)
    ensures r == LoadKey(file, path, rows, cols)
  {
    if rows < 0 || cols < 0 {
      return Failure(NegativeDimensions);
    }
    var matrix := new bool[rows, cols]((_, _) => false);
    if file.None? {
      return Failure(KeyFileNotFound(path));
    }
    var lines := file.value;
    for i := 0 to |lines|
      invariant FirstErrorFrom(lines, rows, cols, 0) == FirstErrorFrom(lines, rows, cols, i)
      invariant forall a, b :: 0 <= a < rows && 0 <= b < cols ==> matrix[a, b] == (a < i && KeyCell(lines, a, b))
    {
      var row := lines[i];
      for j := 0 to |row|
        invariant FirstErrorInLine(lines, rows, cols, i, 0) == FirstErrorInLine(lines, rows, cols, i, j)
        invariant forall a, b :: 0 <= a < rows && 0 <= b < cols ==>
          matrix[a, b] == ((a < i || (a == i && b < j)) && KeyCell(lines, a, b))
      {
        var v := ParseInt(row[j]);
        if v.None? {
          assert FirstErrorInLine(lines, rows, cols, i, j) == Some(KeyFieldNotInteger(i, j));
          return Failure(KeyFieldNotInteger(i, j));
        }
        if i >= rows || j >= cols {
          assert FirstErrorInLine(lines, rows, cols, i, j) == Some(KeyIndexOutOfRange(i, j));
          return Failure(KeyIndexOutOfRange(i, j));
        }
        matrix[i, j] := v.value == 1;
      }
      assert FirstErrorFrom(lines, rows, cols, i) == FirstErrorFrom(lines, rows, cols, i + 1);
    }
    var m := Rows(matrix);
    var spec := LoadKey(file, path, rows, cols).value;
    forall a | 0 <= a < rows ensures m[a] == spec[a] {
      assert |m[a]| == |spec[a]| == cols;
    }
    assert m == spec;
    r := Success(m);
  }
}
