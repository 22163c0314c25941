/**
 * The row loop of `parseFile` and the file loop of `parse`: the content is
 * split into lines, each line is trimmed, blank lines and `//` comments are
 * skipped, every other line must parse as a relation tuple, and the first
 * line that does not parse aborts the whole batch.
 *
 * The loops are stated for any line parser `parse`; the program uses
 * `Tuples.RelationTupleFromString`, which `ParseContentSpec` and
 * `ParseFilesSpec` plug in.  Nothing here depends on how a line is parsed,
 * only on the line parser being a pure function.
 */
module Batch {
  import opened Wrappers
  import opened Text
  import opened Tuples

  /** A parser of one trimmed, non-comment line. */
  type LineParser = string -> Result<RelationTuple, ParseError>

  /** A rejected line: its 1-based number, its trimmed text and the parser's error. */
  datatype BatchError = BatchError(line: nat, row: string, cause: ParseError)

  /** A trimmed line that the filter keeps, with its 1-based number. */
  datatype Row = Row(line: nat, text: string)

  /** Lines the filter skips: empty after trimming, or a `//` comment. */
  predicate Skipped(row: string)
  {
    row == "" || HasPrefix(row, "//")
  }

  /**
   * The filter on its own: the trimmed lines that are not skipped, numbered
   * from `first`, in their original order.
   */
  function KeptRows(rows: seq<string>, first: nat): seq<Row>
  {
    if rows == [] then []
    else
      var row := TrimSpace(rows[0]);
      var rest := KeptRows(rows[1..], first + 1);
      (if Skipped(row) then [] else [Row(first, row)]) + rest
  }

  /** One step of the filter: the first line, if kept, precedes the kept later lines. */
  lemma KeptRowsCons(rows: seq<string>, first: nat)
    requires rows != []
    ensures KeptRows(rows, first)
      == (if Skipped(TrimSpace(rows[0])) then [] else [Row(first, TrimSpace(rows[0]))]) + KeptRows(rows[1..], first + 1)
  {
  }

  /**
   * Every kept row is the trimmed text of the line it is numbered by, and
   * that text is not skipped; the kept rows are in increasing line order.
   */
  lemma {:induction false} KeptRowsSound(rows: seq<string>, first: nat)
    ensures forall r :: r in KeptRows(rows, first) ==>
      first <= r.line < first + |rows| && r.text == TrimSpace(rows[r.line - first]) && !Skipped(r.text)
    ensures forall a, b :: 0 <= a < b < |KeptRows(rows, first)| ==>
      KeptRows(rows, first)[a].line < KeptRows(rows, first)[b].line
  {
    if rows != [] {
      KeptRowsCons(rows, first);
      KeptRowsSound(rows[1..], first + 1);
      forall r | r in KeptRows(rows[1..], first + 1)
        ensures r.text == TrimSpace(rows[r.line - first])
      {
        assert rows[1..][r.line - (first + 1)] == rows[r.line - first];
      }
    }
  }

  /** Every line that is not skipped is kept, under its own number. */
  lemma {:induction false} KeptRowsComplete(rows: seq<string>, first: nat, i: nat)
    requires i < |rows|
    requires !Skipped(TrimSpace(rows[i]))
    ensures Row(first + i, TrimSpace(rows[i])) in KeptRows(rows, first)
  {
    KeptRowsCons(rows, first);
    if i > 0 {
      KeptRowsComplete(rows[1..], first + 1, i - 1);
      assert rows[1..][i - 1] == rows[i];
    }
  }

  /** Parses kept lines in order and stops at the first one that fails. */
  function ParseRows(parse: LineParser, kept: seq<Row>): Result<seq<RelationTuple>, BatchError>
  {
    if kept == [] then Success([])
    else
      match parse(kept[0].text)
      case Failure(e) => Failure(BatchError(kept[0].line, kept[0].text, e))
      case Success(t) => Prepend([t], ParseRows(parse, kept[1..]))
  }

  /** The tuples of `done` followed by those of `rest`, or the error of `rest`. */
  function Prepend(done: seq<RelationTuple>, rest: Result<seq<RelationTuple>, BatchError>): (r: Result<seq<RelationTuple>, BatchError>)
    ensures r.Success? <==> rest.Success?
    ensures r.Success? ==> |r.value| == |done| + |rest.value| && r.value[..|done|] == done && r.value[|done|..] == rest.value
    ensures r.Failure? ==> r.error == rest.error
  {
    match rest
    case Success(ts) => Success(done + ts)
    case Failure(e) => Failure(e)
  }

  /** Prepending twice is prepending the concatenation. */
  lemma PrependPrepend(a: seq<RelationTuple>, b: seq<RelationTuple>, rest: Result<seq<RelationTuple>, BatchError>)
    ensures Prepend(a, Prepend(b, rest)) == Prepend(a + b, rest)
  {
    if rest.Success? {
      assert a + (b + rest.value) == (a + b) + rest.value;
    }
  }

  /** One step of the parse: a kept line that parses is followed by the parse of the rest. */
  lemma ParseRowsCons(parse: LineParser, row: Row, later: seq<Row>)
    ensures ParseRows(parse, [row] + later)
      == if parse(row.text).Failure? then Failure(BatchError(row.line, row.text, parse(row.text).error))
         else Prepend([parse(row.text).value], ParseRows(parse, later))
  {
    assert ([row] + later)[0] == row;
    assert ([row] + later)[1..] == later;
  }

  /** The batch succeeds exactly when every kept line parses, and then yields their tuples in order. */
  lemma {:induction false} ParseRowsSuccess(parse: LineParser, kept: seq<Row>)
    ensures ParseRows(parse, kept).Success?
      <==> forall k :: 0 <= k < |kept| ==> parse(kept[k].text).Success?
    ensures ParseRows(parse, kept).Success? ==>
      && |ParseRows(parse, kept).value| == |kept|
      && forall k :: 0 <= k < |kept| ==> ParseRows(parse, kept).value[k] == parse(kept[k].text).value
  {
    if kept != [] {
      ParseRowsSuccess(parse, kept[1..]);
      assert forall k :: 1 <= k < |kept| ==> kept[1..][k - 1] == kept[k];
    }
  }

  /** A failed batch names the first kept line that does not parse. */
  lemma {:induction false} ParseRowsFailure(parse: LineParser, kept: seq<Row>)
    requires ParseRows(parse, kept).Failure?
    ensures exists k :: (0 <= k < |kept|
      && (forall j :: 0 <= j < k ==> parse(kept[j].text).Success?)
      && parse(kept[k].text) == Failure(ParseRows(parse, kept).error.cause)
      && ParseRows(parse, kept).error == BatchError(kept[k].line, kept[k].text, ParseRows(parse, kept).error.cause))
  {
    var e := ParseRows(parse, kept).error;
    if parse(kept[0].text).Success? {
      ParseRowsFailure(parse, kept[1..]);
      var k :| 0 <= k < |kept[1..]|
        && (forall j :: 0 <= j < k ==> parse(kept[1..][j].text).Success?)
        && parse(kept[1..][k].text) == Failure(e.cause)
        && e == BatchError(kept[1..][k].line, kept[1..][k].text, e.cause);
      assert forall j :: 1 <= j < k + 1 ==> kept[j] == kept[1..][j - 1];
    } else {
      assert parse(kept[0].text) == Failure(e.cause);
    }
  }

  /**
   * The row loop read line by line: the lines `parts`, the first of them
   * numbered `first`, each trimmed; skipped lines are passed over and the
   * first kept line that does not parse ends the batch.
   */
  function ParseLines(parse: LineParser, parts: seq<string>, first: nat): Result<seq<RelationTuple>, BatchError>
  {
    if parts == [] then Success([])
    else
      var row := TrimSpace(parts[0]);
      if Skipped(row) then ParseLines(parse, parts[1..], first + 1)
      else
        match parse(row)
        case Failure(e) => Failure(BatchError(first, row, e))
        case Success(t) => Prepend([t], ParseLines(parse, parts[1..], first + 1))
  }

  /** Reading line by line agrees with filtering first and parsing the kept lines after. */
  lemma {:induction false} ParseLinesFilterThenParse(parse: LineParser, parts: seq<string>, first: nat)
    ensures ParseLines(parse, parts, first) == ParseRows(parse, KeptRows(parts, first))
  {
    if parts != [] {
      var row := TrimSpace(parts[0]);
      KeptRowsCons(parts, first);
      ParseLinesFilterThenParse(parse, parts[1..], first + 1);
      if !Skipped(row) {
        ParseRowsCons(parse, Row(first, row), KeptRows(parts[1..], first + 1));
      } else {
        assert [] + KeptRows(parts[1..], first + 1) == KeptRows(parts[1..], first + 1);
      }
    }
  }

  /** What `parseFile` returns for already-read content. */
  function ParseContentSpec(parse: LineParser, content: string): Result<seq<RelationTuple>, BatchError>
  {
    ParseLines(parse, Split(content, '\n'), 1)
  }

  /**
   * The row loop of `parseFile`, on the content once it has been read; the
   * program's `parse` is `RelationTupleFromString`.
   */
  method ParseContent(parse: LineParser, content: string) returns (r: Result<seq<RelationTuple>, BatchError>)
    ensures r == ParseContentSpec(parse, content)
  {
    var parts := Split(content, '\n');
    var rts: seq<RelationTuple> := [];
    var i := 0;
    while i < |parts|
      invariant 0 <= i <= |parts|
      invariant ParseContentSpec(parse, content) == Prepend(rts, ParseLines(parse, parts[i..], i + 1))
    {
      var row := TrimSpace(parts[i]);
      assert parts[i..][0] == parts[i] && parts[i..][1..] == parts[i + 1..];
      if !Skipped(row) {
        var rt := parse(row);
        if rt.Failure? {
          return Failure(BatchError(i + 1, row, rt.error));
        }
        PrependPrepend(rts, [rt.value], ParseLines(parse, parts[i + 1..], i + 2));
        rts := rts + [rt.value];
      }
      i := i + 1;
    }
    assert parts[i..] == [];
    assert rts + [] == rts;
    r := Success(rts);
  }

  /** What `parse` returns for several files: their tuples in argument order, or the first error. */
  function ParseFilesSpec(parse: LineParser, files: seq<string>): Result<seq<RelationTuple>, BatchError>
  {
    if files == [] then Success([])
    else
      match ParseFilesSpec(parse, files[..|files| - 1])
      case Failure(e) => Failure(e)
      case Success(ts) => Prepend(ts, ParseContentSpec(parse, files[|files| - 1]))
  }

  /**
   * `parse`: the files' tuples concatenated in argument order; the first file
   * that fails ends the run (the program exits through `log.Fatalf`).
   */
  method ParseFiles(parse: LineParser, files: seq<string>) returns (r: Result<seq<RelationTuple>, BatchError>)
    ensures r == ParseFilesSpec(parse, files)
  {
    var rts: seq<RelationTuple> := [];
    var i := 0;
    while i < |files|
      invariant 0 <= i <= |files|
      invariant ParseFilesSpec(parse, files[..i]) == Success(rts)
    {
      assert files[..i + 1][..i] == files[..i];
      var rtss := ParseContent(parse, files[i]);
      if rtss.Failure? {
        assert ParseFilesSpec(parse, files[..i + 1]) == Failure(rtss.error);
        ParseFilesFailure(parse, files, i + 1);
        return Failure(rtss.error);
      }
      rts := rts + rtss.value;
      i := i + 1;
    }
    assert files[..i] == files;
    r := Success(rts);
  }

  /** Once a prefix of the files fails, the whole run fails with that error. */
  lemma {:induction false} ParseFilesFailure(parse: LineParser, files: seq<string>, n: nat)
    requires n <= |files|
    requires ParseFilesSpec(parse, files[..n]).Failure?
    ensures ParseFilesSpec(parse, files) == ParseFilesSpec(parse, files[..n])
    decreases |files| - n
  {
    if n < |files| {
      assert files[..n + 1][..n] == files[..n];
      ParseFilesFailure(parse, files, n + 1);
    } else {
      assert files[..n] == files;
    }
  }

  /** Each file's own result, in argument order. */
  function FileResults(parse: LineParser, files: seq<string>): (r: seq<Result<seq<RelationTuple>, BatchError>>)
    ensures |r| == |files|
    ensures forall i :: 0 <= i < |files| ==> r[i] == ParseContentSpec(parse, files[i])
  {
    seq(|files|, i requires 0 <= i < |files| => ParseContentSpec(parse, files[i]))
  }

  /** The tuples of the results that succeeded, concatenated in order. */
  function Values(rs: seq<Result<seq<RelationTuple>, BatchError>>): seq<RelationTuple>
  {
    if rs == [] then []
    else Values(rs[..|rs| - 1]) + (if rs[|rs| - 1].Success? then rs[|rs| - 1].value else [])
  }

  /**
   * A run succeeds exactly when every file succeeds on its own, and its
   * tuples are then the files' tuples concatenated in argument order.
   */
  lemma {:induction false} ParseFilesSuccess(parse: LineParser, files: seq<string>)
    ensures ParseFilesSpec(parse, files).Success?
      <==> forall i :: 0 <= i < |files| ==> ParseContentSpec(parse, files[i]).Success?
    ensures ParseFilesSpec(parse, files).Success? ==>
      ParseFilesSpec(parse, files).value == Values(FileResults(parse, files))
  {
    if files != [] {
      var n := |files| - 1;
      var init := files[..n];
      var rs := FileResults(parse, files);
      ParseFilesSuccess(parse, init);
      assert files[..|files| - 1] == init;
      assert rs[..n] == FileResults(parse, init);
      var last := ParseContentSpec(parse, files[n]);
      if ParseFilesSpec(parse, init).Failure? {
        var i :| 0 <= i < n && ParseContentSpec(parse, init[i]).Failure?;
        assert init[i] == files[i];
      } else if last.Success? {
        forall i | 0 <= i < |files|
          ensures ParseContentSpec(parse, files[i]).Success?
        {
          if i < n {
            assert init[i] == files[i];
          } else {
            assert i == n;
          }
        }
        assert Values(rs) == Values(FileResults(parse, init)) + last.value;
      }
    }
  }

  /** A failed run fails with the error of the first file that fails on its own. */
  lemma {:induction false} ParseFilesFirstError(parse: LineParser, files: seq<string>)
    requires ParseFilesSpec(parse, files).Failure?
    ensures exists i :: (0 <= i < |files|
      && (forall j :: 0 <= j < i ==> ParseContentSpec(parse, files[j]).Success?)
      && ParseContentSpec(parse, files[i]) == ParseFilesSpec(parse, files))
  {
    var n := |files| - 1;
    var init := files[..n];
    assert forall j :: 0 <= j < n ==> init[j] == files[j];
    if ParseFilesSpec(parse, init).Failure? {
      ParseFilesFirstError(parse, init);
      var i :| 0 <= i < |init|
        && (forall j :: 0 <= j < i ==> ParseContentSpec(parse, init[j]).Success?)
        && ParseContentSpec(parse, init[i]) == ParseFilesSpec(parse, init);
      assert init[i] == files[i];
    } else {
      ParseFilesSuccess(parse, init);
      assert ParseContentSpec(parse, files[n]) == ParseFilesSpec(parse, files);
    }
  }

  /** The program's batch: `parse` run with `RelationTupleFromString` as the line parser. */
  method Parse(files: seq<string>) returns (r: Result<seq<RelationTuple>, BatchError>)
    ensures r == ParseFilesSpec(RelationTupleFromString, files)
  {
    r := ParseFiles(RelationTupleFromString, files);
  }
}
