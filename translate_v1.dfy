/**
 * The first backend: Google's JSON endpoint. The request itself is not part
 * of the model; its decoded answer, or its failure, is a parameter.
 */
module TranslateV1 {
  import opened Wrappers
  import opened Strings
  import opened Types

  /**
   * The parts of the endpoint's JSON answer `d` that are read: the rows of
   * `d[0]` (each row's cells, a missing or null cell as None), `d[2]` and
   * `d[8][0][0]`.
   */
  datatype GoogleResponse = GoogleResponse(
    rows: Option<seq<seq<Option<string>>>>, sourceLang: Option<string>, detected: Option<string>)

  /** A row's contribution: its first cell, or nothing when that is missing. */
  function RowText(row: seq<Option<string>>): string {
    if row != [] && row[0].Some? then row[0].value else ""
  }

  /** The rows' first cells, concatenated in order. */
  function ConcatRows(rows: seq<seq<Option<string>>>): string {
    if rows == [] then [] else RowText(rows[0]) + ConcatRows(rows[1..])
  }

  /** Concatenating the rows of two answers is concatenating their texts. */
  lemma {:induction false} ConcatRowsAppend(a: seq<seq<Option<string>>>, b: seq<seq<Option<string>>>)
    ensures ConcatRows(a + b) == ConcatRows(a) + ConcatRows(b)
  {
    if a != [] {
      assert (a + b)[1..] == a[1..] + b;
      ConcatRowsAppend(a[1..], b);
    } else {
      assert a + b == b;
    }
  }

  /** The answer's text: the first cell of each row of `d[0]`, joined with nothing. */
  function ResponseText(d: GoogleResponse): string {
    ConcatRows(d.rows.GetOr([]))
  }

  /** The answer's source language: `d[8][0][0]` when present, else `d[2]`, else empty. */
  function ResponseFromLang(d: GoogleResponse): (lang: string)
    ensures d.detected.Some? ==> lang == d.detected.value
    ensures d.detected.None? && d.sourceLang.Some? ==> lang == d.sourceLang.value
    ensures d.detected.None? && d.sourceLang.None? ==> lang == ""
  {
    if d.sourceLang.Some? && d.detected.Some? && d.sourceLang.value == d.detected.value then d.sourceLang.value
    else d.detected.GetOr(d.sourceLang.GetOr(""))
  }

  /** A single-row answer yields that row's first cell as its text. */
  lemma ResponseTextSingleRow(d: GoogleResponse, t: string)
    requires d.rows == Some([[Some(t)]])
    ensures ResponseText(d) == t
  {
    var rows := d.rows.value;
    assert rows[1..] == [];
    assert ConcatRows(rows) == RowText(rows[0]) + ConcatRows([]);
  }

  /** A missing `d[0]`, or rows whose first cells are all missing, yield empty text. */
  lemma {:induction false} ResponseTextEmptyRows(rows: seq<seq<Option<string>>>)
    requires forall i :: 0 <= i < |rows| ==> rows[i] == [] || rows[i][0].None?
    ensures ConcatRows(rows) == ""
  {
    if rows != [] {
      ResponseTextEmptyRows(rows[1..]);
    }
  }

  /**
   * `translate(input, fromLang, toLang)`: an unsupported target fails before
   * any request; a request that throws, or an answer that cannot be read,
   * fails with the generic message; otherwise the decoded text and source
   * language, with the requested target.
   */
  function Translate(supported: string -> bool, toLang: string, response: Option<GoogleResponse>): (r: ApiResult)
    ensures !supported(toLang) ==> r == ApiError(ErrLangNotSupported)
    ensures supported(toLang) && response.None? ==> r == ApiError(ErrOccurred)
    ensures supported(toLang) && response.Some? ==>
      r == ApiSuccess(ResponseText(response.value), Some(ResponseFromLang(response.value)), Some(toLang), None)
  {
    if !supported(toLang) then ApiError(ErrLangNotSupported)
    else match response
      case None => ApiError(ErrOccurred)
      case Some(d) => ApiSuccess(ResponseText(d), Some(ResponseFromLang(d)), Some(toLang), None)
  }
}
