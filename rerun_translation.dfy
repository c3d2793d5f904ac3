/**
 * The rerun command: the source text stored with the last translation is
 * translated again with the current settings, whole when it is one line,
 * line by line otherwise. Unlike the translate command, it neither caps nor
 * normalises the lines, and a missing version falls back to the configured
 * one rather than to `v1`.
 */
module RerunTranslation {
  import opened Wrappers
  import opened Strings
  import opened Types
  import opened TranslateCommand

  /** What the command ends with: nothing to do, an error message, or the new translation. */
  datatype RerunOutcome =
    | NothingToRerun
    | Aborted(message: string)
    | Translated(text: seq<string>, fromLang: string, toLang: string, version: Option<Version>)

  /** The stored source text, when there is a non-empty one. */
  predicate HasSource(sourceText: Option<string>) {
    sourceText.Some? && sourceText.value != []
  }

  /**
   * `rerunLastTranslation` up to the rendering: `sourceText` is what the
   * hover state stored, `configured` the configured backend version and
   * `answers` what the backend answers.
   */
  function Rerun(sourceText: Option<string>, from: string, to: string, configured: Version, answers: Answers): RerunOutcome
    requires HasSource(sourceText) ==> |answers.perLine| == |SplitLines(sourceText.value)|
  {
    if !HasSource(sourceText) then NothingToRerun
    else
      var lines := SplitLines(sourceText.value);
      if |lines| <= 1 then
        match answers.whole
        case ApiError(text) => Aborted(FailureMessage([text]))
        case ApiSuccess(text, fromLang, toLang, version) => Translated([text], fromLang.GetOr(from), toLang.GetOr(to), version)
      else
        match Aggregate(LineResults(lines, answers.perLine), from, to, configured)
        case Failure(messages) => Aborted(FailureMessage(messages))
        case Success(text, fromLang, _, version) => Translated(text, fromLang.GetOr(from), to, version)
  }

  /** Without a stored source text nothing is translated, whatever the backend would answer. */
  lemma NoSourceNoTranslation(sourceText: Option<string>, from: string, to: string, configured: Version, answers: Answers)
    requires !HasSource(sourceText)
    ensures Rerun(sourceText, from, to, configured, answers) == NothingToRerun
  {
  }

  /** With several lines, the first non-blank line that fails aborts the rerun with its message. */
  lemma RerunFirstFailure(source: string, from: string, to: string, configured: Version, answers: Answers, k: nat)
    requires source != [] && |answers.perLine| == |SplitLines(source)| && |SplitLines(source)| > 1
    requires var lines := SplitLines(source);
      && k < |lines| && !Blank(lines[k]) && answers.perLine[k].ApiError?
      && forall j :: 0 <= j < k ==> Blank(lines[j]) || answers.perLine[j].ApiSuccess?
    ensures Rerun(Some(source), from, to, configured, answers) == Aborted(FailureMessage([answers.perLine[k].text]))
  {
    var lines := SplitLines(source);
    var rs := LineResults(lines, answers.perLine);
    LineResultsAt(lines, answers.perLine, k);
    forall j | 0 <= j < k ensures rs[j].LineOk? {
      LineResultsAt(lines, answers.perLine, j);
    }
    AggregateFailure(rs, from, to, configured, k);
  }

  /**
   * With several lines that all succeed, the texts follow the lines in
   * order, blank lines giving `''`, under the configured target language.
   */
  lemma RerunAllTranslated(source: string, from: string, to: string, configured: Version, answers: Answers)
    requires source != [] && |answers.perLine| == |SplitLines(source)| && |SplitLines(source)| > 1
    requires var lines := SplitLines(source);
      forall j :: 0 <= j < |lines| ==> Blank(lines[j]) || answers.perLine[j].ApiSuccess?
    ensures var lines := SplitLines(source);
      var out := Rerun(Some(source), from, to, configured, answers);
      && out.Translated? && out.toLang == to && |out.text| == |lines|
      && forall i :: 0 <= i < |lines| ==> out.text[i] == if Blank(lines[i]) then "" else answers.perLine[i].text
  {
    var lines := SplitLines(source);
    var rs := LineResults(lines, answers.perLine);
    forall j | 0 <= j < |lines| ensures rs[j] == LineResultFor(lines[j], answers.perLine[j]) {
      LineResultsAt(lines, answers.perLine, j);
    }
    AggregateSuccess(rs, from, to, configured);
  }

  /**
   * When no line reports a version, the rerun takes the configured version,
   * where the translate command's `translateLines` takes `v1`.
   */
  lemma RerunVersionFallback(source: string, from: string, to: string, configured: Version, answers: Answers)
    requires source != [] && |answers.perLine| == |SplitLines(source)| && |SplitLines(source)| > 1
    requires var lines := SplitLines(source);
      forall j :: 0 <= j < |lines| ==> Blank(lines[j]) || (answers.perLine[j].ApiSuccess? && answers.perLine[j].version.None?)
    ensures var out := Rerun(Some(source), from, to, configured, answers);
      out.Translated? && out.version == Some(configured)
    ensures TranslateLines(SplitLines(source), from, to, answers).version == Some(V1)
  {
    var lines := SplitLines(source);
    var rs := LineResults(lines, answers.perLine);
    forall j | 0 <= j < |lines| ensures rs[j].LineOk? && rs[j].version.None? {
      LineResultsAt(lines, answers.perLine, j);
    }
    AggregateVersion(rs, from, to, configured);
    AggregateVersion(rs, from, to, V1);
  }

  /** The source language is the first one a line reports, else the configured `from`. */
  lemma RerunFromLang(source: string, from: string, to: string, configured: Version, answers: Answers, k: nat)
    requires source != [] && |answers.perLine| == |SplitLines(source)| && |SplitLines(source)| > 1
    requires var lines := SplitLines(source);
      && (forall j :: 0 <= j < |lines| ==> Blank(lines[j]) || answers.perLine[j].ApiSuccess?)
      && k < |lines| && !Blank(lines[k]) && answers.perLine[k].fromLang.Some?
      && forall j :: 0 <= j < k ==> Blank(lines[j]) || answers.perLine[j].fromLang.None?
    ensures var out := Rerun(Some(source), from, to, configured, answers);
      out.Translated? && out.fromLang == answers.perLine[k].fromLang.value
  {
    var lines := SplitLines(source);
    var rs := LineResults(lines, answers.perLine);
    forall j | 0 <= j < |lines| ensures rs[j] == LineResultFor(lines[j], answers.perLine[j]) {
      LineResultsAt(lines, answers.perLine, j);
    }
    AggregateFromLang(rs, from, to, configured);
  }

  /** A single line is translated whole; an empty error message becomes a generic one. */
  lemma RerunSingleLine(source: string, from: string, to: string, configured: Version, answers: Answers)
    requires source != [] && |answers.perLine| == |SplitLines(source)| && |SplitLines(source)| <= 1
    ensures var out := Rerun(Some(source), from, to, configured, answers);
      && (answers.whole.ApiSuccess? ==> out == Translated([answers.whole.text], answers.whole.fromLang.GetOr(from),
                                                          answers.whole.toLang.GetOr(to), answers.whole.version))
      && (answers.whole.ApiError? ==>
            out.Aborted? && out.message != [] && (answers.whole.text != [] ==> out.message == answers.whole.text))
  {
    assert Join([answers.whole.text], "\n") == answers.whole.text;
  }
}
