/** What a command hands to a view: the translation, its languages and where it came from. */
module RenderTypes {
  import opened Wrappers
  import opened Types
  import opened HoverState

  /** One target language's lines in a multi-target translation. */
  datatype MultiTargetResult = MultiTargetResult(to: string, text: seq<string>)

  /**
   * `RenderContext` without the editor: the translated lines, the language
   * pair, whether the input was normalised, the selection, the backend
   * version, whether the source language was `auto`, and the per-target
   * results of a multi-target run.
   */
  datatype RenderContext = RenderContext(
    translatedText: seq<string>,
    from: string,
    to: string,
    normalized: bool,
    selectionRange: Range,
    version: Option<Version>,
    sourceWasAuto: bool,
    multiTarget: Option<seq<MultiTargetResult>>)
}
