/**
 * The hover: the stored translation rendered as Markdown, shown over the
 * range it was made for while the hover is switched on.
 */
module HoverProvider {
  import opened Wrappers
  import opened HoverState

  const HoverDisplayMaxLength: nat := 4000
  const TruncationSuffix: string := "\n\n\U{2014} truncated"
  const NormalizationNote: string := "*Normalization applied*\n\n"

  /** The characters `escapeMarkdownInline` guards: `\ * _ [ ] `` #`. */
  predicate IsMarkdownSpecial(c: char) {
    c == '\\' || c == '*' || c == '_' || c == '[' || c == ']' || c == '`' || c == '#'
  }

  /** `escapeMarkdownInline`: a backslash put before every guarded character. */
  function EscapeMarkdownInline(raw: string): (r: string)
    ensures |r| >= |raw|
  {
    if raw == [] then []
    else (if IsMarkdownSpecial(raw[0]) then ['\\', raw[0]] else [raw[0]]) + EscapeMarkdownInline(raw[1..])
  }

  /** Removes the backslashes the escape inserted: a backslash stands for the character after it. */
  function UnescapeMarkdown(s: string): string
    decreases |s|
  {
    if s == [] then []
    else if s[0] == '\\' && |s| >= 2 then [s[1]] + UnescapeMarkdown(s[2..])
    else [s[0]] + UnescapeMarkdown(s[1..])
  }

  /** Removing the inserted backslashes gives back exactly the raw text. */
  lemma {:induction false} EscapeRoundTrip(raw: string)
    ensures UnescapeMarkdown(EscapeMarkdownInline(raw)) == raw
  {
    if raw != [] {
      var rest := EscapeMarkdownInline(raw[1..]);
      EscapeRoundTrip(raw[1..]);
      if IsMarkdownSpecial(raw[0]) {
        var e := ['\\', raw[0]] + rest;
        assert e[2..] == rest;
      } else {
        var e := [raw[0]] + rest;
        assert e[1..] == rest;
      }
    }
  }

  /** Text with no guarded character is left as it is. */
  lemma {:induction false} EscapePlain(raw: string)
    requires forall i :: 0 <= i < |raw| ==> !IsMarkdownSpecial(raw[i])
    ensures EscapeMarkdownInline(raw) == raw
  {
    if raw != [] {
      EscapePlain(raw[1..]);
    }
  }

  /** What the code block shows: the text, or its first 4000 characters and a truncation note. */
  function DisplayText(text: string): (r: string)
    ensures |text| <= HoverDisplayMaxLength ==> r == text
    ensures |text| > HoverDisplayMaxLength ==>
      |r| == HoverDisplayMaxLength + |TruncationSuffix| &&
      r[..HoverDisplayMaxLength] == text[..HoverDisplayMaxLength] && r[HoverDisplayMaxLength..] == TruncationSuffix
  {
    if |text| > HoverDisplayMaxLength then text[..HoverDisplayMaxLength] + TruncationSuffix else text
  }

  /** One `appendMarkdown` or `appendCodeblock` call. */
  datatype Segment = Markdown(text: string) | CodeBlock(code: string, language: string)

  /** `buildHoverMarkdown`, as the list of appended pieces. */
  function BuildHoverMarkdown(state: HoverStateData): (md: seq<Segment>)
    ensures |md| == if state.normalized == Some(true) then 6 else 5
    ensures md[1] == Markdown("Source `" + EscapeMarkdownInline(state.from) + "` → Target `"
                              + EscapeMarkdownInline(state.to) + "`\n\n")
    ensures md[|md| - 1] == CodeBlock(DisplayText(state.text), "text")
    ensures Markdown(NormalizationNote) in md <==> state.normalized == Some(true)
  {
    var fromEsc := EscapeMarkdownInline(state.from);
    var toEsc := EscapeMarkdownInline(state.to);
    var source := "Source `" + fromEsc + "` → Target `" + toEsc + "`\n\n";
    assert source[0] != NormalizationNote[0];
    [Markdown("**Translation**\n\n"), Markdown(source)]
    + (if state.normalized == Some(true) then [Markdown(NormalizationNote)] else [])
    + [Markdown("---\n\n"), Markdown("Translation\n\n"), CodeBlock(DisplayText(state.text), "text")]
  }

  datatype Hover = Hover(contents: seq<Segment>, range: Range)

  /**
   * `provideHover`: a hover only while it is switched on, a translation is
   * stored, the document is the one it came from and the position lies within
   * its range, both ends included.
   */
  function ProvideHover(controller: HoverStateController, docUri: string, position: Position): (r: Option<Hover>)
    reads controller
    ensures r.Some? <==>
      controller.shouldShowHover && controller.state.Some? && docUri == controller.state.value.docUri &&
      !Before(position, controller.state.value.range.start) && !Before(controller.state.value.range.end, position)
    ensures r.Some? ==>
      r.value == Hover(BuildHoverMarkdown(controller.state.value), controller.state.value.range)
  {
    if !controller.shouldShowHover then None
    else match controller.state
      case None => None
      case Some(state) =>
        if docUri != state.docUri then None
        else if position.CompareTo(state.range.start) < 0 || position.CompareTo(state.range.end) > 0 then None
        else Some(Hover(BuildHoverMarkdown(state), state.range))
  }
}
