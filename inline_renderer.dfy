/**
 * The inline view: the translation is inserted as a block of lines after
 * the selection, framed by the document language's comment syntax, and
 * can later be accepted (the source replaced, the block deleted) or
 * removed.
 *
 * The editor is reduced to what the renderer reads and does: the
 * document's lines and language, whether its editor is the active one,
 * whether an edit was applied, and the edits it asks for.
 */
module InlineView {
  import opened Wrappers
  import opened Strings
  import opened CommentSyntax
  import opened HoverState
  import opened RenderTypes

  /** `getLeadingWhitespace`: the whitespace run that starts a line (`^\s*`). */
  function LeadingWhitespace(line: string): (r: string)
    ensures |r| <= |line|
  {
    if line != [] && IsWhitespace(line[0]) then [line[0]] + LeadingWhitespace(line[1..]) else []
  }

  /**
   * The indent is the longest whitespace prefix of the line: the line is the
   * indent followed by the line with its leading whitespace trimmed.
   */
  lemma {:induction false} LeadingWhitespaceShape(line: string)
    ensures LeadingWhitespace(line) + TrimStart(line) == line
    ensures forall i :: 0 <= i < |LeadingWhitespace(line)| ==> IsWhitespace(line[i])
    ensures TrimStart(line) == [] || !IsWhitespace(TrimStart(line)[0])
  {
    if line != [] && IsWhitespace(line[0]) {
      LeadingWhitespaceShape(line[1..]);
      assert line == [line[0]] + line[1..];
    }
  }

  /** `line.replace(/\r$/, '')`: one carriage return at the end of the line is dropped. */
  function StripCR(line: string): (r: string)
    ensures |r| <= |line|
  {
    if line != [] && line[|line| - 1] == '\r' then line[..|line| - 1] else line
  }

  /** `StripCR` undoes appending a carriage return and leaves a line without one alone. */
  lemma StripCRInverse(line: string)
    ensures StripCR(line + "\r") == line
    ensures line == [] || line[|line| - 1] != '\r' ==> StripCR(line) == line
  {
    assert (line + "\r")[..|line|] == line;
  }

  /** The translated lines with `StripCR` applied to each. */
  function CleanLines(lines: seq<string>): (r: seq<string>)
    ensures |r| == |lines|
  {
    if lines == [] then [] else [StripCR(lines[0])] + CleanLines(lines[1..])
  }

  lemma {:induction false} CleanLinesAt(lines: seq<string>, i: nat)
    requires i < |lines|
    ensures CleanLines(lines)[i] == StripCR(lines[i])
  {
    if i > 0 {
      CleanLinesAt(lines[1..], i - 1);
    }
  }

  /** Each line with `prefix` put before it. */
  function Prefixed(prefix: string, lines: seq<string>): (r: seq<string>)
    ensures |r| == |lines|
  {
    if lines == [] then [] else [prefix + lines[0]] + Prefixed(prefix, lines[1..])
  }

  lemma {:induction false} PrefixedAt(prefix: string, lines: seq<string>, i: nat)
    requires i < |lines|
    ensures Prefixed(prefix, lines)[i] == prefix + lines[i]
  {
    if i > 0 {
      PrefixedAt(prefix, lines[1..], i - 1);
    }
  }

  /** The block's header line. */
  function Header(syntax: Option<Syntax>, indent: string): string {
    match syntax
    case Some(Block(start, _)) => indent + start + " translation"
    case Some(Line(prefix)) => indent + prefix + " translation"
    case None => indent + "--- translation ---"
  }

  /** What goes before each translated line. */
  function LinePrefix(syntax: Option<Syntax>, indent: string): string {
    match syntax
    case Some(Line(prefix)) => indent + prefix + " "
    case _ => indent
  }

  /** The lines after the translation: the block comment's end, then the final `'\n'` item. */
  function Footer(syntax: Option<Syntax>, indent: string): seq<string> {
    match syntax
    case Some(Block(_, end)) => [indent + end, "\n"]
    case _ => ["\n"]
  }

  /** The items `render` joins with line feeds. */
  function BlockLines(syntax: Option<Syntax>, indent: string, lines: seq<string>): (r: seq<string>)
    ensures |r| == |lines| + |Footer(syntax, indent)| + 1
  {
    [Header(syntax, indent)] + Prefixed(LinePrefix(syntax, indent), lines) + Footer(syntax, indent)
  }

  /** `blockContent`: the layout of the translated lines, with carriage returns dropped. */
  function BlockContent(syntax: Option<Syntax>, indent: string, translated: seq<string>): string {
    Join(BlockLines(syntax, indent, CleanLines(translated)), "\n")
  }

  /**
   * The block's items: the header, then each translated line (its carriage
   * return dropped) after the indent and, for line comments, the prefix and
   * a space, then the block comment's end if there is one, then `"\n"`.
   */
  lemma BlockLayout(syntax: Option<Syntax>, indent: string, translated: seq<string>, i: nat)
    requires i < |translated|
    ensures var r := BlockLines(syntax, indent, CleanLines(translated));
      && r[0] == (match syntax
                  case Some(Block(start, _)) => indent + start + " translation"
                  case Some(Line(prefix)) => indent + prefix + " translation"
                  case None => indent + "--- translation ---")
      && r[1 + i] == (match syntax
                      case Some(Line(prefix)) => indent + prefix + " " + StripCR(translated[i])
                      case _ => indent + StripCR(translated[i]))
      && r[|r| - 1] == "\n"
      && (syntax.Some? && syntax.value.Block? ==>
            |r| == |translated| + 3 && r[|r| - 2] == indent + syntax.value.end)
      && (syntax.None? || syntax.value.Line? ==> |r| == |translated| + 2)
  {
    var lines := CleanLines(translated);
    var p := LinePrefix(syntax, indent);
    CleanLinesAt(translated, i);
    PrefixedAt(p, lines, i);
    var r := BlockLines(syntax, indent, lines);
    assert r[1 + i] == Prefixed(p, lines)[i];
    if syntax.Some? && syntax.value.Line? {
      assert p + lines[i] == indent + syntax.value.prefix + " " + lines[i];
    }
  }

  /** No line feed in the string. */
  predicate NoBreak(s: string) {
    '\n' !in s
  }

  lemma {:induction false} PrefixedBreaks(prefix: string, lines: seq<string>)
    requires NoBreak(prefix)
    requires forall i :: 0 <= i < |lines| ==> NoBreak(lines[i])
    ensures CountAll(Prefixed(prefix, lines), '\n') == 0
  {
    if lines != [] {
      PrefixedBreaks(prefix, lines[1..]);
      CountAppend(prefix, lines[0], '\n');
      CountAbsent(prefix, '\n');
      CountAbsent(lines[0], '\n');
    }
  }

  /** The comment markers the syntax adds have no line feed. */
  predicate SyntaxNoBreak(syntax: Option<Syntax>) {
    match syntax
    case Some(Block(start, end)) => NoBreak(start) && NoBreak(end)
    case Some(Line(prefix)) => NoBreak(prefix)
    case None => true
  }

  lemma HeaderBreaks(syntax: Option<Syntax>, indent: string)
    requires NoBreak(indent) && SyntaxNoBreak(syntax)
    ensures CountAll([Header(syntax, indent)], '\n') == 0
  {
    CountAbsent(Header(syntax, indent), '\n');
    assert [Header(syntax, indent)][1..] == [];
  }

  lemma FooterBreaks(syntax: Option<Syntax>, indent: string)
    requires NoBreak(indent) && SyntaxNoBreak(syntax)
    ensures CountAll(Footer(syntax, indent), '\n') == 1
  {
    var last := ["\n"];
    assert CountAll(last, '\n') == 1 by {
      assert "\n"[1..] == [];
      assert last[1..] == [];
    }
    if syntax.Some? && syntax.value.Block? {
      var f := Footer(syntax, indent);
      CountAbsent(indent + syntax.value.end, '\n');
      assert f[1..] == last;
    }
  }

  lemma CleanLinesNoBreak(translated: seq<string>)
    requires forall i :: 0 <= i < |translated| ==> NoBreak(translated[i])
    ensures forall i :: 0 <= i < |translated| ==> NoBreak(CleanLines(translated)[i])
  {
    forall i | 0 <= i < |translated| ensures NoBreak(CleanLines(translated)[i]) {
      CleanLinesAt(translated, i);
      var t := translated[i];
      assert t == StripCR(t) + t[|StripCR(t)|..];
    }
  }

  /**
   * When neither the indent, the comment markers nor the translated lines
   * hold a line feed, the block is one line per item of the layout: the
   * header, one line per translated line, the end of a block comment, and
   * the blank line the final item leaves.
   */
  lemma BlockHeight(syntax: Option<Syntax>, indent: string, translated: seq<string>)
    requires NoBreak(indent) && SyntaxNoBreak(syntax)
    requires forall i :: 0 <= i < |translated| ==> NoBreak(translated[i])
    ensures Count(BlockContent(syntax, indent, translated), '\n')
      == |translated| + (if syntax.Some? && syntax.value.Block? then 3 else 2)
  {
    var lines := CleanLines(translated);
    var p := LinePrefix(syntax, indent);
    var h, body, f := [Header(syntax, indent)], Prefixed(p, lines), Footer(syntax, indent);
    assert CountAll(body, '\n') == 0 by {
      CleanLinesNoBreak(translated);
      assert NoBreak(p) by {
        CountAbsent(indent, '\n');
        if syntax.Some? && syntax.value.Line? {
          assert p == indent + syntax.value.prefix + " ";
        }
      }
      PrefixedBreaks(p, lines);
    }
    HeaderBreaks(syntax, indent);
    FooterBreaks(syntax, indent);
    CountAllAppend(h, body, '\n');
    CountAllAppend(h + body, f, '\n');
    JoinCount(BlockLines(syntax, indent, lines), '\n');
  }

  /** The block ends with a line feed, so it never runs into the line it is inserted before. */
  lemma BlockEndsWithBreak(syntax: Option<Syntax>, indent: string, translated: seq<string>)
    ensures var content := BlockContent(syntax, indent, translated);
      |content| >= 2 && content[|content| - 2..] == "\n\n"
  {
    var r := BlockLines(syntax, indent, CleanLines(translated));
    JoinAppend(r[..|r| - 1], "\n", "\n");
    assert r[..|r| - 1] + ["\n"] == r;
  }

  /** `safeInsertLine`: the insert line, clamped to the document's line count. */
  function SafeInsertLine(insertLine: nat, lineCount: nat): (r: nat)
    ensures r <= lineCount && r <= insertLine
    ensures r == insertLine || r == lineCount
  {
    if insertLine >= lineCount then lineCount else insertLine
  }

  /** The line after the selection's last line. */
  function InsertLine(selection: Range): (r: nat)
    ensures r > selection.start.line && r > selection.end.line
  {
    if selection.start.line <= selection.end.line then selection.end.line + 1 else selection.start.line + 1
  }

  /** The first selected line, whose indent the block takes. */
  function FirstLine(selection: Range): (r: nat)
    ensures r <= selection.start.line && r <= selection.end.line
    ensures r == selection.start.line || r == selection.end.line
  {
    if selection.start.line <= selection.end.line then selection.start.line else selection.end.line
  }

  /**
   * `endLine`: the insert line plus the number of `'\n'`-separated pieces of
   * the content, minus 2.
   */
  function EndLine(insertLine: nat, content: string): int {
    insertLine + |Split(content, '\n')| - 2
  }

  /**
   * The recorded end line is the last line the insertion added: deleting
   * from the start of the insert line to the start of the line after the end
   * line removes exactly as many line breaks as the content holds.
   */
  lemma EndLineSpan(insertLine: nat, content: string)
    ensures EndLine(insertLine, content) + 1 - insertLine == Count(content, '\n')
  {
    SplitCount(content, '\n');
  }

  /** The edits the renderer asks the editor for. */
  datatype Edit =
    | Insert(at: Position, text: string)
    | Replace(range: Range, text: string)
      /** Delete from (startLine, startCharacter) to the start of `endLine`. */
    | Delete(startLine: int, startCharacter: nat, endLine: int)
    | Undo

  /** `InsertedBlockState` without the editor. */
  datatype InsertedBlock = InsertedBlock(range: Range, sourceRange: Range, translatedLines: seq<string>)

  /** The indent for a selection: that of its first line. */
  function Indent(docLines: seq<string>, selection: Range): string
    requires selection.start.line < |docLines| && selection.end.line < |docLines|
  {
    LeadingWhitespace(docLines[FirstLine(selection)])
  }

  /** The content `render` inserts for a context. */
  function RenderedContent(context: RenderContext, docLines: seq<string>, languageId: string): string
    requires context.selectionRange.start.line < |docLines| && context.selectionRange.end.line < |docLines|
  {
    BlockContent(GetCommentSyntax(languageId), Indent(docLines, context.selectionRange), context.translatedText)
  }

  /** Where `render` inserts the block. */
  function RenderedLine(context: RenderContext, docLines: seq<string>): nat {
    SafeInsertLine(InsertLine(context.selectionRange), |docLines|)
  }

  /** The block `render` records once the insertion is applied. */
  function RenderedBlock(context: RenderContext, docLines: seq<string>, languageId: string): InsertedBlock
    requires context.selectionRange.start.line < |docLines| && context.selectionRange.end.line < |docLines|
  {
    var line := RenderedLine(context, docLines);
    var content := RenderedContent(context, docLines, languageId);
    EndLineSpan(line, content);
    BlockEndsWithBreak(GetCommentSyntax(languageId), Indent(docLines, context.selectionRange), context.translatedText);
    CountAppend(content[..|content| - 2], content[|content| - 2..], '\n');
    assert content == content[..|content| - 2] + content[|content| - 2..];
    assert Count("\n\n", '\n') == 2 by { assert "\n\n"[1..] == "\n"; assert "\n"[1..] == []; }
    InsertedBlock(Range(Position(line, 0), Position(EndLine(line, content), 0)),
                  context.selectionRange, context.translatedText)
  }

  /**
   * For a selection inside the document the block goes right after the
   * selection's last line, and it spans one line per line break of its
   * content, at least two.
   */
  lemma RenderedBlockSpan(context: RenderContext, docLines: seq<string>, languageId: string)
    requires context.selectionRange.start.line < |docLines| && context.selectionRange.end.line < |docLines|
    ensures var b := RenderedBlock(context, docLines, languageId);
      && b.range.start.line == InsertLine(context.selectionRange)
      && b.range.end.line + 1 - b.range.start.line == Count(RenderedContent(context, docLines, languageId), '\n')
      && b.range.end.line >= b.range.start.line + 1
  {
    var line := RenderedLine(context, docLines);
    var content := RenderedContent(context, docLines, languageId);
    EndLineSpan(line, content);
    BlockEndsWithBreak(GetCommentSyntax(languageId), Indent(docLines, context.selectionRange), context.translatedText);
    CountAppend(content[..|content| - 2], content[|content| - 2..], '\n');
    assert content == content[..|content| - 2] + content[|content| - 2..];
    assert Count("\n\n", '\n') == 2 by { assert "\n\n"[1..] == "\n"; assert "\n"[1..] == []; }
  }

  /** What `removeInsertedBlock` does: undo in the active editor, else delete the block's lines. */
  function RemovalEdits(inserted: Option<InsertedBlock>, editorActive: bool): seq<Edit> {
    match inserted
    case None => []
    case Some(b) =>
      if editorActive then [Undo]
      else [Delete(b.range.start.line, b.range.start.character, b.range.end.line + 1)]
  }

  /** `sourceLineCount`: the lines the source range touches. */
  function SourceLineCount(sourceRange: Range): int {
    sourceRange.end.line - sourceRange.start.line + 1
  }

  /** `lineDelta`: the translated line count minus the source line count. */
  function LineDelta(b: InsertedBlock): int {
    |b.translatedLines| - SourceLineCount(b.sourceRange)
  }

  /** What `accept` asks for: the source replaced by the translation, the shifted block deleted. */
  function AcceptEdits(b: InsertedBlock): seq<Edit> {
    var delta := LineDelta(b);
    [Replace(b.sourceRange, Join(b.translatedLines, "\n")),
     Delete(b.range.start.line + delta, b.range.start.character, b.range.end.line + delta + 1)]
  }

  /**
   * The delete range of `accept` is the block's range moved by `lineDelta`,
   * through the start of the line after its end; after `render`, it spans as
   * many lines as the inserted content has line breaks.
   */
  lemma AcceptDeletesBlock(context: RenderContext, docLines: seq<string>, languageId: string)
    requires context.selectionRange.start.line < |docLines| && context.selectionRange.end.line < |docLines|
    ensures var b := RenderedBlock(context, docLines, languageId);
      var d := AcceptEdits(b)[1];
      && d.startLine == InsertLine(context.selectionRange) + LineDelta(b)
      && d.startCharacter == 0
      && d.endLine - d.startLine == Count(RenderedContent(context, docLines, languageId), '\n')
  {
    RenderedBlockSpan(context, docLines, languageId);
  }

  /**
   * `lineDelta` is the change in line count from replacing the source lines
   * by the joined translation, as long as no translated line holds a line
   * feed of its own.
   */
  lemma LineDeltaCountsLines(b: InsertedBlock)
    requires b.translatedLines != []
    requires forall i :: 0 <= i < |b.translatedLines| ==> NoBreak(b.translatedLines[i])
    ensures LineDelta(b) == Count(Join(b.translatedLines, "\n"), '\n') + 1 - SourceLineCount(b.sourceRange)
  {
    JoinCount(b.translatedLines, '\n');
    AllCountsZero(b.translatedLines);
  }

  lemma {:induction false} AllCountsZero(lines: seq<string>)
    requires forall i :: 0 <= i < |lines| ==> NoBreak(lines[i])
    ensures CountAll(lines, '\n') == 0
  {
    if lines != [] {
      CountAbsent(lines[0], '\n');
      AllCountsZero(lines[1..]);
    }
  }

  /**
   * A translated line that holds a line feed (a wrapped line) is counted
   * once: for one source line translated to `"a\nb"`, `lineDelta` is 0 while
   * the replacement adds a line.
   */
  lemma LineDeltaMissesWrappedLines()
    ensures var b := InsertedBlock(Range(Position(3, 0), Position(4, 0)), Range(Position(1, 0), Position(1, 5)), ["a\nb"]);
      LineDelta(b) == 0 && Count(Join(b.translatedLines, "\n"), '\n') + 1 - SourceLineCount(b.sourceRange) == 1
  {
    var t := "a\nb";
    assert Count(t, '\n') == 1 by {
      assert t[1..] == "\nb";
      assert t[1..][1..] == "b";
      assert "b"[1..] == [];
    }
  }

  /** The inline view's state: the block it last inserted, if any. */
  class InlineRenderer {
    var inserted: Option<InsertedBlock>

    constructor()
      ensures inserted == None
    {
      inserted := None;
    }

    /** `removeInsertedBlock`. */
    method RemoveInsertedBlock(editorActive: bool) returns (edits: seq<Edit>)
      modifies this
      ensures inserted == None
      ensures edits == RemovalEdits(old(inserted), editorActive)
    {
      edits := RemovalEdits(inserted, editorActive);
      inserted := None;
    }

    /** `clear`: the pending block is removed. */
    method Clear(editorActive: bool) returns (edits: seq<Edit>)
      modifies this
      ensures inserted == None
      ensures edits == RemovalEdits(old(inserted), editorActive)
    {
      edits := RemoveInsertedBlock(editorActive);
    }

    /**
     * `render`: an empty translation only clears; otherwise the previous
     * block is removed and the new one inserted, and it is recorded only if
     * the editor applied the insertion. `docLines` is the document once the
     * previous block is gone.
     */
    method Render(context: RenderContext, docLines: seq<string>, languageId: string,
                  editorActive: bool, applied: bool) returns (edits: seq<Edit>)
      requires context.translatedText != [] ==>
        context.selectionRange.start.line < |docLines| && context.selectionRange.end.line < |docLines|
      modifies this
      ensures context.translatedText == [] ==> edits == RemovalEdits(old(inserted), editorActive) && inserted == None
      ensures context.translatedText != [] ==>
        && edits == RemovalEdits(old(inserted), editorActive)
                    + [Insert(Position(RenderedLine(context, docLines), 0), RenderedContent(context, docLines, languageId))]
        && inserted == (if applied then Some(RenderedBlock(context, docLines, languageId)) else None)
    {
      if context.translatedText == [] {
        edits := Clear(editorActive);
        return;
      }
      edits := RemoveInsertedBlock(editorActive);
      var selection := context.selectionRange;
      var insertLine := InsertLine(selection);
      var indent := LeadingWhitespace(docLines[FirstLine(selection)]);
      var content := BlockContent(GetCommentSyntax(languageId), indent, context.translatedText);
      var safeInsertLine := SafeInsertLine(insertLine, |docLines|);
      edits := edits + [Insert(Position(safeInsertLine, 0), content)];
      if !applied {
        return;
      }
      inserted := Some(RenderedBlock(context, docLines, languageId));
    }

    /** `accept`: a pending block is consumed and its edits asked for; without one nothing happens. */
    method Accept() returns (edits: seq<Edit>)
      modifies this
      ensures inserted == None
      ensures old(inserted) == None ==> edits == []
      ensures old(inserted).Some? ==> edits == AcceptEdits(old(inserted).value)
    {
      if inserted == None {
        return [];
      }
      var b := inserted.value;
      inserted := None;
      var replacementText := Join(b.translatedLines, "\n");
      var lineDelta := |b.translatedLines| - SourceLineCount(b.sourceRange);
      var adjustedStart := b.range.start.line + lineDelta;
      var adjustedEnd := b.range.end.line + lineDelta;
      edits := [Replace(b.sourceRange, replacementText), Delete(adjustedStart, b.range.start.character, adjustedEnd + 1)];
    }
  }
}
