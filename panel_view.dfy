/**
 * The side panel's page: the language pair, an optional version badge, an
 * optional normalisation note and the translation, all user text escaped.
 *
 * As in the history page, the fixed text is a `Template` value: the lemmas
 * hold for every template `Shaped` accepts, and `PanelTemplate` is one.
 */
module PanelView {
  import opened Wrappers
  import opened Strings
  import opened Types
  import opened HtmlEscape
  import opened RenderTypes

  /** The fixed text of the page, between the parts that vary. */
  datatype Template = Template(
    pageStart: string,      // the document up to the source language
    beforeTo: string,       // between the source and the target language
    afterTo: string,        // after the target language
    badgeOpen: string,      // the version badge, before the version
    badgeClose: string,     // and after it
    afterBadge: string,     // the end of the meta line
    note: string,           // the normalisation note
    beforeContent: string,  // the end of the header and the opening `<pre>`
    pageEnd: string)        // the closing `</pre>` and the end of the document

  /** The template of `buildHtml`; the style sheet is not part of this model. */
  const PanelTemplate: Template := Template(
    "<!DOCTYPE html>\n<html lang=\"en\">\n<head>\n<meta charset=\"UTF-8\">\n"
    + "<meta name=\"viewport\" content=\"width=device-width, initial-scale=1.0\">\n"
    + "<meta http-equiv=\"Content-Security-Policy\" content=\"default-src 'none'; style-src 'unsafe-inline';\">\n"
    + "<title>Translation</title>\n<style>\n</style>\n</head>\n<body>\n<div class=\"header\">\n"
    + "  <p class=\"meta\">Source <code>",
    "</code> &rarr; Target <code>",
    "</code>",
    " &middot; <code>",
    "</code>",
    "</p>\n  ",
    "<p class=\"note\">Normalization applied</p>",
    "\n</div>\n<pre>",
    "</pre>\n</body>\n</html>")

  /** The badge and the note can each be told from the text that follows when they are absent. */
  predicate Shaped(t: Template) {
    t.badgeOpen != [] && t.afterBadge != [] && t.badgeOpen[0] != t.afterBadge[0]
    && t.note != [] && t.beforeContent != [] && t.note[0] != t.beforeContent[0]
  }

  lemma PanelTemplateShaped()
    ensures Shaped(PanelTemplate)
  {
    assert PanelTemplate.badgeOpen[0] == ' ';
    assert PanelTemplate.afterBadge[0] == '<';
    assert PanelTemplate.note[0] == '<';
    assert PanelTemplate.beforeContent[0] == '\n';
  }

  /** `versionBadge`: present only when the context names a version. */
  function VersionBadge(t: Template, version: Option<Version>): string {
    match version
    case Some(v) => t.badgeOpen + EscapeHtml(v.Name()) + t.badgeClose
    case None => ""
  }

  /** `normalizedNote`: present only when the input was normalised. */
  function NormalizedNote(t: Template, normalized: bool): string {
    if normalized then t.note else ""
  }

  /** The escaped translation, the lines joined by line feeds. */
  function Content(context: RenderContext): string {
    EscapeHtml(Join(context.translatedText, "\n"))
  }

  /** The page up to the badge: the escaped source and target languages. */
  function Header(t: Template, context: RenderContext): string {
    t.pageStart + EscapeHtml(context.from) + t.beforeTo + EscapeHtml(context.to) + t.afterTo
  }

  /** The badge, if any, and the end of the meta line. */
  function Badged(t: Template, version: Option<Version>): string {
    VersionBadge(t, version) + t.afterBadge
  }

  /** The note, if any, and the opening of the translation. */
  function Noted(t: Template, normalized: bool): string {
    NormalizedNote(t, normalized) + t.beforeContent
  }

  /** The page up to the note. */
  function Meta(t: Template, context: RenderContext): string {
    Header(t, context) + Badged(t, context.version)
  }

  /** The translation and the end of the page. */
  function Tail(t: Template, context: RenderContext): string {
    Content(context) + t.pageEnd
  }

  function Page(t: Template, context: RenderContext): string {
    Meta(t, context) + Noted(t, context.normalized) + Tail(t, context)
  }

  /** `buildHtml(context)`. */
  function BuildHtml(context: RenderContext): string {
    Page(PanelTemplate, context)
  }

  lemma IsAtFront(a: string, b: string)
    ensures IsAt(a + b, a, 0)
  {
    assert IsAt(a, a, 0);
    IsAtAppendLeft(a, b, a, 0);
  }

  /** What stands right after the language pair. */
  lemma AfterHeader(t: Template, context: RenderContext)
    ensures IsAt(Page(t, context), Badged(t, context.version), |Header(t, context)|)
  {
    var h, b := Header(t, context), Badged(t, context.version);
    var m, n := Meta(t, context), Noted(t, context.normalized);
    assert IsAt(b, b, 0);
    IsAtAppendRight(h, b, b, 0);
    IsAtAppendLeft(m, n, b, |h|);
    IsAtAppendLeft(m + n, Tail(t, context), b, |h|);
  }

  /** The version badge follows the target language exactly when the context names a version. */
  lemma BadgeIffVersion(t: Template, context: RenderContext)
    requires Shaped(t)
    ensures IsAt(Page(t, context), t.badgeOpen, |Header(t, context)|) <==> context.version.Some?
  {
    var page, k := Page(t, context), |Header(t, context)|;
    var rest := Badged(t, context.version);
    AfterHeader(t, context);
    assert page[k] == rest[0];
    if context.version.Some? {
      var name := EscapeHtml(context.version.value.Name());
      assert IsAt(rest, t.badgeOpen, 0) by {
        IsAtFront(t.badgeOpen, name);
        IsAtAppendLeft(t.badgeOpen + name, t.badgeClose, t.badgeOpen, 0);
        IsAtAppendLeft(t.badgeOpen + name + t.badgeClose, t.afterBadge, t.badgeOpen, 0);
      }
      IsAtInside(page, rest, t.badgeOpen, k, 0);
    } else {
      assert rest == t.afterBadge;
      assert page[k] != t.badgeOpen[0];
    }
  }

  /** The badge shows the version's name unchanged: `v1` and `v2` need no escaping. */
  lemma BadgeShowsVersion(t: Template, v: Version)
    ensures VersionBadge(t, Some(v)) == t.badgeOpen + v.Name() + t.badgeClose
  {
    EscapePlain(v.Name());
  }

  /** What stands right after the meta line. */
  lemma AfterMeta(t: Template, context: RenderContext)
    ensures IsAt(Page(t, context), Noted(t, context.normalized), |Meta(t, context)|)
  {
    var m, n := Meta(t, context), Noted(t, context.normalized);
    assert IsAt(n, n, 0);
    IsAtAppendRight(m, n, n, 0);
    IsAtAppendLeft(m + n, Tail(t, context), n, |m|);
  }

  /** The "Normalization applied" note follows the meta line exactly when the input was normalised. */
  lemma NoteIffNormalized(t: Template, context: RenderContext)
    requires Shaped(t)
    ensures IsAt(Page(t, context), t.note, |Meta(t, context)|) <==> context.normalized
  {
    var page, k := Page(t, context), |Meta(t, context)|;
    var rest := Noted(t, context.normalized);
    AfterMeta(t, context);
    assert page[k] == rest[0];
    if context.normalized {
      IsAtFront(t.note, t.beforeContent);
      IsAtInside(page, rest, t.note, k, 0);
    } else {
      assert rest == t.beforeContent;
      assert page[k] != t.note[0];
    }
  }

  /**
   * The page ends with the escaped translation and the closing text, and
   * read back the escaped translation is the lines joined by line feeds.
   */
  lemma BodyIsTranslation(t: Template, context: RenderContext)
    ensures IsAt(Page(t, context), Tail(t, context), |Page(t, context)| - |Tail(t, context)|)
    ensures DecodeEntities(Content(context)) == Join(context.translatedText, "\n")
  {
    var tail := Tail(t, context);
    var front := Meta(t, context) + Noted(t, context.normalized);
    assert IsAt(tail, tail, 0);
    IsAtAppendRight(front, tail, tail, 0);
    DecodeEscape(Join(context.translatedText, "\n"));
  }

  /** The escaped source language follows the start of the page, and reads back as the source language. */
  lemma SourceLanguageShown(t: Template, context: RenderContext)
    ensures IsAt(Page(t, context), EscapeHtml(context.from), |t.pageStart|)
    ensures DecodeEntities(EscapeHtml(context.from)) == context.from
  {
    var from := EscapeHtml(context.from);
    var m, n := Meta(t, context), Noted(t, context.normalized);
    assert IsAt(from, from, 0);
    IsAtAppendRight(t.pageStart, from, from, 0);
    IsAtAppendLeft(t.pageStart + from, t.beforeTo, from, |t.pageStart|);
    IsAtAppendLeft(t.pageStart + from + t.beforeTo, EscapeHtml(context.to), from, |t.pageStart|);
    IsAtAppendLeft(t.pageStart + from + t.beforeTo + EscapeHtml(context.to), t.afterTo, from, |t.pageStart|);
    IsAtAppendLeft(Header(t, context), Badged(t, context.version), from, |t.pageStart|);
    IsAtAppendLeft(m, n, from, |t.pageStart|);
    IsAtAppendLeft(m + n, Tail(t, context), from, |t.pageStart|);
    DecodeEscape(context.from);
  }

  /** The escaped target language follows the text between the languages, and reads back as the target language. */
  lemma TargetLanguageShown(t: Template, context: RenderContext)
    ensures IsAt(Page(t, context), EscapeHtml(context.to), |t.pageStart + EscapeHtml(context.from) + t.beforeTo|)
    ensures DecodeEntities(EscapeHtml(context.to)) == context.to
  {
    var front, to := t.pageStart + EscapeHtml(context.from) + t.beforeTo, EscapeHtml(context.to);
    var m, n := Meta(t, context), Noted(t, context.normalized);
    assert IsAt(to, to, 0);
    IsAtAppendRight(front, to, to, 0);
    IsAtAppendLeft(front + to, t.afterTo, to, |front|);
    IsAtAppendLeft(Header(t, context), Badged(t, context.version), to, |front|);
    IsAtAppendLeft(m, n, to, |front|);
    IsAtAppendLeft(m + n, Tail(t, context), to, |front|);
    DecodeEscape(context.to);
  }

  /** How many copies of a markup character the page's fixed text holds. */
  function BaseMarkup(t: Template, c: char): nat {
    Count(t.pageStart, c) + Count(t.beforeTo, c) + Count(t.afterTo, c) + Count(t.afterBadge, c)
    + Count(t.beforeContent, c) + Count(t.pageEnd, c)
  }

  lemma HeaderMarkup(t: Template, context: RenderContext, c: char)
    requires IsMarkup(c)
    ensures Count(Header(t, context), c) == Count(t.pageStart, c) + Count(t.beforeTo, c) + Count(t.afterTo, c)
  {
    var from, to := EscapeHtml(context.from), EscapeHtml(context.to);
    EscapeCountMarkup(context.from, c);
    EscapeCountMarkup(context.to, c);
    CountAppend(t.pageStart, from, c);
    CountAppend(t.pageStart + from, t.beforeTo, c);
    CountAppend(t.pageStart + from + t.beforeTo, to, c);
    CountAppend(t.pageStart + from + t.beforeTo + to, t.afterTo, c);
  }

  lemma BadgeMarkup(t: Template, version: Option<Version>, c: char)
    requires IsMarkup(c)
    ensures Count(VersionBadge(t, version), c)
      == if version.Some? then Count(t.badgeOpen, c) + Count(t.badgeClose, c) else 0
  {
    if version.Some? {
      var name := EscapeHtml(version.value.Name());
      EscapeCountMarkup(version.value.Name(), c);
      CountAppend(t.badgeOpen, name, c);
      CountAppend(t.badgeOpen + name, t.badgeClose, c);
    }
  }

  /**
   * The languages and the translation add no tag and no attribute quote: the
   * page holds the markup of its fixed text, plus the badge's when a version
   * is named and the note's when the input was normalised.
   */
  lemma PageMarkup(t: Template, context: RenderContext, c: char)
    requires IsMarkup(c)
    ensures Count(Page(t, context), c)
      == BaseMarkup(t, c)
         + (if context.version.Some? then Count(t.badgeOpen, c) + Count(t.badgeClose, c) else 0)
         + (if context.normalized then Count(t.note, c) else 0)
  {
    var h, b := Header(t, context), VersionBadge(t, context.version);
    var n, body := NormalizedNote(t, context.normalized), Content(context);
    HeaderMarkup(t, context, c);
    BadgeMarkup(t, context.version, c);
    EscapeCountMarkup(Join(context.translatedText, "\n"), c);
    CountAppend(b, t.afterBadge, c);
    CountAppend(h, Badged(t, context.version), c);
    CountAppend(n, t.beforeContent, c);
    CountAppend(Meta(t, context), Noted(t, context.normalized), c);
    CountAppend(body, t.pageEnd, c);
    CountAppend(Meta(t, context) + Noted(t, context.normalized), Tail(t, context), c);
  }
}
