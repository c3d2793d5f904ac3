# Quick Translate — a verified model of the extension's core

Quick Translate is a VS Code extension. It translates the selected text with
Google Translate and shows the result in a hover, in a webview panel, or as
a comment block inserted under the selection. This project models in Dafny
the deterministic parts of the extension:

- the identifier normaliser, which splits `kebab-case`, `snake_case`,
  `dot.case`, `camelCase`, acronyms and digit boundaries into words, and the
  identifier-pattern detector;
- the two translator back ends, which are the `translate_a/single` JSON
  decoder (v1) and the mobile-page scraper (v2) with its entity unescaper and
  word wrapper. The HTML class extractor and the retry driver are modelled
  too;
- the session's translation cache, translation history and hover state,
  which are modelled as classes whose methods update their fields;
- the translate and rerun commands: target-language parsing, line capping
  and normalisation, the per-line aggregation, the cache and history
  updates, and the multi-target loop;
- the views: comment-syntax lookup, the inline block's text and line
  arithmetic, the panel and history HTML, and the hover Markdown with its
  visibility guard.

Every network request is a parameter. It carries the answer the back end
gives: a decoded response, a page, or `None` when the request threw. The
editor's state is a parameter too: the document's lines, whether the editor
is active, whether an edit was applied, and the clock reading.

Modules (one per source file, plus shared helpers):

- `Wrappers`: `Option`.
- `Strings`: whitespace, trim, split/join, ASCII case, find/replace, decimal
  digits.
- `Types`: versions, back-end answers, command results, history entries.
- `NormalizeInput`, `DetectIdentifier`, `HtmlExtractor`, `Retry`,
  `TranslateV1`, `TranslateV2`.
- `TranslationCache`, `TranslationHistory`, `HoverState`, `HoverProvider`,
  `SwitchViewMode`, `CommentSyntax`.
- `HtmlEscape`: the `escapeHtml` that the history and panel views both
  define, identically. It is modelled once.
- `HistoryView`, `RenderTypes`, `PanelView`, `InlineView`,
  `TranslateCommand`, `RerunTranslation`.

## Model

| member | source | states |
|---|---|---|
| NormalizeInput.Normalize | src/normalize/normalize-input.ts:4 | with `normalizeText` off the input comes back exactly, untrimmed |
| NormalizeInput.NormalizeShortInput | src/normalize/normalize-input.ts:5-9 | input under 3 characters keeps its non-whitespace characters in order; it comes out unpadded and no longer; with `trimExtraSpaces` it has no two adjacent whitespace characters |
| NormalizeInput.ReplaceCharOneForOne | src/normalize/normalize-input.ts:11-13 | the kebab, snake and dot rewrites replace each occurrence of their character by one space and leave every other position as it was, so the length is unchanged |
| NormalizeInput.ReplaceCharRemoves | src/normalize/normalize-input.ts:11-13 | after such a rewrite the character no longer occurs |
| NormalizeInput.CollapseSeparatorsRemoves | src/normalize/normalize-input.ts:14 | after the mixed rewrite no `-`, `_` or `.` remains |
| NormalizeInput.CollapseSeparatorsIdentity | src/normalize/normalize-input.ts:14 | text without separators is left unchanged by the mixed rewrite |
| NormalizeInput.SplitPairsIsSpacedAt | src/normalize/normalize-input.ts:15-17 | the left-to-right regex scan equals the reference definition that puts one space inside every lower→upper (letter→digit, digit→letter) pair |
| NormalizeInput.SpacedAtLength | src/normalize/normalize-input.ts:15-17 | the boundary rewrite only inserts: it never shortens the text and keeps its first character |
| NormalizeInput.SpacedAtRemovesBoundary | src/normalize/normalize-input.ts:15-17 | after the camel (or number) rewrite no such boundary pair remains |
| NormalizeInput.SplitAcronymsIsAcronymSpaced | src/normalize/normalize-input.ts:18-23 | the acronym scan equals the reference definition that spaces the last capital of each 2+ capital run followed by a lowercase letter (`XMLParser` → `XML Parser`) |
| NormalizeInput.AcronymSpacedRemovesWindows | src/normalize/normalize-input.ts:18-23 | after the acronym rewrite no capital run followed by capital+lowercase remains |
| NormalizeInput.SplitAcronymsIdempotent | src/normalize/normalize-input.ts:18-23 | running the acronym rewrite twice is running it once, which is why the consecutive-uppercase and acronym flags together act as one |
| NormalizeInput.CollapseWhitespaceNoDouble | src/normalize/normalize-input.ts:27-29 | the whitespace collapse leaves no two adjacent whitespace characters |
| NormalizeInput.TidySpaces | src/normalize/normalize-input.ts:27-29 | the final trim step's output is unpadded and has no double whitespace, and it keeps every non-whitespace character in order |
| NormalizeInput.RewriteGuarantee | src/normalize/normalize-input.ts:11-29 | each rule guarantees its own property of its output (no separator, no boundary, no acronym window, tidy spaces) |
| NormalizeInput.RulesOrder | src/normalize/normalize-input.ts:11-29 | the rules run as the separator rules, then the word-boundary rules, with the trim last |
| NormalizeInput.NormalizeRuleGuarantee | src/normalize/normalize-input.ts:10-30 | for input of 3+ characters every enabled rule's guarantee still holds of the final output: later rules do not undo earlier ones |
| NormalizeInput.NormalizeKeepsContent | src/normalize/normalize-input.ts:10-30 | the pipeline only deletes the separators of the enabled separator rules and changes whitespace: all other characters survive in order |
| DetectIdentifier.DetectPattern | src/normalize/detect-identifier.ts:15-25 | the result is each of the four patterns exactly when the trimmed text is a 3+ character, whitespace-free token of that shape (snake/kebab: lowercase start, `[a-z0-9]` groups joined by single separators; camel: lowercase start, alphanumeric, some capital; Pascal: capital start, alphanumeric, some later lowercase) |
| DetectIdentifier.MatchSeparatedIsShape | src/normalize/detect-identifier.ts:5-6 | a string the snake or kebab regex accepts has the separated shape |
| DetectIdentifier.ShapeIsMatchSeparated | src/normalize/detect-identifier.ts:5-6 | every string of the separated shape is accepted by that regex |
| DetectIdentifier.MatchCamelShape | src/normalize/detect-identifier.ts:3 | the camel regex accepts exactly the camel shape |
| DetectIdentifier.MatchPascalIsShape | src/normalize/detect-identifier.ts:4 | a string either Pascal alternative accepts has the Pascal shape |
| DetectIdentifier.ShapeIsMatchPascal | src/normalize/detect-identifier.ts:4 | every Pascal-shaped string is accepted by the first alternative, so the second is subsumed |
| DetectIdentifier.ShapesExclusive | src/normalize/detect-identifier.ts:20-23 | no token has two of the shapes, so the order of the checks decides nothing |
| DetectIdentifier.DetectIgnoresPadding | src/normalize/detect-identifier.ts:16 | surrounding whitespace does not change the verdict |
| DetectIdentifier.DetectRejectsOtherCharacters | src/normalize/detect-identifier.ts:3-6 | a token with any character outside `[A-Za-z0-9_-]` gives no pattern |
| DetectIdentifier.DetectRejectsPlainLowercase | src/normalize/detect-identifier.ts:20-24 | an all-lowercase token without separators gives no pattern |
| HtmlExtractor.TagHasClassWord | src/translator/html-extractor.ts:11-17 | the class name is compared with the whitespace-separated tokens of the first `class="…"` value, so a name a tag matches holds no whitespace |
| HtmlExtractor.SplitWhitespacePieces | src/translator/html-extractor.ts:16 | the pieces of the class value contain no whitespace |
| HtmlExtractor.NameEndIsFirstStop | src/translator/html-extractor.ts:52-53 | the tag name ends at the first whitespace, `/` or `>` |
| HtmlExtractor.StripTagsLeavesNoTag | src/translator/html-extractor.ts:104-106 | after stripping, no `<…>` span is left |
| HtmlExtractor.StripTagsNoTag | src/translator/html-extractor.ts:104-106 | text without a tag is unchanged by stripping |
| HtmlExtractor.StripTagsIdempotent | src/translator/html-extractor.ts:104-106 | stripping twice is stripping once |
| HtmlExtractor.BalancingCloseIsClose | src/translator/html-extractor.ts:66-93 | the depth scan stops only at an occurrence of `</tag>` at or after its start |
| HtmlExtractor.BalancingCloseUnnested | src/translator/html-extractor.ts:66-93 | with no same-name open before the first `</tag>`, that close balances the element |
| HtmlExtractor.ScanToBalancingClose | src/translator/html-extractor.ts:66-94 | the source's inner `while` loop over `j` and `depth` computes the balancing close of the depth specification, or none |
| HtmlExtractor.ExtractByClass | src/translator/html-extractor.ts:30-102 | the source's outer loop over `i` computes the scan specification: closing, `<!`, nameless and self-closing tags are skipped, as is a candidate with no balancing close |
| HtmlExtractor.ExtractShape | src/translator/html-extractor.ts:19-90 | a found value comes from the first tag span the scan visits that yields anything: that span is a candidate carrying the class, and the value is the markup up to the `</name>` where the depth scan balances, with tags stripped |
| HtmlExtractor.ExtractFromNoTag | src/translator/html-extractor.ts:35-38 | with no `<` left to scan, nothing is found |
| HtmlExtractor.ExtractByClasses | src/translator/html-extractor.ts:108-116 | the loop returns the first class's non-blank extraction, trimmed |
| HtmlExtractor.FirstNonBlankIndex | src/translator/html-extractor.ts:109-113 | a result comes from the first class in list order whose extraction is non-blank |
| HtmlExtractor.FirstNonBlankNone | src/translator/html-extractor.ts:115 | the result is undefined exactly when every class's extraction is missing or blank |
| Retry.Attempts | src/translator/retry.ts:12-18 | the number of calls allowed is `max(maxAttempts, 1)` |
| Retry.FirstStopIsFirst | src/translator/retry.ts:16-20 | every call before the stop gave a retryable result, and an early stop is at a non-retryable one |
| Retry.InvocationsBounds | src/translator/retry.ts:16-18 | `fn` is called at least once and at most `max(maxAttempts, 1)` times |
| Retry.InvocationsAlwaysRetryable | src/translator/retry.ts:16-19 | with an always-retryable `fn` the calls are exactly `max(maxAttempts, 1)` |
| Retry.InvocationsFirstFailure | src/translator/retry.ts:15-24 | otherwise the calls are the first non-retryable index plus one, capped at that bound |
| Retry.DefaultInvocations | src/translator/retry.ts:12-18 | with the default of 2 attempts `fn` is called twice exactly when the first result is retryable |
| Retry.WithRetry | src/translator/retry.ts:9-25 | the loop returns the last call's result after that many calls. Every result before it was retryable, and an early return is non-retryable. The k-th delay's fixed part is `baseDelayMs * 2^k` |
| TranslationHistory.Kept | src/history/translation-history.ts:17-19 | a non-negative limit keeps `min(length, limit)` entries |
| TranslationHistory.Added | src/history/translation-history.ts:15-20 | adding gives a prefix of the new entry followed by the old list, of length `min(n + 1, limit)` for a non-negative limit |
| TranslationHistory.AddedFirst | src/history/translation-history.ts:16 | with a positive limit the entry just added is first |
| TranslationHistory.AddedAllNewestFirst | src/history/translation-history.ts:15-20 | a run of adds leaves the newest `limit` entries, newest first, followed by the older ones |
| TranslationHistory.History.constructor | src/history/translation-history.ts:10-12 | a new history is empty with the given limit (20 by default) |
| TranslationHistory.History.Add | src/history/translation-history.ts:15-20 | the new entry is first, the previous ones follow in order, only the oldest beyond the limit are dropped, and the size stays within a non-negative limit |
| TranslationHistory.History.GetAll | src/history/translation-history.ts:21-23 | returns the entries as a value, which no later change can alias |
| TranslationHistory.History.Clear | src/history/translation-history.ts:24-26 | no entries are left and the limit stays |
| TranslationHistory.History.Size | src/history/translation-history.ts:27-29 | the size is the length of what `getAll` returns |
| TranslationCache.BuildKey | src/cache/translation-cache.ts:10-12 | the key is the four fields and three `\|` separators |
| TranslationCache.BuildKeyInjective | src/cache/translation-cache.ts:10-12 | keys whose `from` and `to` hold no `\|` get distinct strings, so they get distinct entries |
| TranslationCache.BuildKeyCollision | src/cache/translation-cache.ts:10-12 | two different keys with `\|` in their languages build the same string and share an entry |
| TranslationCache.Cache.constructor | src/cache/translation-cache.ts:28-29 | a new cache is empty |
| TranslationCache.Cache.Get | src/cache/translation-cache.ts:32-34 | returns the entry stored under the key's string, or nothing |
| TranslationCache.Cache.Set | src/cache/translation-cache.ts:35-37 | a following `get` of the key returns the value. Every other key string is unchanged. The size grows by one exactly when the key string is new |
| TranslationCache.Cache.Clear | src/cache/translation-cache.ts:38-40 | the store is empty, so every `get` misses and the size is 0 |
| TranslationCache.Cache.Size | src/cache/translation-cache.ts:41-43 | the number of distinct key strings stored |
| HoverState.Position.CompareTo | src/hover/hover-provider.ts:51 | the sign of the comparison orders positions by line, then by character |
| HoverState.HoverStateController.constructor | src/hover/hover-state.ts:21-22 | initially no state and the hover is off |
| HoverState.HoverStateController.SetState | src/hover/hover-state.ts:24-26 | the state is the argument and the show flag is unchanged |
| HoverState.HoverStateController.GetState | src/hover/hover-state.ts:27-29 | returns the state last set |
| HoverState.HoverStateController.SetShouldShowHover | src/hover/hover-state.ts:30-32 | the flag is the argument and the state is unchanged |
| HoverState.HoverStateController.GetShouldShowHover | src/hover/hover-state.ts:33-35 | returns the flag last set |
| HoverState.HoverStateController.Reset | src/hover/hover-state.ts:36-39 | no state and the hover is off |
| HoverProvider.EscapeRoundTrip | src/hover/hover-provider.ts:7-9 | removing the inserted backslashes gives back the raw text, so the escape only puts a backslash before each of the seven characters |
| HoverProvider.EscapePlain | src/hover/hover-provider.ts:7-9 | text without those characters is unchanged |
| HoverProvider.DisplayText | src/hover/hover-provider.ts:33-36 | text of at most 4000 characters is shown whole; longer text shows its first 4000 characters then `\n\n— truncated` |
| HoverProvider.BuildHoverMarkdown | src/hover/hover-provider.ts:11-40 | the escaped language pair line, then the code block of the display text; the normalisation line is present exactly when `normalized` is true |
| HoverProvider.ProvideHover | src/hover/hover-provider.ts:43-53 | a hover is returned exactly when the flag is on, a state exists, the document matches and the position lies in the range, ends included. It shows that state's Markdown over its range |
| SwitchViewMode.IndexOfName | src/command/switch-view-mode-command.ts:6 | `indexOf` finds the first mode with that name, or -1 when there is none |
| SwitchViewMode.NextViewMode | src/command/switch-view-mode-command.ts:5-9 | an unknown current value yields hover |
| SwitchViewMode.NextViewModeCycle | src/command/switch-view-mode-command.ts:3-8 | the modes cycle hover → panel → inline → hover |
| SwitchViewMode.NextViewModeThrice | src/command/switch-view-mode-command.ts:3-8 | three switches from a known mode return to it |
| CommentSyntax.NormalizeLanguage | src/utils/comment-syntax.ts:88-98 | the language id is lowercased and trimmed before the alias map |
| CommentSyntax.NormalizeLanguageIdempotent | src/utils/comment-syntax.ts:88-98 | normalising twice is normalising once |
| CommentSyntax.FindBlockFinds | src/utils/comment-syntax.ts:103-107 | a block syntax is found exactly when some block group lists the language |
| CommentSyntax.FindBlockFirst | src/utils/comment-syntax.ts:103-107 | the first group listing it wins |
| CommentSyntax.SyntaxForCases | src/utils/comment-syntax.ts:103-115 | block groups come before line groups, and an unknown language gets none |
| CommentSyntax.MarkupComments | src/utils/comment-syntax.ts:31-35 | html, xml and svg get `<!--` … `-->` |
| CommentSyntax.PythonComments | src/utils/comment-syntax.ts:36-40 | python gets `"""` … `"""`, not `#` |
| CommentSyntax.AliasSyntax | src/utils/comment-syntax.ts:88-101 | `py`, in any case and padding, gets python's syntax |
| CommentSyntax.LineTableShadowed | src/utils/comment-syntax.ts:58-86 | every line-group language other than bash, shell, yaml and makefile also has a block group |
| CommentSyntax.HashOnlyLines | src/utils/comment-syntax.ts:78-81 | bash, shell, yaml and makefile get `#` |
| CommentSyntax.LineOnlyLanguages | src/utils/comment-syntax.ts:100-115 | a line syntax is returned exactly for those four languages |
| TranslateV1.ConcatRowsAppend | src/translator/translate.ts:27 | the decoded text of the rows of two answers is their texts concatenated |
| TranslateV1.ResponseTextSingleRow | src/translator/translate.ts:27 | a single-row answer decodes to that row's first cell |
| TranslateV1.ResponseTextEmptyRows | src/translator/translate.ts:27 | rows with a missing first cell contribute nothing |
| TranslateV1.ResponseFromLang | src/translator/translate.ts:28-29 | the source language is `d[8][0][0]` when present, else `d[2]`, else empty |
| TranslateV1.Translate | src/translator/translate.ts:33-49 | an unsupported target gives "This language is not supported." with no request. A failed request gives "An error occurred.". Otherwise the result is the decoded text and language, with `toLang` the requested one |
| TranslateV2.ExtractResultContainerOf | src/translator/translate-v2.ts:81-82 | the raw result is the text after the first `class="result-container">` up to the next `<` |
| TranslateV2.ExtractHasNoTag | src/translator/translate-v2.ts:6 | the raw result never holds a `<` |
| TranslateV2.ExtractWithoutMarker | src/translator/translate-v2.ts:82 | a page without the marker gives an empty raw result |
| TranslateV2.UnescapeWithoutAmpersand | src/translator/translate-v2.ts:15-26 | text without `&` is unescaped to itself |
| TranslateV2.DoubleUnescape | src/translator/translate-v2.ts:17-18 | `&amp;` is decoded first, so `&amp;lt;` becomes `<` |
| TranslateV2.UnescapeDecimalEntity | src/translator/translate-v2.ts:22 | `&#N;` becomes the UTF-16 code unit `N mod 65536` |
| TranslateV2.UnescapeHexEntity | src/translator/translate-v2.ts:23-25 | `&#xH;` becomes the UTF-16 code unit `H mod 65536` |
| TranslateV2.UnescapeApostropheEntity | src/translator/translate-v2.ts:21 | `&#39;` becomes an apostrophe |
| TranslateV2.WrapText | src/translator/translate-v2.ts:31-50 | the source's loop computes the wrapping specification; a width of 0 or less returns the text unchanged |
| TranslateV2.WrapLinesShape | src/translator/translate-v2.ts:36-48 | every wrapped line is non-empty, at most `width` long and unpadded |
| TranslateV2.WrappedLines | src/translator/translate-v2.ts:36-49 | for a positive width the output is those lines joined by `\n` |
| TranslateV2.WrappedKeepsText | src/translator/translate-v2.ts:31-50 | wrapping keeps every non-whitespace character in order |
| TranslateV2.WrappedBlank | src/translator/translate-v2.ts:36-37 | blank input wraps to the empty string |
| TranslateV2.WrappedShort | src/translator/translate-v2.ts:38-40 | trimmed text within the width is one line |
| TranslateV2.Translate | src/translator/translate-v2.ts:61-104 | an unsupported target gives the error with no request, and a failed request falls back to v1 |
| TranslateV2.TranslateOutcome | src/translator/translate-v2.ts:81-99 | a v2 success happens exactly when the unescaped raw result is non-empty. It carries the requested languages and the result's non-whitespace characters in order. Every other case is v1's answer |
| HtmlEscape.EscapeHtmlIsPerChar | src/command/history-command.ts:6-13 | the replace chain with `&` first equals escaping each character on its own |
| HtmlEscape.EscapeHtmlAppend | src/view/panel-renderer.ts:5-12 | escaping distributes over concatenation |
| HtmlEscape.EscapeNoMarkup | src/command/history-command.ts:6-13 | the output contains no `<`, `>`, `"` or `'` |
| HtmlEscape.EscapeAmpersands | src/view/panel-renderer.ts:7 | every `&` in the output starts one of the five entities |
| HtmlEscape.EscapePlain | src/command/history-command.ts:6-13 | text without `&<>"'` is unchanged |
| HtmlEscape.DecodeEscape | src/view/panel-renderer.ts:5-12 | decoding the five entities gives the original text back |
| HistoryView.HistoryEmptyIffNoEntries | src/command/history-command.ts:44-46 | the body is the "No translations yet this session." paragraph exactly when there are no entries |
| HistoryView.EntryAt | src/command/history-command.ts:19-25 | entry `i` opens with `id="entry-i"` at its position in the body |
| HistoryView.EntriesInOrder | src/command/history-command.ts:46 | entries appear in list order without overlapping |
| HistoryView.EntryIdsDistinct | src/command/history-command.ts:25 | no two entries share an id |
| HistoryView.PageMarkup | src/command/history-command.ts:19-46 | the page's markup characters are exactly those of the template: user text adds none |
| PanelView.BadgeIffVersion | src/view/panel-renderer.ts:18-20 | the version badge appears exactly when a version is set |
| PanelView.BadgeShowsVersion | src/view/panel-renderer.ts:18-19 | the badge shows the version's name |
| PanelView.NoteIffNormalized | src/view/panel-renderer.ts:21-23 | the "Normalization applied" note appears exactly when the input was normalised |
| PanelView.BodyIsTranslation | src/view/panel-renderer.ts:84 | the `<pre>` holds the escaped translation, which decodes to the lines joined by `\n` |
| PanelView.SourceLanguageShown | src/view/panel-renderer.ts:81 | the source language is shown escaped and decodes back to itself |
| PanelView.TargetLanguageShown | src/view/panel-renderer.ts:81 | the target language is shown escaped and decodes back to itself |
| PanelView.PageMarkup | src/view/panel-renderer.ts:14-87 | the page's markup characters come from the template, the badge and the note only |
| InlineView.LeadingWhitespaceShape | src/view/inline-renderer.ts:17-20 | the indent is the line's whitespace prefix, up to its first non-whitespace character |
| InlineView.StripCRInverse | src/view/inline-renderer.ts:94 | one trailing `\r` is removed, and a line without one is unchanged |
| InlineView.CleanLinesAt | src/view/inline-renderer.ts:94 | each translated line is cleaned on its own |
| InlineView.BlockLayout | src/view/inline-renderer.ts:96-116 | the header is `indent + start + ' translation'` (or the line prefix, or `--- translation ---`). Each line follows, indented and prefixed for line syntax. Block syntax ends with `indent + end` |
| InlineView.BlockHeight | src/view/inline-renderer.ts:96-116 | the block holds the translated line count plus 3 (block syntax) or plus 2 newlines |
| InlineView.SafeInsertLine | src/view/inline-renderer.ts:118-119 | the insert line is clamped to the document's line count |
| InlineView.InsertLine | src/view/inline-renderer.ts:87-90 | the block goes below both ends of the selection |
| InlineView.EndLineSpan | src/view/inline-renderer.ts:136-137 | the recorded end line is the insert line plus the block's `\n`-pieces minus 2 |
| InlineView.RenderedBlockSpan | src/view/inline-renderer.ts:87-145 | the recorded range starts at the insert line and spans as many lines as the inserted text has newlines |
| InlineView.AcceptDeletesBlock | src/view/inline-renderer.ts:165-186 | accept deletes from column 0 of the shifted start to the line after the shifted end, which covers as many lines as the block has newlines |
| InlineView.LineDeltaCountsLines | src/view/inline-renderer.ts:165-168 | when no translated entry holds a newline, the shift equals the change in line count |
| InlineView.LineDeltaMissesWrappedLines | src/view/inline-renderer.ts:165-168 | an entry holding a newline makes the shift one line short |
| InlineView.InlineRenderer.constructor | src/view/inline-renderer.ts:29 | nothing is inserted initially |
| InlineView.InlineRenderer.Render | src/view/inline-renderer.ts:73-149 | empty text only removes the old block. Otherwise the old block is removed and the block text inserted at the clamped line. The new block is recorded only if the edit applied |
| InlineView.InlineRenderer.Accept | src/view/inline-renderer.ts:151-195 | without a block nothing happens; with one, the source is replaced and the shifted block deleted, and the block is forgotten |
| InlineView.InlineRenderer.RemoveInsertedBlock | src/view/inline-renderer.ts:197-226 | the block is forgotten. It is undone in the active editor and deleted to the line after its end otherwise |
| InlineView.InlineRenderer.Clear | src/view/inline-renderer.ts:228-231 | clear removes the block as above |
| TranslateCommand.ToLineResult | src/command/translate-command.ts:37-47 | a success carries its text, source language and version; an error carries its text as the message |
| TranslateCommand.TargetLanguagesClean | src/command/translate-command.ts:53-58 | every parsed target is non-empty, lowercase and unpadded |
| TranslateCommand.TargetLanguagesRoundTrip | src/command/translate-command.ts:53-58 | joining clean comma-free codes with `,` and parsing gives them back |
| TranslateCommand.BlankLineNotTranslated | src/command/translate-command.ts:89-92 | the answer for a blank line does not affect the result |
| TranslateCommand.FirstFailureReported | src/command/translate-command.ts:106-109 | the first failing non-blank line in order gives the error, with its message |
| TranslateCommand.AllLinesTranslated | src/command/translate-command.ts:111-120 | on success there is one text per line, in order, with `''` for blank lines, under the requested target |
| TranslateCommand.AggregateFromLang | src/command/translate-command.ts:112-117 | the source language is the first one a line reports, else `from` |
| TranslateCommand.AggregateVersion | src/command/translate-command.ts:113-119 | the version is the first one a line reports, else the fallback |
| TranslateCommand.SingleLine | src/command/translate-command.ts:66-83 | a single line is translated whole into a one-element list, with missing languages filled from the request |
| TranslateCommand.TranslateLinesLanguages | src/command/translate-command.ts:60-121 | a success always has both languages, and for several lines the requested target and a version (`v1` by default) |
| TranslateCommand.CapLines | src/command/translate-command.ts:179-185 | more than `maxLineCount` lines are cut to the first `maxLineCount`; otherwise the lines are kept |
| TranslateCommand.PrepareLinesAt | src/command/translate-command.ts:187-190 | each line is normalised on its own, and only when normalisation is on |
| TranslateCommand.FailureMessage | src/command/translate-command.ts:235-236 | the error shown is the messages joined by `\n`, or "Translation failed." when that is empty |
| TranslateCommand.LookupAgain | src/command/translate-command.ts:204-233 | right after a translation is stored, looking the same text up again gives the same result |
| TranslateCommand.TranslateCached | src/command/translate-command.ts:204-233 | a cached entry is used as is. Otherwise the lines are translated and a success is stored under the composite key |
| TranslateCommand.TranslateSingleTarget | src/command/translate-command.ts:204-251 | as above; a success is also added to the history, with missing languages filled from the request |
| TranslateCommand.TargetEntry | src/command/translate-command.ts:338-352 | each target's entry names the target. It holds the translation, or one `[Error: …]` line |
| TranslateCommand.LastSuccessWins | src/command/translate-command.ts:338-342 | the "first" language and version end as the last successful target's |
| TranslateCommand.NoSuccessKeepsDefaults | src/command/translate-command.ts:304-305 | with no success they stay `from` and the configured version |
| TranslateCommand.OneMoreTarget | src/command/translate-command.ts:307-353 | one more target adds one entry in order, and a history entry on success |
| TranslateCommand.RunMultiTarget | src/command/translate-command.ts:288-353 | the loop gives one entry per target in order. It ends with the last success's language and version, and adds one history entry per success, in order. The cache holds each new success |
| TranslateCommand.MultiContextShowsFirstTarget | src/command/translate-command.ts:374-377 | the panel shows the first target's entry |
| RerunTranslation.NoSourceNoTranslation | src/command/rerun-translation-command.ts:36-40 | without a stored source text nothing is translated |
| RerunTranslation.RerunSingleLine | src/command/rerun-translation-command.ts:57-69 | one line is translated whole, and an error aborts with its message or "Translation failed." |
| RerunTranslation.RerunFirstFailure | src/command/rerun-translation-command.ts:91-95 | the first failing non-blank line aborts with its message |
| RerunTranslation.RerunAllTranslated | src/command/rerun-translation-command.ts:76-101 | the texts follow the lines, with `''` for blank lines, under the configured target |
| RerunTranslation.RerunFromLang | src/command/rerun-translation-command.ts:97-100 | the source language is the first one a line reports |
| RerunTranslation.RerunVersionFallback | src/command/rerun-translation-command.ts:98-102 | with no version reported the rerun takes the configured version, where the translate command takes `v1` |

## Left out

- Concurrency: `mapConcurrent` and the `Promise.all` over lines. The per-line answers are a sequence indexed like the lines, which is the order the source's callers see.
- Retry.WithRetry: `sleep`, the timer and the `Math.random()` jitter are not modelled; only the `baseDelayMs * 2^k` part of each delay is.
- Network I/O: the axios requests of both back ends, the preload connection warm-up and the back-end dispatch are not modelled. Their answers are parameters.
- The `languages` table is not part of this model: "supported target" is a predicate parameter.
- VS Code plumbing: webviews, progress reporting, decorations, the dismiss timers, the `isOwnEdit` flag and the `inlineSave` setting.
- InlineView.InlineRenderer.Render: editor edits and `undo` are returned as edit values. Whether the editor is active and whether an edit applied are parameters.
- Coordinates: `WorkspaceEdit` ranges are recorded, not applied to a document.
- The panel and history panel lifecycles (`PanelRenderer`, `dispose`, the history `panel` closure) are not modelled.
- The hover `setState` calls at the end of the commands are not modelled.
- The commands' editor checks are not modelled.
- The panel does not render `multiTarget` in the source; the model records it in the context only.
- The large-selection warning dialog and the one-time normalisation hint are UI session state and are not modelled.
- The `try`/`catch` around `translateLines` is not modelled: an error thrown by the back end is its `ApiError` answer.
- RunMultiTarget takes one clock reading for all history entries of a run; the source reads the clock once per target.
- `formatTimestamp` is locale-dependent. Times enter the history view as strings.
- The CSS text of the HTML templates is left out: the model's `<style>` blocks are empty.
- Strings: case mapping is ASCII only, and characters are UTF-16 code units, with no surrogate pairs. `&#N;` entities that land on a surrogate code unit are not modelled.
- Numbers are unbounded integers. A fractional `wrapLength` or `maxLineCount`, JavaScript's floating point `Number(d)` for huge entity codes, and `null`/`undefined` beyond the `Option`s are not modelled.
- CommentSyntax.NormalizeLanguage: alias lookup through the object prototype (`constructor`, `toString` and the like) is not modelled.
- TranslationCache.Cache.Set: the stored entry's version is an `Option`, where the source's entry type declares it always present.
- InlineView.LineDeltaCountsLines: holds only when no translated entry contains a newline. LineDeltaMissesWrappedLines shows the case where the source's shift is one line short.
- Configuration reading is not modelled: the settings are parameters.
- HtmlExtractor.ScanToBalancingClose: an opening of the tag is matched by comparing the tag name literally, ignoring case. The source compiles `<${tagName}[\s>]` into a regular expression, so a name holding `.`, `+`, `*`, `?`, `|` or similar matches other openings too. For example `<a.b class="x">1<axb>2</a.b>` never balances in the source. A name such as `a(` or `a[` makes the `RegExp` constructor throw. Regular-expression semantics are not modelled.
- HtmlExtractor.ExtractByClass: inherits the literal tag-name reading of the depth scan. For tag names holding regular-expression metacharacters, the model can return content where the source returns `undefined` or throws. For example, on `<a.b class="x">1<axb>2</a.b>` the model gives `12`.
