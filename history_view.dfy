/**
 * The page of the "show history" command: one block per remembered
 * translation, in the order the history lists them, or a paragraph saying
 * there is none. All text that comes from the user or the translator goes
 * through `escapeHtml`.
 *
 * The fixed text of the page is gathered in a `Template` value; the lemmas
 * hold for every template with the shape `Shaped` describes, and the page's
 * own template, `HistoryTemplate`, has it.
 */
module HistoryView {
  import opened Strings
  import opened Types
  import opened HtmlEscape

  /** The fixed text of the page, between the parts that vary. */
  datatype Template = Template(
    pageStart: string,    // the document up to the body, with the heading
    pageEnd: string,      // the closing tags of the document
    empty: string,        // the body when there is no entry
    openBefore: string,   // an entry's opening tag, before its number
    openAfter: string,    // and after it
    beforePair: string,
    afterPair: string,
    afterTime: string,
    afterSource: string,
    afterResult: string)

  /** The template of `buildHtml` and `buildEntryHtml`; the style sheet is not part of this model. */
  const HistoryTemplate: Template := Template(
    "<!DOCTYPE html>\n<html lang=\"en\">\n<head>\n<meta charset=\"UTF-8\">\n"
    + "<meta name=\"viewport\" content=\"width=device-width, initial-scale=1.0\">\n"
    + "<meta http-equiv=\"Content-Security-Policy\" content=\"default-src 'none'; style-src 'unsafe-inline';\">\n"
    + "<title>Translation History</title>\n<style>\n</style>\n</head>\n<body>\n<h1>Translation History</h1>\n",
    "\n</body>\n</html>",
    "<p class=\"empty\">No translations yet this session.</p>",
    "\n  <div class=\"entry\" id=\"entry-",
    "\">",
    "\n    <div class=\"entry-header\">\n      <span class=\"lang-pair\"><code>",
    "</code></span>\n      <span class=\"timestamp\">",
    "</span>\n    </div>\n    <div class=\"entry-body\">\n      <div class=\"col\">\n"
    + "        <div class=\"label\">Source</div>\n        <pre>",
    "</pre>\n      </div>\n      <div class=\"col\">\n        <div class=\"label\">Translation</div>\n        <pre>",
    "</pre>\n      </div>\n    </div>\n  </div>")

  /** The length of the fixed text of one entry block. */
  function FixedLength(t: Template): nat {
    |t.openBefore| + |t.openAfter| + |t.beforePair| + |t.afterPair| + |t.afterTime| + |t.afterSource| + |t.afterResult|
  }

  /** An entry block cannot be mistaken for the empty paragraph: its fixed text alone is longer. */
  predicate Shaped(t: Template) {
    |t.empty| < FixedLength(t)
  }

  lemma HistoryTemplateShaped()
    ensures Shaped(HistoryTemplate)
  {
  }

  /** `${entry.from} → ${entry.to}` */
  function LangPair(entry: HistoryEntry): string {
    entry.from + " \U{2192} " + entry.to
  }

  /** The opening tag of block `index`, which carries the id `entry-<index>`. */
  function EntryOpen(t: Template, index: nat): string {
    t.openBefore + NatToString(index) + t.openAfter
  }

  /** The rest of a block: the language pair, the time, the source and the translation, each escaped. */
  function EntryFields(t: Template, entry: HistoryEntry, time: string): string {
    t.beforePair + EscapeHtml(LangPair(entry)) + t.afterPair + EscapeHtml(time) + t.afterTime
    + EscapeHtml(entry.sourceText) + t.afterSource + EscapeHtml(Join(entry.translatedText, "\n")) + t.afterResult
  }

  /** `buildEntryHtml(entry, index)`; `time` is the entry's formatted timestamp. */
  function EntryHtml(t: Template, entry: HistoryEntry, index: nat, time: string): string {
    EntryOpen(t, index) + EntryFields(t, entry, time)
  }

  /**
   * The entry blocks, in list order, numbered from `first`; `times[i]` is
   * `formatTimestamp` of the i-th entry's timestamp.
   */
  function EntryBlocks(t: Template, entries: seq<HistoryEntry>, times: seq<string>, first: nat): (blocks: seq<string>)
    requires |times| == |entries|
    ensures |blocks| == |entries|
    decreases |entries|
  {
    if entries == [] then []
    else [EntryHtml(t, entries[0], first, times[0])] + EntryBlocks(t, entries[1..], times[1..], first + 1)
  }

  /** Block `i` renders entry `i` under the number `first + i`. */
  lemma {:induction false} EntryBlockAt(t: Template, entries: seq<HistoryEntry>, times: seq<string>, first: nat, i: nat)
    requires |times| == |entries| && i < |entries|
    ensures EntryBlocks(t, entries, times, first)[i] == EntryHtml(t, entries[i], first + i, times[i])
    decreases i
  {
    if i == 0 {
      EntryBlockFirst(t, entries, times, first);
    } else {
      var e, ts := entries[1..], times[1..];
      EntryBlockNext(t, entries, times, first, i);
      EntryBlockAt(t, e, ts, first + 1, i - 1);
      assert e[i - 1] == entries[i] && ts[i - 1] == times[i] && first + 1 + (i - 1) == first + i;
    }
  }

  /** The first block renders the first entry. */
  lemma EntryBlockFirst(t: Template, entries: seq<HistoryEntry>, times: seq<string>, first: nat)
    requires |times| == |entries| > 0
    ensures EntryBlocks(t, entries, times, first)[0] == EntryHtml(t, entries[0], first, times[0])
  {
  }

  /** Past the first, block `i` is block `i - 1` of the blocks of the remaining entries. */
  lemma EntryBlockNext(t: Template, entries: seq<HistoryEntry>, times: seq<string>, first: nat, i: nat)
    requires |times| == |entries| && 0 < i < |entries|
    ensures EntryBlocks(t, entries, times, first)[i] == EntryBlocks(t, entries[1..], times[1..], first + 1)[i - 1]
  {
  }

  /** The `body` of `buildHtml`. */
  function Body(t: Template, entries: seq<HistoryEntry>, times: seq<string>): string
    requires |times| == |entries|
  {
    if |entries| == 0 then t.empty else Join(EntryBlocks(t, entries, times, 0), "\n")
  }

  /** The whole document of `buildHtml`. */
  function Page(t: Template, entries: seq<HistoryEntry>, times: seq<string>): string
    requires |times| == |entries|
  {
    t.pageStart + Body(t, entries, times) + t.pageEnd
  }

  /** `buildHtml(entries)`. */
  function BuildHtml(entries: seq<HistoryEntry>, times: seq<string>): string
    requires |times| == |entries|
  {
    Page(HistoryTemplate, entries, times)
  }

  /** Where block `i` starts in the body. */
  function EntryPosition(t: Template, entries: seq<HistoryEntry>, times: seq<string>, i: nat): nat
    requires |times| == |entries| && i < |entries|
  {
    JoinOffset(EntryBlocks(t, entries, times, 0), "\n", i)
  }

  /** The "no translations" paragraph is the body exactly when there is no entry. */
  lemma EmptyParagraphIffNoEntries(t: Template, entries: seq<HistoryEntry>, times: seq<string>)
    requires Shaped(t) && |times| == |entries|
    ensures Body(t, entries, times) == t.empty <==> |entries| == 0
  {
    if |entries| > 0 {
      var blocks := EntryBlocks(t, entries, times, 0);
      var body := Body(t, entries, times);
      assert IsAt(body, blocks[0], 0) by { JoinIsAt(blocks, "\n", 0); }
      assert |blocks[0]| >= FixedLength(t) by { EntryBlockAt(t, entries, times, 0, 0); }
      assert |body| != |t.empty|;
    }
  }

  /** On the history page itself, the "No translations yet this session." paragraph shows exactly when the history is empty. */
  lemma HistoryEmptyIffNoEntries(entries: seq<HistoryEntry>, times: seq<string>)
    requires |times| == |entries|
    ensures Body(HistoryTemplate, entries, times) == HistoryTemplate.empty <==> |entries| == 0
  {
    HistoryTemplateShaped();
    EmptyParagraphIffNoEntries(HistoryTemplate, entries, times);
  }

  /** The opening tag of entry `i` stands at the start of its block in the body. */
  lemma EntryAt(t: Template, entries: seq<HistoryEntry>, times: seq<string>, i: nat)
    requires |times| == |entries| && i < |entries|
    ensures IsAt(Body(t, entries, times), EntryOpen(t, i), EntryPosition(t, entries, times, i))
  {
    var blocks := EntryBlocks(t, entries, times, 0);
    var body, at := Body(t, entries, times), EntryPosition(t, entries, times, i);
    var open, fields := EntryOpen(t, i), EntryFields(t, entries[i], times[i]);
    assert body == Join(blocks, "\n") && at == JoinOffset(blocks, "\n", i);
    assert IsAt(body, blocks[i], at) by {
      JoinIsAt(blocks, "\n", i);
    }
    assert blocks[i] == open + fields by {
      EntryBlockAt(t, entries, times, 0, i);
    }
    assert IsAt(blocks[i], open, 0) by {
      assert IsAt(open, open, 0);
      IsAtAppendLeft(open, fields, open, 0);
    }
    IsAtInside(body, blocks[i], open, at, 0);
  }

  /**
   * Every entry's block, opened by the tag with id `entry-<i>`, appears in the
   * body, and the blocks follow the list order without overlapping.
   */
  lemma EntriesInOrder(t: Template, entries: seq<HistoryEntry>, times: seq<string>, i: nat, j: nat)
    requires |times| == |entries| && i < j < |entries|
    ensures IsAt(Body(t, entries, times), EntryOpen(t, i), EntryPosition(t, entries, times, i))
    ensures IsAt(Body(t, entries, times), EntryOpen(t, j), EntryPosition(t, entries, times, j))
    ensures EntryPosition(t, entries, times, i) + |EntryBlocks(t, entries, times, 0)[i]|
              < EntryPosition(t, entries, times, j)
  {
    EntryAt(t, entries, times, i);
    EntryAt(t, entries, times, j);
    JoinOffsetOrdered(EntryBlocks(t, entries, times, 0), "\n", i, j);
  }

  /** Blocks of different entries carry different ids. */
  lemma EntryIdsDistinct(t: Template, i: nat, j: nat)
    requires i != j
    ensures EntryOpen(t, i) != EntryOpen(t, j)
  {
    var a, b := NatToString(i), NatToString(j);
    if EntryOpen(t, i) == EntryOpen(t, j) {
      var n := |t.openBefore|;
      assert |a| == |b|;
      assert EntryOpen(t, i)[n..n + |a|] == a;
      assert EntryOpen(t, j)[n..n + |b|] == b;
      NatToStringInjective(i, j);
    }
  }

  /** How many copies of a markup character one block holds: those of its template. */
  function EntryMarkup(t: Template, c: char): nat {
    Count(t.openBefore, c) + Count(t.openAfter, c) + Count(t.beforePair, c) + Count(t.afterPair, c)
    + Count(t.afterTime, c) + Count(t.afterSource, c) + Count(t.afterResult, c)
  }

  lemma DigitsHaveNoMarkup(n: nat, c: char)
    requires IsMarkup(c)
    ensures Count(NatToString(n), c) == 0
  {
    var d := NatToString(n);
    forall k | 0 <= k < |d| ensures d[k] != c { assert IsDigit(d[k]); }
    CountAbsent(d, c);
  }

  lemma EntryOpenMarkup(t: Template, index: nat, c: char)
    requires IsMarkup(c)
    ensures Count(EntryOpen(t, index), c) == Count(t.openBefore, c) + Count(t.openAfter, c)
  {
    DigitsHaveNoMarkup(index, c);
    CountAppend(t.openBefore + NatToString(index), t.openAfter, c);
    CountAppend(t.openBefore, NatToString(index), c);
  }

  lemma EntryFieldsMarkup(t: Template, entry: HistoryEntry, time: string, c: char)
    requires IsMarkup(c)
    ensures Count(EntryFields(t, entry, time), c)
      == Count(t.beforePair, c) + Count(t.afterPair, c) + Count(t.afterTime, c)
         + Count(t.afterSource, c) + Count(t.afterResult, c)
  {
    var pair, tm := EscapeHtml(LangPair(entry)), EscapeHtml(time);
    var src, res := EscapeHtml(entry.sourceText), EscapeHtml(Join(entry.translatedText, "\n"));
    EscapeCountMarkup(LangPair(entry), c);
    EscapeCountMarkup(time, c);
    EscapeCountMarkup(entry.sourceText, c);
    EscapeCountMarkup(Join(entry.translatedText, "\n"), c);
    var s1 := t.beforePair + pair;
    CountAppend(t.beforePair, pair, c);
    var s2 := s1 + t.afterPair;
    CountAppend(s1, t.afterPair, c);
    var s3 := s2 + tm;
    CountAppend(s2, tm, c);
    var s4 := s3 + t.afterTime;
    CountAppend(s3, t.afterTime, c);
    var s5 := s4 + src;
    CountAppend(s4, src, c);
    var s6 := s5 + t.afterSource;
    CountAppend(s5, t.afterSource, c);
    var s7 := s6 + res;
    CountAppend(s6, res, c);
    CountAppend(s7, t.afterResult, c);
  }

  /**
   * The user's text adds no tag and no attribute quote: every block holds
   * exactly the markup characters of its template, whatever the entry says.
   */
  lemma EntryMarkupFixed(t: Template, entry: HistoryEntry, index: nat, time: string, c: char)
    requires IsMarkup(c)
    ensures Count(EntryHtml(t, entry, index, time), c) == EntryMarkup(t, c)
  {
    EntryOpenMarkup(t, index, c);
    EntryFieldsMarkup(t, entry, time, c);
    CountAppend(EntryOpen(t, index), EntryFields(t, entry, time), c);
  }

  lemma BlocksMarkup(t: Template, entries: seq<HistoryEntry>, times: seq<string>, c: char, blocks: seq<string>)
    requires IsMarkup(c) && |times| == |entries| && blocks == EntryBlocks(t, entries, times, 0)
    ensures forall i :: 0 <= i < |blocks| ==> Count(blocks[i], c) == EntryMarkup(t, c)
  {
    forall i | 0 <= i < |blocks| ensures Count(blocks[i], c) == EntryMarkup(t, c) {
      EntryBlockAt(t, entries, times, 0, i);
      EntryMarkupFixed(t, entries[i], i, times[i], c);
    }
  }

  lemma BodyMarkup(t: Template, entries: seq<HistoryEntry>, times: seq<string>, c: char)
    requires IsMarkup(c) && |times| == |entries| && |entries| > 0
    ensures Count(Body(t, entries, times), c) == |entries| * EntryMarkup(t, c)
  {
    var blocks := EntryBlocks(t, entries, times, 0);
    BlocksMarkup(t, entries, times, c, blocks);
    assert '\n' != c;
    JoinCountUniform(blocks, "\n", c, EntryMarkup(t, c));
  }

  /** The page's markup depends only on the number of entries. */
  lemma PageMarkup(t: Template, entries: seq<HistoryEntry>, times: seq<string>, c: char)
    requires IsMarkup(c) && |times| == |entries|
    ensures Count(Page(t, entries, times), c)
      == Count(t.pageStart, c) + Count(t.pageEnd, c)
         + (if |entries| == 0 then Count(t.empty, c) else |entries| * EntryMarkup(t, c))
  {
    var body := Body(t, entries, times);
    if |entries| > 0 {
      BodyMarkup(t, entries, times, c);
    }
    CountAppend(t.pageStart + body, t.pageEnd, c);
    CountAppend(t.pageStart, body, c);
  }
}
