/**
 * The second backend: Google's mobile page. The page is fetched (not part of
 * the model: its text, or the failure of the request, is a parameter), the
 * translation is cut out of it, its HTML entities decoded, and the result
 * optionally wrapped to a line length. An empty result, or a failed request,
 * falls back to the first backend.
 */
module TranslateV2 {
  import opened Wrappers
  import opened Strings
  import opened Types
  import TranslateV1

  // ---------------------------------------------------------------------------
  // Cutting the translation out of the page
  // ---------------------------------------------------------------------------

  const ResultMarker: string := "class=\"result-container\">"

  /**
   * The text after the first `marker` up to the next `<`; empty when there is
   * no marker or no `<` after it.
   */
  function TextAfter(page: string, marker: string): string {
    var m := Find(page, marker, 0);
    if m < 0 then ""
    else
      var start := m + |marker|;
      var lt := Find(page, "<", start);
      if lt < 0 then "" else page[start..lt]
  }

  /** `RESULT_CONTAINER_PATTERN`: the text between the result container's opening tag and the next tag. */
  function ExtractResultContainer(page: string): string {
    TextAfter(page, ResultMarker)
  }

  /** An occurrence found in a prefix is found, at the same place, in any extension of it. */
  lemma {:induction false} FindExtend(s: string, t: string, pat: string, from: nat)
    requires Find(s, pat, from) >= 0
    ensures Find(s + t, pat, from) == Find(s, pat, from)
    decreases |s| - from
  {
    assert forall k: nat :: k + |pat| <= |s| ==> (IsAt(s, pat, k) <==> IsAt(s + t, pat, k));
    if !IsAt(s, pat, from) {
      FindExtend(s, t, pat, from + 1);
    }
  }

  /** The first `c` at or after `from` is at `at` when `at` holds one and nothing between does. */
  lemma {:induction false} FindCharAt(s: string, c: char, from: nat, at: nat)
    requires from <= at < |s| && s[at] == c
    requires forall k :: from <= k < at ==> s[k] != c
    ensures Find(s, [c], from) == at
    decreases at - from
  {
    IsAtChar(s, c, from);
    if from < at {
      FindCharAt(s, c, from + 1, at);
    }
  }

  /** In `page = pre + m + raw + "<" + post`, with `m` first found after `pre` and no `<` in `raw`, `raw` sits between `m` and the first `<` after it. */
  lemma CutAfterMarker(pre: string, m: string, raw: string, post: string, page: string)
    requires page == pre + m + raw + "<" + post
    requires Find(pre + m, m, 0) == |pre|
    requires '<' !in raw
    ensures Find(page, m, 0) == |pre|
    ensures Find(page, "<", |pre| + |m|) == |pre| + |m| + |raw|
    ensures page[|pre| + |m|..|pre| + |m| + |raw|] == raw
  {
    var head := pre + m;
    var tail := raw + "<" + post;
    RegroupTail(pre, m, raw, "<", post);
    FindExtend(head, tail, m, 0);
    FirstLtAfter(head, raw, post, page);
  }

  /** Concatenation regrouped so that the first two pieces and the last three form the halves. */
  lemma RegroupTail<T>(a: seq<T>, b: seq<T>, c: seq<T>, d: seq<T>, e: seq<T>)
    ensures a + b + c + d + e == (a + b) + (c + d + e)
  {
  }

  /** After `head`, the first `<` of `head + raw + "<" + post` is the one right after `raw`. */
  lemma FirstLtAfter(head: string, raw: string, post: string, page: string)
    requires '<' !in raw && page == head + (raw + "<" + post)
    ensures Find(page, "<", |head|) == |head| + |raw|
    ensures page[|head|..|head| + |raw|] == raw
  {
    assert page[|head| + |raw|] == '<';
    assert forall k :: |head| <= k < |head| + |raw| ==> page[k] == raw[k - |head|];
    FindCharAt(page, '<', |head|, |head| + |raw|);
  }

  /**
   * A page whose first marker is followed by `raw` and then `<` yields `raw`:
   * the extraction takes exactly the text between the marker and the tag.
   */
  lemma ExtractResultContainerOf(pre: string, raw: string, post: string)
    requires Find(pre + ResultMarker, ResultMarker, 0) == |pre|
    requires '<' !in raw
    ensures ExtractResultContainer(pre + ResultMarker + raw + "<" + post) == raw
  {
    TextAfterOf(pre, ResultMarker, raw, post, pre + ResultMarker + raw + "<" + post);
  }

  /** Cutting after any marker `m` that is first found after `pre` yields the tag-free `raw` that follows it. */
  lemma TextAfterOf(pre: string, m: string, raw: string, post: string, page: string)
    requires page == pre + m + raw + "<" + post
    requires Find(pre + m, m, 0) == |pre|
    requires '<' !in raw
    ensures TextAfter(page, m) == raw
  {
    CutAfterMarker(pre, m, raw, post, page);
    TextAfterIs(page, m, |pre| + |m|, |pre| + |m| + |raw|);
  }

  /** When the marker is found and a `<` follows it, the cut is the text between them. */
  lemma TextAfterIs(page: string, m: string, start: nat, lt: nat)
    requires Find(page, m, 0) >= 0 && start == Find(page, m, 0) + |m|
    requires Find(page, "<", start) == lt
    ensures start <= lt <= |page| && TextAfter(page, m) == page[start..lt]
  {
  }

  /** The extracted text never holds a `<`. */
  lemma ExtractHasNoTag(page: string)
    ensures '<' !in ExtractResultContainer(page)
  {
    var m := Find(page, ResultMarker, 0);
    if m >= 0 {
      var start := m + |ResultMarker|;
      var lt := Find(page, "<", start);
      if lt >= 0 {
        FindIsFirst(page, "<", start);
        forall k | start <= k < lt ensures page[k] != '<' {
          IsAtChar(page, '<', k);
        }
      }
    }
  }

  /** A page without the marker yields nothing, so the first backend answers instead. */
  lemma ExtractWithoutMarker(page: string)
    requires forall k: nat :: !IsAt(page, ResultMarker, k)
    ensures ExtractResultContainer(page) == ""
  {
    if Find(page, ResultMarker, 0) >= 0 {
      FindFound(page, ResultMarker, 0);
    }
  }

  // ---------------------------------------------------------------------------
  // Decoding HTML entities
  // ---------------------------------------------------------------------------

  /** `.replace(/&#39;|&apos;/g, "'")`: both spellings of the apostrophe, in one left-to-right pass. */
  function ReplaceApos(s: string): string
    decreases |s|
  {
    if s == [] then []
    else if IsAt(s, "&#39;", 0) then "'" + ReplaceApos(s[5..])
    else if IsAt(s, "&apos;", 0) then "'" + ReplaceApos(s[6..])
    else [s[0]] + ReplaceApos(s[1..])
  }

  predicate IsHexDigit(c: char) {
    IsDigit(c) || ('a' <= c <= 'f') || ('A' <= c <= 'F')
  }

  function HexDigitValue(c: char): (v: nat)
    requires IsHexDigit(c)
    ensures v < 16
  {
    if IsDigit(c) then c as int - '0' as int
    else if 'a' <= c <= 'f' then c as int - 'a' as int + 10
    else c as int - 'A' as int + 10
  }

  /** `parseInt(h, 16)` of a string of hexadecimal digits. */
  function HexValue(s: string): nat
    requires forall i :: 0 <= i < |s| ==> IsHexDigit(s[i])
  {
    if s == [] then 0
    else
      assert IsHexDigit(s[|s| - 1]);
      HexValue(s[..|s| - 1]) * 16 + HexDigitValue(s[|s| - 1])
  }

  /** The length of the run of decimal digits that starts at `i` (greedy `\d+`). */
  function DigitRun(s: string, i: nat): (n: nat)
    requires i <= |s|
    ensures i + n <= |s|
    decreases |s| - i
  {
    if i < |s| && IsDigit(s[i]) then 1 + DigitRun(s, i + 1) else 0
  }

  lemma {:induction false} DigitRunShape(s: string, i: nat)
    requires i <= |s|
    ensures forall k :: i <= k < i + DigitRun(s, i) ==> IsDigit(s[k])
    decreases |s| - i
  {
    if i < |s| && IsDigit(s[i]) {
      DigitRunShape(s, i + 1);
    }
  }

  /** A run of exactly `n` digits, then a non-digit (or the end). */
  lemma {:induction false} DigitRunExact(s: string, i: nat, n: nat)
    requires i + n <= |s|
    requires forall k :: i <= k < i + n ==> IsDigit(s[k])
    requires i + n == |s| || !IsDigit(s[i + n])
    ensures DigitRun(s, i) == n
    decreases n
  {
    if n > 0 {
      DigitRunExact(s, i + 1, n - 1);
    }
  }

  /** The length of the run of hexadecimal digits that starts at `i` (greedy `[0-9a-fA-F]+`). */
  function HexRun(s: string, i: nat): (n: nat)
    requires i <= |s|
    ensures i + n <= |s|
    decreases |s| - i
  {
    if i < |s| && IsHexDigit(s[i]) then 1 + HexRun(s, i + 1) else 0
  }

  lemma {:induction false} HexRunShape(s: string, i: nat)
    requires i <= |s|
    ensures forall k :: i <= k < i + HexRun(s, i) ==> IsHexDigit(s[k])
    decreases |s| - i
  {
    if i < |s| && IsHexDigit(s[i]) {
      HexRunShape(s, i + 1);
    }
  }

  /** A run of exactly `n` hexadecimal digits, then another character (or the end). */
  lemma {:induction false} HexRunExact(s: string, i: nat, n: nat)
    requires i + n <= |s|
    requires forall k :: i <= k < i + n ==> IsHexDigit(s[k])
    requires i + n == |s| || !IsHexDigit(s[i + n])
    ensures HexRun(s, i) == n
    decreases n
  {
    if n > 0 {
      HexRunExact(s, i + 1, n - 1);
    }
  }

  /**
   * `String.fromCharCode(code)` for a 16-bit code. A code in the surrogate
   * range is no character on its own here; the entity is then left as it was.
   */
  function CodeUnitText(code: nat, entity: string): (r: string)
    requires code < 0x1_0000
    ensures code < 0xD800 || 0xE000 <= code ==> r == [code as char]
  {
    if code < 0xD800 || 0xE000 <= code then [code as char] else entity
  }

  /** `.replace(/&#(\d+);/g, …)`: each `&#digits;` becomes the character with that code, modulo 2^16. */
  function DecodeDecimal(s: string): string
    decreases |s|
  {
    if s == [] then []
    else if IsAt(s, "&#", 0) then
      var n := DigitRun(s, 2);
      if n >= 1 && 2 + n < |s| && s[2 + n] == ';' then
        DigitRunShape(s, 2);
        CodeUnitText(DecimalValue(s[2..2 + n]) % 0x1_0000, s[..3 + n]) + DecodeDecimal(s[3 + n..])
      else [s[0]] + DecodeDecimal(s[1..])
    else [s[0]] + DecodeDecimal(s[1..])
  }

  /** `.replace(/&#x([0-9a-fA-F]+);/g, …)`: each `&#xhex;` becomes the character with that code, modulo 2^16. */
  function DecodeHex(s: string): string
    decreases |s|
  {
    if s == [] then []
    else if IsAt(s, "&#x", 0) then
      var n := HexRun(s, 3);
      if n >= 1 && 3 + n < |s| && s[3 + n] == ';' then
        HexRunShape(s, 3);
        CodeUnitText(HexValue(s[3..3 + n]) % 0x1_0000, s[..4 + n]) + DecodeHex(s[4 + n..])
      else [s[0]] + DecodeHex(s[1..])
    else [s[0]] + DecodeHex(s[1..])
  }

  /** The first four replacements of `unescapeHtml`, `&amp;` first. */
  function NamedEntities(s: string): string {
    var amp := ReplaceAll(s, "&amp;", "&");
    var lt := ReplaceAll(amp, "&lt;", "<");
    var gt := ReplaceAll(lt, "&gt;", ">");
    ReplaceAll(gt, "&quot;", "\"")
  }

  /** `unescapeHtml`: the seven replacements, in the order the source applies them. */
  function UnescapeHtml(s: string): string {
    DecodeHex(DecodeDecimal(ReplaceApos(NamedEntities(s))))
  }

  lemma {:induction false} ReplaceAposAbsent(s: string)
    requires '&' !in s
    ensures ReplaceApos(s) == s
  {
    if s != [] {
      assert s[0] != "&#39;"[0] && s[0] != "&apos;"[0];
      ReplaceAposAbsent(s[1..]);
    }
  }

  lemma {:induction false} DecodeDecimalAbsent(s: string)
    requires '&' !in s
    ensures DecodeDecimal(s) == s
  {
    if s != [] {
      assert s[0] != "&#"[0];
      DecodeDecimalAbsent(s[1..]);
    }
  }

  lemma {:induction false} DecodeHexAbsent(s: string)
    requires '&' !in s
    ensures DecodeHex(s) == s
  {
    if s != [] {
      assert s[0] != "&#x"[0];
      DecodeHexAbsent(s[1..]);
    }
  }

  /** Text without `&` holds no entity and comes back unchanged. */
  lemma UnescapeWithoutAmpersand(s: string)
    requires '&' !in s
    ensures UnescapeHtml(s) == s
  {
    ReplaceAllAbsent(s, "&amp;", "&");
    ReplaceAllAbsent(s, "&lt;", "<");
    ReplaceAllAbsent(s, "&gt;", ">");
    ReplaceAllAbsent(s, "&quot;", "\"");
    ReplaceAposAbsent(s);
    DecodeDecimalAbsent(s);
    DecodeHexAbsent(s);
  }

  /**
   * Because `&amp;` is decoded first, an escaped entity is decoded twice:
   * `&amp;lt;` comes out as `<`, not as `&lt;`.
   */
  lemma DoubleUnescape()
    ensures UnescapeHtml("&amp;lt;") == "<"
  {
    var s := "&amp;lt;";
    assert ReplaceAll(s, "&amp;", "&") == "&lt;" by {
      assert s[..5] == "&amp;" && s[5..] == "lt;";
      ReplaceAllAbsent("lt;", "&amp;", "&");
    }
    assert ReplaceAll("&lt;", "&lt;", "<") == "<" by {
      assert "&lt;"[..4] == "&lt;" && "&lt;"[4..] == [];
    }
    ReplaceAllAbsent("<", "&gt;", ">");
    ReplaceAllAbsent("<", "&quot;", "\"");
    ReplaceAposAbsent("<");
    DecodeDecimalAbsent("<");
    DecodeHexAbsent("<");
  }

  /** A single-character text is left alone by the numeric decoders. */
  lemma DecodeOneChar(c: char)
    ensures DecodeDecimal([c]) == [c] && DecodeHex([c]) == [c]
  {
    assert [c][1..] == [];
  }

  /** The decimal decoder turns `&#d;` at the front into its character and goes on after the `;`. */
  lemma DecimalEntityStep(d: string, rest: string, s: string)
    requires |d| >= 1 && forall i :: 0 <= i < |d| ==> IsDigit(d[i])
    requires DecimalValue(d) % 0x1_0000 < 0xD800 || 0xE000 <= DecimalValue(d) % 0x1_0000
    requires s == "&#" + d + ";" + rest
    ensures DecodeDecimal(s) == [(DecimalValue(d) % 0x1_0000) as char] + DecodeDecimal(rest)
  {
    var n := |d|;
    assert IsAt(s, "&#", 0) && s[2..2 + n] == d && s[3 + n..] == rest && s[2 + n] == ';';
    assert DigitRun(s, 2) == n by {
      assert forall k :: 2 <= k < 2 + n ==> IsDigit(s[k]) by {
        forall k | 2 <= k < 2 + n ensures IsDigit(s[k]) {
          assert s[k] == d[k - 2];
        }
      }
      DigitRunExact(s, 2, n);
    }
    DecimalStepAt(s, n, d, rest);
  }

  /** One decimal step, from what the scan sees at the front of `s`. */
  lemma DecimalStepAt(s: string, n: nat, d: string, rest: string)
    requires IsAt(s, "&#", 0) && DigitRun(s, 2) == n && n >= 1 && 2 + n < |s| && s[2 + n] == ';'
    requires s[2..2 + n] == d && s[3 + n..] == rest
    requires forall i :: 0 <= i < |d| ==> IsDigit(d[i])
    requires DecimalValue(d) % 0x1_0000 < 0xD800 || 0xE000 <= DecimalValue(d) % 0x1_0000
    ensures DecodeDecimal(s) == [(DecimalValue(d) % 0x1_0000) as char] + DecodeDecimal(rest)
  {
  }

  /** The hexadecimal decoder turns `&#xh;` at the front into its character and goes on after the `;`. */
  lemma HexEntityStep(h: string, rest: string, s: string)
    requires |h| >= 1 && forall i :: 0 <= i < |h| ==> IsHexDigit(h[i])
    requires HexValue(h) % 0x1_0000 < 0xD800 || 0xE000 <= HexValue(h) % 0x1_0000
    requires s == "&#x" + h + ";" + rest
    ensures DecodeHex(s) == [(HexValue(h) % 0x1_0000) as char] + DecodeHex(rest)
  {
    var n := |h|;
    assert IsAt(s, "&#x", 0) && s[3..3 + n] == h && s[4 + n..] == rest && s[3 + n] == ';';
    assert HexRun(s, 3) == n by {
      assert forall k :: 3 <= k < 3 + n ==> IsHexDigit(s[k]) by {
        forall k | 3 <= k < 3 + n ensures IsHexDigit(s[k]) {
          assert s[k] == h[k - 3];
        }
      }
      HexRunExact(s, 3, n);
    }
    HexStepAt(s, n, h, rest);
  }

  /** One hexadecimal step, from what the scan sees at the front of `s`. */
  lemma HexStepAt(s: string, n: nat, h: string, rest: string)
    requires IsAt(s, "&#x", 0) && HexRun(s, 3) == n && n >= 1 && 3 + n < |s| && s[3 + n] == ';'
    requires s[3..3 + n] == h && s[4 + n..] == rest
    requires forall i :: 0 <= i < |h| ==> IsHexDigit(h[i])
    requires HexValue(h) % 0x1_0000 < 0xD800 || 0xE000 <= HexValue(h) % 0x1_0000
    ensures DecodeHex(s) == [(HexValue(h) % 0x1_0000) as char] + DecodeHex(rest)
  {
  }

  /** A text that starts with `&`, has no other `&`, and differs from `pat` in its second character, is left as it is. */
  lemma LeadingAmpersandOnly(s: string, pat: string, rep: string)
    requires |pat| >= 2 && pat[0] == '&' && |s| >= 2 && s[0] == '&' && s[1] != pat[1] && '&' !in s[1..]
    ensures ReplaceAll(s, pat, rep) == s
  {
    if |s| >= |pat| {
      assert s[..|pat|][1] != pat[1];
      ReplaceAllAbsent(s[1..], pat, rep);
    }
  }

  /** A numeric entity standing alone is not touched by the named-entity replacements. */
  lemma NamedEntitiesKeepNumeric(s: string)
    requires |s| >= 2 && s[0] == '&' && s[1] == '#' && '&' !in s[1..]
    ensures NamedEntities(s) == s
  {
    LeadingAmpersandOnly(s, "&amp;", "&");
    LeadingAmpersandOnly(s, "&lt;", "<");
    LeadingAmpersandOnly(s, "&gt;", ">");
    LeadingAmpersandOnly(s, "&quot;", "\"");
  }

  /** Nor by the apostrophe replacement, unless it is `&#39;` itself. */
  lemma AposKeepsNumeric(s: string)
    requires |s| >= 2 && s[0] == '&' && s[1] == '#' && '&' !in s[1..]
    requires !IsAt(s, "&#39;", 0)
    ensures ReplaceApos(s) == s
  {
    assert s[1] != "&apos;"[1];
    ReplaceAposAbsent(s[1..]);
  }

  /** The only decimal entity the apostrophe replacement matches is `&#39;`. */
  lemma AposOnlyFor39(d: string)
    requires |d| >= 1 && forall i :: 0 <= i < |d| ==> IsDigit(d[i])
    requires IsAt("&#" + d + ";", "&#39;", 0)
    ensures d == "39"
  {
    var s := "&#" + d + ";";
    assert s[2] == "&#39;"[2] && s[3] == "&#39;"[3] && s[4] == "&#39;"[4];
    DigitRunExact(s, 2, |d|);
    DigitRunExact(s, 2, 2);
    assert d[0] == s[2] && d[1] == s[3];
  }

  /** A lone decimal entity has its only `&` in front. */
  lemma DecimalEntityShape(d: string, s: string)
    requires forall i :: 0 <= i < |d| ==> IsDigit(d[i])
    requires s == "&#" + d + ";"
    ensures |s| >= 3 && s[0] == '&' && s[1] == '#' && '&' !in s[1..]
  {
    assert !IsDigit('&');
    assert '&' !in d + ";";
    assert s[1..] == "#" + (d + ";");
  }

  /** The numeric decoders turn a lone decimal entity into its character. */
  lemma DecimalEntityDecoded(d: string, s: string, c: char)
    requires |d| >= 1 && forall i :: 0 <= i < |d| ==> IsDigit(d[i])
    requires s == "&#" + d + ";" && c as int == DecimalValue(d) % 0x1_0000
    ensures |s| >= 3 && s[0] == '&' && s[1] == '#' && '&' !in s[1..]
    ensures DecodeHex(DecodeDecimal(s)) == [c]
  {
    DecimalEntityShape(d, s);
    assert s + "" == s;
    DecimalEntityStep(d, "", s);
    DecodeOneChar(c);
  }

  /** `&#39;` is caught by the apostrophe replacement first, with the same outcome. */
  lemma UnescapeApostropheEntity(d: string, s: string, c: char)
    requires d == "39" && s == "&#" + d + ";"
    requires c as int == DecimalValue(d) % 0x1_0000
    ensures UnescapeHtml(s) == [c]
  {
    assert DecimalValue(d) == 39 by {
      assert d[..1] == "3" && "3"[..0] == [];
    }
    assert c == '\'';
    assert s == "&#39;";
    NamedEntitiesKeepNumeric(s);
    ApostropheReplaced(s);
    DecodeOneChar('\'');
  }

  lemma ApostropheReplaced(s: string)
    requires s == "&#39;"
    ensures ReplaceApos(s) == "'"
  {
    assert IsAt(s, "&#39;", 0) && s[5..] == [];
  }

  /** The whole decoder turns a decimal entity into its character. */
  lemma UnescapeDecimalEntity(d: string)
    requires |d| >= 1 && forall i :: 0 <= i < |d| ==> IsDigit(d[i])
    requires DecimalValue(d) % 0x1_0000 < 0xD800 || 0xE000 <= DecimalValue(d) % 0x1_0000
    ensures UnescapeHtml("&#" + d + ";") == [(DecimalValue(d) % 0x1_0000) as char]
  {
    var s := "&#" + d + ";";
    var c := (DecimalValue(d) % 0x1_0000) as char;
    DecimalEntityDecoded(d, s, c);
    if IsAt(s, "&#39;", 0) {
      AposOnlyFor39(d);
      UnescapeApostropheEntity(d, s, c);
    } else {
      UnescapeNumeric(s, [c]);
    }
  }

  /** A numeric entity that is not `&#39;` passes the first five replacements unchanged. */
  lemma UnescapeNumeric(s: string, r: string)
    requires |s| >= 2 && s[0] == '&' && s[1] == '#' && '&' !in s[1..] && !IsAt(s, "&#39;", 0)
    requires DecodeHex(DecodeDecimal(s)) == r
    ensures UnescapeHtml(s) == r
  {
    NamedEntitiesKeepNumeric(s);
    AposKeepsNumeric(s);
  }

  /** A lone hexadecimal entity has its only `&` in front. */
  lemma HexEntityShape(h: string, s: string)
    requires forall i :: 0 <= i < |h| ==> IsHexDigit(h[i])
    requires s == "&#x" + h + ";"
    ensures |s| >= 3 && s[0] == '&' && s[1] == '#' && s[2] == 'x' && '&' !in s[1..]
    ensures !IsAt(s, "&#39;", 0)
  {
    assert s[2] != "&#39;"[2];
    assert !IsHexDigit('&');
    assert '&' !in h + ";";
    assert s[1..] == "#x" + (h + ";");
  }

  /** The decimal decoder leaves a hexadecimal entity alone. */
  lemma DecimalSkipsHex(s: string)
    requires |s| >= 3 && s[0] == '&' && s[1] == '#' && s[2] == 'x' && '&' !in s[1..]
    ensures DecodeDecimal(s) == s
  {
    DecodeDecimalNoEntity(s);
    DecodeDecimalAbsent(s[1..]);
    assert s == [s[0]] + s[1..];
  }

  /** `&#` not followed by a digit is copied as it is. */
  lemma DecodeDecimalNoEntity(s: string)
    requires |s| >= 3 && s[0] == '&' && s[1] == '#' && s[2] == 'x'
    ensures DecodeDecimal(s) == [s[0]] + DecodeDecimal(s[1..])
  {
    assert IsAt(s, "&#", 0) && DigitRun(s, 2) == 0;
  }

  /** The numeric decoders turn a lone hexadecimal entity into its character. */
  lemma HexEntityDecoded(h: string, s: string, c: char)
    requires |h| >= 1 && forall i :: 0 <= i < |h| ==> IsHexDigit(h[i])
    requires s == "&#x" + h + ";" && c as int == HexValue(h) % 0x1_0000
    ensures |s| >= 3 && s[0] == '&' && s[1] == '#' && s[2] == 'x' && '&' !in s[1..]
    ensures DecodeHex(DecodeDecimal(s)) == [c]
  {
    HexEntityShape(h, s);
    DecimalSkipsHex(s);
    assert DecodeHex(s) == [c] by {
      assert s + "" == s;
      HexEntityStep(h, "", s);
    }
  }

  /** The whole decoder turns a hexadecimal entity into its character. */
  lemma UnescapeHexEntity(h: string)
    requires |h| >= 1 && forall i :: 0 <= i < |h| ==> IsHexDigit(h[i])
    requires HexValue(h) % 0x1_0000 < 0xD800 || 0xE000 <= HexValue(h) % 0x1_0000
    ensures UnescapeHtml("&#x" + h + ";") == [(HexValue(h) % 0x1_0000) as char]
  {
    var s := "&#x" + h + ";";
    var c := (HexValue(h) % 0x1_0000) as char;
    HexEntityDecoded(h, s, c);
    HexEntityShape(h, s);
    UnescapeNumeric(s, [c]);
  }

  // ---------------------------------------------------------------------------
  // Wrapping
  // ---------------------------------------------------------------------------

  /** `s.lastIndexOf(' ', i)`: the last space at or before index `i`, or -1. */
  function LastSpaceAtOrBefore(s: string, i: int): (r: int)
    requires i < |s|
    ensures -1 <= r <= (if i < 0 then -1 else i)
    ensures r >= 0 ==> s[r] == ' '
    decreases if i < 0 then 0 else i + 1
  {
    if i < 0 then -1 else if s[i] == ' ' then i else LastSpaceAtOrBefore(s, i - 1)
  }

  /** Where a line longer than `width` is broken: the last space at or before `width`, else `width`. */
  function BreakAt(s: string, width: nat): (b: nat)
    requires 1 <= width < |s|
    ensures 1 <= b <= width
  {
    var b := LastSpaceAtOrBefore(s, width);
    if b <= 0 then width else b
  }

  /** The lines the wrapping loop pushes for the trimmed text `remaining`. */
  function WrapFrom(remaining: string, width: nat): seq<string>
    requires width >= 1
    decreases |remaining|
  {
    if remaining == [] then []
    else if |remaining| <= width then [remaining]
    else
      var b := BreakAt(remaining, width);
      [Trim(remaining[..b])] + WrapFrom(Trim(remaining[b..]), width)
  }

  /** What `wrapText(text, width)` returns. */
  function Wrapped(text: string, width: int): string {
    if width <= 0 then text else Join(WrapFrom(Trim(text), width), "\n")
  }

  /** One turn of the wrapping loop keeps the lines pushed so far plus those still to come. */
  lemma WrapOneLine(lines: seq<string>, remaining: string, width: nat, breakAt: nat)
    requires 1 <= width < |remaining| && breakAt == BreakAt(remaining, width)
    ensures lines + [Trim(remaining[..breakAt])] + WrapFrom(Trim(remaining[breakAt..]), width) == lines + WrapFrom(remaining, width)
  {
    var line := Trim(remaining[..breakAt]);
    var rest := WrapFrom(Trim(remaining[breakAt..]), width);
    assert WrapFrom(remaining, width) == [line] + rest;
    AppendAssoc(lines, [line], rest);
  }

  /** Concatenation is associative. */
  lemma AppendAssoc<T>(a: seq<T>, b: seq<T>, c: seq<T>)
    ensures a + b + c == a + (b + c)
  {
  }

  /** `wrapText`: the source's loop, pushing one line per turn. */
  method WrapText(text: string, width: int) returns (r: string)
    ensures r == Wrapped(text, width)
    ensures width <= 0 ==> r == text
  {
    if width <= 0 {
      return text;
    }
    var lines: seq<string> := [];
    var remaining := Trim(text);
    while |remaining| > 0
      invariant lines + WrapFrom(remaining, width) == WrapFrom(Trim(text), width)
      decreases |remaining|
    {
      if |remaining| <= width {
        lines := lines + [remaining];
        assert lines == WrapFrom(Trim(text), width);
        break;
      }
      var breakAt := LastSpaceAtOrBefore(remaining, width);
      if breakAt <= 0 {
        breakAt := width;
      }
      assert breakAt == BreakAt(remaining, width);
      var line := Trim(remaining[..breakAt]);
      var rest := Trim(remaining[breakAt..]);
      WrapOneLine(lines, remaining, width, breakAt);
      lines := lines + [line];
      remaining := rest;
    }
    assert lines == WrapFrom(Trim(text), width);
    return Join(lines, "\n");
  }

  /** Every wrapped line is non-empty, at most `width` long, and has no whitespace at either end. */
  lemma {:induction false} WrapLinesShape(remaining: string, width: nat)
    requires width >= 1 && Unpadded(remaining)
    ensures forall i :: 0 <= i < |WrapFrom(remaining, width)| ==>
      0 < |WrapFrom(remaining, width)[i]| <= width && Unpadded(WrapFrom(remaining, width)[i])
    decreases |remaining|
  {
    if |remaining| > width {
      var b := BreakAt(remaining, width);
      var line := Trim(remaining[..b]);
      var a := TrimShape(remaining[..b]);
      assert line != [] by {
        assert !IsWhitespace(remaining[..b][0]);
      }
      var a2 := TrimShape(remaining[b..]);
      WrapLinesShape(Trim(remaining[b..]), width);
    }
  }

  /** Wrapping only moves whitespace: the other characters are kept, in order. */
  lemma {:induction false} WrapKeepsText(remaining: string, width: nat)
    requires width >= 1
    ensures Strip(Join(WrapFrom(remaining, width), "\n"), {}) == Strip(remaining, {})
    decreases |remaining|
  {
    if |remaining| > width {
      var b := BreakAt(remaining, width);
      WrapKeepsText(Trim(remaining[b..]), width);
      WrapKeepsTextStep(remaining, width, b);
    }
  }

  /** One broken line: its text and the text of the lines after it make up the text before the break and after it. */
  lemma WrapKeepsTextStep(remaining: string, width: nat, b: nat)
    requires 1 <= width < |remaining| && b == BreakAt(remaining, width)
    requires Strip(Join(WrapFrom(Trim(remaining[b..]), width), "\n"), {}) == Strip(Trim(remaining[b..]), {})
    ensures Strip(Join(WrapFrom(remaining, width), "\n"), {}) == Strip(remaining, {})
  {
    var line := Trim(remaining[..b]);
    var tailLines := WrapFrom(Trim(remaining[b..]), width);
    assert WrapFrom(remaining, width) == [line] + tailLines;
    StripJoinCons(line, tailLines);
    StripAroundBreak(remaining, b);
  }

  /** Cutting at `b` and trimming both halves keeps the non-whitespace text. */
  lemma StripAroundBreak(s: string, b: nat)
    requires b <= |s|
    ensures Strip(s, {}) == Strip(Trim(s[..b]), {}) + Strip(Trim(s[b..]), {})
  {
    var front, back := s[..b], s[b..];
    assert s == front + back;
    StripAppend(front, back, {});
    StripTrim(front, {});
    StripTrim(back, {});
  }

  /** The line breaks of a join carry no text. */
  lemma StripJoinCons(line: string, tailLines: seq<string>)
    ensures Strip(Join([line] + tailLines, "\n"), {}) == Strip(line, {}) + Strip(Join(tailLines, "\n"), {})
  {
    if tailLines == [] {
      assert [line] + tailLines == [line];
      assert Join([line], "\n") == line;
      assert Join(tailLines, "\n") == [];
    } else {
      JoinCons(line, tailLines, "\n");
      var j := Join(tailLines, "\n");
      StripAppend(line + "\n", j, {});
      StripAppend(line, "\n", {});
      assert Strip("\n", {}) == [];
    }
  }

  /** `wrapText` keeps every non-whitespace character of the text, in order. */
  lemma WrappedKeepsText(text: string, width: int)
    ensures Strip(Wrapped(text, width), {}) == Strip(text, {})
  {
    if width > 0 {
      WrapKeepsText(Trim(text), width);
      StripTrim(text, {});
    }
  }

  /** With a positive width, every line of the result is non-empty, at most `width` long and trimmed. */
  lemma WrappedLines(text: string, width: int)
    requires width >= 1
    ensures Wrapped(text, width) == Join(WrapFrom(Trim(text), width), "\n")
    ensures forall i :: 0 <= i < |WrapFrom(Trim(text), width)| ==>
      0 < |WrapFrom(Trim(text), width)[i]| <= width && Unpadded(WrapFrom(Trim(text), width)[i])
  {
    TrimUnpadded(text);
    WrapLinesShape(Trim(text), width);
  }

  /** Blank text wraps to the empty string. */
  lemma WrappedBlank(text: string, width: int)
    requires width >= 1 && AllWhitespace(text)
    ensures Wrapped(text, width) == ""
  {
    var a := TrimShape(text);
  }

  /** A text whose trimmed form fits on one line comes back trimmed. */
  lemma WrappedShort(text: string, width: int)
    requires width >= 1 && 0 < |Trim(text)| <= width
    ensures Wrapped(text, width) == Trim(text)
  {
  }

  // ---------------------------------------------------------------------------
  // The call
  // ---------------------------------------------------------------------------

  /**
   * `translateV2(input, fromLang, toLang, wrapLength)`. `page` is the fetched
   * page, None when the request threw; `v1Response` is what the first
   * backend's request would give, for the fallback. `wrapLength` is None when
   * it is not given.
   */
  function Translate(supported: string -> bool, fromLang: string, toLang: string, wrapLength: Option<int>,
                     page: Option<string>, v1Response: Option<TranslateV1.GoogleResponse>): (r: ApiResult)
    ensures !supported(toLang) ==> r == ApiError(ErrLangNotSupported)
    ensures supported(toLang) && page.None? ==> r == TranslateV1.Translate(supported, toLang, v1Response)
  {
    if !supported(toLang) then ApiError(ErrLangNotSupported)
    else match page
      case None => TranslateV1.Translate(supported, toLang, v1Response)
      case Some(data) =>
        var result := UnescapeHtml(ExtractResultContainer(data));
        if result == "" then TranslateV1.Translate(supported, toLang, v1Response)
        else
          var width := if wrapLength.Some? && wrapLength.value > 0 then wrapLength.value else 0;
          var text := if width > 0 then Wrapped(result, width) else result;
          ApiSuccess(text, Some(fromLang), Some(toLang), Some(V2))
  }

  /**
   * The second backend answers itself exactly when the page holds a non-empty
   * decoded result; it then reports version 2, the requested languages, and
   * the decoded text with only its whitespace rearranged. Otherwise the first
   * backend answers.
   */
  lemma TranslateOutcome(supported: string -> bool, fromLang: string, toLang: string, wrapLength: Option<int>,
                         page: Option<string>, v1Response: Option<TranslateV1.GoogleResponse>)
    requires supported(toLang)
    ensures var r := Translate(supported, fromLang, toLang, wrapLength, page, v1Response);
      (r.ApiSuccess? && r.version == Some(V2)) <==>
        (page.Some? && UnescapeHtml(ExtractResultContainer(page.value)) != "")
    ensures var r := Translate(supported, fromLang, toLang, wrapLength, page, v1Response);
      page.Some? && UnescapeHtml(ExtractResultContainer(page.value)) != "" ==>
        r.fromLang == Some(fromLang) && r.toLang == Some(toLang) &&
        Strip(r.text, {}) == Strip(UnescapeHtml(ExtractResultContainer(page.value)), {})
    ensures var r := Translate(supported, fromLang, toLang, wrapLength, page, v1Response);
      !(page.Some? && UnescapeHtml(ExtractResultContainer(page.value)) != "") ==>
        r == TranslateV1.Translate(supported, toLang, v1Response)
  {
    if page.Some? {
      var result := UnescapeHtml(ExtractResultContainer(page.value));
      if result != "" && wrapLength.Some? && wrapLength.value > 0 {
        WrappedKeepsText(result, wrapLength.value);
      }
    }
  }
}
