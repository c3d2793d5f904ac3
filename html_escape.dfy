/**
 * `escapeHtml`, which the history page and the translation panel both define
 * (identically) to put user text into their HTML: five global replacements,
 * `&` first.
 */
module HtmlEscape {
  import opened Strings

  /** `escapeHtml`: the five replacements, in the order the source applies them. */
  function EscapeHtml(text: string): string {
    var amp := ReplaceAll(text, "&", "&amp;");
    var lt := ReplaceAll(amp, "<", "&lt;");
    var gt := ReplaceAll(lt, ">", "&gt;");
    var quot := ReplaceAll(gt, "\"", "&quot;");
    ReplaceAll(quot, "'", "&#39;")
  }

  /** The characters `escapeHtml` replaces. */
  predicate IsSpecial(c: char) {
    c == '&' || c == '<' || c == '>' || c == '"' || c == '\''
  }

  /** What one character becomes: its entity, or itself. */
  function EscapeChar(c: char): (r: string)
    ensures !IsSpecial(c) ==> r == [c]
  {
    if c == '&' then "&amp;"
    else if c == '<' then "&lt;"
    else if c == '>' then "&gt;"
    else if c == '"' then "&quot;"
    else if c == '\'' then "&#39;"
    else [c]
  }

  /** The reference reading of escaping: every character replaced on its own, left to right. */
  function EscapeEach(s: string): string {
    if s == [] then [] else EscapeChar(s[0]) + EscapeEach(s[1..])
  }

  /** Replacing a single character distributes over concatenation. */
  lemma {:induction false} ReplaceCharAppend(a: string, b: string, c: char, rep: string)
    ensures ReplaceAll(a + b, [c], rep) == ReplaceAll(a, [c], rep) + ReplaceAll(b, [c], rep)
  {
    if a == [] {
      assert a + b == b;
    } else {
      assert (a + b)[..1] == a[..1] == [a[0]];
      assert (a + b)[1..] == a[1..] + b;
      ReplaceCharAppend(a[1..], b, c, rep);
    }
  }

  lemma EscapeHtmlAppend(a: string, b: string)
    ensures EscapeHtml(a + b) == EscapeHtml(a) + EscapeHtml(b)
  {
    var a1, b1 := ReplaceAll(a, "&", "&amp;"), ReplaceAll(b, "&", "&amp;");
    ReplaceCharAppend(a, b, '&', "&amp;");
    var a2, b2 := ReplaceAll(a1, "<", "&lt;"), ReplaceAll(b1, "<", "&lt;");
    ReplaceCharAppend(a1, b1, '<', "&lt;");
    var a3, b3 := ReplaceAll(a2, ">", "&gt;"), ReplaceAll(b2, ">", "&gt;");
    ReplaceCharAppend(a2, b2, '>', "&gt;");
    var a4, b4 := ReplaceAll(a3, "\"", "&quot;"), ReplaceAll(b3, "\"", "&quot;");
    ReplaceCharAppend(a3, b3, '"', "&quot;");
    ReplaceCharAppend(a4, b4, '\'', "&#39;");
  }

  lemma EscapeAmpersandChar(c: char)
    requires c == '&'
    ensures EscapeHtml([c]) == EscapeChar(c)
  {
    var s1 := ReplaceAll([c], "&", "&amp;");
    assert s1 == "&amp;" by { assert [c][1..] == []; }
    var s2 := ReplaceAll(s1, "<", "&lt;");
    assert s2 == s1 by { ReplaceAllAbsent(s1, "<", "&lt;"); }
    var s3 := ReplaceAll(s2, ">", "&gt;");
    assert s3 == s1 by { ReplaceAllAbsent(s2, ">", "&gt;"); }
    var s4 := ReplaceAll(s3, "\"", "&quot;");
    assert s4 == s1 by { ReplaceAllAbsent(s3, "\"", "&quot;"); }
    assert ReplaceAll(s4, "'", "&#39;") == s1 by { ReplaceAllAbsent(s4, "'", "&#39;"); }
  }

  lemma EscapeLtChar(c: char)
    requires c == '<'
    ensures EscapeHtml([c]) == EscapeChar(c)
  {
    ReplaceAllAbsent([c], "&", "&amp;");
    assert ReplaceAll([c], "<", "&lt;") == "&lt;" by { assert [c][1..] == []; }
    ReplaceAllAbsent("&lt;", ">", "&gt;");
    ReplaceAllAbsent("&lt;", "\"", "&quot;");
    ReplaceAllAbsent("&lt;", "'", "&#39;");
  }

  lemma EscapeGtChar(c: char)
    requires c == '>'
    ensures EscapeHtml([c]) == EscapeChar(c)
  {
    ReplaceAllAbsent([c], "&", "&amp;");
    ReplaceAllAbsent([c], "<", "&lt;");
    assert ReplaceAll([c], ">", "&gt;") == "&gt;" by { assert [c][1..] == []; }
    ReplaceAllAbsent("&gt;", "\"", "&quot;");
    ReplaceAllAbsent("&gt;", "'", "&#39;");
  }

  lemma EscapeQuotChar(c: char)
    requires c == '"'
    ensures EscapeHtml([c]) == EscapeChar(c)
  {
    ReplaceAllAbsent([c], "&", "&amp;");
    ReplaceAllAbsent([c], "<", "&lt;");
    ReplaceAllAbsent([c], ">", "&gt;");
    assert ReplaceAll([c], "\"", "&quot;") == "&quot;" by { assert [c][1..] == []; }
    ReplaceAllAbsent("&quot;", "'", "&#39;");
  }

  lemma EscapeAposChar(c: char)
    requires c == '\''
    ensures EscapeHtml([c]) == EscapeChar(c)
  {
    ReplaceAllAbsent([c], "&", "&amp;");
    ReplaceAllAbsent([c], "<", "&lt;");
    ReplaceAllAbsent([c], ">", "&gt;");
    ReplaceAllAbsent([c], "\"", "&quot;");
    assert ReplaceAll([c], "'", "&#39;") == "&#39;" by { assert [c][1..] == []; }
  }

  lemma EscapePlainChar(c: char)
    requires !IsSpecial(c)
    ensures EscapeHtml([c]) == [c]
  {
    ReplaceAllAbsent([c], "&", "&amp;");
    ReplaceAllAbsent([c], "<", "&lt;");
    ReplaceAllAbsent([c], ">", "&gt;");
    ReplaceAllAbsent([c], "\"", "&quot;");
    ReplaceAllAbsent([c], "'", "&#39;");
  }

  /** A one-character text is replaced by its entity; no later replacement touches the entity. */
  lemma EscapeHtmlChar(c: char)
    ensures EscapeHtml([c]) == EscapeChar(c)
  {
    if c == '&' { EscapeAmpersandChar(c); }
    else if c == '<' { EscapeLtChar(c); }
    else if c == '>' { EscapeGtChar(c); }
    else if c == '"' { EscapeQuotChar(c); }
    else if c == '\'' { EscapeAposChar(c); }
    else { EscapePlainChar(c); }
  }

  /**
   * Because `&` is replaced first, the chain of replacements escapes every
   * character exactly once: it equals the per-character reading.
   */
  lemma {:induction false} EscapeHtmlIsPerChar(s: string)
    ensures EscapeHtml(s) == EscapeEach(s)
  {
    if s == [] {
      assert EscapeHtml(s) == [];
    } else {
      assert s == [s[0]] + s[1..];
      EscapeHtmlAppend([s[0]], s[1..]);
      EscapeHtmlChar(s[0]);
      EscapeHtmlIsPerChar(s[1..]);
    }
  }

  /** The characters that open or close a tag or an attribute value. */
  predicate IsMarkup(c: char) {
    c == '<' || c == '>' || c == '"' || c == '\''
  }

  /** No character that could open a tag or close an attribute. */
  predicate NoMarkup(t: string) {
    forall i :: 0 <= i < |t| ==> !IsMarkup(t[i])
  }

  lemma {:induction false} EscapeEachNoMarkup(s: string)
    ensures NoMarkup(EscapeEach(s))
  {
    if s != [] {
      EscapeEachNoMarkup(s[1..]);
      var head, tail := EscapeChar(s[0]), EscapeEach(s[1..]);
      assert NoMarkup(head);
      assert forall i :: |head| <= i < |head + tail| ==> (head + tail)[i] == tail[i - |head|];
    }
  }

  /** The escaped text holds no `<`, `>`, `"` or `'`. */
  lemma EscapeNoMarkup(s: string)
    ensures NoMarkup(EscapeHtml(s))
  {
    EscapeHtmlIsPerChar(s);
    EscapeEachNoMarkup(s);
  }

  /** Escaped text adds no markup character to the page around it. */
  lemma EscapeCountMarkup(s: string, c: char)
    requires IsMarkup(c)
    ensures Count(EscapeHtml(s), c) == 0
  {
    EscapeNoMarkup(s);
    CountAbsent(EscapeHtml(s), c);
  }

  lemma {:induction false} EscapeEachPlain(s: string)
    requires forall i :: 0 <= i < |s| ==> !IsSpecial(s[i])
    ensures EscapeEach(s) == s
  {
    if s != [] {
      EscapeEachPlain(s[1..]);
    }
  }

  /** Text with none of the five characters is left as it is. */
  lemma EscapePlain(s: string)
    requires forall i :: 0 <= i < |s| ==> !IsSpecial(s[i])
    ensures EscapeHtml(s) == s
  {
    EscapeHtmlIsPerChar(s);
    EscapeEachPlain(s);
  }

  /** Index `i` of `t` begins one of the five entities. */
  predicate StartsEntity(t: string, i: nat) {
    IsAt(t, "&amp;", i) || IsAt(t, "&lt;", i) || IsAt(t, "&gt;", i) || IsAt(t, "&quot;", i) || IsAt(t, "&#39;", i)
  }

  predicate AmpersandsStartEntities(t: string) {
    forall i: nat :: i < |t| && t[i] == '&' ==> StartsEntity(t, i)
  }

  lemma AmpersandsAppend(a: string, b: string)
    requires AmpersandsStartEntities(a) && AmpersandsStartEntities(b)
    ensures AmpersandsStartEntities(a + b)
  {
    forall i: nat | i < |a + b| && (a + b)[i] == '&' ensures StartsEntity(a + b, i) {
      if i < |a| {
        assert a[i] == '&';
        if IsAt(a, "&amp;", i) { IsAtAppendLeft(a, b, "&amp;", i); }
        else if IsAt(a, "&lt;", i) { IsAtAppendLeft(a, b, "&lt;", i); }
        else if IsAt(a, "&gt;", i) { IsAtAppendLeft(a, b, "&gt;", i); }
        else if IsAt(a, "&quot;", i) { IsAtAppendLeft(a, b, "&quot;", i); }
        else { IsAtAppendLeft(a, b, "&#39;", i); }
      } else {
        var j: nat := i - |a|;
        assert b[j] == '&';
        if IsAt(b, "&amp;", j) { IsAtAppendRight(a, b, "&amp;", j); }
        else if IsAt(b, "&lt;", j) { IsAtAppendRight(a, b, "&lt;", j); }
        else if IsAt(b, "&gt;", j) { IsAtAppendRight(a, b, "&gt;", j); }
        else if IsAt(b, "&quot;", j) { IsAtAppendRight(a, b, "&quot;", j); }
        else { IsAtAppendRight(a, b, "&#39;", j); }
      }
    }
  }

  lemma EscapeCharAmpersands(c: char)
    ensures AmpersandsStartEntities(EscapeChar(c))
  {
    var e := EscapeChar(c);
    forall i: nat | i < |e| && e[i] == '&' ensures StartsEntity(e, i) {
      assert i == 0;
      assert IsAt(e, e, 0);
    }
  }

  lemma {:induction false} EscapeEachAmpersands(s: string)
    ensures AmpersandsStartEntities(EscapeEach(s))
  {
    if s != [] {
      EscapeCharAmpersands(s[0]);
      EscapeEachAmpersands(s[1..]);
      AmpersandsAppend(EscapeChar(s[0]), EscapeEach(s[1..]));
    }
  }

  /** Every `&` of the escaped text begins one of the five entities. */
  lemma EscapeAmpersands(s: string)
    ensures AmpersandsStartEntities(EscapeHtml(s))
  {
    EscapeHtmlIsPerChar(s);
    EscapeEachAmpersands(s);
  }

  /** How a page reader reads the five entities back, left to right. */
  function DecodeEntities(t: string): string
    decreases |t|
  {
    if t == [] then []
    else if IsAt(t, "&amp;", 0) then "&" + DecodeEntities(t[5..])
    else if IsAt(t, "&lt;", 0) then "<" + DecodeEntities(t[4..])
    else if IsAt(t, "&gt;", 0) then ">" + DecodeEntities(t[4..])
    else if IsAt(t, "&quot;", 0) then "\"" + DecodeEntities(t[6..])
    else if IsAt(t, "&#39;", 0) then "'" + DecodeEntities(t[5..])
    else [t[0]] + DecodeEntities(t[1..])
  }

  lemma NoEntityWithoutAmpersand(t: string)
    requires t != [] && t[0] != '&'
    ensures !StartsEntity(t, 0)
  {
    assert "&amp;"[0] == '&' && "&lt;"[0] == '&' && "&gt;"[0] == '&';
    assert "&quot;"[0] == '&' && "&#39;"[0] == '&';
  }

  lemma DecodePlainChar(c: char, rest: string)
    requires !IsSpecial(c)
    ensures DecodeEntities([c] + rest) == [c] + DecodeEntities(rest)
  {
    var t := [c] + rest;
    assert t[0] == c && t[1..] == rest;
    NoEntityWithoutAmpersand(t);
  }

  lemma NotAtStart(t: string, pat: string, k: nat)
    requires k < |pat| && k < |t| && t[k] != pat[k]
    ensures !IsAt(t, pat, 0)
  {
  }

  lemma DecodeEntityChar(e: string, c: char, rest: string)
    requires IsSpecial(c) && e == EscapeChar(c)
    ensures DecodeEntities(e + rest) == [c] + DecodeEntities(rest)
  {
    var t := e + rest;
    assert t[|e|..] == rest;
    IsAtAppendLeft(e, rest, e, 0) by { assert IsAt(e, e, 0); }
    assert t[1] == e[1];
    if c != '&' {
      NotAtStart(t, "&amp;", 1);
      if c != '<' {
        NotAtStart(t, "&lt;", 1);
        if c != '>' {
          NotAtStart(t, "&gt;", 1);
          if c != '"' {
            NotAtStart(t, "&quot;", 1);
          }
        }
      }
    }
  }

  /** An escaped character, read back, is the character. */
  lemma DecodeEscapedChar(c: char, rest: string)
    ensures DecodeEntities(EscapeChar(c) + rest) == [c] + DecodeEntities(rest)
  {
    if IsSpecial(c) {
      DecodeEntityChar(EscapeChar(c), c, rest);
    } else {
      DecodePlainChar(c, rest);
    }
  }

  lemma {:induction false} DecodeEscapeEach(s: string)
    ensures DecodeEntities(EscapeEach(s)) == s
  {
    if s != [] {
      DecodeEscapedChar(s[0], EscapeEach(s[1..]));
      DecodeEscapeEach(s[1..]);
    }
  }

  /** The page shows exactly the text that was escaped into it. */
  lemma DecodeEscape(s: string)
    ensures DecodeEntities(EscapeHtml(s)) == s
  {
    EscapeHtmlIsPerChar(s);
    DecodeEscapeEach(s);
  }
}
