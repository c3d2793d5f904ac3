/**
 * The minimal HTML extractor: a single pass over the markup that finds the
 * first element whose `class` attribute holds a given class name, follows
 * the nesting depth of that element's tag name to its balancing close tag,
 * and returns the markup in between with every tag removed.
 *
 * The scanner itself is the method `ExtractByClass`; what it computes is
 * specified by the function `ExtractFrom`, which walks the tag spans from a
 * cursor: `TagContent` says what one span yields, `Opens` whether it opens a
 * match, and `ContentToClose` what lies between it and its balancing close.
 */
module HtmlExtractor {
  import opened Wrappers
  import opened Strings

  // ---------------------------------------------------------------------------
  // `tagHasClass`: `/class="([^"]*)"/i`, then `split(/\s+/).includes(name)`.

  const ClassPrefix: string := "class=\""

  /**
   * The value of the first `class="..."` attribute, the attribute name matched
   * case-insensitively, or None when there is none or its quote is not closed.
   */
  function ClassValue(tag: string): (r: Option<string>)
    ensures r.Some? ==> '"' !in r.value
  {
    var k := Find(ToLower(tag), ClassPrefix, 0);
    if k < 0 then None
    else
      var q := Find(tag, "\"", k + 7);
      if q < 0 then None
      else
        assert forall m :: k + 7 <= m < q ==> tag[m] != '"' by {
          FindIsFirst(tag, "\"", k + 7);
          forall m | k + 7 <= m < q ensures tag[m] != '"' { IsAtChar(tag, '"', m); }
        }
        var v := tag[k + 7..q];
        assert forall m :: 0 <= m < |v| ==> v[m] == tag[k + 7 + m];
        Some(v)
  }

  /** Index of the first whitespace character, or `|s|`. */
  function FirstWhitespace(s: string): (k: nat)
    ensures k <= |s|
    ensures forall i :: 0 <= i < k ==> !IsWhitespace(s[i])
    ensures k < |s| ==> IsWhitespace(s[k])
  {
    if s == [] || IsWhitespace(s[0]) then 0 else 1 + FirstWhitespace(s[1..])
  }

  /** `v.split(/\s+/)`: the pieces between maximal runs of whitespace. */
  function SplitWhitespace(v: string): (parts: seq<string>)
    ensures |parts| >= 1
    decreases |v|
  {
    var k := FirstWhitespace(v);
    if k == |v| then [v] else [v[..k]] + SplitWhitespace(TrimStart(v[k..]))
  }

  /** The piece before the first whitespace holds none. */
  lemma FirstWhitespacePrefix(v: string)
    ensures !HasWhitespace(v[..FirstWhitespace(v)])
  {
  }

  /** No piece of the split holds whitespace. */
  lemma {:induction false} SplitWhitespacePieces(v: string)
    ensures forall i :: 0 <= i < |SplitWhitespace(v)| ==> !HasWhitespace(SplitWhitespace(v)[i])
    decreases |v|
  {
    var k := FirstWhitespace(v);
    var parts := SplitWhitespace(v);
    FirstWhitespacePrefix(v);
    if k == |v| {
      assert v[..k] == v;
    } else {
      var t := TrimStart(v[k..]);
      SplitWhitespacePieces(t);
      var rest := SplitWhitespace(t);
      assert parts == [v[..k]] + rest;
      forall i | 0 <= i < |parts| ensures !HasWhitespace(parts[i]) {
        if i > 0 {
          assert parts[i] == rest[i - 1];
        }
      }
    }
  }

  predicate TagHasClass(fullTag: string, name: string) {
    match ClassValue(fullTag)
    case None => false
    case Some(v) => name in SplitWhitespace(v)
  }

  /** A class name holding whitespace never matches: it cannot be one whitespace-separated piece of the value. */
  lemma TagHasClassWord(fullTag: string, name: string)
    requires TagHasClass(fullTag, name)
    ensures !HasWhitespace(name)
  {
    var v := ClassValue(fullTag).value;
    SplitWhitespacePieces(v);
  }

  // ---------------------------------------------------------------------------
  // Tags and their names.

  /** End of the tag name: the first whitespace, `/` or `>`, or the end. */
  function NameEnd(fullTag: string): (k: nat)
    ensures k <= |fullTag|
  {
    if fullTag == [] || IsNameStop(fullTag[0]) then 0
    else 1 + NameEnd(fullTag[1..])
  }

  /** The characters of `[\s/>]`, which end a tag name. */
  predicate IsNameStop(c: char) {
    IsWhitespace(c) || c == '/' || c == '>'
  }

  /** `NameEnd` is the index of the first name-ending character, as `search(/[\s/>]/)` finds it. */
  lemma {:induction false} NameEndIsFirstStop(fullTag: string)
    ensures forall i :: 0 <= i < NameEnd(fullTag) ==> !IsNameStop(fullTag[i])
    ensures NameEnd(fullTag) < |fullTag| ==> IsNameStop(fullTag[NameEnd(fullTag)])
  {
    if fullTag != [] && !IsNameStop(fullTag[0]) {
      NameEndIsFirstStop(fullTag[1..]);
    }
  }

  /** The lower-cased tag name. */
  function TagName(fullTag: string): (name: string)
    ensures |name| <= |fullTag|
  {
    ToLower(fullTag[..NameEnd(fullTag)])
  }

  /** Closing tags, `<!...>` markers, nameless tags and self-closing tags are passed over. */
  predicate IsCandidateTag(fullTag: string) {
    fullTag != [] && fullTag[0] != '/' && fullTag[0] != '!' &&
    TagName(fullTag) != [] && fullTag[|fullTag| - 1] != '/'
  }

  // ---------------------------------------------------------------------------
  // The depth scan inside a matched element.

  /**
   * `<name[\s>]` at index `k`, the name compared case-insensitively and
   * character by character: the name is read as literal text, not as a
   * pattern.
   */
  predicate OpenAt(html: string, name: string, k: nat) {
    k + |name| + 2 <= |html| && html[k] == '<' &&
    (forall i {:trigger name[i]} :: 0 <= i < |name| ==> LowerChar(html[k + 1 + i]) == name[i]) &&
    (IsWhitespace(html[k + 1 + |name|]) || html[k + 1 + |name|] == '>')
  }

  /** The first opening of `name` at or after `from`, or -1. */
  function FindOpen(html: string, name: string, from: nat): (r: int)
    ensures r == -1 || (from <= r && r + |name| + 2 <= |html| && OpenAt(html, name, r))
    decreases |html| - from
  {
    if from + |name| + 2 > |html| then -1
    else if OpenAt(html, name, from) then from
    else FindOpen(html, name, from + 1)
  }

  /** `FindOpen` returns the leftmost opening, and -1 only when there is none. */
  lemma {:induction false} FindOpenIsFirst(html: string, name: string, from: nat)
    ensures FindOpen(html, name, from) >= 0 ==>
      forall k: nat :: from <= k < FindOpen(html, name, from) ==> !OpenAt(html, name, k)
    ensures FindOpen(html, name, from) == -1 ==> forall k: nat :: from <= k ==> !OpenAt(html, name, k)
    decreases |html| - from
  {
    if from + |name| + 2 <= |html| && !OpenAt(html, name, from) {
      FindOpenIsFirst(html, name, from + 1);
    }
  }

  function CloseTag(name: string): string {
    "</" + name + ">"
  }

  /**
   * The index of the `</name>` that brings `depth` to zero when scanning from
   * `j`: an opening before the next close adds one, a close takes one away.
   * None when the closes run out first.
   */
  function BalancingClose(html: string, name: string, j: nat, depth: nat): Option<nat>
    requires depth >= 1
    decreases |html| - j
  {
    if j >= |html| then None
    else
      var c := Find(html, CloseTag(name), j);
      if c < 0 then None
      else
        var o := FindOpen(html, name, j);
        if o >= 0 && o < c then BalancingClose(html, name, o + |name| + 1, depth + 1)
        else if depth == 1 then Some(c)
        else BalancingClose(html, name, c + |name| + 3, depth - 1)
  }

  lemma BalancingCloseUnfold(html: string, name: string, j: nat, depth: nat)
    requires depth >= 1 && j < |html|
    ensures var c := Find(html, CloseTag(name), j); var o := FindOpen(html, name, j);
      c >= 0 && o >= 0 && o < c ==>
        BalancingClose(html, name, j, depth) == BalancingClose(html, name, o + |name| + 1, depth + 1)
    ensures var c := Find(html, CloseTag(name), j); var o := FindOpen(html, name, j);
      c >= 0 && !(o >= 0 && o < c) && depth > 1 ==>
        BalancingClose(html, name, j, depth) == BalancingClose(html, name, c + |name| + 3, depth - 1)
  {
  }

  /** The scan ends on a `</name>` at or after where it started. */
  lemma {:induction false} BalancingCloseIsClose(html: string, name: string, j: nat, depth: nat, c: nat)
    requires depth >= 1 && BalancingClose(html, name, j, depth) == Some(c)
    ensures j <= c && IsAt(html, CloseTag(name), c)
    decreases |html| - j, 1
  {
    assert j < |html|;
    BalancingCloseEnds(html, name, j, depth);
    var cl := Find(html, CloseTag(name), j);
    var o := FindOpen(html, name, j);
    if cl >= 0 && ((o >= 0 && o < cl) || depth > 1) {
      BalancingCloseIsCloseStep(html, name, j, depth, c);
    } else {
      FindFound(html, CloseTag(name), j);
    }
  }

  /** The inductive step of `BalancingCloseIsClose`: the scan moves past an opening or a close. */
  lemma {:induction false} BalancingCloseIsCloseStep(html: string, name: string, j: nat, depth: nat, c: nat)
    requires depth >= 1 && j < |html| && BalancingClose(html, name, j, depth) == Some(c)
    requires Find(html, CloseTag(name), j) >= 0
    requires (FindOpen(html, name, j) >= 0 && FindOpen(html, name, j) < Find(html, CloseTag(name), j)) || depth > 1
    ensures j <= c && IsAt(html, CloseTag(name), c)
    decreases |html| - j, 0
  {
    var cl := Find(html, CloseTag(name), j);
    var o := FindOpen(html, name, j);
    if o >= 0 && o < cl {
      var j' := o + |name| + 1;
      BalancingCloseOpen(html, name, j, depth, j', depth + 1);
      BalancingCloseIsClose(html, name, j', depth + 1, c);
    } else {
      var j' := cl + |name| + 3;
      BalancingCloseClose(html, name, j, depth, j', depth - 1);
      BalancingCloseIsClose(html, name, j', depth - 1, c);
    }
  }




  /** With no opening of the same name before it, the first close balances the element. */
  lemma BalancingCloseUnnested(html: string, name: string, j: nat, c: nat)
    requires j < |html| && Find(html, CloseTag(name), j) == c
    requires forall k: nat :: j <= k < c ==> !OpenAt(html, name, k)
    ensures BalancingClose(html, name, j, 1) == Some(c)
  {
  }

  /** Without any close of the name ahead, the element never balances. */
  lemma BalancingCloseNeedsClose(html: string, name: string, j: nat, depth: nat)
    requires depth >= 1
    requires forall k: nat :: j <= k ==> !IsAt(html, CloseTag(name), k)
    ensures BalancingClose(html, name, j, depth) == None
  {
    if j < |html| && Find(html, CloseTag(name), j) >= 0 {
      FindFound(html, CloseTag(name), j);
      assert false;
    }
  }

  // ---------------------------------------------------------------------------
  // `stripTags`: `s.replace(/<[^>]*>/g, '')`.

  /** No `<` is followed, anywhere later, by a `>`: nothing of the form `<[^>]*>` is left. */
  predicate NoTag(s: string) {
    forall i, j :: 0 <= i < j < |s| && s[i] == '<' ==> s[j] != '>'
  }

  function StripTags(s: string): (r: string)
    ensures |r| <= |s|
    decreases |s|
  {
    if s == [] then []
    else if s[0] == '<' then
      var e := Find(s, ">", 1);
      if e < 0 then s else StripTags(s[e + 1..])
    else [s[0]] + StripTags(s[1..])
  }

  /** What is left holds no tag: every `<` in it has no `>` anywhere after it. */
  lemma {:induction false} StripTagsLeavesNoTag(s: string)
    ensures NoTag(StripTags(s))
    decreases |s|
  {
    if s == [] {
    } else if s[0] == '<' {
      var e := Find(s, ">", 1);
      if e < 0 {
        FindIsFirst(s, ">", 1);
        forall j | 1 <= j < |s| ensures s[j] != '>' { IsAtChar(s, '>', j); }
      } else {
        StripTagsLeavesNoTag(s[e + 1..]);
      }
    } else {
      var t := StripTags(s[1..]);
      StripTagsLeavesNoTag(s[1..]);
      var r := [s[0]] + t;
      assert StripTags(s) == r;
      forall i, j | 0 <= i < j < |r| && r[i] == '<' ensures r[j] != '>' {
        assert i > 0;
        assert r[i] == t[i - 1] && r[j] == t[j - 1];
      }
    }
  }

  /** Markup without a tag in it comes back unchanged. */
  lemma {:induction false} StripTagsNoTag(s: string)
    requires NoTag(s)
    ensures StripTags(s) == s
    decreases |s|
  {
    if s != [] {
      if s[0] == '<' {
        var e := Find(s, ">", 1);
        if e >= 0 {
          FindFound(s, ">", 1);
          IsAtChar(s, '>', e);
          assert false;
        }
      } else {
        assert NoTag(s[1..]) by {
          forall i, j | 0 <= i < j < |s[1..]| && s[1..][i] == '<' ensures s[1..][j] != '>' {
            assert s[i + 1] == '<';
          }
        }
        StripTagsNoTag(s[1..]);
      }
    }
  }

  lemma StripTagsIdempotent(s: string)
    ensures StripTags(StripTags(s)) == StripTags(s)
  {
    StripTagsLeavesNoTag(s);
    StripTagsNoTag(StripTags(s));
  }

  // ---------------------------------------------------------------------------
  // The outer scan.

  /** The first `<` at or after `i` and the first `>` at or after it, as the scanner finds them. */
  function NextTag(html: string, i: nat): (r: Option<(nat, nat)>)
    ensures r.Some? ==> i <= r.value.0 < r.value.1 < |html|
    ensures r.Some? ==> html[r.value.0] == '<' && html[r.value.1] == '>'
  {
    var ts := Find(html, "<", i);
    if ts < 0 then None
    else
      var te := Find(html, ">", ts);
      if te < 0 then None
      else
        FindFound(html, "<", i);
        FindFound(html, ">", ts);
        IsAtChar(html, '<', ts);
        IsAtChar(html, '>', te);
        Some((ts, te))
  }

  /** A candidate tag whose `class` attribute holds the class name: where the scanner looks for content. */
  predicate Opens(fullTag: string, name: string) {
    IsCandidateTag(fullTag) && TagHasClass(fullTag, name)
  }

  /**
   * The markup from `contentStart` up to the balancing close of `tagName`,
   * with its tags removed, or None when the nesting never balances.
   */
  function ContentToClose(html: string, tagName: string, contentStart: nat): Option<string> {
    var b := BalancingClose(html, tagName, contentStart, 1);
    if b.None? then None
    else
      BalancingCloseBound(html, tagName, contentStart, b.value);
      Some(StripTags(html[contentStart..b.value]))
  }

  /** What the tag span from `<` at `ts` to `>` at `te` yields. */
  function TagContent(html: string, name: string, ts: nat, te: nat): Option<string>
    requires ts < te < |html|
  {
    var fullTag := html[ts + 1..te];
    if Opens(fullTag, name) then ContentToClose(html, TagName(fullTag), te + 1) else None
  }

  /** A balancing close lies between the start of the scan and the end of the markup. */
  lemma BalancingCloseBound(html: string, name: string, j: nat, c: nat)
    requires BalancingClose(html, name, j, 1) == Some(c)
    ensures j <= c <= |html|
  {
    BalancingCloseIsClose(html, name, j, 1, c);
  }

  /** The content is there exactly when the depth scan balances, and is the markup up to that close. */
  lemma ContentToCloseIs(html: string, tagName: string, contentStart: nat, close: Option<nat>)
    requires close == BalancingClose(html, tagName, contentStart, 1)
    ensures close.None? ==> ContentToClose(html, tagName, contentStart) == None
    ensures close.Some? ==>
      contentStart <= close.value <= |html| &&
      ContentToClose(html, tagName, contentStart) == Some(StripTags(html[contentStart..close.value]))
  {
    if close.Some? {
      BalancingCloseBound(html, tagName, contentStart, close.value);
    }
  }

  /** Content found by the depth scan is the tag-free markup up to a `</tagName>`. */
  lemma ContentToCloseShape(html: string, tagName: string, contentStart: nat, v: string) returns (c: nat)
    requires ContentToClose(html, tagName, contentStart) == Some(v)
    ensures BalancingClose(html, tagName, contentStart, 1) == Some(c)
    ensures contentStart <= c <= |html| && IsAt(html, CloseTag(tagName), c)
    ensures v == StripTags(html[contentStart..c])
  {
    c := BalancingClose(html, tagName, contentStart, 1).value;
    BalancingCloseIsClose(html, tagName, contentStart, 1, c);
  }

  /** A span yields something only when its tag opens a match, and then what the depth scan after it finds. */
  lemma TagContentOpens(html: string, name: string, ts: nat, te: nat, fullTag: string)
    requires ts < te < |html| && fullTag == html[ts + 1..te] && TagContent(html, name, ts, te).Some?
    ensures Opens(fullTag, name) && TagContent(html, name, ts, te) == ContentToClose(html, TagName(fullTag), te + 1)
  {
  }

  /**
   * What the scan from cursor `i` returns: the content of the first tag span
   * that yields one, the cursor moving past each span that does not.
   */
  function ExtractFrom(html: string, name: string, i: nat): Option<string>
    decreases |html| - i
  {
    if i >= |html| then None
    else
      match NextTag(html, i)
      case None => None
      case Some((ts, te)) =>
        var t := TagContent(html, name, ts, te);
        if t.Some? then t else ExtractFrom(html, name, te + 1)
  }

  /** `extractByClass`, as a function of the markup and the class name. */
  function Extract(html: string, name: string): Option<string> {
    ExtractFrom(html, name, 0)
  }

  /** What the scan extracts is what some tag span at or after the cursor yields. */
  lemma {:induction false} ExtractFromSpan(html: string, name: string, i: nat) returns (ts: nat, te: nat)
    requires ExtractFrom(html, name, i).Some?
    ensures i <= ts < te < |html| && html[ts] == '<' && html[te] == '>'
    ensures ExtractFrom(html, name, i) == TagContent(html, name, ts, te)
    decreases |html| - i
  {
    var next := NextTag(html, i);
    var s, e := next.value.0, next.value.1;
    ExtractFromStep(html, name, i, s, e);
    var here := TagContent(html, name, s, e);
    if here.Some? {
      ts, te := s, e;
    } else {
      var later := ExtractFrom(html, name, e + 1);
      assert ExtractFrom(html, name, i) == later;
      ts, te := ExtractFromSpan(html, name, e + 1);
      assert later == TagContent(html, name, ts, te);
    }
  }

  /**
   * The tag spans the outer scan visits from cursor `i`, in order, when it
   * moves past every one of them. They depend on the markup alone.
   */
  function Spans(html: string, i: nat): (r: seq<(nat, nat)>)
    ensures forall k :: 0 <= k < |r| ==> i <= r[k].0 < r[k].1 < |html|
    ensures forall k :: 0 <= k < |r| ==> html[r[k].0] == '<' && html[r[k].1] == '>'
    decreases |html| - i
  {
    if i >= |html| then []
    else
      match NextTag(html, i)
      case None => []
      case Some((ts, te)) => [(ts, te)] + Spans(html, te + 1)
  }

  /** What the scan extracts comes from the first visited span that yields anything. */
  lemma {:induction false} ExtractFromFirstSpan(html: string, name: string, i: nat, v: string) returns (n: nat)
    requires ExtractFrom(html, name, i) == Some(v)
    ensures n < |Spans(html, i)|
    ensures TagContent(html, name, Spans(html, i)[n].0, Spans(html, i)[n].1) == Some(v)
    ensures forall m :: 0 <= m < n ==> TagContent(html, name, Spans(html, i)[m].0, Spans(html, i)[m].1).None?
    decreases |html| - i
  {
    var next := NextTag(html, i);
    var s, e := next.value.0, next.value.1;
    ExtractFromStep(html, name, i, s, e);
    var spans := Spans(html, i);
    assert spans == [(s, e)] + Spans(html, e + 1);
    if TagContent(html, name, s, e).Some? {
      n := 0;
    } else {
      var n' := ExtractFromFirstSpan(html, name, e + 1, v);
      n := n' + 1;
      forall m | 0 <= m < n
        ensures TagContent(html, name, spans[m].0, spans[m].1).None?
      {
        if m > 0 {
          assert spans[m] == Spans(html, e + 1)[m - 1];
        }
      }
    }
  }

  /**
   * What is extracted is the tag-free markup between the first visited tag
   * that carries the class and has a balancing close, and that balancing
   * `</name>`.
   */
  lemma {:induction false} ExtractShape(html: string, name: string, v: string) returns (n: nat, ts: nat, te: nat, c: nat)
    requires Extract(html, name) == Some(v)
    ensures n < |Spans(html, 0)| && Spans(html, 0)[n] == (ts, te)
    ensures forall m :: 0 <= m < n ==> TagContent(html, name, Spans(html, 0)[m].0, Spans(html, 0)[m].1).None?
    ensures ts < te < c <= |html| && html[ts] == '<' && html[te] == '>'
    ensures Opens(html[ts + 1..te], name)
    ensures BalancingClose(html, TagName(html[ts + 1..te]), te + 1, 1) == Some(c)
    ensures IsAt(html, CloseTag(TagName(html[ts + 1..te])), c)
    ensures v == StripTags(html[te + 1..c])
  {
    n := ExtractFromFirstSpan(html, name, 0, v);
    ts, te := Spans(html, 0)[n].0, Spans(html, 0)[n].1;
    TagContentOpens(html, name, ts, te, html[ts + 1..te]);
    c := MatchedContentShape(html, ts, te, html[ts + 1..te], v);
  }

  /** The content after a matched opening tag, through the balancing close of its tag name. */
  lemma MatchedContentShape(html: string, ts: nat, te: nat, fullTag: string, v: string) returns (c: nat)
    requires ts < te < |html| && fullTag == html[ts + 1..te]
    requires ContentToClose(html, TagName(fullTag), te + 1) == Some(v)
    ensures BalancingClose(html, TagName(fullTag), te + 1, 1) == Some(c)
    ensures te < c <= |html| && IsAt(html, CloseTag(TagName(fullTag)), c)
    ensures v == StripTags(html[te + 1..c])
  {
    c := ContentToCloseShape(html, TagName(fullTag), te + 1, v);
  }

  /** Nothing is extracted from markup without a `<`. */
  lemma {:induction false} ExtractFromNoTag(html: string, name: string, i: nat)
    requires forall k :: i <= k < |html| ==> html[k] != '<'
    ensures ExtractFrom(html, name, i) == None
  {
    if i < |html| {
      FindIsFirst(html, "<", i);
      var ts := Find(html, "<", i);
      if ts >= 0 {
        IsAtChar(html, '<', ts);
      }
    }
  }

  /** One step of the outer scan over the span `(ts, te)` that starts at cursor `i`. */
  lemma ExtractFromStep(html: string, name: string, i: nat, ts: nat, te: nat)
    requires i < |html| && NextTag(html, i) == Some((ts, te))
    ensures TagContent(html, name, ts, te).Some? ==> ExtractFrom(html, name, i) == TagContent(html, name, ts, te)
    ensures TagContent(html, name, ts, te).None? ==> ExtractFrom(html, name, i) == ExtractFrom(html, name, te + 1)
  {
  }

  /** A span that is not a candidate carrying the class is passed over. */
  lemma ExtractFromSkip(html: string, name: string, i: nat, ts: nat, te: nat, fullTag: string, next: nat)
    requires i < |html| && NextTag(html, i) == Some((ts, te)) && fullTag == html[ts + 1..te] && next == te + 1
    requires !Opens(fullTag, name)
    ensures ExtractFrom(html, name, i) == ExtractFrom(html, name, next)
  {
    ExtractFromStep(html, name, i, ts, te);
  }

  /**
   * The outer scan over a matched span: it returns the content, which starts
   * at `contentStart`, or moves on to `next`.
   */
  lemma ExtractFromMatched(html: string, name: string, i: nat, ts: nat, te: nat, fullTag: string, tagName: string,
                           close: Option<nat>, contentStart: nat, next: nat)
    requires i < |html| && NextTag(html, i) == Some((ts, te)) && fullTag == html[ts + 1..te]
    requires contentStart == te + 1 && next == te + 1
    requires Opens(fullTag, name) && tagName == TagName(fullTag)
    requires close == BalancingClose(html, tagName, contentStart, 1)
    ensures close.None? ==> ExtractFrom(html, name, i) == ExtractFrom(html, name, next)
    ensures close.Some? ==>
      contentStart <= close.value <= |html| &&
      ExtractFrom(html, name, i) == Some(StripTags(html[contentStart..close.value]))
  {
    ExtractFromStep(html, name, i, ts, te);
    assert TagContent(html, name, ts, te) == ContentToClose(html, tagName, contentStart);
    ContentToCloseIs(html, tagName, contentStart, close);
  }

  /** The scanner's three early checks on a tag, passed together, make it a candidate. */
  lemma CandidateChecks(fullTag: string, tagName: string)
    requires fullTag == [] || (fullTag[0] != '/' && fullTag[0] != '!')
    requires tagName == TagName(fullTag) && tagName != []
    requires fullTag != [] ==> fullTag[|fullTag| - 1] != '/'
    ensures IsCandidateTag(fullTag)
  {
  }

  /** A step of the depth scan that finds an opening of the name before the next close. */
  lemma BalancingCloseOpen(html: string, name: string, j: nat, depth: nat, j': nat, depth': nat)
    requires depth >= 1 && j < |html|
    requires Find(html, CloseTag(name), j) >= 0
    requires FindOpen(html, name, j) >= 0 && FindOpen(html, name, j) < Find(html, CloseTag(name), j)
    requires j' == FindOpen(html, name, j) + |name| + 1 && depth' == depth + 1
    ensures BalancingClose(html, name, j, depth) == BalancingClose(html, name, j', depth')
  {
    BalancingCloseUnfold(html, name, j, depth);
  }

  /** A step of the depth scan that meets a close while the depth stays positive. */
  lemma BalancingCloseClose(html: string, name: string, j: nat, depth: nat, j': nat, depth': nat)
    requires depth > 1 && j < |html|
    requires Find(html, CloseTag(name), j) >= 0
    requires !(FindOpen(html, name, j) >= 0 && FindOpen(html, name, j) < Find(html, CloseTag(name), j))
    requires j' == Find(html, CloseTag(name), j) + |name| + 3 && depth' == depth - 1
    ensures BalancingClose(html, name, j, depth) == BalancingClose(html, name, j', depth')
  {
    BalancingCloseUnfold(html, name, j, depth);
  }

  /** The depth scan ends at the next close, or gives up when there is none. */
  lemma BalancingCloseEnds(html: string, name: string, j: nat, depth: nat)
    requires depth >= 1 && j < |html|
    ensures var c := Find(html, CloseTag(name), j); var o := FindOpen(html, name, j);
      (c < 0 ==> BalancingClose(html, name, j, depth) == None) &&
      (c >= 0 && !(o >= 0 && o < c) && depth == 1 ==> BalancingClose(html, name, j, depth) == Some(c))
  {
  }

  /**
   * The inner loop of the scanner: from just past a matched opening tag, count
   * openings and closes of `tagName` until the depth returns to zero.
   */
  method ScanToBalancingClose(html: string, tagName: string, contentStart: nat) returns (close: Option<nat>)
    ensures close == BalancingClose(html, tagName, contentStart, 1)
  {
    var depth: nat := 1;
    var j: nat := contentStart;
    while j < |html| && depth > 0
      invariant depth >= 1
      invariant BalancingClose(html, tagName, j, depth) == BalancingClose(html, tagName, contentStart, 1)
      decreases |html| - j
    {
      var nextOpen := FindOpen(html, tagName, j);
      var nextClose := Find(html, CloseTag(tagName), j);
      BalancingCloseEnds(html, tagName, j, depth);
      if nextClose < 0 {
        break;
      }
      ghost var j0, depth0 := j, depth;
      if nextOpen >= 0 && nextOpen < nextClose {
        depth := depth + 1;
        j := nextOpen + |tagName| + 1;
        BalancingCloseOpen(html, tagName, j0, depth0, j, depth);
      } else {
        depth := depth - 1;
        if depth == 0 {
          return Some(nextClose);
        }
        j := nextClose + |tagName| + 3;
        BalancingCloseClose(html, tagName, j0, depth0, j, depth);
      }
    }
    return None;
  }

  /** The scanner: a `<` cursor over the markup and, inside a matched element, a depth counter. */
  method ExtractByClass(html: string, name: string) returns (r: Option<string>)
    ensures r == Extract(html, name)
  {
    var i: nat := 0;
    while i < |html|
      invariant ExtractFrom(html, name, i) == Extract(html, name)
      decreases |html| - i
    {
      var tagStart := Find(html, "<", i);
      if tagStart < 0 {
        break;
      }
      var tagEnd := Find(html, ">", tagStart);
      if tagEnd < 0 {
        break;
      }
      assert NextTag(html, i) == Some((tagStart, tagEnd));
      ghost var i0 := i;
      var fullTag := html[tagStart + 1..tagEnd];
      if fullTag != [] && (fullTag[0] == '/' || fullTag[0] == '!') {
        i := tagEnd + 1;
        ExtractFromSkip(html, name, i0, tagStart, tagEnd, fullTag, i);
        continue;
      }
      var tagName := TagName(fullTag);
      if tagName == [] {
        i := tagEnd + 1;
        ExtractFromSkip(html, name, i0, tagStart, tagEnd, fullTag, i);
        continue;
      }
      if fullTag[|fullTag| - 1] == '/' {
        i := tagEnd + 1;
        ExtractFromSkip(html, name, i0, tagStart, tagEnd, fullTag, i);
        continue;
      }
      if !TagHasClass(fullTag, name) {
        i := tagEnd + 1;
        ExtractFromSkip(html, name, i0, tagStart, tagEnd, fullTag, i);
        continue;
      }
      CandidateChecks(fullTag, tagName);
      var contentStart := tagEnd + 1;
      var close := ScanToBalancingClose(html, tagName, contentStart);
      if close.Some? {
        ExtractFromMatched(html, name, i0, tagStart, tagEnd, fullTag, tagName, close, contentStart, contentStart);
        return Some(StripTags(html[contentStart..close.value]));
      }
      i := tagEnd + 1;
      ExtractFromMatched(html, name, i0, tagStart, tagEnd, fullTag, tagName, close, contentStart, i);
    }
    return None;
  }

  // ---------------------------------------------------------------------------
  // `extractByClasses`.

  /** An extraction that found something other than whitespace: one whose trimmed value is not empty. */
  predicate NonBlank(o: Option<string>) {
    o.Some? && !AllWhitespace(o.value)
  }

  /** The trimmed value of the first result that is not blank. */
  function FirstNonBlank(results: seq<Option<string>>): Option<string> {
    if results == [] then None
    else if NonBlank(results[0]) then Some(Trim(results[0].value))
    else FirstNonBlank(results[1..])
  }

  /** `FirstNonBlank` is None exactly when every result is blank. */
  lemma {:induction false} FirstNonBlankNone(results: seq<Option<string>>)
    ensures FirstNonBlank(results).None? <==> forall k :: 0 <= k < |results| ==> !NonBlank(results[k])
  {
    if results != [] && !NonBlank(results[0]) {
      FirstNonBlankNone(results[1..]);
      assert forall k :: 1 <= k < |results| ==> results[k] == results[1..][k - 1];
    }
  }

  /** `FirstNonBlank` is the trimmed value of the earliest non-blank result. */
  lemma {:induction false} FirstNonBlankIndex(results: seq<Option<string>>) returns (k: nat)
    requires FirstNonBlank(results).Some?
    ensures k < |results| && NonBlank(results[k]) && FirstNonBlank(results).value == Trim(results[k].value)
    ensures forall m :: 0 <= m < k ==> !NonBlank(results[m])
  {
    if NonBlank(results[0]) {
      k := 0;
    } else {
      var j := FirstNonBlankIndex(results[1..]);
      k := j + 1;
      assert forall m :: 1 <= m <= k ==> results[m] == results[1..][m - 1];
    }
  }

  /** What `extractByClass` gives for each class name, in list order. */
  function Extractions(html: string, names: seq<string>): (results: seq<Option<string>>)
    ensures |results| == |names|
  {
    if names == [] then [] else [Extract(html, names[0])] + Extractions(html, names[1..])
  }

  lemma {:induction false} ExtractionsAt(html: string, names: seq<string>, k: nat)
    requires k < |names|
    ensures Extractions(html, names)[k] == Extract(html, names[k])
  {
    if k > 0 {
      ExtractionsAt(html, names[1..], k - 1);
    }
  }

  /** `extractByClasses`: the trimmed result for the first class, in list order, whose extraction is not blank. */
  method ExtractByClasses(html: string, names: seq<string>) returns (r: Option<string>)
    ensures r == FirstNonBlank(Extractions(html, names))
  {
    ghost var results := Extractions(html, names);
    for k := 0 to |names|
      invariant FirstNonBlank(results[k..]) == FirstNonBlank(results)
    {
      var result := ExtractByClass(html, names[k]);
      ExtractionsAt(html, names, k);
      if result.Some? {
        var _ := TrimShape(result.value);
      }
      assert results[k..][0] == result;
      assert results[k..][1..] == results[k + 1..];
      if result.Some? && Trim(result.value) != [] {
        return Some(Trim(result.value));
      }
    }
    assert results[|names|..] == [];
    return None;
  }
}
