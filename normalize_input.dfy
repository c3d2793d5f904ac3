/**
 * The identifier normaliser: a fixed-order pipeline of flag-controlled global
 * rewrites that turns identifier-like text (kebab-case, snake_case, dot.case,
 * camelCase, PascalCase, acronyms, digits) into space-separated words.
 * Every regular expression of the source is an explicit left-to-right scan
 * here, with an independent reference definition proved equal to it.
 */
module NormalizeInput {
  import opened Strings

  /** The flag set the caller supplies for one call. */
  datatype NormalizeOptions = NormalizeOptions(
    normalizeText: bool,
    normalizeKebabCase: bool,
    normalizeSnakeCase: bool,
    normalizeDotCase: bool,
    normalizeMixedCase: bool,
    normalizeCamelCase: bool,
    normalizePascalCase: bool,
    normalizeConsecutiveUppercase: bool,
    normalizeAcronyms: bool,
    normalizeNumberBoundaries: bool,
    trimExtraSpaces: bool)

  // ---------------------------------------------------------------------------
  // Rules 1-3: `s.replace(/-/g, ' ')`, `/_/g`, `/\./g`.

  /** The one-character global replacement: every `c` becomes a space, one for one. */
  lemma {:induction false} ReplaceCharOneForOne(s: string, c: char)
    ensures |ReplaceAll(s, [c], " ")| == |s|
    ensures forall i :: 0 <= i < |s| ==>
      ReplaceAll(s, [c], " ")[i] == (if s[i] == c then ' ' else s[i])
  {
    if s != [] {
      ReplaceCharOneForOne(s[1..], c);
      assert s[..1] == [s[0]];
      var rest := ReplaceAll(s[1..], [c], " ");
      assert ReplaceAll(s, [c], " ") == [if s[0] == c then ' ' else s[0]] + rest;
    }
  }

  lemma ReplaceCharRemoves(s: string, c: char)
    requires c != ' '
    ensures c !in ReplaceAll(s, [c], " ")
  {
    ReplaceCharOneForOne(s, c);
  }

  lemma {:induction false} StripReplaceChar(s: string, c: char, X: set<char>)
    requires !IsWhitespace(c)
    ensures Strip(ReplaceAll(s, [c], " "), X) == Strip(s, X + {c})
  {
    if s != [] {
      StripReplaceChar(s[1..], c, X);
      assert s[..1] == [s[0]];
      var rest := ReplaceAll(s[1..], [c], " ");
      var r := ReplaceAll(s, [c], " ");
      assert r == [if s[0] == c then ' ' else s[0]] + rest;
      assert r[1..] == rest;
    }
  }

  /** A replacement never brings back a character that was absent and is not the space. */
  lemma {:induction false} ReplaceCharKeepsAbsent(s: string, c: char, d: char)
    requires d != ' ' && d !in s
    ensures d !in ReplaceAll(s, [c], " ")
  {
    ReplaceCharOneForOne(s, c);
  }

  // ---------------------------------------------------------------------------
  // Rule 4: `s.replace(/[-_.]+/g, ' ')`.

  predicate IsSeparator(c: char) { c == '-' || c == '_' || c == '.' }

  const Separators: set<char> := {'-', '_', '.'}

  predicate NoSeparator(s: string) {
    forall i :: 0 <= i < |s| ==> !IsSeparator(s[i])
  }

  /** The text after the leading run of separators. */
  function DropSeparators(s: string): (r: string)
    ensures |r| <= |s| && r == s[|s| - |r|..]
    ensures forall i :: 0 <= i < |s| - |r| ==> IsSeparator(s[i])
    ensures r != [] ==> !IsSeparator(r[0])
    ensures s != [] && IsSeparator(s[0]) ==> |r| < |s|
  {
    if s != [] && IsSeparator(s[0]) then DropSeparators(s[1..]) else s
  }

  /** Scan for the greedy pattern `[-_.]+`: each run found is replaced by one space. */
  function CollapseSeparators(s: string): string
    decreases |s|
  {
    if s == [] then []
    else if IsSeparator(s[0]) then
      var t := DropSeparators(s);
      " " + CollapseSeparators(t)
    else [s[0]] + CollapseSeparators(s[1..])
  }

  lemma {:induction false} CollapseSeparatorsRemoves(s: string)
    ensures NoSeparator(CollapseSeparators(s))
    decreases |s|
  {
    if s != [] {
      if IsSeparator(s[0]) {
        var t := DropSeparators(s);
        CollapseSeparatorsRemoves(t);
      } else {
        CollapseSeparatorsRemoves(s[1..]);
      }
    }
  }

  /** Text without separators is left as it is. */
  lemma {:induction false} CollapseSeparatorsIdentity(s: string)
    requires NoSeparator(s)
    ensures CollapseSeparators(s) == s
  {
    if s != [] {
      CollapseSeparatorsIdentity(s[1..]);
    }
  }

  /** A whole run of separators becomes exactly one space. */
  lemma CollapseSeparatorsRun(run: string, t: string)
    requires run != [] && forall i :: 0 <= i < |run| ==> IsSeparator(run[i])
    requires t == [] || !IsSeparator(t[0])
    ensures CollapseSeparators(run + t) == " " + CollapseSeparators(t)
  {
    DropRun(run, t);
  }

  lemma {:induction false} DropRun(run: string, t: string)
    requires forall i :: 0 <= i < |run| ==> IsSeparator(run[i])
    requires t == [] || !IsSeparator(t[0])
    ensures DropSeparators(run + t) == t
  {
    if run == [] {
      assert run + t == t;
    } else {
      assert (run + t)[0] == run[0];
      assert (run + t)[1..] == run[1..] + t;
      DropRun(run[1..], t);
    }
  }

  lemma {:induction false} StripCollapseSeparators(s: string, X: set<char>)
    ensures Strip(CollapseSeparators(s), X) == Strip(s, X + Separators)
    decreases |s|
  {
    if s != [] {
      if IsSeparator(s[0]) {
        var t := DropSeparators(s);
        var run := s[..|s| - |t|];
        assert s == run + t;
        StripRun(run, X);
        StripAppend(run, t, X + Separators);
        CollapseSeparatorsRun(run, t);
        StripCollapseSeparators(t, X);
        StripAppend(" ", CollapseSeparators(t), X);
      } else {
        StripCollapseSeparators(s[1..], X);
        StripAppend([s[0]], CollapseSeparators(s[1..]), X);
        assert s == [s[0]] + s[1..];
        StripAppend([s[0]], s[1..], X + Separators);
      }
    }
  }

  lemma {:induction false} StripRun(run: string, X: set<char>)
    requires forall i :: 0 <= i < |run| ==> IsSeparator(run[i])
    ensures Strip(run, X + Separators) == []
  {
    if run != [] {
      StripRun(run[1..], X);
    }
  }

  lemma {:induction false} CollapseSeparatorsKeepsAbsent(s: string, d: char)
    requires d != ' ' && d !in s
    ensures d !in CollapseSeparators(s)
    decreases |s|
  {
    if s != [] {
      if IsSeparator(s[0]) {
        var t := DropSeparators(s);
        CollapseSeparatorsKeepsAbsent(t, d);
      } else {
        CollapseSeparatorsKeepsAbsent(s[1..], d);
      }
    }
  }

  // ---------------------------------------------------------------------------
  // Rules 5 and 8: `([a-z])([A-Z])`, `([a-zA-Z])(\d)` and `(\d)([a-zA-Z])`, each replaced by '$1 $2'.

  datatype Boundary = LowerUpper | LetterDigit | DigitLetter

  predicate IsBoundary(b: Boundary, x: char, y: char) {
    match b
    case LowerUpper => IsLower(x) && IsUpper(y)
    case LetterDigit => IsLetter(x) && IsDigit(y)
    case DigitLetter => IsDigit(x) && IsLetter(y)
  }

  /** No two adjacent characters form the boundary `b`. */
  predicate NoBoundary(s: string, b: Boundary) {
    forall i :: 0 <= i < |s| - 1 ==> !IsBoundary(b, s[i], s[i + 1])
  }

  lemma NoBoundaryCons(x: char, t: string, b: Boundary)
    ensures NoBoundary([x] + t, b) <==> NoBoundary(t, b) && (t == [] || !IsBoundary(b, x, t[0]))
  {
    var s := [x] + t;
    assert forall i :: 0 <= i < |t| ==> s[i + 1] == t[i];
    if NoBoundary(t, b) && (t == [] || !IsBoundary(b, x, t[0])) {
      forall i | 0 <= i < |s| - 1 ensures !IsBoundary(b, s[i], s[i + 1]) {
        if i > 0 { assert !IsBoundary(b, t[i - 1], t[i]); }
      }
    }
    if NoBoundary(s, b) {
      forall i | 0 <= i < |t| - 1 ensures !IsBoundary(b, t[i], t[i + 1]) {
        assert !IsBoundary(b, s[i + 1], s[i + 2]);
      }
      if t != [] { assert !IsBoundary(b, s[0], s[1]); }
    }
  }

  /** The global scan: a match consumes both characters and the scan resumes after them. */
  function SplitPairs(s: string, b: Boundary): string {
    if |s| >= 2 && IsBoundary(b, s[0], s[1]) then [s[0], ' ', s[1]] + SplitPairs(s[2..], b)
    else if s == [] then []
    else [s[0]] + SplitPairs(s[1..], b)
  }

  /** Reference: one space in every gap whose two neighbours form the boundary, nothing else changed. */
  function SpacedAt(s: string, b: Boundary): string {
    if s == [] then []
    else [s[0]] + (if |s| >= 2 && IsBoundary(b, s[0], s[1]) then " " else "") + SpacedAt(s[1..], b)
  }

  /** The scan inserts a space at every boundary: a matched pair never overlaps the next one. */
  lemma {:induction false} SplitPairsIsSpacedAt(s: string, b: Boundary)
    ensures SplitPairs(s, b) == SpacedAt(s, b)
  {
    if |s| >= 2 && IsBoundary(b, s[0], s[1]) {
      var rest := s[2..];
      SplitPairsIsSpacedAt(rest, b);
      var t := s[1..];
      var r := SpacedAt(rest, b);
      assert t[1..] == rest;
      assert !(|t| >= 2 && IsBoundary(b, t[0], t[1]));
      assert SpacedAt(t, b) == [s[1]] + r;
      assert SpacedAt(s, b) == [s[0]] + [' '] + ([s[1]] + r);
      ConsThree(s[0], ' ', s[1], r);
    } else if s != [] {
      SplitPairsIsSpacedAt(s[1..], b);
    }
  }

  /** Three elements put in front of `r` one by one or all at once give the same sequence. */
  lemma ConsThree<T>(x: T, y: T, z: T, r: seq<T>)
    ensures [x] + [y] + ([z] + r) == [x, y, z] + r
  {
  }

  lemma SpacedAtHead(s: string, b: Boundary)
    requires s != []
    ensures |SpacedAt(s, b)| >= |s| && SpacedAt(s, b)[0] == s[0]
    ensures |s| >= 2 ==> SpacedAt(s, b)[1] == (if IsBoundary(b, s[0], s[1]) then ' ' else s[1])
  {
    SpacedAtLength(s, b);
    if |s| >= 2 {
      SpacedAtLength(s[1..], b);
    }
  }

  lemma {:induction false} SpacedAtLength(s: string, b: Boundary)
    ensures |SpacedAt(s, b)| >= |s|
    ensures s != [] ==> SpacedAt(s, b)[0] == s[0]
  {
    if s != [] {
      SpacedAtLength(s[1..], b);
      if |s| >= 2 {
        assert s[1..][0] == s[1];
      }
    }
  }

  /** After the rewrite, no boundary `b` is left. */
  lemma {:induction false} SpacedAtRemovesBoundary(s: string, b: Boundary)
    ensures NoBoundary(SpacedAt(s, b), b)
  {
    if s != [] {
      SpacedAtRemovesBoundary(s[1..], b);
      var rest := SpacedAt(s[1..], b);
      if |s| >= 2 {
        SpacedAtHead(s[1..], b);
        assert s[1..][0] == s[1];
      }
      if |s| >= 2 && IsBoundary(b, s[0], s[1]) {
        assert SpacedAt(s, b) == [s[0]] + ([' '] + rest);
        NoBoundaryCons(' ', rest, b);
        NoBoundaryCons(s[0], [' '] + rest, b);
      } else {
        assert SpacedAt(s, b) == [s[0]] + rest;
        NoBoundaryCons(s[0], rest, b);
      }
    }
  }

  /** Inserting spaces creates no boundary of another kind (a space is neither letter nor digit). */
  lemma {:induction false} SpacedAtKeepsNoBoundary(s: string, b: Boundary, other: Boundary)
    requires NoBoundary(s, other)
    ensures NoBoundary(SpacedAt(s, b), other)
  {
    if s != [] {
      assert s == [s[0]] + s[1..];
      NoBoundaryCons(s[0], s[1..], other);
      SpacedAtKeepsNoBoundary(s[1..], b, other);
      var rest := SpacedAt(s[1..], b);
      if |s| >= 2 {
        SpacedAtHead(s[1..], b);
        assert s[1..][0] == s[1];
      }
      if |s| >= 2 && IsBoundary(b, s[0], s[1]) {
        assert SpacedAt(s, b) == [s[0]] + ([' '] + rest);
        NoBoundaryCons(' ', rest, other);
        NoBoundaryCons(s[0], [' '] + rest, other);
      } else {
        assert SpacedAt(s, b) == [s[0]] + rest;
        NoBoundaryCons(s[0], rest, other);
      }
    }
  }

  lemma {:induction false} StripSpacedAt(s: string, b: Boundary, X: set<char>)
    ensures Strip(SpacedAt(s, b), X) == Strip(s, X)
  {
    if s != [] {
      StripSpacedAt(s[1..], b, X);
      var gap: string := if |s| >= 2 && IsBoundary(b, s[0], s[1]) then " " else "";
      StripAppend([s[0]] + gap, SpacedAt(s[1..], b), X);
      StripAppend([s[0]], gap, X);
      assert s == [s[0]] + s[1..];
      StripAppend([s[0]], s[1..], X);
    }
  }

  lemma {:induction false} SpacedAtKeepsAbsent(s: string, b: Boundary, d: char)
    requires d != ' ' && d !in s
    ensures d !in SpacedAt(s, b)
  {
    if s != [] {
      SpacedAtKeepsAbsent(s[1..], b, d);
    }
  }

  // ---------------------------------------------------------------------------
  // Rules 6 and 7: `([A-Z]+)([A-Z]+[a-z])` and `([A-Z]+)([A-Z][a-z])`, each replaced by '$1 $2'.
  //
  // At a scan position both patterns match exactly when the maximal run of
  // capitals starting there has length two or more and is followed by a
  // lower-case letter; after backtracking the first group is the run without
  // its last capital in both, and the match ends after the lower-case letter.
  // The same scan therefore models both rules.

  /** Length of the leading run of capitals. */
  function UpperRun(s: string): (k: nat)
    ensures k <= |s|
    ensures forall i :: 0 <= i < k ==> IsUpper(s[i])
    ensures k < |s| ==> !IsUpper(s[k])
  {
    if s != [] && IsUpper(s[0]) then 1 + UpperRun(s[1..]) else 0
  }

  /** The global scan shared by both acronym rules. */
  function SplitAcronyms(s: string): string
    decreases |s|
  {
    if s == [] then []
    else
      var k := UpperRun(s);
      if k >= 2 && k < |s| && IsLower(s[k]) then
        s[..k - 1] + " " + s[k - 1..k + 1] + SplitAcronyms(s[k + 1..])
      else [s[0]] + SplitAcronyms(s[1..])
  }

  /** Capital, capital, lower-case letter starting at `i`. */
  predicate AcronymWindow(s: string, i: int)
    requires 0 <= i
  {
    i + 2 < |s| && IsUpper(s[i]) && IsUpper(s[i + 1]) && IsLower(s[i + 2])
  }

  /** Reference: a space before every capital that follows a capital and precedes a lower-case letter. */
  function AcronymSpaced(s: string): string {
    if s == [] then []
    else [s[0]] + (if AcronymWindow(s, 0) then " " else "") + AcronymSpaced(s[1..])
  }

  lemma {:induction false} AcronymSpacedPlain(s: string)
    requires s != [] && !AcronymWindow(s, 0)
    ensures AcronymSpaced(s) == [s[0]] + AcronymSpaced(s[1..])
  {
  }

  /** Inside a run of `k` capitals followed by a lower-case letter only the last gap gets a space. */
  lemma {:induction false} AcronymSpacedRun(s: string, k: nat)
    requires 2 <= k < |s|
    requires forall i :: 0 <= i < k ==> IsUpper(s[i])
    requires IsLower(s[k])
    ensures AcronymSpaced(s) == s[..k - 1] + " " + s[k - 1..k + 1] + AcronymSpaced(s[k + 1..])
  {
    var x := AcronymSpaced(s[k + 1..]);
    var t := s[1..];
    if k == 2 {
      assert AcronymWindow(s, 0);
      assert AcronymSpaced(s) == [s[0]] + [' '] + AcronymSpaced(t);
      assert !AcronymWindow(t, 0);
      AcronymSpacedPlain(t);
      var u := t[1..];
      assert u == s[2..] && u[0] == s[2];
      assert !AcronymWindow(u, 0);
      AcronymSpacedPlain(u);
      assert u[1..] == s[3..];
      assert s[..1] == [s[0]] && s[1..3] == [s[1], s[2]];
      PairRegroup(s[0], ' ', s[1], s[2], x);
    } else {
      assert !AcronymWindow(s, 0);
      AcronymSpacedPlain(s);
      AcronymSpacedRun(t, k - 1);
      assert t[k..] == s[k + 1..];
      assert t[..k - 2] == s[1..k - 1];
      assert t[k - 2..k] == s[k - 1..k + 1];
      assert s[..k - 1] == [s[0]] + s[1..k - 1];
      ConsRegroup(s[0], s[1..k - 1], " ", s[k - 1..k + 1], x);
    }
  }

  /** Two single elements in front of two more, regrouped as a pair. */
  lemma PairRegroup<T>(a: T, b: T, c: T, d: T, x: seq<T>)
    ensures [a] + [b] + ([c] + ([d] + x)) == [a] + [b] + [c, d] + x
  {
  }

  /** An element in front of a four-piece concatenation joins its first piece. */
  lemma ConsRegroup<T>(a: T, p: seq<T>, q: seq<T>, r: seq<T>, x: seq<T>)
    ensures [a] + (p + q + r + x) == ([a] + p) + q + r + x
  {
  }

  /** A window at the front is a run of exactly two capitals followed by a lower-case letter. */
  lemma UpperRunWindow(s: string)
    requires AcronymWindow(s, 0)
    ensures UpperRun(s) == 2 && IsLower(s[2])
  {
  }

  /** The scan equals the reference: both acronym rules insert exactly those spaces. */
  lemma {:induction false} SplitAcronymsIsAcronymSpaced(s: string)
    ensures SplitAcronyms(s) == AcronymSpaced(s)
    decreases |s|
  {
    if s != [] {
      var k := UpperRun(s);
      if k >= 2 && k < |s| && IsLower(s[k]) {
        SplitAcronymsIsAcronymSpaced(s[k + 1..]);
        SplitAcronymsRun(s, k);
      } else {
        SplitAcronymsIsAcronymSpaced(s[1..]);
        SplitAcronymsPlain(s, k);
      }
    }
  }

  /** A run of capitals ending before a lower-case letter: both sides put one space before its last capital. */
  lemma SplitAcronymsRun(s: string, k: nat)
    requires k == UpperRun(s) && 2 <= k < |s| && IsLower(s[k])
    requires SplitAcronyms(s[k + 1..]) == AcronymSpaced(s[k + 1..])
    ensures SplitAcronyms(s) == AcronymSpaced(s)
  {
    assert SplitAcronyms(s) == s[..k - 1] + " " + s[k - 1..k + 1] + SplitAcronyms(s[k + 1..]);
    AcronymSpacedRun(s, k);
  }

  /** Anywhere else both sides keep the first character and go on with the rest. */
  lemma SplitAcronymsPlain(s: string, k: nat)
    requires s != [] && k == UpperRun(s) && !(2 <= k < |s| && IsLower(s[k]))
    requires SplitAcronyms(s[1..]) == AcronymSpaced(s[1..])
    ensures SplitAcronyms(s) == AcronymSpaced(s)
  {
    assert !AcronymWindow(s, 0) by {
      if AcronymWindow(s, 0) {
        UpperRunWindow(s);
      }
    }
    assert SplitAcronyms(s) == [s[0]] + SplitAcronyms(s[1..]);
    AcronymSpacedPlain(s);
  }

  predicate NoAcronymWindow(s: string) {
    forall i :: 0 <= i < |s| ==> !AcronymWindow(s, i)
  }

  lemma NoAcronymWindowCons(x: char, t: string)
    ensures NoAcronymWindow([x] + t) <==>
      NoAcronymWindow(t) && !(|t| >= 2 && IsUpper(x) && IsUpper(t[0]) && IsLower(t[1]))
  {
    var s := [x] + t;
    assert forall i :: 0 <= i < |t| ==> s[i + 1] == t[i];
    forall i | 0 <= i < |t| ensures AcronymWindow(s, i + 1) == AcronymWindow(t, i) {
    }
    if NoAcronymWindow(t) && !(|t| >= 2 && IsUpper(x) && IsUpper(t[0]) && IsLower(t[1])) {
      forall i | 0 <= i < |s| ensures !AcronymWindow(s, i) {
        if i > 0 { assert !AcronymWindow(t, i - 1); }
      }
    }
    if NoAcronymWindow(s) {
      assert !AcronymWindow(s, 0);
      forall i | 0 <= i < |t| ensures !AcronymWindow(t, i) {
        assert !AcronymWindow(s, i + 1);
      }
    }
  }

  lemma {:induction false} AcronymSpacedLength(s: string)
    ensures |AcronymSpaced(s)| >= |s|
    ensures s != [] ==> AcronymSpaced(s)[0] == s[0]
  {
    if s != [] {
      AcronymSpacedLength(s[1..]);
    }
  }

  lemma AcronymSpacedHead(s: string)
    requires |s| >= 2
    ensures |AcronymSpaced(s)| >= 2
    ensures AcronymSpaced(s)[1] == (if AcronymWindow(s, 0) then ' ' else s[1])
  {
    AcronymSpacedLength(s[1..]);
    assert s[1..][0] == s[1];
  }

  /** After the rewrite no capital-capital-lower-case window is left. */
  lemma {:induction false} AcronymSpacedRemovesWindows(s: string)
    ensures NoAcronymWindow(AcronymSpaced(s))
  {
    if s != [] {
      AcronymSpacedRemovesWindows(s[1..]);
      var rest := AcronymSpaced(s[1..]);
      AcronymSpacedLength(s[1..]);
      if AcronymWindow(s, 0) {
        assert AcronymSpaced(s) == [s[0]] + ([' '] + rest);
        NoAcronymWindowCons(' ', rest);
        NoAcronymWindowCons(s[0], [' '] + rest);
      } else {
        assert AcronymSpaced(s) == [s[0]] + rest;
        if |s| >= 3 {
          AcronymSpacedHead(s[1..]);
          assert s[1..][0] == s[1] && s[1..][1] == s[2];
        }
        NoAcronymWindowCons(s[0], rest);
      }
    }
  }

  lemma {:induction false} AcronymSpacedIdentity(s: string)
    requires NoAcronymWindow(s)
    ensures AcronymSpaced(s) == s
  {
    if s != [] {
      assert NoAcronymWindow(s[1..]) by {
        forall i | 0 <= i < |s[1..]| ensures !AcronymWindow(s[1..], i) {
          assert !AcronymWindow(s, i + 1);
        }
      }
      AcronymSpacedIdentity(s[1..]);
    }
  }

  /** Applying the acronym rule after the consecutive-uppercase rule changes nothing. */
  lemma SplitAcronymsIdempotent(s: string)
    ensures SplitAcronyms(SplitAcronyms(s)) == SplitAcronyms(s)
  {
    SplitAcronymsIsAcronymSpaced(s);
    AcronymSpacedRemovesWindows(s);
    SplitAcronymsIsAcronymSpaced(AcronymSpaced(s));
    AcronymSpacedIdentity(AcronymSpaced(s));
  }

  lemma {:induction false} AcronymSpacedKeepsNoBoundary(s: string, other: Boundary)
    requires NoBoundary(s, other)
    ensures NoBoundary(AcronymSpaced(s), other)
  {
    if s != [] {
      assert s == [s[0]] + s[1..];
      NoBoundaryCons(s[0], s[1..], other);
      AcronymSpacedKeepsNoBoundary(s[1..], other);
      var rest := AcronymSpaced(s[1..]);
      AcronymSpacedLength(s[1..]);
      if |s| >= 2 { assert s[1..][0] == s[1]; }
      if AcronymWindow(s, 0) {
        assert AcronymSpaced(s) == [s[0]] + ([' '] + rest);
        NoBoundaryCons(' ', rest, other);
        NoBoundaryCons(s[0], [' '] + rest, other);
      } else {
        assert AcronymSpaced(s) == [s[0]] + rest;
        NoBoundaryCons(s[0], rest, other);
      }
    }
  }

  lemma {:induction false} SpacedAtKeepsNoAcronymWindow(s: string, b: Boundary)
    requires NoAcronymWindow(s)
    ensures NoAcronymWindow(SpacedAt(s, b))
  {
    if s != [] {
      assert s == [s[0]] + s[1..];
      NoAcronymWindowCons(s[0], s[1..]);
      SpacedAtKeepsNoAcronymWindow(s[1..], b);
      var rest := SpacedAt(s[1..], b);
      if |s| >= 2 && IsBoundary(b, s[0], s[1]) {
        assert SpacedAt(s, b) == [s[0]] + ([' '] + rest);
        NoAcronymWindowCons(' ', rest);
        NoAcronymWindowCons(s[0], [' '] + rest);
      } else {
        assert SpacedAt(s, b) == [s[0]] + rest;
        if |s| >= 2 {
          SpacedAtHead(s[1..], b);
          assert s[1..][0] == s[1];
        }
        if |s| >= 3 {
          assert s[1..][1] == s[2];
        }
        NoAcronymWindowCons(s[0], rest);
      }
    }
  }

  lemma {:induction false} StripAcronymSpaced(s: string, X: set<char>)
    ensures Strip(AcronymSpaced(s), X) == Strip(s, X)
  {
    if s != [] {
      StripAcronymSpaced(s[1..], X);
      var gap: string := if AcronymWindow(s, 0) then " " else "";
      StripAppend([s[0]] + gap, AcronymSpaced(s[1..]), X);
      StripAppend([s[0]], gap, X);
      assert s == [s[0]] + s[1..];
      StripAppend([s[0]], s[1..], X);
    }
  }

  lemma {:induction false} AcronymSpacedKeepsAbsent(s: string, d: char)
    requires d != ' ' && d !in s
    ensures d !in AcronymSpaced(s)
  {
    if s != [] {
      AcronymSpacedKeepsAbsent(s[1..], d);
    }
  }

  // ---------------------------------------------------------------------------
  // Rule 9: `s.replace(/\s{2,}/g, ' ').trim()`.

  lemma NoDoubleWhitespaceCons(x: char, t: string)
    ensures NoDoubleWhitespace([x] + t) <==>
      NoDoubleWhitespace(t) && !(t != [] && IsWhitespace(x) && IsWhitespace(t[0]))
  {
    var s := [x] + t;
    assert forall i :: 0 <= i < |t| ==> s[i + 1] == t[i];
    if NoDoubleWhitespace(t) && !(t != [] && IsWhitespace(x) && IsWhitespace(t[0])) {
      forall i | 0 <= i < |s| - 1 ensures !(IsWhitespace(s[i]) && IsWhitespace(s[i + 1])) {
        if i > 0 { assert !(IsWhitespace(t[i - 1]) && IsWhitespace(t[i])); }
      }
    }
    if NoDoubleWhitespace(s) {
      forall i | 0 <= i < |t| - 1 ensures !(IsWhitespace(t[i]) && IsWhitespace(t[i + 1])) {
        assert !(IsWhitespace(s[i + 1]) && IsWhitespace(s[i + 2]));
      }
      if t != [] { assert !(IsWhitespace(s[0]) && IsWhitespace(s[1])); }
    }
  }

  /** Scan for the greedy pattern `\s{2,}`: a run of two or more whitespace characters becomes one space. */
  function CollapseWhitespace(s: string): string
    decreases |s|
  {
    if s == [] then []
    else if |s| >= 2 && IsWhitespace(s[0]) && IsWhitespace(s[1]) then
      var t := TrimStart(s);
      " " + CollapseWhitespace(t)
    else [s[0]] + CollapseWhitespace(s[1..])
  }

  lemma CollapseWhitespaceHead(s: string)
    requires s != []
    ensures CollapseWhitespace(s) != []
    ensures CollapseWhitespace(s)[0] == (if |s| >= 2 && IsWhitespace(s[0]) && IsWhitespace(s[1]) then ' ' else s[0])
  {
  }

  /** After the rewrite no two whitespace characters are adjacent. */
  lemma {:induction false} CollapseWhitespaceNoDouble(s: string)
    ensures NoDoubleWhitespace(CollapseWhitespace(s))
    decreases |s|
  {
    if s != [] {
      if |s| >= 2 && IsWhitespace(s[0]) && IsWhitespace(s[1]) {
        var t := TrimStart(s);
        TrimStartShape(s);
        CollapseWhitespaceNoDouble(t);
        var rest := CollapseWhitespace(t);
        assert CollapseWhitespace(s) == [' '] + rest;
        if t != [] { CollapseWhitespaceHead(t); }
        NoDoubleWhitespaceCons(' ', rest);
      } else {
        CollapseWhitespaceNoDouble(s[1..]);
        var rest := CollapseWhitespace(s[1..]);
        assert CollapseWhitespace(s) == [s[0]] + rest;
        if |s| >= 2 {
          CollapseWhitespaceHead(s[1..]);
          assert s[1..][0] == s[1];
        }
        NoDoubleWhitespaceCons(s[0], rest);
      }
    }
  }

  lemma TrimKeepsNoDouble(s: string)
    requires NoDoubleWhitespace(s)
    ensures NoDoubleWhitespace(Trim(s))
  {
    var a := TrimShape(s);
    var r := Trim(s);
    forall i | 0 <= i < |r| - 1 ensures !(IsWhitespace(r[i]) && IsWhitespace(r[i + 1])) {
      assert r[i] == s[a + i] && r[i + 1] == s[a + i + 1];
    }
  }

  lemma {:induction false} StripCollapseWhitespace(s: string, X: set<char>)
    ensures Strip(CollapseWhitespace(s), X) == Strip(s, X)
    decreases |s|
  {
    if s != [] {
      if |s| >= 2 && IsWhitespace(s[0]) && IsWhitespace(s[1]) {
        var t := TrimStart(s);
        TrimStartShape(s);
        var head := s[..|s| - |t|];
        assert s == head + t;
        StripCollapseWhitespace(t, X);
        StripAppend(" ", CollapseWhitespace(t), X);
        StripAppend(head, t, X);
        StripWhitespace(head, X);
      } else {
        StripCollapseWhitespace(s[1..], X);
        StripAppend([s[0]], CollapseWhitespace(s[1..]), X);
        assert s == [s[0]] + s[1..];
        StripAppend([s[0]], s[1..], X);
      }
    }
  }

  lemma {:induction false} CollapseWhitespaceKeepsNoBoundary(s: string, other: Boundary)
    requires NoBoundary(s, other)
    ensures NoBoundary(CollapseWhitespace(s), other)
    decreases |s|
  {
    if s != [] {
      if |s| >= 2 && IsWhitespace(s[0]) && IsWhitespace(s[1]) {
        var t := TrimStart(s);
        TrimStartShape(s);
        NoBoundarySuffix(s, |s| - |t|, other);
        CollapseWhitespaceKeepsNoBoundary(t, other);
        var rest := CollapseWhitespace(t);
        assert CollapseWhitespace(s) == [' '] + rest;
        NoBoundaryCons(' ', rest, other);
      } else {
        assert s == [s[0]] + s[1..];
        NoBoundaryCons(s[0], s[1..], other);
        CollapseWhitespaceKeepsNoBoundary(s[1..], other);
        var rest := CollapseWhitespace(s[1..]);
        assert CollapseWhitespace(s) == [s[0]] + rest;
        if |s| >= 2 {
          CollapseWhitespaceHead(s[1..]);
          assert s[1..][0] == s[1];
        }
        NoBoundaryCons(s[0], rest, other);
      }
    }
  }

  lemma NoBoundarySuffix(s: string, d: nat, other: Boundary)
    requires d <= |s| && NoBoundary(s, other)
    ensures NoBoundary(s[d..], other)
  {
    var t := s[d..];
    forall i | 0 <= i < |t| - 1 ensures !IsBoundary(other, t[i], t[i + 1]) {
      assert t[i] == s[d + i] && t[i + 1] == s[d + i + 1];
    }
  }

  lemma NoAcronymWindowSuffix(s: string, d: nat)
    requires d <= |s| && NoAcronymWindow(s)
    ensures NoAcronymWindow(s[d..])
  {
    var t := s[d..];
    forall i | 0 <= i < |t| ensures !AcronymWindow(t, i) {
      assert !AcronymWindow(s, d + i);
      if i + 2 < |t| { assert t[i] == s[d + i] && t[i + 1] == s[d + i + 1] && t[i + 2] == s[d + i + 2]; }
    }
  }

  lemma {:induction false} CollapseWhitespaceKeepsNoAcronymWindow(s: string)
    requires NoAcronymWindow(s)
    ensures NoAcronymWindow(CollapseWhitespace(s))
    decreases |s|
  {
    if s != [] {
      if |s| >= 2 && IsWhitespace(s[0]) && IsWhitespace(s[1]) {
        var t := TrimStart(s);
        TrimStartShape(s);
        NoAcronymWindowSuffix(s, |s| - |t|);
        CollapseWhitespaceKeepsNoAcronymWindow(t);
        var rest := CollapseWhitespace(t);
        assert CollapseWhitespace(s) == [' '] + rest;
        NoAcronymWindowCons(' ', rest);
      } else {
        assert s == [s[0]] + s[1..];
        NoAcronymWindowCons(s[0], s[1..]);
        CollapseWhitespaceKeepsNoAcronymWindow(s[1..]);
        var rest := CollapseWhitespace(s[1..]);
        assert CollapseWhitespace(s) == [s[0]] + rest;
        if |s| >= 2 {
          CollapseWhitespaceHead(s[1..]);
          assert s[1..][0] == s[1];
        }
        if |s| >= 3 && IsUpper(s[1]) {
          assert !IsWhitespace(s[1]);
          CollapseWhitespaceLeadingKept(s[1..]);
          assert s[1..][1] == s[2];
        }
        NoAcronymWindowCons(s[0], rest);
      }
    }
  }

  /** A leading character that is not whitespace is kept, followed by the collapse of the rest. */
  lemma CollapseWhitespaceLeadingKept(s: string)
    requires |s| >= 2 && !IsWhitespace(s[0])
    ensures CollapseWhitespace(s) == [s[0]] + CollapseWhitespace(s[1..])
    ensures CollapseWhitespace(s)[1] == (if |s| >= 3 && IsWhitespace(s[1]) && IsWhitespace(s[2]) then ' ' else s[1])
  {
    CollapseWhitespaceHead(s[1..]);
    assert s[1..][0] == s[1];
    if |s| >= 3 { assert s[1..][1] == s[2]; }
  }

  lemma TrimKeepsNoBoundary(s: string, other: Boundary)
    requires NoBoundary(s, other)
    ensures NoBoundary(Trim(s), other)
  {
    var a := TrimShape(s);
    var r := Trim(s);
    NoBoundarySuffix(s, a, other);
    var t := s[a..];
    assert r == t[..|r|];
    forall i | 0 <= i < |r| - 1 ensures !IsBoundary(other, r[i], r[i + 1]) {
      assert r[i] == t[i] && r[i + 1] == t[i + 1];
    }
  }

  lemma TrimKeepsNoAcronymWindow(s: string)
    requires NoAcronymWindow(s)
    ensures NoAcronymWindow(Trim(s))
  {
    var a := TrimShape(s);
    var r := Trim(s);
    NoAcronymWindowSuffix(s, a);
    var t := s[a..];
    assert r == t[..|r|];
    forall i | 0 <= i < |r| ensures !AcronymWindow(r, i) {
      assert !AcronymWindow(t, i);
      if i + 2 < |r| { assert r[i] == t[i] && r[i + 1] == t[i + 1] && r[i + 2] == t[i + 2]; }
    }
  }

  lemma {:induction false} CollapseWhitespaceKeepsAbsent(s: string, d: char)
    requires d != ' ' && d !in s
    ensures d !in CollapseWhitespace(s)
    decreases |s|
  {
    if s != [] {
      if |s| >= 2 && IsWhitespace(s[0]) && IsWhitespace(s[1]) {
        var t := TrimStart(s);
        TrimStartShape(s);
        CollapseWhitespaceKeepsAbsent(t, d);
      } else {
        CollapseWhitespaceKeepsAbsent(s[1..], d);
      }
    }
  }

  lemma {:induction false} CollapseWhitespaceShorter(s: string)
    ensures |CollapseWhitespace(s)| <= |s|
    decreases |s|
  {
    if s != [] {
      if |s| >= 2 && IsWhitespace(s[0]) && IsWhitespace(s[1]) {
        CollapseWhitespaceShorter(TrimStart(s));
      } else {
        CollapseWhitespaceShorter(s[1..]);
      }
    }
  }

  /** `s.replace(/\s{2,}/g, ' ').trim()`. */
  function TidySpaces(s: string): (r: string)
    ensures Unpadded(r) && NoDoubleWhitespace(r)
    ensures Strip(r, {}) == Strip(s, {})
  {
    var c := CollapseWhitespace(s);
    CollapseWhitespaceNoDouble(s);
    TrimKeepsNoDouble(c);
    StripCollapseWhitespace(s, {});
    StripTrim(c, {});
    TrimUnpadded(c);
    Trim(c)
  }

  // ---------------------------------------------------------------------------
  // The pipeline: nine rules, each switched on by its flag, applied in this order.

  datatype Rule = Kebab | Snake | Dot | Mixed | Camel | ConsecutiveUpper | Acronym | NumberBoundary | TrimSpaces

  const Rules: seq<Rule> := [Kebab, Snake, Dot, Mixed, Camel, ConsecutiveUpper, Acronym, NumberBoundary, TrimSpaces]

  /** Whether the caller's flags switch `rule` on; camelCase and PascalCase share one rewrite. */
  predicate Enabled(rule: Rule, opts: NormalizeOptions) {
    match rule
    case Kebab => opts.normalizeKebabCase
    case Snake => opts.normalizeSnakeCase
    case Dot => opts.normalizeDotCase
    case Mixed => opts.normalizeMixedCase
    case Camel => opts.normalizeCamelCase || opts.normalizePascalCase
    case ConsecutiveUpper => opts.normalizeConsecutiveUppercase
    case Acronym => opts.normalizeAcronyms
    case NumberBoundary => opts.normalizeNumberBoundaries
    case TrimSpaces => opts.trimExtraSpaces
  }

  /** The rewrite a rule performs. */
  function Rewrite(rule: Rule, s: string): string {
    match rule
    case Kebab => ReplaceAll(s, "-", " ")
    case Snake => ReplaceAll(s, "_", " ")
    case Dot => ReplaceAll(s, ".", " ")
    case Mixed => CollapseSeparators(s)
    case Camel => SplitPairs(s, LowerUpper)
    case ConsecutiveUpper => SplitAcronyms(s)
    case Acronym => SplitAcronyms(s)
    case NumberBoundary => SplitPairs(SplitPairs(s, LetterDigit), DigitLetter)
    case TrimSpaces => TidySpaces(s)
  }

  function ApplyRules(rules: seq<Rule>, s: string, opts: NormalizeOptions): string {
    if rules == [] then s
    else ApplyRules(rules[1..], if Enabled(rules[0], opts) then Rewrite(rules[0], s) else s, opts)
  }

  /** `normalizeInput`: the rules run only on text of three characters or more. */
  function Normalize(text: string, opts: NormalizeOptions): (r: string)
    ensures !opts.normalizeText ==> r == text
  {
    if !opts.normalizeText then text
    else if |text| < 3 then
      var trimmed := Trim(text);
      if opts.trimExtraSpaces then TidySpaces(trimmed) else trimmed
    else ApplyRules(Rules, text, opts)
  }

  /** The separator characters a rule deletes (it writes spaces in their place). */
  function Removes(rule: Rule): set<char> {
    match rule
    case Kebab => {'-'}
    case Snake => {'_'}
    case Dot => {'.'}
    case Mixed => Separators
    case _ => {}
  }

  /** What a rule guarantees of its own output. */
  predicate Guarantee(rule: Rule, s: string) {
    match rule
    case Kebab => '-' !in s
    case Snake => '_' !in s
    case Dot => '.' !in s
    case Mixed => NoSeparator(s)
    case Camel => NoBoundary(s, LowerUpper)
    case ConsecutiveUpper => NoAcronymWindow(s)
    case Acronym => NoAcronymWindow(s)
    case NumberBoundary => NoBoundary(s, LetterDigit) && NoBoundary(s, DigitLetter)
    case TrimSpaces => Unpadded(s) && NoDoubleWhitespace(s)
  }

  lemma RewriteGuarantee(rule: Rule, s: string)
    ensures Guarantee(rule, Rewrite(rule, s))
  {
    match rule
    case Kebab => ReplaceCharRemoves(s, '-');
    case Snake => ReplaceCharRemoves(s, '_');
    case Dot => ReplaceCharRemoves(s, '.');
    case Mixed => CollapseSeparatorsRemoves(s);
    case Camel =>
      SplitPairsIsSpacedAt(s, LowerUpper);
      SpacedAtRemovesBoundary(s, LowerUpper);
    case ConsecutiveUpper =>
      SplitAcronymsIsAcronymSpaced(s);
      AcronymSpacedRemovesWindows(s);
    case Acronym =>
      SplitAcronymsIsAcronymSpaced(s);
      AcronymSpacedRemovesWindows(s);
    case NumberBoundary =>
      var t := SplitPairs(s, LetterDigit);
      SplitPairsIsSpacedAt(s, LetterDigit);
      SplitPairsIsSpacedAt(t, DigitLetter);
      SpacedAtRemovesBoundary(s, LetterDigit);
      SpacedAtKeepsNoBoundary(t, DigitLetter, LetterDigit);
      SpacedAtRemovesBoundary(t, DigitLetter);
    case TrimSpaces =>
  }

  /** Every rule keeps the non-whitespace text apart from the separators it deletes. */
  lemma RewriteStrip(rule: Rule, s: string, X: set<char>)
    ensures Strip(Rewrite(rule, s), X) == Strip(s, X + Removes(rule))
  {
    if Removes(rule) == {} {
      assert X + Removes(rule) == X;
    }
    match rule
    case Kebab => StripReplaceChar(s, '-', X);
    case Snake => StripReplaceChar(s, '_', X);
    case Dot => StripReplaceChar(s, '.', X);
    case Mixed => StripCollapseSeparators(s, X);
    case Camel =>
      SplitPairsIsSpacedAt(s, LowerUpper);
      StripSpacedAt(s, LowerUpper, X);
    case ConsecutiveUpper =>
      SplitAcronymsIsAcronymSpaced(s);
      StripAcronymSpaced(s, X);
    case Acronym =>
      SplitAcronymsIsAcronymSpaced(s);
      StripAcronymSpaced(s, X);
    case NumberBoundary =>
      var t := SplitPairs(s, LetterDigit);
      SplitPairsIsSpacedAt(s, LetterDigit);
      SplitPairsIsSpacedAt(t, DigitLetter);
      StripSpacedAt(s, LetterDigit, X);
      StripSpacedAt(t, DigitLetter, X);
    case TrimSpaces =>
      StripCollapseWhitespace(s, X);
      StripTrim(CollapseWhitespace(s), X);
  }

  /** No rule writes a character other than the space that was not already there. */
  lemma RewriteKeepsAbsent(rule: Rule, s: string, d: char)
    requires d != ' ' && d !in s
    ensures d !in Rewrite(rule, s)
  {
    match rule
    case Kebab => ReplaceCharKeepsAbsent(s, '-', d);
    case Snake => ReplaceCharKeepsAbsent(s, '_', d);
    case Dot => ReplaceCharKeepsAbsent(s, '.', d);
    case Mixed => CollapseSeparatorsKeepsAbsent(s, d);
    case Camel =>
      SplitPairsIsSpacedAt(s, LowerUpper);
      SpacedAtKeepsAbsent(s, LowerUpper, d);
    case ConsecutiveUpper =>
      SplitAcronymsIsAcronymSpaced(s);
      AcronymSpacedKeepsAbsent(s, d);
    case Acronym =>
      SplitAcronymsIsAcronymSpaced(s);
      AcronymSpacedKeepsAbsent(s, d);
    case NumberBoundary =>
      var t := SplitPairs(s, LetterDigit);
      SplitPairsIsSpacedAt(s, LetterDigit);
      SplitPairsIsSpacedAt(t, DigitLetter);
      SpacedAtKeepsAbsent(s, LetterDigit, d);
      SpacedAtKeepsAbsent(t, DigitLetter, d);
    case TrimSpaces =>
      CollapseWhitespaceKeepsAbsent(s, d);
      var a := TrimShape(CollapseWhitespace(s));
  }

  /** The rules after the separator rules only insert or collapse whitespace. */
  predicate IsWordRule(rule: Rule) {
    rule.Camel? || rule.ConsecutiveUpper? || rule.Acronym? || rule.NumberBoundary? || rule.TrimSpaces?
  }

  lemma WordRewriteKeepsNoBoundary(rule: Rule, s: string, other: Boundary)
    requires IsWordRule(rule) && NoBoundary(s, other)
    ensures NoBoundary(Rewrite(rule, s), other)
  {
    match rule
    case Camel =>
      SplitPairsIsSpacedAt(s, LowerUpper);
      SpacedAtKeepsNoBoundary(s, LowerUpper, other);
    case ConsecutiveUpper =>
      SplitAcronymsIsAcronymSpaced(s);
      AcronymSpacedKeepsNoBoundary(s, other);
    case Acronym =>
      SplitAcronymsIsAcronymSpaced(s);
      AcronymSpacedKeepsNoBoundary(s, other);
    case NumberBoundary =>
      var t := SplitPairs(s, LetterDigit);
      SplitPairsIsSpacedAt(s, LetterDigit);
      SplitPairsIsSpacedAt(t, DigitLetter);
      SpacedAtKeepsNoBoundary(s, LetterDigit, other);
      SpacedAtKeepsNoBoundary(t, DigitLetter, other);
    case TrimSpaces =>
      CollapseWhitespaceKeepsNoBoundary(s, other);
      TrimKeepsNoBoundary(CollapseWhitespace(s), other);
  }

  lemma WordRewriteKeepsNoAcronymWindow(rule: Rule, s: string)
    requires IsWordRule(rule) && NoAcronymWindow(s)
    ensures NoAcronymWindow(Rewrite(rule, s))
  {
    match rule
    case Camel =>
      SplitPairsIsSpacedAt(s, LowerUpper);
      SpacedAtKeepsNoAcronymWindow(s, LowerUpper);
    case ConsecutiveUpper =>
      SplitAcronymsIsAcronymSpaced(s);
      AcronymSpacedRemovesWindows(s);
    case Acronym =>
      SplitAcronymsIsAcronymSpaced(s);
      AcronymSpacedRemovesWindows(s);
    case NumberBoundary =>
      var t := SplitPairs(s, LetterDigit);
      SplitPairsIsSpacedAt(s, LetterDigit);
      SplitPairsIsSpacedAt(t, DigitLetter);
      SpacedAtKeepsNoAcronymWindow(s, LetterDigit);
      SpacedAtKeepsNoAcronymWindow(t, DigitLetter);
    case TrimSpaces =>
      CollapseWhitespaceKeepsNoAcronymWindow(s);
      TrimKeepsNoAcronymWindow(CollapseWhitespace(s));
  }

  lemma NoSeparatorIff(s: string)
    ensures NoSeparator(s) <==> '-' !in s && '_' !in s && '.' !in s
  {
    if !NoSeparator(s) {
      var i :| 0 <= i < |s| && IsSeparator(s[i]);
      assert s[i] in s;
    }
  }

  /**
   * A rule keeps the guarantee of an earlier one: every rule keeps a deleted
   * separator deleted, and word rules keep the splits made before them.
   */
  lemma LaterRewriteKeepsGuarantee(earlier: Rule, rule: Rule, s: string)
    requires !earlier.TrimSpaces? && (IsWordRule(earlier) ==> IsWordRule(rule))
    requires Guarantee(earlier, s)
    ensures Guarantee(earlier, Rewrite(rule, s))
  {
    match earlier
    case Kebab => RewriteKeepsAbsent(rule, s, '-');
    case Snake => RewriteKeepsAbsent(rule, s, '_');
    case Dot => RewriteKeepsAbsent(rule, s, '.');
    case Mixed =>
      RewriteKeepsAbsent(rule, s, '-');
      RewriteKeepsAbsent(rule, s, '_');
      RewriteKeepsAbsent(rule, s, '.');
      NoSeparatorIff(s);
      NoSeparatorIff(Rewrite(rule, s));
    case Camel => WordRewriteKeepsNoBoundary(rule, s, LowerUpper);
    case ConsecutiveUpper => WordRewriteKeepsNoAcronymWindow(rule, s);
    case Acronym => WordRewriteKeepsNoAcronymWindow(rule, s);
    case NumberBoundary =>
      WordRewriteKeepsNoBoundary(rule, s, LetterDigit);
      WordRewriteKeepsNoBoundary(rule, s, DigitLetter);
  }

  lemma {:induction false} ApplyRulesAppend(first: seq<Rule>, rest: seq<Rule>, s: string, opts: NormalizeOptions)
    ensures ApplyRules(first + rest, s, opts) == ApplyRules(rest, ApplyRules(first, s, opts), opts)
  {
    if first == [] {
      assert first + rest == rest;
    } else {
      assert (first + rest)[0] == first[0];
      assert (first + rest)[1..] == first[1..] + rest;
      var t := if Enabled(first[0], opts) then Rewrite(first[0], s) else s;
      ApplyRulesAppend(first[1..], rest, t, opts);
    }
  }

  /** The separators deleted by the enabled rules of `rules`. */
  function RemovedBy(rules: seq<Rule>, opts: NormalizeOptions): set<char> {
    if rules == [] then {}
    else (if Enabled(rules[0], opts) then Removes(rules[0]) else {}) + RemovedBy(rules[1..], opts)
  }

  lemma {:induction false} ApplyRulesStrip(rules: seq<Rule>, s: string, opts: NormalizeOptions, X: set<char>)
    ensures Strip(ApplyRules(rules, s, opts), X) == Strip(s, X + RemovedBy(rules, opts))
  {
    if rules == [] {
      assert X + RemovedBy(rules, opts) == X;
    } else {
      var rest := RemovedBy(rules[1..], opts);
      var t := if Enabled(rules[0], opts) then Rewrite(rules[0], s) else s;
      ApplyRulesStrip(rules[1..], t, opts, X);
      if Enabled(rules[0], opts) {
        RewriteStrip(rules[0], s, X + rest);
        assert X + rest + Removes(rules[0]) == X + RemovedBy(rules, opts);
      } else {
        assert X + rest == X + RemovedBy(rules, opts);
      }
    }
  }

  predicate AllWordRules(rules: seq<Rule>) {
    forall i :: 0 <= i < |rules| ==> IsWordRule(rules[i])
  }

  lemma {:induction false} ApplyRulesKeepsGuarantee(earlier: Rule, rules: seq<Rule>, s: string, opts: NormalizeOptions)
    requires !earlier.TrimSpaces? && Guarantee(earlier, s)
    requires IsWordRule(earlier) ==> AllWordRules(rules)
    ensures Guarantee(earlier, ApplyRules(rules, s, opts))
  {
    if rules != [] {
      var t := if Enabled(rules[0], opts) then Rewrite(rules[0], s) else s;
      if Enabled(rules[0], opts) {
        LaterRewriteKeepsGuarantee(earlier, rules[0], s);
      }
      if IsWordRule(earlier) {
        assert IsWordRule(rules[0]);
        forall i | 0 <= i < |rules[1..]| ensures IsWordRule(rules[1..][i]) {
          assert rules[1..][i] == rules[i + 1];
        }
      }
      ApplyRulesKeepsGuarantee(earlier, rules[1..], t, opts);
    }
  }

  /** The separator rules come first, the word rules after them, the trim last. */
  lemma RulesOrder()
    ensures forall i :: 0 <= i < |Rules| ==> (IsWordRule(Rules[i]) <==> i >= 4)
    ensures forall i :: 0 <= i < |Rules| ==> (Rules[i].TrimSpaces? <==> i == |Rules| - 1)
  {
    assert Rules[0] == Kebab && Rules[1] == Snake && Rules[2] == Dot && Rules[3] == Mixed;
    assert Rules[4] == Camel && Rules[5] == ConsecutiveUpper && Rules[6] == Acronym;
    assert Rules[7] == NumberBoundary && Rules[8] == TrimSpaces;
  }

  /** The separators whose rule is switched on. */
  function EnabledSeparators(opts: NormalizeOptions): set<char> {
    (if opts.normalizeKebabCase || opts.normalizeMixedCase then {'-'} else {}) +
    (if opts.normalizeSnakeCase || opts.normalizeMixedCase then {'_'} else {}) +
    (if opts.normalizeDotCase || opts.normalizeMixedCase then {'.'} else {})
  }

  /**
   * What the pipeline keeps: apart from whitespace, the output holds exactly the
   * characters of the input that are not an enabled separator, in their order.
   */
  lemma NormalizeKeepsContent(text: string, opts: NormalizeOptions)
    requires opts.normalizeText && |text| >= 3
    ensures Strip(Normalize(text, opts), {}) == Strip(text, EnabledSeparators(opts))
  {
    ApplyRulesStrip(Rules, text, opts, {});
    RemovedByRules(opts);
    assert {} + RemovedBy(Rules, opts) == EnabledSeparators(opts);
  }

  lemma RemovedByRules(opts: NormalizeOptions)
    ensures RemovedBy(Rules, opts) == EnabledSeparators(opts)
  {
    var r := Rules;
    RemovedByWordRules(opts);
    var mixed: set<char> := if opts.normalizeMixedCase then Separators else {};
    var dot: set<char> := if opts.normalizeDotCase then {'.'} else {};
    var snake: set<char> := if opts.normalizeSnakeCase then {'_'} else {};
    var kebab: set<char> := if opts.normalizeKebabCase then {'-'} else {};
    assert RemovedBy(r[3..], opts) == mixed by {
      assert r[3..][1..] == r[4..];
    }
    assert RemovedBy(r[2..], opts) == dot + mixed by {
      assert r[2..][1..] == r[3..];
    }
    assert RemovedBy(r[1..], opts) == snake + (dot + mixed) by {
      assert r[1..][1..] == r[2..];
    }
    assert RemovedBy(r, opts) == kebab + (snake + (dot + mixed));
    SeparatorUnion(opts, kebab, snake, dot, mixed);
  }

  /** The word rules and the trim delete nothing. */
  lemma RemovedByWordRules(opts: NormalizeOptions)
    ensures RemovedBy(Rules[4..], opts) == {}
  {
    var r := Rules;
    assert RemovedBy(r[8..], opts) == {} by { assert r[8..] == [TrimSpaces]; }
    assert RemovedBy(r[7..], opts) == {} by { assert r[7..][1..] == r[8..]; }
    assert RemovedBy(r[6..], opts) == {} by { assert r[6..][1..] == r[7..]; }
    assert RemovedBy(r[5..], opts) == {} by { assert r[5..][1..] == r[6..]; }
    assert r[4..][1..] == r[5..];
  }

  lemma SeparatorUnion(opts: NormalizeOptions, kebab: set<char>, snake: set<char>, dot: set<char>, mixed: set<char>)
    requires mixed == if opts.normalizeMixedCase then Separators else {}
    requires dot == if opts.normalizeDotCase then {'.'} else {}
    requires snake == if opts.normalizeSnakeCase then {'_'} else {}
    requires kebab == if opts.normalizeKebabCase then {'-'} else {}
    ensures kebab + (snake + (dot + mixed)) == EnabledSeparators(opts)
  {
    if opts.normalizeMixedCase {
      assert kebab + (snake + (dot + mixed)) == Separators;
    } else {
      assert kebab + (snake + (dot + mixed)) == kebab + snake + dot;
    }
  }

  /**
   * In a sequence of rules where the word rules come after the others and the
   * trim comes last, the guarantee of an enabled rule holds of the final output.
   */
  lemma {:induction false} ApplyRulesGuarantee(rules: seq<Rule>, s: string, opts: NormalizeOptions, k: nat)
    requires k < |rules| && Enabled(rules[k], opts)
    requires IsWordRule(rules[k]) ==> AllWordRules(rules[k + 1..])
    requires rules[k].TrimSpaces? ==> k == |rules| - 1
    ensures Guarantee(rules[k], ApplyRules(rules, s, opts))
  {
    var t := if Enabled(rules[0], opts) then Rewrite(rules[0], s) else s;
    assert ApplyRules(rules, s, opts) == ApplyRules(rules[1..], t, opts);
    if k == 0 {
      RewriteGuarantee(rules[0], s);
      if rules[0].TrimSpaces? {
        assert rules[1..] == [];
      } else {
        if IsWordRule(rules[0]) {
          assert rules[1..] == rules[k + 1..];
        }
        ApplyRulesKeepsGuarantee(rules[0], rules[1..], t, opts);
      }
    } else {
      assert rules[1..][k - 1] == rules[k];
      assert rules[1..][k..] == rules[k + 1..];
      ApplyRulesGuarantee(rules[1..], t, opts, k - 1);
    }
  }

  /**
   * The guarantee of every enabled rule holds of the final output: later rules
   * never bring back a deleted separator, and word rules never undo a split.
   */
  lemma NormalizeRuleGuarantee(text: string, opts: NormalizeOptions, k: nat)
    requires opts.normalizeText && |text| >= 3
    requires k < |Rules| && Enabled(Rules[k], opts)
    ensures Guarantee(Rules[k], Normalize(text, opts))
  {
    RulesOrder();
    if IsWordRule(Rules[k]) {
      var tail := Rules[k + 1..];
      forall i | 0 <= i < |tail| ensures IsWordRule(tail[i]) {
        assert tail[i] == Rules[k + 1 + i];
      }
    }
    ApplyRulesGuarantee(Rules, text, opts, k);
  }

  /**
   * Text shorter than three characters only loses whitespace: no rule splits it
   * and no separator is replaced; the result is trimmed.
   */
  lemma NormalizeShortInput(text: string, opts: NormalizeOptions)
    requires opts.normalizeText && |text| < 3
    ensures Strip(Normalize(text, opts), {}) == Strip(text, {})
    ensures Unpadded(Normalize(text, opts))
    ensures |Normalize(text, opts)| <= |text|
    ensures opts.trimExtraSpaces ==> NoDoubleWhitespace(Normalize(text, opts))
  {
    var trimmed := Trim(text);
    StripTrim(text, {});
    TrimUnpadded(text);
    if opts.trimExtraSpaces {
      CollapseWhitespaceShorter(trimmed);
    }
  }

}
