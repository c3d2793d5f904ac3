/**
 * The identifier-pattern detector: a trimmed single token of three or more
 * characters is matched against four anchored regular expressions in the order
 * snake_case, kebab-case, camelCase, PascalCase, and the first match names it.
 *
 * Each regular expression is written twice: once following its own structure
 * (a matcher), once as a plain character-shape predicate, and the two are
 * proved equivalent.
 */
module DetectIdentifier {
  import opened Wrappers
  import opened Strings

  datatype IdentifierPattern = CamelCase | PascalCase | SnakeCase | KebabCase

  predicate IsLowerOrDigit(c: char) { IsLower(c) || IsDigit(c) }

  predicate AllAlnum(s: string) {
    forall i :: 0 <= i < |s| ==> IsAlnum(s[i])
  }

  // ---------------------------------------------------------------------------
  // `^[a-z][a-z0-9]*(_[a-z0-9]+)+$` and `^[a-z][a-z0-9]*(-[a-z0-9]+)+$`.
  //
  // The separator is not in `[a-z0-9]`, so every starred or plussed class must
  // run up to the next separator or the end: matching its longest run is exact.

  /** Length of the leading run of `[a-z0-9]`. */
  function LowerDigitRun(s: string): (k: nat)
    ensures k <= |s|
    ensures forall i :: 0 <= i < k ==> IsLowerOrDigit(s[i])
    ensures k < |s| ==> !IsLowerOrDigit(s[k])
  {
    if s != [] && IsLowerOrDigit(s[0]) then 1 + LowerDigitRun(s[1..]) else 0
  }

  /** `(SEP[a-z0-9]+)+$`. */
  predicate MatchGroups(s: string, sep: char)
    decreases |s|
  {
    |s| >= 2 && s[0] == sep &&
    var k := LowerDigitRun(s[1..]);
    k >= 1 && (1 + k == |s| || MatchGroups(s[1 + k..], sep))
  }

  /** `^[a-z][a-z0-9]*(SEP[a-z0-9]+)+$`. */
  predicate MatchSeparated(s: string, sep: char) {
    |s| >= 1 && IsLower(s[0]) && MatchGroups(s[1 + LowerDigitRun(s[1..])..], sep)
  }

  /** Every character is `[a-z0-9]` or the separator, and no separator is doubled or last. */
  predicate SeparatedBody(s: string, sep: char) {
    (forall i :: 0 <= i < |s| ==> IsLowerOrDigit(s[i]) || s[i] == sep) &&
    (forall i :: 0 <= i < |s| - 1 ==> !(s[i] == sep && s[i + 1] == sep)) &&
    (s != [] ==> s[|s| - 1] != sep)
  }

  /** The shape of a snake_case or kebab-case name with separator `sep`. */
  predicate SeparatedShape(s: string, sep: char) {
    |s| >= 1 && IsLower(s[0]) && sep in s && SeparatedBody(s, sep)
  }

  lemma SeparatedBodyCons(x: char, t: string, sep: char)
    ensures SeparatedBody([x] + t, sep) <==>
      (IsLowerOrDigit(x) || x == sep) && SeparatedBody(t, sep) &&
      !(x == sep && (t == [] || t[0] == sep))
  {
    var s := [x] + t;
    assert forall i :: 0 <= i < |t| ==> s[i + 1] == t[i];
    if SeparatedBody(s, sep) {
      forall i | 0 <= i < |t| - 1 ensures !(t[i] == sep && t[i + 1] == sep) {
        assert !(s[i + 1] == sep && s[i + 2] == sep);
      }
      if t != [] { assert !(s[0] == sep && s[1] == sep); }
    }
    if (IsLowerOrDigit(x) || x == sep) && SeparatedBody(t, sep) && !(x == sep && (t == [] || t[0] == sep)) {
      forall i | 0 <= i < |s| - 1 ensures !(s[i] == sep && s[i + 1] == sep) {
        if i > 0 { assert !(t[i - 1] == sep && t[i] == sep); }
      }
    }
  }

  /** A run of `[a-z0-9]` followed by a body is a body. */
  lemma {:induction false} SeparatedBodyRun(run: string, t: string, sep: char)
    requires !IsLowerOrDigit(sep)
    requires forall i :: 0 <= i < |run| ==> IsLowerOrDigit(run[i])
    requires SeparatedBody(t, sep)
    ensures SeparatedBody(run + t, sep)
  {
    if run != [] {
      SeparatedBodyRun(run[1..], t, sep);
      assert run + t == [run[0]] + (run[1..] + t);
      SeparatedBodyCons(run[0], run[1..] + t, sep);
    }
  }

  /** Conversely, a body with a run of `[a-z0-9]` in front leaves a body behind it. */
  lemma {:induction false} SeparatedBodySuffix(s: string, k: nat, sep: char)
    requires k <= |s| && SeparatedBody(s, sep)
    ensures SeparatedBody(s[k..], sep)
  {
    if k > 0 {
      assert s == [s[0]] + s[1..];
      SeparatedBodyCons(s[0], s[1..], sep);
      SeparatedBodySuffix(s[1..], k - 1, sep);
      assert s[1..][k - 1..] == s[k..];
    }
  }

  /** The group matcher accepts exactly the bodies that start with a separator. */
  lemma MatchGroupsShape(s: string, sep: char)
    requires !IsLowerOrDigit(sep)
    ensures MatchGroups(s, sep) <==> s != [] && s[0] == sep && SeparatedBody(s, sep)
  {
    if MatchGroups(s, sep) {
      MatchGroupsIsBody(s, sep);
    }
    if s != [] && s[0] == sep && SeparatedBody(s, sep) {
      BodyIsMatchGroups(s, sep);
    }
  }

  lemma {:induction false} MatchGroupsIsBody(s: string, sep: char)
    requires !IsLowerOrDigit(sep) && MatchGroups(s, sep)
    ensures s[0] == sep && SeparatedBody(s, sep)
    decreases |s|
  {
    var t := s[1..];
    var k := LowerDigitRun(t);
    var rest := t[k..];
    assert SeparatedBody(rest, sep) by {
      if rest != [] {
        assert s[1 + k..] == rest;
        MatchGroupsIsBody(rest, sep);
      }
    }
    assert SeparatedBody(t, sep) by {
      SeparatedBodyRun(t[..k], rest, sep);
      assert t[..k] + rest == t;
    }
    assert t[0] != sep;
    SeparatedBodyCons(sep, t, sep);
    assert s == [sep] + t;
  }

  lemma {:induction false} BodyIsMatchGroups(s: string, sep: char)
    requires !IsLowerOrDigit(sep) && s != [] && s[0] == sep && SeparatedBody(s, sep)
    ensures MatchGroups(s, sep)
    decreases |s|
  {
    var t := s[1..];
    assert s == [sep] + t;
    SeparatedBodyCons(sep, t, sep);
    var k := LowerDigitRun(t);
    var rest := t[k..];
    SeparatedBodySuffix(t, k, sep);
    if rest != [] {
      assert rest[0] == t[k];
      BodyIsMatchGroups(rest, sep);
      assert s[1 + k..] == rest;
    }
  }

  /** The regular expression matches exactly the snake/kebab shape. */
  lemma MatchSeparatedShape(s: string, sep: char)
    requires !IsLowerOrDigit(sep)
    ensures MatchSeparated(s, sep) <==> SeparatedShape(s, sep)
  {
    if MatchSeparated(s, sep) {
      MatchSeparatedIsShape(s, sep);
    }
    if SeparatedShape(s, sep) {
      ShapeIsMatchSeparated(s, sep);
    }
  }

  lemma MatchSeparatedIsShape(s: string, sep: char)
    requires !IsLowerOrDigit(sep) && MatchSeparated(s, sep)
    ensures SeparatedShape(s, sep)
  {
    var t := s[1..];
    var k := LowerDigitRun(t);
    var rest := t[k..];
    assert s[1 + k..] == rest;
    assert s == ([s[0]] + t[..k]) + rest;
    MatchGroupsShape(rest, sep);
    SeparatedBodyRun([s[0]] + t[..k], rest, sep);
    assert s[1 + k] == rest[0];
  }

  lemma ShapeIsMatchSeparated(s: string, sep: char)
    requires !IsLowerOrDigit(sep) && SeparatedShape(s, sep)
    ensures MatchSeparated(s, sep)
  {
    var t := s[1..];
    var k := LowerDigitRun(t);
    var rest := t[k..];
    assert s[1 + k..] == rest;
    SeparatedBodySuffix(s, 1 + k, sep);
    var i :| 0 <= i < |s| && s[i] == sep;
    assert i >= 1 + k;
    assert rest[0] == s[1 + k];
    MatchGroupsShape(rest, sep);
  }

  // ---------------------------------------------------------------------------
  // `^[a-z][a-zA-Z0-9]*[A-Z][a-zA-Z0-9]*$`.

  /** The matcher: a split point `j` where the `[A-Z]` sits. */
  predicate MatchCamel(s: string) {
    |s| >= 2 && IsLower(s[0]) &&
    exists j :: 1 <= j < |s| && AllAlnum(s[1..j]) && IsUpper(s[j]) && AllAlnum(s[j + 1..])
  }

  predicate CamelShape(s: string) {
    |s| >= 1 && IsLower(s[0]) && AllAlnum(s) && exists i :: 0 <= i < |s| && IsUpper(s[i])
  }

  lemma MatchCamelShape(s: string)
    ensures MatchCamel(s) <==> CamelShape(s)
  {
    if MatchCamel(s) {
      var j :| 1 <= j < |s| && AllAlnum(s[1..j]) && IsUpper(s[j]) && AllAlnum(s[j + 1..]);
      forall i | 0 <= i < |s| ensures IsAlnum(s[i]) {
        if 1 <= i < j { assert s[i] == s[1..j][i - 1]; }
        if i > j { assert s[i] == s[j + 1..][i - j - 1]; }
      }
    }
    if CamelShape(s) {
      var i :| 0 <= i < |s| && IsUpper(s[i]);
      assert i >= 1;
      assert AllAlnum(s[1..i]) && AllAlnum(s[i + 1..]);
    }
  }

  // ---------------------------------------------------------------------------
  // `^[A-Z][a-zA-Z0-9]*[a-z][a-zA-Z0-9]*[A-Z]?[a-zA-Z0-9]*$|^[A-Z][a-z][a-zA-Z0-9]+$`.

  /** `[a-zA-Z0-9]*[A-Z]?[a-zA-Z0-9]*$`: an optional capital between two alphanumeric runs. */
  predicate MatchOptionalCapital(t: string) {
    exists m, n :: 0 <= m <= n <= |t| && AllAlnum(t[..m]) &&
      (n == m || (n == m + 1 && IsUpper(t[m]))) && AllAlnum(t[n..])
  }

  /** The first alternative, with the split point `j` of its `[a-z]`. */
  predicate MatchPascalFirst(s: string) {
    |s| >= 2 && IsUpper(s[0]) &&
    exists j :: 1 <= j < |s| && AllAlnum(s[1..j]) && IsLower(s[j]) && MatchOptionalCapital(s[j + 1..])
  }

  /** The second alternative. */
  predicate MatchPascalSecond(s: string) {
    |s| >= 3 && IsUpper(s[0]) && IsLower(s[1]) && AllAlnum(s[2..])
  }

  predicate MatchPascal(s: string) {
    MatchPascalFirst(s) || MatchPascalSecond(s)
  }

  predicate PascalShape(s: string) {
    |s| >= 1 && IsUpper(s[0]) && AllAlnum(s) && exists i :: 0 <= i < |s| && IsLower(s[i])
  }

  /** The optional capital adds nothing: the tail matches exactly the alphanumeric strings. */
  lemma MatchOptionalCapitalAlnum(t: string)
    ensures MatchOptionalCapital(t) <==> AllAlnum(t)
  {
    if MatchOptionalCapital(t) {
      var m, n :| 0 <= m <= n <= |t| && AllAlnum(t[..m]) &&
        (n == m || (n == m + 1 && IsUpper(t[m]))) && AllAlnum(t[n..]);
      forall i | 0 <= i < |t| ensures IsAlnum(t[i]) {
        if i < m { assert t[i] == t[..m][i]; }
        if i >= n { assert t[i] == t[n..][i - n]; }
      }
    }
    if AllAlnum(t) {
      assert t[..0] == [] && t[0..] == t;
    }
  }

  /** The second alternative is subsumed by the first. */
  lemma PascalSecondSubsumed(s: string)
    requires MatchPascalSecond(s)
    ensures MatchPascalFirst(s)
  {
    assert s[1..1] == [];
    assert s[2..] == s[1 + 1..];
    MatchOptionalCapitalAlnum(s[2..]);
  }

  lemma MatchPascalShape(s: string)
    ensures MatchPascal(s) <==> PascalShape(s)
  {
    if MatchPascal(s) {
      MatchPascalIsShape(s);
    }
    if PascalShape(s) {
      ShapeIsMatchPascal(s);
    }
  }

  lemma MatchPascalIsShape(s: string)
    requires MatchPascal(s)
    ensures PascalShape(s)
  {
    if MatchPascalSecond(s) {
      PascalSecondSubsumed(s);
    }
    var j :| 1 <= j < |s| && AllAlnum(s[1..j]) && IsLower(s[j]) && MatchOptionalCapital(s[j + 1..]);
    var head, tail := s[1..j], s[j + 1..];
    MatchOptionalCapitalAlnum(tail);
    forall i | 0 <= i < |s| ensures IsAlnum(s[i]) {
      if 1 <= i < j { assert s[i] == head[i - 1]; }
      if i > j { assert s[i] == tail[i - j - 1]; }
    }
  }

  lemma ShapeIsMatchPascal(s: string)
    requires PascalShape(s)
    ensures MatchPascalFirst(s)
  {
    var i :| 0 <= i < |s| && IsLower(s[i]);
    assert i >= 1;
    assert AllAlnum(s[1..i]);
    MatchOptionalCapitalAlnum(s[i + 1..]);
  }

  // ---------------------------------------------------------------------------
  // The detector.

  /** The single-token guard applied to the trimmed text. */
  predicate IsToken(t: string) {
    t != [] && !HasWhitespace(t) && |t| >= 3
  }

  /** `detectIdentifierPattern`: the first of the four tests that matches, or none. */
  function DetectPattern(text: string): (r: Option<IdentifierPattern>)
    ensures var t := Trim(text);
      && (r == Some(SnakeCase) <==> IsToken(t) && SeparatedShape(t, '_'))
      && (r == Some(KebabCase) <==> IsToken(t) && SeparatedShape(t, '-'))
      && (r == Some(CamelCase) <==> IsToken(t) && CamelShape(t))
      && (r == Some(PascalCase) <==> IsToken(t) && PascalShape(t))
  {
    var t := Trim(text);
    MatchSeparatedShape(t, '_');
    MatchSeparatedShape(t, '-');
    MatchCamelShape(t);
    MatchPascalShape(t);
    ShapesExclusive(t);
    if !IsToken(t) then None
    else if MatchSeparated(t, '_') then Some(SnakeCase)
    else if MatchSeparated(t, '-') then Some(KebabCase)
    else if MatchCamel(t) then Some(CamelCase)
    else if MatchPascal(t) then Some(PascalCase)
    else None
  }

  /** At most one shape holds of any text, so the order of the tests never decides the answer. */
  lemma ShapesExclusive(t: string)
    ensures !(SeparatedShape(t, '_') && SeparatedShape(t, '-'))
    ensures !((SeparatedShape(t, '_') || SeparatedShape(t, '-')) && (CamelShape(t) || PascalShape(t)))
    ensures !(CamelShape(t) && PascalShape(t))
  {
  }

  /** Padding around a token does not change the answer. */
  lemma DetectIgnoresPadding(text: string)
    ensures DetectPattern(Trim(text)) == DetectPattern(text)
  {
    TrimIdempotent(text);
  }

  /** A character outside `[A-Za-z0-9_-]` rules every pattern out. */
  lemma DetectRejectsOtherCharacters(text: string, i: nat)
    requires i < |Trim(text)|
    requires var c := Trim(text)[i]; !IsAlnum(c) && c != '_' && c != '-'
    ensures DetectPattern(text) == None
  {
  }

  /** Lower-case letters and digits with no separator are not an identifier. */
  lemma DetectRejectsPlainLowercase(text: string)
    requires forall i :: 0 <= i < |Trim(text)| ==> IsLowerOrDigit(Trim(text)[i])
    ensures DetectPattern(text) == None
  {
  }
}
