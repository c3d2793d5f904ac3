/**
 * Which comment markers wrap an inline translation, by editor language:
 * a block comment when the language has one, else a line comment, else none.
 */
module CommentSyntax {
  import opened Wrappers
  import opened Strings

  datatype Syntax = Block(start: string, end: string) | Line(prefix: string)

  datatype BlockGroup = BlockGroup(languages: seq<string>, start: string, end: string)
  datatype LineGroup = LineGroup(languages: seq<string>, prefix: string)

  const BlockGroups: seq<BlockGroup> := [
    BlockGroup(["c", "cpp", "csharp", "java", "javascript", "typescript", "go", "swift", "kotlin",
                "rust", "php", "css", "scss", "less", "sql"], "/*", "*/"),
    BlockGroup(["html", "xml", "svg"], "<!--", "-->"),
    BlockGroup(["python", "scala"], "\"\"\"", "\"\"\""),
    BlockGroup(["ruby"], "=begin", "=end"),
    BlockGroup(["haskell"], "{-", "-}"),
    BlockGroup(["lua"], "--[[", "]]")
  ]

  const LineGroups: seq<LineGroup> := [
    LineGroup(["javascript", "typescript", "c", "cpp", "csharp", "java", "go", "swift", "kotlin",
               "rust", "php"], "//"),
    LineGroup(["python", "ruby", "bash", "shell", "yaml", "makefile"], "#"),
    LineGroup(["sql", "haskell"], "--")
  ]

  /** The short names the lookup accepts for four languages. */
  function Alias(name: string): Option<string> {
    if name == "ts" then Some("typescript")
    else if name == "js" then Some("javascript")
    else if name == "py" then Some("python")
    else if name == "sh" then Some("bash")
    else None
  }

  /** `normalizeLanguage`: lower-cased, trimmed, a short alias expanded. */
  function NormalizeLanguage(language: string): (lang: string)
    ensures IsLowerCase(lang) && Unpadded(lang)
  {
    var normalized := Trim(ToLower(language));
    LowerTrimmed(language);
    Alias(normalized).GetOr(normalized)
  }

  lemma LowerTrimmed(language: string)
    ensures IsLowerCase(Trim(ToLower(language))) && Unpadded(Trim(ToLower(language)))
  {
    ToLowerIsLowerCase(language);
    var a := TrimShape(ToLower(language));
  }

  /** Normalising a normalised name changes nothing. */
  lemma NormalizeLanguageIdempotent(language: string)
    ensures NormalizeLanguage(NormalizeLanguage(language)) == NormalizeLanguage(language)
  {
    var lang := NormalizeLanguage(language);
    ToLowerOfLowerCase(lang);
    TrimOfUnpadded(lang);
    assert Trim(ToLower(lang)) == lang;
  }

  /** The first block group listing `lang`. */
  function FindBlock(groups: seq<BlockGroup>, lang: string): (r: Option<Syntax>)
    ensures r.Some? ==> r.value.Block?
  {
    if groups == [] then None
    else if lang in groups[0].languages then Some(Block(groups[0].start, groups[0].end))
    else FindBlock(groups[1..], lang)
  }

  /** The first line group listing `lang`. */
  function FindLine(groups: seq<LineGroup>, lang: string): (r: Option<Syntax>)
    ensures r.Some? ==> r.value.Line?
  {
    if groups == [] then None
    else if lang in groups[0].languages then Some(Line(groups[0].prefix))
    else FindLine(groups[1..], lang)
  }

  /** The block search finds something exactly when some group lists the language. */
  lemma {:induction false} FindBlockFinds(groups: seq<BlockGroup>, lang: string)
    ensures FindBlock(groups, lang).Some? <==> exists i :: 0 <= i < |groups| && lang in groups[i].languages
  {
    if groups != [] && lang !in groups[0].languages {
      FindBlockFinds(groups[1..], lang);
      assert forall i :: 1 <= i < |groups| ==> groups[i] == groups[1..][i - 1];
    }
  }

  /** The line search finds something exactly when some group lists the language. */
  lemma {:induction false} FindLineFinds(groups: seq<LineGroup>, lang: string)
    ensures FindLine(groups, lang).Some? <==> exists i :: 0 <= i < |groups| && lang in groups[i].languages
  {
    if groups != [] && lang !in groups[0].languages {
      FindLineFinds(groups[1..], lang);
      assert forall i :: 1 <= i < |groups| ==> groups[i] == groups[1..][i - 1];
    }
  }

  predicate InBlockGroups(lang: string) {
    exists i :: 0 <= i < |BlockGroups| && lang in BlockGroups[i].languages
  }

  predicate InLineGroups(lang: string) {
    exists i :: 0 <= i < |LineGroups| && lang in LineGroups[i].languages
  }

  /** The table lookup for a normalised name: block groups first, then line groups. */
  function SyntaxFor(lang: string): Option<Syntax> {
    var b := FindBlock(BlockGroups, lang);
    if b.Some? then b else FindLine(LineGroups, lang)
  }

  /** A block syntax exactly for the block table's languages, a line syntax for the line table's other ones, else none. */
  lemma SyntaxForCases(lang: string)
    ensures SyntaxFor(lang).Some? && SyntaxFor(lang).value.Block? <==> InBlockGroups(lang)
    ensures SyntaxFor(lang).Some? && SyntaxFor(lang).value.Line? <==> !InBlockGroups(lang) && InLineGroups(lang)
    ensures SyntaxFor(lang) == None <==> !InBlockGroups(lang) && !InLineGroups(lang)
  {
    FindBlockFinds(BlockGroups, lang);
    FindLineFinds(LineGroups, lang);
  }

  /**
   * `getCommentSyntax`: the table lookup for the normalised name; an unknown
   * language has none.
   */
  function GetCommentSyntax(language: string): (r: Option<Syntax>) {
    SyntaxFor(NormalizeLanguage(language))
  }

  /** The first group wins: in the block table the index of the first group listing the language. */
  lemma {:induction false} FindBlockFirst(groups: seq<BlockGroup>, lang: string, k: nat)
    requires k < |groups| && lang in groups[k].languages
    requires forall i :: 0 <= i < k ==> lang !in groups[i].languages
    ensures FindBlock(groups, lang) == Some(Block(groups[k].start, groups[k].end))
  {
    if k > 0 {
      FindBlockFirst(groups[1..], lang, k - 1);
    }
  }

  /** HTML, XML and SVG take `<!--` … `-->`. */
  lemma MarkupComments(lang: string)
    requires lang in ["html", "xml", "svg"]
    ensures SyntaxFor(lang) == Some(Block("<!--", "-->"))
  {
    assert lang in BlockGroups[1].languages;
    var first := BlockGroups[0].languages;
    forall j | 0 <= j < |first| ensures Apart(first[j], lang) {
    }
    ApartNotIn(lang, first);
    FindBlockFirst(BlockGroups, lang, 1);
  }

  /** Python takes triple quotes. */
  lemma PythonComments()
    ensures SyntaxFor("python") == Some(Block("\"\"\"", "\"\"\""))
  {
    FindBlockFirst(BlockGroups, "python", 2);
  }

  /** The short names resolve to the full names' syntax. */
  lemma AliasSyntax(language: string)
    requires Trim(ToLower(language)) == "py"
    ensures GetCommentSyntax(language) == SyntaxFor("python")
  {
  }

  const HashOnly: seq<string> := ["bash", "shell", "yaml", "makefile"]

  /** Every language of the line table, except four, is also in the block table. */
  lemma LineTableShadowed()
    ensures forall i, j :: 0 <= i < |LineGroups| && 0 <= j < |LineGroups[i].languages| ==>
      LineGroups[i].languages[j] in HashOnly || InBlockGroups(LineGroups[i].languages[j])
  {
    forall i, j | 0 <= i < |LineGroups| && 0 <= j < |LineGroups[i].languages|
      ensures LineGroups[i].languages[j] in HashOnly || InBlockGroups(LineGroups[i].languages[j])
    {
      if i == 0 {
        SlashLanguagesShadowed(j);
      } else if i == 1 {
        HashLanguagesShadowed(j);
      } else {
        DashLanguagesShadowed(j);
      }
    }
  }

  /** The `//` languages all have `/* */`. */
  lemma SlashLanguagesShadowed(j: nat)
    requires j < |LineGroups[0].languages|
    ensures InBlockGroups(LineGroups[0].languages[j])
  {
    var lang := LineGroups[0].languages[j];
    assert lang == BlockGroups[0].languages[[4, 5, 0, 1, 2, 3, 6, 7, 8, 9, 10][j]];
  }

  /** Of the `#` languages, Python and Ruby have a block syntax; the other four are the `#`-only ones. */
  lemma HashLanguagesShadowed(j: nat)
    requires j < |LineGroups[1].languages|
    ensures LineGroups[1].languages[j] in HashOnly || InBlockGroups(LineGroups[1].languages[j])
  {
    var lang := LineGroups[1].languages[j];
    if j == 0 {
      assert lang == BlockGroups[2].languages[0];
    } else if j == 1 {
      assert lang == BlockGroups[3].languages[0];
    } else {
      assert lang == HashOnly[j - 2];
    }
  }

  /** The `--` languages, SQL and Haskell, both have a block syntax. */
  lemma DashLanguagesShadowed(j: nat)
    requires j < |LineGroups[2].languages|
    ensures InBlockGroups(LineGroups[2].languages[j])
  {
    var lang := LineGroups[2].languages[j];
    assert lang == [BlockGroups[0].languages[14], BlockGroups[4].languages[0]][j];
  }

  /** The four `#`-only languages appear in no block group but in the `#` line group. */
  lemma HashOnlyLines()
    ensures forall k :: 0 <= k < |HashOnly| ==> !InBlockGroups(HashOnly[k]) && InLineGroups(HashOnly[k])
    ensures forall k :: 0 <= k < |HashOnly| ==> FindLine(LineGroups, HashOnly[k]) == Some(Line("#"))
  {
    forall k | 0 <= k < |HashOnly| ensures !InBlockGroups(HashOnly[k]) && FindLine(LineGroups, HashOnly[k]) == Some(Line("#")) {
      var lang := HashOnly[k];
      HashOnlyNotBlock(lang);
      assert lang == LineGroups[1].languages[k + 2];
      assert lang !in LineGroups[0].languages;
    }
  }

  /** None of the four `#`-only languages is in a block group. */
  lemma HashOnlyNotBlock(lang: string)
    requires lang in HashOnly
    ensures !InBlockGroups(lang)
  {
    NotInGroup(lang, 0);
    NotInGroup(lang, 1);
    NotInGroup(lang, 2);
    NotInGroup(lang, 3);
    NotInGroup(lang, 4);
    NotInGroup(lang, 5);
  }

  /** A `#`-only language is not in the `i`-th block group. */
  lemma NotInGroup(lang: string, i: nat)
    requires lang in HashOnly && i < |BlockGroups|
    ensures lang !in BlockGroups[i].languages
  {
    var langs := BlockGroups[i].languages;
    forall j | 0 <= j < |langs| ensures Apart(langs[j], lang) {
    }
    ApartNotIn(lang, langs);
  }

  /** Two names told apart by their length or one of their first two letters. */
  predicate Apart(a: string, b: string) {
    |a| != |b| || (|a| >= 1 && a[0] != b[0]) || (|a| >= 2 && a[1] != b[1])
  }

  /** A name apart from every entry of a list is not in it. */
  lemma ApartNotIn(lang: string, langs: seq<string>)
    requires forall j :: 0 <= j < |langs| ==> Apart(langs[j], lang)
    ensures lang !in langs
  {
  }

  /**
   * Only bash, shell, YAML and makefiles get a line syntax, `#`; every other
   * language the line table lists is caught by the block table first.
   */
  lemma LineOnlyLanguages(lang: string)
    ensures SyntaxFor(lang).Some? && SyntaxFor(lang).value.Line? <==> lang in HashOnly
    ensures lang in HashOnly ==> SyntaxFor(lang) == Some(Line("#"))
  {
    LineTableShadowed();
    HashOnlyLines();
    SyntaxForCases(lang);
    if lang in HashOnly {
      var k :| 0 <= k < |HashOnly| && HashOnly[k] == lang;
    } else if InLineGroups(lang) {
      var i :| 0 <= i < |LineGroups| && lang in LineGroups[i].languages;
      var j :| 0 <= j < |LineGroups[i].languages| && LineGroups[i].languages[j] == lang;
    }
  }
}
